/**
  The ':'-separated list of hexadecimal bytes that the data and subaddr options take,
  and the scan that reads it by overwriting the separators of the argument string.
 */
module HexList {
  import opened CText

  const MAX_DAT_NUMBER := 256

  /** The tokens of s from index p on. */
  function SplitFrom(s: string, p: nat): (ts: seq<string>)
    requires p <= |s|
    ensures ts != []
    decreases |s| - p
  {
    var i := Find(s, ':', p);
    if i == |s| then [s[p..]] else [s[p..i]] + SplitFrom(s, i + 1)
  }

  function Split(s: string): seq<string> {
    SplitFrom(s, 0)
  }

  /** Where the scan stands after reading n tokens from p on. */
  function Reach(s: string, n: nat, p: nat): (e: nat)
    requires p <= |s|
    ensures p <= e <= |s|
    decreases |s| - p
  {
    if n == 0 then p
    else
      var i := Find(s, ':', p);
      if i == |s| then |s| else Reach(s, n - 1, i + 1)
  }

  /** s with the separators below e overwritten. */
  function Punch(s: seq<char>, e: nat): (r: seq<char>)
    ensures |r| == |s|
    ensures forall j :: 0 <= j < |s| ==> r[j] == if j < e && s[j] == ':' then NUL else s[j]
  {
    seq(|s|, j requires 0 <= j < |s| => if j < e && s[j] == ':' then NUL else s[j])
  }

  function ByteOf(token: string): byte {
    StrToUl16(token) % 256
  }

  function Bytes(ts: seq<string>): (bs: seq<byte>)
    ensures |bs| == |ts| && forall k :: 0 <= k < |ts| ==> bs[k] == ByteOf(ts[k])
  {
    seq(|ts|, k requires 0 <= k < |ts| => ByteOf(ts[k]))
  }

  function Take<T>(s: seq<T>, n: nat): seq<T> {
    if |s| <= n then s else s[..n]
  }

  /** What a list argument denotes: its first 256 tokens, each reduced to a byte. */
  function ListBytes(s: string): (bs: seq<byte>)
    ensures 1 <= |bs| <= MAX_DAT_NUMBER
  {
    Bytes(Take(Split(s), MAX_DAT_NUMBER))
  }

  // ------------------------------------------------------------------
  // The in-place scan
  // ------------------------------------------------------------------

  /** One round: cut the token that starts at str at the next separator, if there is one
      before the end of the string, and read it. */
  method ReadToken(value: array<char>, str: nat, ghost s: string) returns (substr: nat, more: bool, token: string)
    requires str <= |s| < value.Length && value[|s|] == NUL && NUL !in s
    requires forall j :: str <= j < |s| ==> value[j] == s[j]
    modifies value
    ensures substr == Find(s, ':', str) && more == (substr < |s|) && token == s[str..substr]
    ensures forall j :: 0 <= j < value.Length ==>
      value[j] == if j == substr && more then NUL else old(value[j])
  {
    assert forall j :: str <= j < |s| ==> s[j] != NUL;
    var text := CStr(value[..], str);
    assert text == s[str..];
    substr := str + Find(text, ':', 0);
    more := value[substr] == ':';
    if more {
      value[substr] := NUL;
    }
    token := CStr(value[..], str);
  }

  /** Standing at str of the string s, after reading tokens: all is what s splits into and
      end is where the scan is going to stop. */
  ghost predicate Scanned(s: string, all: seq<string>, end: nat, str: nat, tokens: seq<string>) {
    && |tokens| < MAX_DAT_NUMBER && str <= |s|
    && all == tokens + SplitFrom(s, str)
    && end == Reach(s, MAX_DAT_NUMBER - |tokens|, str)
  }

  /** The buffer and the list in the same situation. */
  ghost predicate Stored(was: seq<char>, before: seq<byte>, value: seq<char>, list: seq<byte>,
                         str: nat, tokens: seq<string>)
  {
    && |tokens| <= |before| == MAX_DAT_NUMBER
    && value == Punch(was, str)
    && list == Bytes(tokens) + before[|tokens|..]
  }

  /** One round stores its token's byte as element idx of the list. */
  method Round(value: array<char>, list: array<byte>, idx: nat, str: nat,
               ghost s: string, ghost was: seq<char>, ghost before: seq<byte>, ghost tokens: seq<string>)
    returns (substr: nat, more: bool)
    requires idx == |tokens| < MAX_DAT_NUMBER == list.Length && str <= |s| < |was|
    requires NUL !in s && s == was[..|s|] && was[|s|] == NUL
    requires Stored(was, before, value[..], list[..], str, tokens)
    modifies value, list
    ensures substr == Find(s, ':', str) && more == (substr < |s|)
    ensures Stored(was, before, value[..], list[..], if more then substr + 1 else |s|, tokens + [s[str..substr]])
  {
    assert forall j :: str <= j <= |s| ==> value[..][j] == was[j];
    var token;
    ghost var v, l := value[..], list[..];
    substr, more, token := ReadToken(value, str, s);
    list[idx] := ByteOf(token);
    assert value[..] == if more then v[substr := NUL] else v;
    assert list[..] == l[idx := ByteOf(token)];
    PunchStep(was, s, str);
    BytesSnoc(tokens, token, before);
  }

  /** What the scan of the string in a buffer leaves in the buffer and in the list. */
  ghost predicate ScanResult(was: seq<char>, before: seq<byte>, value: seq<char>, list: seq<byte>, idx: nat) {
    var s := CStr(was, 0);
    && idx == |ListBytes(s)| <= |before|
    && list == ListBytes(s) + before[idx..]
    && value == Punch(was, Reach(s, MAX_DAT_NUMBER, 0))
  }

  /** value holds a C string, whose separators the scan destroys as far as it gets. */
  method ScanHexList(value: array<char>, list: array<byte>) returns (idx: nat)
    requires '\0' in value[..] && list.Length == 256
    modifies value, list
    ensures ScanResult(old(value[..]), old(list[..]), value[..], list[..], idx)
  {
    ghost var was, before, s := value[..], list[..], CStr(value[..], 0);
    ghost var all, end, tokens: seq<string> := Split(s), Reach(s, MAX_DAT_NUMBER, 0), [];
    StringEnds(was);
    ScannedStart(s);
    PunchNothing(was, before);
    var str: nat := 0;
    idx := 0;
    while true
      invariant idx == |tokens| && Scanned(s, all, end, str, tokens)
      invariant Stored(was, before, value[..], list[..], str, tokens)
      decreases MAX_DAT_NUMBER - idx
    {
      ScannedStep(s, all, end, str, tokens);
      var substr, more := Round(value, list, idx, str, s, was, before, tokens);
      tokens := tokens + [s[str..substr]];
      idx := idx + 1;
      if idx >= MAX_DAT_NUMBER || !more {
        Finished(s, was, before, value[..], list[..], if more then substr + 1 else |s|, tokens);
        break;
      }
      str := substr + 1;
    }
  }

  lemma Finished(s: string, was: seq<char>, before: seq<byte>, value: seq<char>, list: seq<byte>,
                 end: nat, tokens: seq<string>)
    requires Stored(was, before, value, list, end, tokens)
    requires Take(Split(s), MAX_DAT_NUMBER) == tokens && end == Reach(s, MAX_DAT_NUMBER, 0)
    ensures |ListBytes(s)| == |tokens| && list == ListBytes(s) + before[|tokens|..]
    ensures value == Punch(was, Reach(s, MAX_DAT_NUMBER, 0))
  {
  }

  lemma StringEnds(was: seq<char>)
    requires NUL in was
    ensures var s := CStr(was, 0); NUL !in s && |s| < |was| && s == was[..|s|] && was[|s|] == NUL
  {
  }

  lemma ScannedStart(s: string)
    ensures Scanned(s, Split(s), Reach(s, MAX_DAT_NUMBER, 0), 0, [])
  {
    assert [] + Split(s) == Split(s);
  }

  lemma PunchNothing(was: seq<char>, before: seq<byte>)
    requires |before| == MAX_DAT_NUMBER
    ensures Stored(was, before, was, before, 0, [])
  {
  }

  /** A round either goes on with the scan or completes it. */
  lemma ScannedStep(s: string, all: seq<string>, end: nat, str: nat, tokens: seq<string>)
    requires Scanned(s, all, end, str, tokens)
    ensures var i := Find(s, ':', str);
      var more := tokens + [s[str..i]];
      if i < |s| && |more| < MAX_DAT_NUMBER then Scanned(s, all, end, i + 1, more)
      else Take(all, MAX_DAT_NUMBER) == more && end == if i < |s| then i + 1 else |s|
  {
    var i, left := Find(s, ':', str), MAX_DAT_NUMBER - |tokens|;
    var more := tokens + [s[str..i]];
    if i < |s| && |more| < MAX_DAT_NUMBER {
      NextToken(s, str, left);
    } else {
      LastToken(s, str, left);
    }
  }

  lemma BytesSnoc(tokens: seq<string>, t: string, before: seq<byte>)
    requires |tokens| < |before|
    ensures (Bytes(tokens) + before[|tokens|..])[|tokens| := ByteOf(t)]
         == Bytes(tokens + [t]) + before[|tokens| + 1..]
  {
  }

  lemma PunchStep(was: seq<char>, s: string, str: nat)
    requires str <= |s| < |was| && s == was[..|s|]
    ensures var i := Find(s, ':', str);
      (if i < |s| then Punch(was, str)[i := NUL] else Punch(was, str)) == Punch(was, if i < |s| then i + 1 else |s|)
  {
    assert forall j :: 0 <= j < |s| ==> was[j] == s[j];
  }

  lemma NextToken(s: string, str: nat, left: nat)
    requires str <= |s| && left > 0 && Find(s, ':', str) < |s|
    ensures var i := Find(s, ':', str);
      && SplitFrom(s, str) == [s[str..i]] + SplitFrom(s, i + 1) && Reach(s, left, str) == Reach(s, left - 1, i + 1)
  {
  }

  lemma LastToken(s: string, str: nat, left: nat)
    requires str <= |s| && left > 0 && (left == 1 || Find(s, ':', str) == |s|)
    ensures var i := Find(s, ':', str);
      && SplitFrom(s, str)[0] == s[str..i]
      && (i == |s| ==> SplitFrom(s, str) == [s[str..i]] && Reach(s, left, str) == |s|)
      && (i < |s| ==> Reach(s, left, str) == i + 1)
  {
    if Find(s, ':', str) < |s| {
      NextToken(s, str, left);
    }
  }

  // ------------------------------------------------------------------
  // Round trip
  // ------------------------------------------------------------------

  function Join(ts: seq<string>): string {
    if ts == [] then "" else if |ts| == 1 then ts[0] else ts[0] + ":" + Join(ts[1..])
  }

  lemma {:induction false} JoinSnoc(ts: seq<string>, t: string)
    ensures Join(ts + [t]) == if ts == [] then t else Join(ts) + ":" + t
  {
    if ts == [] {
      assert ts + [t] == [t];
    } else {
      var later := ts[1..];
      assert (ts + [t])[0] == ts[0] && (ts + [t])[1..] == later + [t];
      JoinSnoc(later, t);
      assert later != [] ==> ts[0] + ":" + (Join(later) + ":" + t) == ts[0] + ":" + Join(later) + ":" + t;
    }
  }

  /** A list as a caller prints it, with lower-case or upper-case digits. */
  function PrintHex(bs: seq<byte>, upper: bool): string {
    Join(HexTokens(bs, upper))
  }

  function HexTokens(bs: seq<byte>, upper: bool): (ts: seq<string>)
    ensures |ts| == |bs| && forall k :: 0 <= k < |bs| ==> ts[k] == HexByte(bs[k], upper)
  {
    seq(|bs|, k requires 0 <= k < |bs| => HexByte(bs[k], upper))
  }

  lemma FindAfter(pre: string, token: string, rest: string)
    requires ':' !in token && (rest != [] ==> rest[0] == ':')
    ensures Find(pre + token + rest, ':', |pre|) == |pre| + |token|
    ensures (pre + token + rest)[|pre|..|pre| + |token|] == token
  {
    var s, i := pre + token + rest, |pre| + |token|;
    assert rest != [] ==> s[i] == rest[0];
    assert forall k :: |pre| <= k < i ==> s[k] == token[k - |pre|];
    assert Find(s, ':', |pre|) == i;
  }

  lemma Regroup(pre: string, token: string, rest: string)
    ensures pre + (token + ":" + rest) == pre + token + (":" + rest) == pre + token + ":" + rest
  {
  }

  lemma SplitFromLast(pre: string, token: string)
    requires ':' !in token
    ensures SplitFrom(pre + token, |pre|) == [token]
  {
    FindAfter(pre, token, []);
    assert pre + token + [] == pre + token;
    assert (pre + token)[|pre|..] == token;
  }

  lemma SplitFromCons(pre: string, token: string, rest: string)
    requires ':' !in token
    ensures SplitFrom(pre + (token + ":" + rest), |pre|)
         == [token] + SplitFrom(pre + token + ":" + rest, |pre + token + ":"|)
  {
    Regroup(pre, token, rest);
    FindAfter(pre, token, ":" + rest);
    NextToken(pre + token + (":" + rest), |pre|, 1);
  }

  /** The scan splits exactly what joining put together, wherever it starts. */
  lemma {:induction false} SplitFromJoin(pre: string, ts: seq<string>)
    requires ts != [] && forall k :: 0 <= k < |ts| ==> ':' !in ts[k]
    ensures SplitFrom(pre + Join(ts), |pre|) == ts
    decreases |ts|
  {
    var token, later := ts[0], ts[1..];
    if later == [] {
      SplitFromLast(pre, token);
    } else {
      SplitFromJoin(pre + token + ":", later);
      SplitFromCons(pre, token, Join(later));
      assert [token] + later == ts;
    }
  }

  lemma SplitJoin(ts: seq<string>)
    requires ts != [] && forall k :: 0 <= k < |ts| ==> ':' !in ts[k]
    ensures Split(Join(ts)) == ts
  {
    SplitFromJoin("", ts);
    assert "" + Join(ts) == Join(ts);
  }

  /** Any spelling of the bytes is read back, up to the 256th. */
  lemma SpelledListRead(ts: seq<string>, bs: seq<byte>)
    requires ts != [] && |ts| == |bs|
    requires forall k :: 0 <= k < |ts| ==> ':' !in ts[k] && ByteOf(ts[k]) == bs[k]
    ensures ListBytes(Join(ts)) == Take(bs, 256)
  {
    SplitJoin(ts);
  }

  lemma HexTokenRead(b: byte, upper: bool)
    ensures ':' !in HexByte(b, upper) && NUL !in HexByte(b, upper) && ByteOf(HexByte(b, upper)) == b
  {
    HexByteRead(b, upper);
  }

  /** A longer token is reduced to its last two digits' worth. */
  lemma TokenReduced(n: nat, upper: bool)
    requires n < 0x1_0000_0000
    ensures ByteOf(Hexadecimal(n, upper)) == ByteOf("0x" + Hexadecimal(n, upper)) == n % 256
  {
    StrToUlReadsHexadecimal(n, upper);
  }

  /** Two digits of either case spell the byte 16 * i + j. */
  lemma PaddedByteRead(i: nat, j: nat)
    requires i < 16 && j < 16
    ensures ByteOf(["0123456789ABCDEF"[i], "0123456789ABCDEF"[j]]) == 16 * i + j
    ensures ByteOf(["0123456789abcdef"[i], "0123456789abcdef"[j]]) == 16 * i + j
  {
    PaddedDigits(i, j, true);
    PaddedDigits(i, j, false);
  }

  lemma PaddedDigits(i: nat, j: nat, upper: bool)
    requires i < 16 && j < 16
    ensures ByteOf([DigitChar(i, upper), DigitChar(j, upper)]) == 16 * i + j
  {
    TwoDigits(DigitChar(i, upper), DigitChar(j, upper));
  }

  lemma ListBytesOfPrint(bs: seq<byte>, upper: bool)
    ensures ListBytes(PrintHex(bs, upper)) == if bs == [] then [0] else Take(bs, 256)
  {
    var ts := HexTokens(bs, upper);
    if bs == [] {
      assert Split("") == [""];
      assert ByteOf("") == 0;
    } else {
      forall k | 0 <= k < |bs| ensures ':' !in ts[k] && ByteOf(ts[k]) == bs[k] {
        HexTokenRead(bs[k], upper);
      }
      SpelledListRead(ts, bs);
    }
  }

  lemma {:induction false} JoinNoNul(ts: seq<string>)
    requires forall k :: 0 <= k < |ts| ==> NUL !in ts[k]
    ensures NUL !in Join(ts)
  {
    if |ts| > 1 {
      JoinNoNul(ts[1..]);
    }
  }

  /** A buffer that starts with a NUL-terminated text holds that text. */
  lemma TextInBuffer(text: string, rest: seq<char>)
    requires '\0' !in text
    ensures CStr(text + ['\0'] + rest, 0) == text
  {
    StringAt(text + ['\0'] + rest, 0, text);
  }

  /** The in-place scan of a buffer that holds any spelling of a list: the list array gets its
      first 256 bytes, and keeps its other elements. */
  lemma SpelledBufferScan(ts: seq<string>, bs: seq<byte>, rest: seq<char>,
                          before: seq<byte>, value: seq<char>, list: seq<byte>, idx: nat)
    requires ts != [] && |ts| == |bs|
    requires forall k :: 0 <= k < |ts| ==> ':' !in ts[k] && '\0' !in ts[k] && ByteOf(ts[k]) == bs[k]
    requires ScanResult(Join(ts) + ['\0'] + rest, before, value, list, idx)
    ensures idx == (if |bs| < 256 then |bs| else 256) <= |list| == |before|
    ensures list[..idx] == bs[..idx] && list[idx..] == before[idx..]
  {
    JoinNoNul(ts);
    TextInBuffer(Join(ts), rest);
    SpelledListRead(ts, bs);
  }

  lemma PrintedBuffer(bs: seq<byte>, upper: bool, rest: seq<char>)
    ensures CStr(PrintHex(bs, upper) + ['\0'] + rest, 0) == PrintHex(bs, upper)
  {
    var ts := HexTokens(bs, upper);
    forall k | 0 <= k < |ts| ensures NUL !in ts[k] {
      HexTokenRead(bs[k], upper);
    }
    JoinNoNul(ts);
    TextInBuffer(Join(ts), rest);
  }

  /** Printing a list into a buffer, in digits of either case, and scanning it in place restores
      its bytes and their count exactly for 1 to 256 bytes; longer lists keep their first 256
      bytes, and the empty text reads as one zero byte. */
  lemma HexListRoundTrip(bs: seq<byte>, upper: bool, rest: seq<char>,
                         before: seq<byte>, value: seq<char>, list: seq<byte>, idx: nat)
    requires ScanResult(PrintHex(bs, upper) + ['\0'] + rest, before, value, list, idx)
    ensures idx <= |list| == |before| && list[idx..] == before[idx..]
    ensures list[..idx] == if bs == [] then [0] else if |bs| < 256 then bs else bs[..256]
    ensures list[..idx] == bs <==> 1 <= |bs| <= 256
  {
    PrintedBuffer(bs, upper, rest);
    ListBytesOfPrint(bs, upper);
  }

  // ------------------------------------------------------------------
  // The scan of any text, by its separators
  // ------------------------------------------------------------------

  /** The separators of s before index j. */
  function Colons(s: string, j: nat): nat
    requires j <= |s|
  {
    multiset(s[..j])[':']
  }

  lemma ColonsStep(s: string, p: nat, i: nat)
    requires p <= i < |s| && s[i] == ':' && forall k :: p <= k < i ==> s[k] != ':'
    ensures forall j :: p <= j <= i ==> Colons(s, j) == Colons(s, p)
    ensures Colons(s, i + 1) == Colons(s, p) + 1
  {
    forall j | p <= j <= i ensures Colons(s, j) == Colons(s, p) {
      NoColons(s, p, j);
    }
    assert s[..i + 1] == s[..i] + [s[i]] && Colons(s, i) == Colons(s, p);
  }

  lemma NoColons(s: string, p: nat, j: nat)
    requires p <= j <= |s| && forall k :: p <= k < j ==> s[k] != ':'
    ensures Colons(s, j) == Colons(s, p)
  {
    assert s[..j] == s[..p] + s[p..j];
    assert ':' !in s[p..j];
  }

  /** There is one token more than there are separators. */
  lemma {:induction false} SplitCount(s: string, p: nat)
    requires p <= |s|
    ensures |SplitFrom(s, p)| == Colons(s, |s|) - Colons(s, p) + 1
    decreases |s| - p
  {
    var i := Find(s, ':', p);
    if i == |s| {
      NoColons(s, p, |s|);
    } else {
      ColonsStep(s, p, i);
      SplitCount(s, i + 1);
    }
  }

  /** Splitting loses nothing: every text is the join of its tokens. */
  lemma {:induction false} JoinSplit(s: string, p: nat)
    requires p <= |s|
    ensures Join(SplitFrom(s, p)) == s[p..]
    ensures forall k :: 0 <= k < |SplitFrom(s, p)| ==> ':' !in SplitFrom(s, p)[k]
    decreases |s| - p
  {
    var i := Find(s, ':', p);
    if i < |s| {
      JoinSplit(s, i + 1);
      assert SplitFrom(s, p)[1..] == SplitFrom(s, i + 1);
      assert s[p..] == s[p..i] + ":" + s[i + 1..];
    }
  }

  /** A list argument has one byte more than separators, but no more than 256. */
  lemma ListLength(s: string)
    ensures |ListBytes(s)| == if multiset(s)[':'] < 256 then multiset(s)[':'] + 1 else 256
  {
    SplitCount(s, 0);
    assert s[..|s|] == s && s[..0] == [] && Colons(s, 0) == 0;
  }

  /** The scan stops behind separator n of the text, or at its end. */
  lemma {:induction false} ReachCount(s: string, n: nat, p: nat, j: nat)
    requires p <= j < |s| && s[j] == ':'
    ensures j < Reach(s, n, p) <==> Colons(s, j) < Colons(s, p) + n
    decreases |s| - p
  {
    var i := Find(s, ':', p);
    if n > 0 {
      ColonsStep(s, p, i);
      if j > i {
        ReachCount(s, n - 1, i + 1, j);
      } else {
        assert j == i;
      }
    } else {
      ColonsGrow(s, p, j);
    }
  }

  lemma ColonsGrow(s: string, p: nat, j: nat)
    requires p <= j <= |s|
    ensures Colons(s, p) <= Colons(s, j)
  {
    assert s[..j] == s[..p] + s[p..j];
  }

  /** What the scan of a text s leaves in its buffer: the first 256 separators are overwritten,
      every other character stays. */
  lemma SeparatorsDestroyed(s: string, rest: seq<char>,
                            before: seq<byte>, value: seq<char>, list: seq<byte>, idx: nat)
    requires '\0' !in s && ScanResult(s + ['\0'] + rest, before, value, list, idx)
    ensures |value| == |s| + 1 + |rest| && value[|s|..] == ['\0'] + rest
    ensures forall j :: 0 <= j < |s| ==>
      value[j] == if s[j] == ':' && multiset(s[..j])[':'] < 256 then '\0' else s[j]
  {
    var was := s + ['\0'] + rest;
    TextInBuffer(s, rest);
    forall j | 0 <= j < |s| && s[j] == ':' ensures j < Reach(s, 256, 0) <==> Colons(s, j) < 256 {
      ReachCount(s, 256, 0, j);
      assert s[..0] == [];
    }
  }
}
