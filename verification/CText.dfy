/**
  C strings in character buffers, and the number readers of the C library that the
  command line tools use.
 */
module CText {

  type byte = b: int | 0 <= b < 256

  const NUL: char := '\0'

  /** The first index of c at or after from, or |s|. */
  function Find(s: seq<char>, c: char, from: nat): (i: nat)
    requires from <= |s|
    ensures from <= i <= |s| && (i < |s| ==> s[i] == c)
    ensures forall k :: from <= k < i ==> s[k] != c
    decreases |s| - from
  {
    if from == |s| || s[from] == c then from else Find(s, c, from + 1)
  }

  /** The string that starts at p: everything up to the next NUL (or the end). */
  function CStr(buf: seq<char>, p: nat): string
    requires p <= |buf|
  {
    buf[p..Find(buf, NUL, p)]
  }

  /** Wherever a text is stored with a terminator behind it, it is the string found there. */
  lemma StringAt(buf: seq<char>, p: nat, text: string)
    requires p + |text| < |buf| && buf[p..p + |text|] == text && buf[p + |text|] == '\0' && '\0' !in text
    ensures Find(buf, '\0', p) == p + |text| && CStr(buf, p) == text
  {
    forall k | p <= k < p + |text| ensures buf[k] != '\0' {
      assert buf[k] == text[k - p];
    }
    FindIs(buf, '\0', p, p + |text|);
  }

  lemma FindIs(s: seq<char>, c: char, from: nat, i: nat)
    requires from <= i < |s| && s[i] == c && forall k :: from <= k < i ==> s[k] != c
    ensures Find(s, c, from) == i
  {
  }

  // ------------------------------------------------------------------
  // Digits
  // ------------------------------------------------------------------

  predicate IsSpace(c: char) {
    c == ' ' || '\t' <= c <= '\r'
  }

  predicate IsDigit(c: char) {
    '0' <= c <= '9'
  }

  predicate IsHex(c: char) {
    IsDigit(c) || 'a' <= c <= 'f' || 'A' <= c <= 'F'
  }

  function DigitValue(c: char): nat
    requires IsHex(c)
  {
    if IsDigit(c) then (c as int) - ('0' as int)
    else if 'a' <= c <= 'f' then (c as int) - ('a' as int) + 10
    else (c as int) - ('A' as int) + 10
  }

  /** The hexadecimal digits as printf writes them, with %x or with %X. */
  function DigitChar(d: nat, upper: bool): (c: char)
    requires d < 16
    ensures IsHex(c) && DigitValue(c) == d && (d < 10 ==> IsDigit(c))
  {
    if upper then "0123456789ABCDEF"[d] else "0123456789abcdef"[d]
  }

  /** Both cases of every digit have its value, and no other character is a digit or a blank. */
  lemma Characters(c: char, d: nat)
    requires d < 16
    ensures IsHex(c) <==> c in "0123456789abcdefABCDEF"
    ensures IsDigit(c) <==> c in "0123456789"
    ensures IsSpace(c) <==> c in " \t\n\U{0B}\U{0C}\r"
    ensures DigitValue("0123456789abcdef"[d]) == DigitValue("0123456789ABCDEF"[d]) == d
  {
    assert IsHex("0123456789abcdef"[d]) && IsHex("0123456789ABCDEF"[d]);
  }

  function SkipSpace(s: string): string {
    if s != [] && IsSpace(s[0]) then SkipSpace(s[1..]) else s
  }

  /** The value of the leading run of hexadecimal digits, continuing from acc. */
  function HexValue(s: string, acc: nat): nat {
    if s == [] || !IsHex(s[0]) then acc else HexValue(s[1..], 16 * acc + DigitValue(s[0]))
  }

  function DecValue(s: string, acc: nat): nat {
    if s == [] || !IsDigit(s[0]) then acc else DecValue(s[1..], 10 * acc + DigitValue(s[0]))
  }

  // ------------------------------------------------------------------
  // strtoul(s, NULL, 16) and atoi(s)
  // ------------------------------------------------------------------

  const ULONG_LIMIT := 0x1_0000_0000

  function StripHexPrefix(s: string): string {
    if |s| > 2 && s[0] == '0' && (s[1] == 'x' || s[1] == 'X') && IsHex(s[2]) then s[2..] else s
  }

  /** Optional blanks, sign and 0x, then digits; saturates, and a minus sign negates
      modulo the width of unsigned long. */
  function StrToUl16(s: string): (v: nat)
    ensures v < ULONG_LIMIT
  {
    var t := SkipSpace(s);
    var negative := t != [] && t[0] == '-';
    var u := if t != [] && (t[0] == '-' || t[0] == '+') then t[1..] else t;
    var v := HexValue(StripHexPrefix(u), 0);
    if v >= ULONG_LIMIT then ULONG_LIMIT - 1
    else if negative then (ULONG_LIMIT - v) % ULONG_LIMIT
    else v
  }

  /** Optional blanks and sign, then decimal digits. */
  function Atoi(s: string): int {
    var t := SkipSpace(s);
    if t != [] && t[0] == '-' then 0 - DecValue(t[1..], 0)
    else if t != [] && t[0] == '+' then DecValue(t[1..], 0)
    else DecValue(t, 0)
  }

  // ------------------------------------------------------------------
  // The readers as positional notation
  // ------------------------------------------------------------------

  lemma {:induction false} HexConcat(s: string, t: string, acc: nat)
    requires forall c :: c in s ==> IsHex(c)
    ensures HexValue(s + t, acc) == HexValue(t, HexValue(s, acc))
  {
    if s == [] {
      assert s + t == t;
    } else {
      assert s[0] in s && (s + t)[1..] == s[1..] + t;
      HexConcat(s[1..], t, 16 * acc + DigitValue(s[0]));
    }
  }

  lemma {:induction false} DecConcat(s: string, t: string, acc: nat)
    requires forall c :: c in s ==> IsDigit(c)
    ensures DecValue(s + t, acc) == DecValue(t, DecValue(s, acc))
  {
    if s == [] {
      assert s + t == t;
    } else {
      assert s[0] in s && (s + t)[1..] == s[1..] + t;
      DecConcat(s[1..], t, 10 * acc + DigitValue(s[0]));
    }
  }

  /** A digit more multiplies the number by the base and adds the digit; the number ends at the
      first character that is not a digit. */
  lemma HexPositional(s: string, d: char, rest: string)
    requires forall c :: c in s ==> IsHex(c)
    requires rest == [] || !IsHex(rest[0])
    ensures HexValue([], 0) == 0 && HexValue(s + rest, 0) == HexValue(s, 0)
    ensures IsHex(d) ==> HexValue(s + [d], 0) == 16 * HexValue(s, 0) + DigitValue(d)
  {
    HexConcat(s, rest, 0);
    HexConcat(s, [d], 0);
    assert [d][1..] == [];
  }

  lemma DecPositional(s: string, d: char, rest: string)
    requires forall c :: c in s ==> IsDigit(c)
    requires rest == [] || !IsDigit(rest[0])
    ensures DecValue([], 0) == 0 && DecValue(s + rest, 0) == DecValue(s, 0)
    ensures IsDigit(d) ==> DecValue(s + [d], 0) == 10 * DecValue(s, 0) + DigitValue(d)
  {
    DecConcat(s, rest, 0);
    DecConcat(s, [d], 0);
    assert [d][1..] == [];
  }

  /** Blanks in front are skipped; a plus sign changes nothing; a minus sign negates. */
  lemma AtoiForms(s: string, blank: char)
    requires IsSpace(blank)
    ensures Atoi([blank] + s) == Atoi(s)
    ensures Atoi("-" + s) == 0 - DecValue(s, 0) && Atoi("+" + s) == DecValue(s, 0)
    ensures s == [] || (!IsSpace(s[0]) && s[0] != '+' && s[0] != '-') ==> Atoi(s) == DecValue(s, 0)
  {
    assert ([blank] + s)[1..] == ("-" + s)[1..] == ("+" + s)[1..] == s;
  }

  // ------------------------------------------------------------------
  // Printers, and how the readers undo them
  // ------------------------------------------------------------------

  /** A byte as printf("%x") or printf("%X") writes it. */
  function HexByte(b: byte, upper: bool): (s: string)
    ensures 1 <= |s| <= 2 && forall c :: c in s ==> IsHex(c)
  {
    if b < 16 then [DigitChar(b, upper)] else [DigitChar(b / 16, upper), DigitChar(b % 16, upper)]
  }

  lemma OneDigit(c: char)
    requires IsHex(c)
    ensures HexValue([c], 0) == DigitValue(c)
  {
    HexPositional([], c, []);
    assert [] + [c] == [c];
  }

  /** Two digits of either case, the first of which may be zero. */
  lemma TwoDigits(c: char, d: char)
    requires IsHex(c) && IsHex(d)
    ensures StrToUl16([c, d]) == 16 * DigitValue(c) + DigitValue(d)
  {
    var s := [c, d];
    OneDigit(c);
    HexPositional([c], d, []);
    assert [c] + [d] == s;
    StrToUlForms(s);
  }

  lemma HexByteRead(b: byte, upper: bool)
    ensures StrToUl16(HexByte(b, upper)) == b
  {
    var s := HexByte(b, upper);
    if b < 16 {
      OneDigit(s[0]);
      StrToUlForms(s);
    } else {
      TwoDigits(s[0], s[1]);
    }
  }

  /** A number in hexadecimal digits. */
  function Hexadecimal(n: nat, upper: bool): (s: string)
    ensures s != [] && forall c :: c in s ==> IsHex(c)
    decreases n
  {
    if n < 16 then [DigitChar(n, upper)] else Hexadecimal(n / 16, upper) + [DigitChar(n % 16, upper)]
  }

  lemma {:induction false} HexadecimalRead(n: nat, upper: bool)
    ensures HexValue(Hexadecimal(n, upper), 0) == n
    decreases n
  {
    if n < 16 {
      OneDigit(DigitChar(n, upper));
    } else {
      HexadecimalRead(n / 16, upper);
      HexPositional(Hexadecimal(n / 16, upper), DigitChar(n % 16, upper), []);
    }
  }

  /** How strtoul reads text whose digits follow an optional sign and an optional 0x. */
  lemma StrToUlForms(digits: string)
    requires digits != [] && forall c :: c in digits ==> IsHex(c)
    ensures StrToUl16(digits) == (if HexValue(digits, 0) < 0x1_0000_0000 then HexValue(digits, 0) else 0xFFFF_FFFF)
    ensures StrToUl16("0x" + digits) == StrToUl16(digits)
    ensures StrToUl16("0X" + digits) == StrToUl16(digits)
    ensures StrToUl16("+" + digits) == StrToUl16(digits)
    ensures var v := HexValue(digits, 0);
      StrToUl16("-" + digits) == if v == 0 then 0 else if v < 0x1_0000_0000 then 0x1_0000_0000 - v else 0xFFFF_FFFF
  {
    DigitsOnly(digits);
    MinusSign(digits);
    PlusSign(digits);
    PrefixSkipped("0x", digits);
    PrefixSkipped("0X", digits);
  }

  lemma DigitsOnly(digits: string)
    requires digits != [] && forall c :: c in digits ==> IsHex(c)
    ensures StrToUl16(digits) == if HexValue(digits, 0) < ULONG_LIMIT then HexValue(digits, 0) else ULONG_LIMIT - 1
  {
    assert digits[0] in digits && SkipSpace(digits) == digits;
    NoSecondPrefix(digits);
  }

  lemma PlusSign(digits: string)
    requires digits != [] && forall c :: c in digits ==> IsHex(c)
    ensures StrToUl16("+" + digits) == StrToUl16(digits)
  {
    assert digits[0] in digits && SkipSpace(digits) == digits;
    assert ("+" + digits)[1..] == digits;
  }

  lemma MinusSign(digits: string)
    requires forall c :: c in digits ==> IsHex(c)
    ensures var v := HexValue(digits, 0);
      StrToUl16("-" + digits) == if v == 0 then 0 else if v < ULONG_LIMIT then ULONG_LIMIT - v else ULONG_LIMIT - 1
  {
    NoSecondPrefix(digits);
    assert ("-" + digits)[1..] == digits;
  }

  lemma PrefixSkipped(prefix: string, digits: string)
    requires (prefix == "0x" || prefix == "0X") && digits != [] && forall c :: c in digits ==> IsHex(c)
    ensures StrToUl16(prefix + digits) == StrToUl16(digits)
  {
    var p := prefix + digits;
    assert digits[0] in digits && SkipSpace(digits) == digits;
    assert p[2] == digits[0] && p[2..] == digits;
    NoSecondPrefix(digits);
  }

  lemma NoSecondPrefix(digits: string)
    requires forall c :: c in digits ==> IsHex(c)
    ensures StripHexPrefix(digits) == digits
  {
    if |digits| > 2 {
      assert digits[1] in digits;
    }
  }

  /** Any number below the width of unsigned long is read back, with or without 0x and from
      digits of either case; a larger one saturates and a minus sign negates modulo the width. */
  lemma StrToUlReadsHexadecimal(n: nat, upper: bool)
    ensures StrToUl16(Hexadecimal(n, upper)) == StrToUl16("0x" + Hexadecimal(n, upper))
         == if n < 0x1_0000_0000 then n else 0xFFFF_FFFF
    ensures 0 < n < 0x1_0000_0000 ==> StrToUl16("-" + Hexadecimal(n, upper)) == 0x1_0000_0000 - n
  {
    StrToUlForms(Hexadecimal(n, upper));
    HexadecimalRead(n, upper);
  }

  /** Blanks in front are skipped, and text without a digit reads as zero. */
  lemma StrToUlBlanks(s: string, blank: char)
    requires IsSpace(blank)
    ensures StrToUl16([blank] + s) == StrToUl16(s)
    ensures s == [] || !(IsSpace(s[0]) || s[0] == '+' || s[0] == '-' || IsHex(s[0])) ==> StrToUl16(s) == 0
  {
    assert ([blank] + s)[1..] == s;
  }

  function Decimal(n: nat): (s: string)
    ensures s != [] && forall c :: c in s ==> IsDigit(c)
  {
    if n < 10 then [DigitChar(n, false)] else Decimal(n / 10) + [DigitChar(n % 10, false)]
  }

  function PrintInt(n: int): string {
    if n < 0 then "-" + Decimal(-n) else Decimal(n)
  }

  lemma {:induction false} DecimalRead(n: nat)
    ensures DecValue(Decimal(n), 0) == n
  {
    if n < 10 {
      DecPositional([], DigitChar(n, false), []);
      assert [] + [DigitChar(n, false)] == Decimal(n);
    } else {
      DecimalRead(n / 10);
      DecPositional(Decimal(n / 10), DigitChar(n % 10, false), []);
    }
  }

  lemma AtoiDigit(s: string)
    requires s != [] && IsDigit(s[0])
    ensures Atoi(s) == DecValue(s, 0)
  {
  }

  /** Reading a printed number stops at the first character that is not a digit. */
  lemma PrintIntRead(n: int, rest: string)
    requires rest == [] || !IsDigit(rest[0])
    ensures Atoi(PrintInt(n) + rest) == n
  {
    var d := if n < 0 then Decimal(-n) else Decimal(n);
    DecimalRead(if n < 0 then -n else n);
    DecPositional(d, '0', rest);
    if n < 0 {
      assert PrintInt(n) + rest == "-" + (d + rest);
      AtoiForms(d + rest, ' ');
    } else {
      assert d[0] in d && (d + rest)[0] == d[0];
      AtoiDigit(d + rest);
    }
  }
}
