/**
  The command line of the I2C tool: a loop over the arguments that overwrites the fields
  of an i2c_control_info record, and what the record holds when the loop accepts.
 */
module I2cOptions {
  import opened Wrappers
  import opened CText
  import opened HexList

  const MAX_SUBADDR_LEN := 2
  const BUS_SPEED_MIN := 50000
  const BUS_SPEED_MAX := 400000

  datatype Opt = Device | Slave | Count | Data | Mode | Speed | View | SubAddr | Unknown

  /** One argument after getsubopt: the option it names and its value, a writable C string
      or NULL. */
  datatype Arg = Arg(opt: Opt, value: array?<char>)

  /** The same with the text of the value. */
  datatype Word = Word(opt: Opt, value: Option<string>)

  function Text(value: array?<char>): Option<string>
    reads value
  {
    if value == null then None else Some(CStr(value[..], 0))
  }

  function Words(args: seq<Arg>): (ws: seq<Word>)
    reads set a | a in args :: a.value
    ensures |ws| == |args|
    ensures forall k :: 0 <= k < |args| ==> ws[k] == Word(args[k].opt, Text(args[k].value))
  {
    if args == [] then [] else [Word(args[0].opt, Text(args[0].value))] + Words(args[1..])
  }

  predicate Distinct(args: seq<Arg>) {
    forall i, j :: 0 <= i < j < |args| && args[i].value != null ==> args[i].value != args[j].value
  }

  /** An argument whose text has not been touched yet. */
  ghost predicate Pending(a: Arg, w: Word)
    reads a.value
  {
    (a.value != null ==> NUL in a.value[..]) && w == Word(a.opt, Text(a.value))
  }

  // ------------------------------------------------------------------
  // What a command line means
  // ------------------------------------------------------------------

  /** The value of the last argument that names opt and has a value. */
  function Last(ws: seq<Word>, opt: Opt): (v: Option<string>)
  {
    if ws == [] then None
    else
      var w := ws[|ws| - 1];
      if w.opt == opt && w.value.Some? then w.value else Last(ws[..|ws| - 1], opt)
  }

  predicate OutOfRange(opt: Opt, text: string) {
    match opt
    case Count => Atoi(text) > MAX_DAT_NUMBER
    case SubAddr => |ListBytes(text)| > MAX_SUBADDR_LEN
    case _ => false
  }

  predicate Rejects(w: Word) {
    w.value.Some? && OutOfRange(w.opt, w.value.value)
  }

  predicate RejectsAny(ws: seq<Word>) {
    exists k :: 0 <= k < |ws| && Rejects(ws[k])
  }

  function Clamp(v: int): (r: int)
    ensures BUS_SPEED_MIN <= r <= BUS_SPEED_MAX
    ensures BUS_SPEED_MIN <= v <= BUS_SPEED_MAX ==> r == v
    ensures v < BUS_SPEED_MIN ==> r == BUS_SPEED_MIN
    ensures v > BUS_SPEED_MAX ==> r == BUS_SPEED_MAX
  {
    var speed := if v < BUS_SPEED_MIN then BUS_SPEED_MIN else v;
    if speed > BUS_SPEED_MAX then BUS_SPEED_MAX else speed
  }

  /** The settings a run of the tool works with. */
  datatype Config = Config(
    device: Option<string>, slave: byte, mode: string, speed: int,
    data: seq<byte>, subaddr: seq<byte>, readCount: int, view: bool)

  /** The last value given for each option. */
  datatype Latest = Latest(
    device: Option<string>, slave: Option<string>, count: Option<string>, data: Option<string>,
    mode: Option<string>, speed: Option<string>, subaddr: Option<string>, view: bool)

  function LatestOf(ws: seq<Word>): Latest {
    Latest(Last(ws, Device), Last(ws, Slave), Last(ws, Count), Last(ws, Data),
           Last(ws, Mode), Last(ws, Speed), Last(ws, SubAddr),
           exists k :: 0 <= k < |ws| && ws[k].opt == View)
  }

  /** Given values, or the defaults. */
  function Decode(l: Latest): Config {
    Config(
      l.device,
      match l.slave { case Some(v) => StrToUl16(v) % 256 case None => 0 },
      match l.mode { case Some(v) => v case None => "write" },
      match l.speed { case Some(v) => Clamp(Atoi(v)) case None => BUS_SPEED_MIN },
      match l.data { case Some(v) => ListBytes(v) case None => [] },
      match l.subaddr { case Some(v) => ListBytes(v) case None => [] },
      match l.count { case Some(v) => Atoi(v) case None => 1 },
      l.view)
  }

  function Meaning(ws: seq<Word>): Config {
    Decode(LatestOf(ws))
  }

  lemma LastSnoc(ws: seq<Word>, w: Word, opt: Opt)
    ensures Last(ws + [w], opt) == if w.opt == opt && w.value.Some? then w.value else Last(ws, opt)
  {
    assert (ws + [w])[..|ws|] == ws;
  }

  /** What one more argument changes. */
  function Step(l: Latest, w: Word): Latest {
    if w.opt == View then l.(view := true)
    else if w.value.None? then l
    else
      match w.opt
      case Device => l.(device := w.value)
      case Slave => l.(slave := w.value)
      case Count => l.(count := w.value)
      case Data => l.(data := w.value)
      case Mode => l.(mode := w.value)
      case Speed => l.(speed := w.value)
      case SubAddr => l.(subaddr := w.value)
      case _ => l
  }

  /** The same on the decoded settings: a value overwrites one field. */
  function Assign(c: Config, opt: Opt, text: string): Config {
    match opt
    case Device => c.(device := Some(text))
    case Slave => c.(slave := StrToUl16(text) % 256)
    case Count => c.(readCount := Atoi(text))
    case Data => c.(data := ListBytes(text))
    case Mode => c.(mode := text)
    case Speed => c.(speed := Clamp(Atoi(text)))
    case SubAddr => c.(subaddr := ListBytes(text))
    case _ => c
  }

  lemma DecodeStep(l: Latest, w: Word)
    ensures w.opt == View ==> Decode(Step(l, w)) == Decode(l).(view := true)
    ensures w.opt != View && w.value.None? ==> Step(l, w) == l
    ensures w.opt != View && w.value.Some? ==> Decode(Step(l, w)) == Assign(Decode(l), w.opt, w.value.value)
  {
  }

  lemma LatestUpTo(ws: seq<Word>, i: nat)
    requires i < |ws|
    ensures LatestOf(ws[..i + 1]) == Step(LatestOf(ws[..i]), ws[i])
  {
    LatestSnoc(ws[..i], ws[i]);
    assert ws[..i + 1] == ws[..i] + [ws[i]];
  }

  lemma RejectsUpTo(ws: seq<Word>, i: nat)
    requires i < |ws|
    ensures RejectsAny(ws[..i + 1]) <==> RejectsAny(ws[..i]) || Rejects(ws[i])
    ensures Rejects(ws[i]) ==> RejectsAny(ws)
  {
    var next := ws[..i + 1];
    assert forall k :: 0 <= k < i ==> ws[..i][k] == next[k];
    assert next[i] == ws[i];
  }

  lemma LatestSnoc(ws: seq<Word>, w: Word)
    ensures LatestOf(ws + [w]) == Step(LatestOf(ws), w)
  {
    LastSnoc(ws, w, Device);
    LastSnoc(ws, w, Slave);
    LastSnoc(ws, w, Mode);
    LastSnoc(ws, w, Speed);
    LastSnoc(ws, w, Data);
    LastSnoc(ws, w, SubAddr);
    LastSnoc(ws, w, Count);
    var more := ws + [w];
    assert forall k :: 0 <= k < |ws| ==> more[k] == ws[k];
    assert more[|ws|] == w;
  }

  // ------------------------------------------------------------------
  // Parse_commandline
  // ------------------------------------------------------------------

  class I2cControlInfo {
    var device: Option<string>
    var slave: byte
    const data: array<byte>
    const subaddr: array<byte>
    var readCount: int
    var dataLen: nat
    var subaddrLen: nat
    var mode: string
    var speed: int
    var view: int

    constructor ()
      ensures Valid() && fresh(data) && fresh(subaddr)
    {
      data := new byte[MAX_DAT_NUMBER];
      subaddr := new byte[MAX_DAT_NUMBER];
      device, slave, readCount, dataLen, subaddrLen := None, 0, 0, 0, 0;
      mode, speed, view := "", 0, 0;
    }

    ghost predicate Valid()
      reads this
    {
      data != subaddr && data.Length == subaddr.Length == MAX_DAT_NUMBER
      && dataLen <= MAX_DAT_NUMBER && subaddrLen <= MAX_DAT_NUMBER
    }

    ghost function Settings(): Config
      requires Valid()
      reads this, data, subaddr
    {
      Config(device, slave, mode, speed, data[..dataLen], subaddr[..subaddrLen], readCount, view == 1)
    }

    method SetDefaults()
      requires Valid()
      modifies this, data, subaddr
      ensures Valid() && Settings() == Meaning([]) == Config(None, 0, "write", 50000, [], [], 1, false)
    {
      device, slave, readCount, dataLen, subaddrLen := None, 0, 1, 0, 0;
      mode, speed, view := "write", BUS_SPEED_MIN, 0;
      data[0] := 0;
      subaddr[0] := 0;
      assert data[..0] == [] && subaddr[..0] == [];
    }

    method SetData(value: array<char>) returns (ok: bool)
      requires Valid() && NUL in value[..]
      modifies this`dataLen, data, value
      ensures Valid() && ok
      ensures Settings() == old(Settings()).(data := ListBytes(old(CStr(value[..], 0))))
    {
      var idx := ScanHexList(value, data);
      dataLen := idx;
      ok := dataLen <= MAX_DAT_NUMBER;
    }

    method SetSubAddr(value: array<char>) returns (ok: bool)
      requires Valid() && NUL in value[..]
      modifies this`subaddrLen, subaddr, value
      ensures Valid()
      ensures Settings() == old(Settings()).(subaddr := ListBytes(old(CStr(value[..], 0))))
      ensures ok <==> |ListBytes(old(CStr(value[..], 0)))| <= MAX_SUBADDR_LEN
    {
      var idx := ScanHexList(value, subaddr);
      subaddrLen := idx;
      ok := subaddrLen <= MAX_SUBADDR_LEN;
    }

    method SetCount(text: string) returns (ok: bool)
      requires Valid()
      modifies this`readCount
      ensures Valid() && Settings() == old(Settings()).(readCount := Atoi(text))
      ensures ok <==> Atoi(text) <= MAX_DAT_NUMBER
    {
      readCount := Atoi(text);
      ok := readCount <= MAX_DAT_NUMBER;
    }

    method SetSpeed(text: string)
      requires Valid()
      modifies this`speed
      ensures Valid() && Settings() == old(Settings()).(speed := Clamp(Atoi(text)))
    {
      speed := if Atoi(text) < BUS_SPEED_MIN then BUS_SPEED_MIN else Atoi(text);
      speed := if speed > BUS_SPEED_MAX then BUS_SPEED_MAX else speed;
    }

    /** The cases of the switch that need a value. */
    method ApplyValue(opt: Opt, value: array<char>) returns (ok: bool)
      requires Valid() && NUL in value[..]
      modifies this, data, subaddr, value
      ensures Valid()
      ensures Settings() == Assign(old(Settings()), opt, old(CStr(value[..], 0)))
      ensures ok <==> !OutOfRange(opt, old(CStr(value[..], 0)))
    {
      var text := CStr(value[..], 0);
      ok := true;
      match opt {
        case Device => device := Some(text);
        case Slave => slave := StrToUl16(text) % 256;
        case Count => ok := SetCount(text);
        case Data => ok := SetData(value);
        case Mode => mode := text;
        case Speed => SetSpeed(text);
        case SubAddr => ok := SetSubAddr(value);
        case _ =>
      }
    }

    /** One round of the argument loop. The later arguments keep their text. */
    method Apply(args: seq<Arg>, i: nat, ghost ws: seq<Word>, ghost l: Latest) returns (ok: bool)
      requires i < |args| == |ws| && Distinct(args)
      requires Valid() && Settings() == Decode(l)
      requires forall k :: i <= k < |args| ==> Pending(args[k], ws[k])
      modifies this, data, subaddr, args[i].value
      ensures Valid() && Settings() == Decode(Step(l, ws[i]))
      ensures forall k :: i + 1 <= k < |args| ==> Pending(args[k], ws[k])
      ensures ok <==> !Rejects(ws[i])
    {
      assert Pending(args[i], ws[i]);
      ok := true;
      DecodeStep(l, ws[i]);
      if args[i].opt == View {
        view := 1;
      } else if args[i].value != null {
        ok := ApplyValue(args[i].opt, args[i].value);
      }
    }

    /** Overwrites the record from args; -1 as soon as an argument is out of range. */
    method ParseCommandline(args: seq<Arg>) returns (rc: int)
      requires Valid()
      requires forall a :: a in args && a.value != null ==> NUL in a.value[..]
      requires Distinct(args)
      modifies this, data, subaddr, set a | a in args :: a.value
      ensures Valid()
      ensures rc == if RejectsAny(old(Words(args))) then -1 else 0
      ensures rc == 0 ==> Settings() == Meaning(old(Words(args)))
    {
      ghost var ws, l := Words(args), LatestOf([]);
      SetDefaults();
      var i := 0;
      rc := 0;
      assert ws[..0] == [];
      while i < |args|
        invariant i <= |args| && Valid()
        invariant l == LatestOf(ws[..i]) && Settings() == Decode(l)
        invariant !RejectsAny(ws[..i])
        invariant forall k :: i <= k < |args| ==> Pending(args[k], ws[k])
      {
        LatestUpTo(ws, i);
        RejectsUpTo(ws, i);
        var ok := Apply(args, i, ws, l);
        if !ok {
          return -1;
        }
        l := Step(l, ws[i]);
        i := i + 1;
      }
      assert ws[..|ws|] == ws;
    }
  }

  // ------------------------------------------------------------------
  // Consequences for every accepted command line
  // ------------------------------------------------------------------

  /** Word k is the last one that gives opt a value. */
  ghost predicate IsLast(ws: seq<Word>, opt: Opt, k: int) {
    && 0 <= k < |ws| && ws[k].opt == opt && ws[k].value.Some?
    && forall j :: k < j < |ws| && ws[j].opt == opt ==> ws[j].value.None?
  }

  lemma {:induction false} LastIsAWord(ws: seq<Word>, opt: Opt)
    requires Last(ws, opt).Some?
    ensures exists k :: IsLast(ws, opt, k) && Last(ws, opt) == ws[k].value
  {
    var n := |ws| - 1;
    if ws[n].opt == opt && ws[n].value.Some? {
      assert IsLast(ws, opt, n);
    } else {
      LastIsAWord(ws[..n], opt);
      var k :| IsLast(ws[..n], opt, k) && Last(ws, opt) == ws[..n][k].value;
      assert IsLast(ws, opt, k) by {
        assert forall j :: 0 <= j < n ==> ws[j] == ws[..n][j];
      }
    }
  }

  lemma {:induction false} NoLast(ws: seq<Word>, opt: Opt)
    requires forall k :: 0 <= k < |ws| && ws[k].opt == opt ==> ws[k].value.None?
    ensures Last(ws, opt).None?
  {
    if ws != [] {
      NoLast(ws[..|ws| - 1], opt);
    }
  }

  /** The last word that gives an option a value decides its field. */
  lemma LastValueDecides(ws: seq<Word>, k: nat, v: string)
    requires k < |ws| && ws[k].value == Some(v)
    requires forall j :: k < j < |ws| && ws[j].opt == ws[k].opt ==> ws[j].value.None?
    ensures var c := Meaning(ws);
      match ws[k].opt
      case Device => c.device == Some(v)
      case Slave => c.slave == StrToUl16(v) % 256
      case Count => c.readCount == Atoi(v)
      case Data => c.data == ListBytes(v)
      case Mode => c.mode == v
      case Speed => c.speed == if Atoi(v) < 50000 then 50000 else if Atoi(v) > 400000 then 400000 else Atoi(v)
      case SubAddr => c.subaddr == ListBytes(v)
      case _ => true
  {
    LastValue(ws, k);
  }

  lemma {:induction false} LastValue(ws: seq<Word>, k: nat)
    requires k < |ws| && ws[k].value.Some?
    requires forall j :: k < j < |ws| && ws[j].opt == ws[k].opt ==> ws[j].value.None?
    ensures Last(ws, ws[k].opt) == ws[k].value
  {
    var n := |ws| - 1;
    if k < n {
      LastValue(ws[..n], k);
    }
  }

  /** An option that no word gives a value keeps its default. */
  lemma NoValueKeepsDefault(ws: seq<Word>, opt: Opt)
    requires forall k :: 0 <= k < |ws| && ws[k].opt == opt ==> ws[k].value.None?
    ensures var c := Meaning(ws);
      match opt
      case Device => c.device == None
      case Slave => c.slave == 0
      case Count => c.readCount == 1
      case Data => c.data == []
      case Mode => c.mode == "write"
      case Speed => c.speed == 50000
      case SubAddr => c.subaddr == []
      case _ => true
  {
    NoLast(ws, opt);
  }

  /** The view flag needs no value. A command line is rejected for a count above 256 or for
      more than two sub-address bytes. */
  lemma ViewAndRejection(ws: seq<Word>)
    ensures Meaning(ws).view <==> exists k :: 0 <= k < |ws| && ws[k].opt == View
    ensures RejectsAny(ws) <==>
      exists k :: 0 <= k < |ws| && ws[k].value.Some?
        && ((ws[k].opt == Count && Atoi(ws[k].value.value) > 256)
            || (ws[k].opt == SubAddr && |ListBytes(ws[k].value.value)| > 2))
  {
    forall k | 0 <= k < |ws|
      ensures Rejects(ws[k]) <==>
        && ws[k].value.Some?
        && ((ws[k].opt == Count && Atoi(ws[k].value.value) > 256)
            || (ws[k].opt == SubAddr && |ListBytes(ws[k].value.value)| > 2))
    {
      match ws[k].opt case Count => case SubAddr => case _ =>
    }
  }

  lemma LastIsInRange(ws: seq<Word>, opt: Opt)
    requires !RejectsAny(ws) && Last(ws, opt).Some?
    ensures !OutOfRange(opt, Last(ws, opt).value)
  {
    LastIsAWord(ws, opt);
    var k :| IsLast(ws, opt, k) && Last(ws, opt) == ws[k].value;
    assert !Rejects(ws[k]);
  }

  lemma AcceptedCount(ws: seq<Word>)
    requires !RejectsAny(ws)
    ensures Meaning(ws).readCount <= MAX_DAT_NUMBER
  {
    if Last(ws, Count).Some? {
      LastIsInRange(ws, Count);
    }
  }

  lemma AcceptedSubAddr(ws: seq<Word>)
    requires !RejectsAny(ws)
    ensures |Meaning(ws).subaddr| <= MAX_SUBADDR_LEN
  {
    if Last(ws, SubAddr).Some? {
      LastIsInRange(ws, SubAddr);
    }
  }

  /** The ranges the rest of the tool relies on. */
  lemma AcceptedRanges(ws: seq<Word>)
    requires !RejectsAny(ws)
    ensures 50000 <= Meaning(ws).speed <= 400000
    ensures Meaning(ws).readCount <= 256
    ensures |Meaning(ws).data| <= 256 && |Meaning(ws).subaddr| <= 2
  {
    AcceptedCount(ws);
    AcceptedSubAddr(ws);
  }

  /** A slave address in hexadecimal, with or without 0x, reaches the record reduced to a
      byte. */
  lemma SlaveIsRead(ws: seq<Word>, n: nat, upper: bool)
    requires n < 0x1_0000_0000
    requires Last(ws, Slave) == Some(Hexadecimal(n, upper)) || Last(ws, Slave) == Some("0x" + Hexadecimal(n, upper))
    ensures Meaning(ws).slave == n % 256
  {
    StrToUlReadsHexadecimal(n, upper);
  }
}
