/**
  The size and position options of the rear-view camera tool: a scanner that reads two
  numbers around a separator, and the argument loop that applies it.
 */
module CameraOptions {
  import opened Wrappers
  import opened CText

  // ------------------------------------------------------------------
  // Two numbers around a separator
  // ------------------------------------------------------------------

  /** The index of the first character that is not a digit, or |s|. */
  function DigitRun(s: string): (n: nat)
    ensures n <= |s| && (n < |s| ==> !IsDigit(s[n]))
    ensures forall k :: 0 <= k < n ==> IsDigit(s[k])
  {
    if s == [] || !IsDigit(s[0]) then 0 else 1 + DigitRun(s[1..])
  }

  predicate HasSeparator(s: string) {
    DigitRun(s) < |s|
  }

  /** The number at the start of s, and the one after its first character that is not a
      digit. If s is all digits the scanner stops at the terminator, and the second number is
      read from next, the text that follows the terminator in memory. */
  function PairOf(s: string, next: string): (int, int) {
    (Atoi(s), Atoi(if HasSeparator(s) then s[DigitRun(s) + 1..] else next))
  }

  /** p points to a terminated string in mem. */
  predicate PointsToString(mem: seq<char>, p: nat) {
    p <= |mem| && Find(mem, NUL, p) < |mem|
  }

  /** The text behind the terminator of the string at p. */
  function TextBehind(mem: seq<char>, p: nat): string
    requires PointsToString(mem, p)
  {
    CStr(mem, Find(mem, NUL, p) + 1)
  }

  /** Moves past the digits at start and the one character that ends them, which may be the
      terminator. */
  method SkipNumber(mem: seq<char>, start: nat) returns (value: nat)
    requires PointsToString(mem, start)
    ensures value == start + DigitRun(CStr(mem, start)) + 1
  {
    ghost var n := DigitRun(CStr(mem, start));
    StringInMemory(mem, start);
    value := start;
    while true
      invariant start <= value <= start + n
      decreases start + n - value
    {
      var tmp3 := value;
      value := value + 1;
      if !IsDigit(mem[tmp3]) {
        break;
      }
    }
  }

  /** Reads two numbers from the string at start, around whatever separates them. */
  method ScanPair(mem: seq<char>, start: nat) returns (first: int, second: int)
    requires PointsToString(mem, start)
    ensures (first, second) == PairOf(CStr(mem, start), TextBehind(mem, start))
  {
    first := Atoi(CStr(mem, start));
    var value := SkipNumber(mem, start);
    SecondText(mem, start);
    second := Atoi(CStr(mem, value));
  }

  lemma SecondText(mem: seq<char>, p: nat)
    requires PointsToString(mem, p)
    ensures var s := CStr(mem, p);
      var n := DigitRun(s);
      p + n + 1 <= |mem| && CStr(mem, p + n + 1) == if HasSeparator(s) then s[n + 1..] else TextBehind(mem, p)
  {
    var s := CStr(mem, p);
    StringInMemory(mem, p);
    if HasSeparator(s) {
      CStrSuffix(mem, p, DigitRun(s) + 1);
    }
  }

  lemma StringInMemory(mem: seq<char>, p: nat)
    requires PointsToString(mem, p)
    ensures var s := CStr(mem, p);
      && p + |s| == Find(mem, NUL, p) && mem[p + |s|] == NUL
      && forall k :: 0 <= k < |s| ==> mem[p + k] == s[k]
  {
  }

  lemma CStrSuffix(mem: seq<char>, p: nat, k: nat)
    requires p <= |mem| && k <= |CStr(mem, p)|
    ensures p + k <= |mem| && CStr(mem, p + k) == CStr(mem, p)[k..]
  {
    assert Find(mem, NUL, p + k) == Find(mem, NUL, p);
  }

  lemma DigitRunIs(digits: string, rest: string)
    requires (forall c :: c in digits ==> IsDigit(c)) && rest != [] && !IsDigit(rest[0])
    ensures DigitRun(digits + rest) == |digits|
  {
    var s := digits + rest;
    assert s[|digits|] == rest[0];
    assert forall k :: 0 <= k < |digits| ==> s[k] in digits;
  }

  lemma PairAround(digits: string, sep: char, tail: string, next: string)
    requires (forall c :: c in digits ==> IsDigit(c)) && !IsDigit(sep)
    ensures var s := digits + ([sep] + tail);
      HasSeparator(s) && PairOf(s, next) == (Atoi(s), Atoi(tail))
  {
    var s := digits + ([sep] + tail);
    DigitRunIs(digits, [sep] + tail);
    assert s[|digits| + 1..] == tail;
  }

  /** A first number without a sign: both numbers come back, the second with its sign. */
  lemma ScanUnsigned(x: nat, y: int, sep: char, rest: string, next: string)
    requires !IsDigit(sep) && (rest == [] || !IsDigit(rest[0]))
    ensures var s := PrintInt(x) + ([sep] + (PrintInt(y) + rest));
      HasSeparator(s) && PairOf(s, next) == (x, y)
  {
    var tail := PrintInt(y) + rest;
    PairAround(Decimal(x), sep, tail, next);
    PrintIntRead(x, [sep] + tail);
    PrintIntRead(y, rest);
  }

  /** Without a separator the second number comes from the text behind the terminator. */
  lemma ScanBare(x: nat, next: string)
    ensures !HasSeparator(PrintInt(x)) && PairOf(PrintInt(x), next) == (x, Atoi(next))
  {
    PrintIntRead(x, "");
    assert PrintInt(x) + "" == PrintInt(x);
    AllDigits(Decimal(x));
  }

  lemma {:induction false} AllDigits(s: string)
    requires forall c :: c in s ==> IsDigit(c)
    ensures DigitRun(s) == |s|
  {
    if s != [] {
      assert s[0] in s;
      AllDigits(s[1..]);
    }
  }

  /** A minus sign in front is itself the separator: the second number is the magnitude of
      the first, and the number that was meant to be second is never read. */
  lemma ScanSigned(x: int, y: int, sep: char, rest: string, next: string)
    requires x < 0 && !IsDigit(sep)
    ensures var s := PrintInt(x) + ([sep] + (PrintInt(y) + rest));
      HasSeparator(s) && PairOf(s, next) == (x, -x)
  {
    var tail := [sep] + (PrintInt(y) + rest);
    PrintIntRead(x, tail);
    PrintIntRead(-x, tail);
    SignedPair(Decimal(-x), tail, x, next);
  }

  lemma SignedPair(digits: string, tail: string, x: int, next: string)
    requires Atoi("-" + digits + tail) == x && Atoi(digits + tail) == -x
    ensures HasSeparator("-" + digits + tail) && PairOf("-" + digits + tail, next) == (x, -x)
  {
    MinusFirst(digits, tail, next);
  }

  lemma MinusFirst(digits: string, tail: string, next: string)
    ensures var s := "-" + digits + tail;
      HasSeparator(s) && PairOf(s, next) == (Atoi(s), Atoi(digits + tail))
  {
    assert "-" + digits + tail == [] + (['-'] + (digits + tail));
    PairAround([], '-', digits + tail, next);
  }

  /** The scanner inverts the printer exactly when the first number has no sign (or the
      second happens to be its magnitude). */
  lemma ScanInvertsPrint(x: int, y: int, sep: char, rest: string, next: string)
    requires !IsDigit(sep) && (rest == [] || !IsDigit(rest[0]))
    ensures var s := PrintInt(x) + ([sep] + (PrintInt(y) + rest));
      HasSeparator(s) && (PairOf(s, next) == (x, y) <==> x >= 0 || y == -x)
  {
    if x >= 0 {
      ScanUnsigned(x, y, sep, rest, next);
    } else {
      ScanSigned(x, y, sep, rest, next);
    }
  }

  /** "-5,10" reads as -5 and 5, whatever follows it in memory. */
  lemma SignedExample(next: string)
    ensures HasSeparator("-5,10") && PairOf("-5,10", next) == (-5, 5)
  {
    assert PrintInt(-5) + ([','] + (PrintInt(10) + "")) == "-5,10";
    ScanSigned(-5, 10, ',', "", next);
  }

  /** The result is the argument's own exactly when it has a separator. */
  lemma OwnResultIff(s: string)
    ensures HasSeparator(s) <==> forall a, b :: PairOf(s, a) == PairOf(s, b)
  {
    if !HasSeparator(s) {
      assert Atoi("0") == 0;
      assert Atoi("1") == 1;
      assert PairOf(s, "0") != PairOf(s, "1");
    }
  }

  // ------------------------------------------------------------------
  // The argument loop
  // ------------------------------------------------------------------

  datatype Key = Size | Ssize | Csize | Bsize | Pos | Cpos | Spos

  function Prefix(key: Key): string {
    match key
    case Size => "-size="
    case Ssize => "-ssize="
    case Csize => "-csize="
    case Bsize => "-bsize="
    case Pos => "-pos="
    case Cpos => "-cpos="
    case Spos => "-spos="
  }

  predicate Matches(arg: string, key: Key) {
    Prefix(key) <= arg
  }

  function Operand(arg: string, key: Key): string
    requires Matches(arg, key)
  {
    arg[|Prefix(key)|..]
  }

  /** An argument: its text, and the text that follows its terminator in memory. */
  datatype Argument = Argument(text: string, next: string) {
    predicate Names(key: Key) {
      Matches(text, key)
    }

    function Pair(key: Key): (int, int)
      requires Names(key)
    {
      PairOf(Operand(text, key), next)
    }
  }

  function ArgumentAt(mem: seq<char>, p: nat): Argument
    requires PointsToString(mem, p)
  {
    Argument(CStr(mem, p), TextBehind(mem, p))
  }

  /** window, view, crop and destination sizes; window, crop and view positions. */
  datatype Geometry = Geometry(
    window: (int, int), view: (int, int), crop: (int, int), dst: (int, int),
    windowAt: (int, int), cropAt: (int, int), viewAt: (int, int))
  {
    function At(key: Key): (int, int) {
      match key
      case Size => window
      case Ssize => view
      case Csize => crop
      case Bsize => dst
      case Pos => windowAt
      case Cpos => cropAt
      case Spos => viewAt
    }

    function With(key: Key, p: (int, int)): (r: Geometry)
      ensures forall k :: r.At(k) == if k == key then p else At(k)
    {
      match key
      case Size => this.(window := p)
      case Ssize => this.(view := p)
      case Csize => this.(crop := p)
      case Bsize => this.(dst := p)
      case Pos => this.(windowAt := p)
      case Cpos => this.(cropAt := p)
      case Spos => this.(viewAt := p)
    }
  }

  const DEFAULTS := Geometry((-1, -1), (-1, -1), (-1, -1), (-1, -1), (0, 0), (-1, -1), (0, 0))

  /** The pair of the last argument for key, or the default. */
  function Last(args: seq<Argument>, key: Key): (int, int) {
    if args == [] then DEFAULTS.At(key)
    else
      var n := |args| - 1;
      if args[n].Names(key) then args[n].Pair(key) else Last(args[..n], key)
  }

  /** At most one option matches an argument, so the order of the else-if chain is free. */
  lemma OneKey(arg: string, j: Key, k: Key)
    requires Matches(arg, j) && Matches(arg, k)
    ensures j == k
  {
    assert arg[1] == Prefix(j)[1] == Prefix(k)[1];
    assert arg[2] == Prefix(j)[2] == Prefix(k)[2];
  }

  /** The else-if chain over the option prefixes. */
  function KeyOf(arg: string): (key: Option<Key>)
    ensures forall k :: key == Some(k) <==> Matches(arg, k)
  {
    forall j, k | Matches(arg, j) && Matches(arg, k) ensures j == k {
      OneKey(arg, j, k);
    }
    if Matches(arg, Size) then Some(Size)
    else if Matches(arg, Ssize) then Some(Ssize)
    else if Matches(arg, Csize) then Some(Csize)
    else if Matches(arg, Bsize) then Some(Bsize)
    else if Matches(arg, Pos) then Some(Pos)
    else if Matches(arg, Cpos) then Some(Cpos)
    else if Matches(arg, Spos) then Some(Spos)
    else None
  }

  method ScanOption(mem: seq<char>, p: nat, key: Key) returns (pair: (int, int))
    requires PointsToString(mem, p) && ArgumentAt(mem, p).Names(key)
    ensures pair == ArgumentAt(mem, p).Pair(key)
  {
    OperandAt(mem, p, key);
    var first, second := ScanPair(mem, p + |Prefix(key)|);
    pair := (first, second);
  }

  /** r is g with the pair of arg in the place of its option, if it has one. */
  ghost predicate Applied(g: Geometry, arg: Argument, r: Geometry) {
    forall key :: r.At(key) == if arg.Names(key) then arg.Pair(key) else g.At(key)
  }

  /** One argument, at p: the option it names gets the two numbers behind the prefix. */
  method ParseArgument(g: Geometry, mem: seq<char>, p: nat) returns (r: Geometry)
    requires PointsToString(mem, p)
    ensures Applied(g, ArgumentAt(mem, p), r)
  {
    r := g;
    var key := KeyOf(CStr(mem, p));
    if key.Some? {
      var pair := ScanOption(mem, p, key.value);
      r := g.With(key.value, pair);
      OneOption(g, ArgumentAt(mem, p), key.value, pair);
    }
  }

  lemma OneOption(g: Geometry, arg: Argument, key: Key, pair: (int, int))
    requires arg.Names(key) && pair == arg.Pair(key)
    ensures Applied(g, arg, g.With(key, pair))
  {
    forall k | arg.Names(k) ensures k == key {
      OneKey(arg.text, k, key);
    }
  }

  lemma OperandAt(mem: seq<char>, p: nat, key: Key)
    requires PointsToString(mem, p) && Matches(CStr(mem, p), key)
    ensures var q := p + |Prefix(key)|;
      && PointsToString(mem, q)
      && CStr(mem, q) == Operand(CStr(mem, p), key) && TextBehind(mem, q) == TextBehind(mem, p)
  {
    var n := |Prefix(key)|;
    CStrSuffix(mem, p, n);
    assert Find(mem, NUL, p + n) == Find(mem, NUL, p);
  }

  function ArgumentsAt(mem: seq<char>, argv: seq<nat>): (args: seq<Argument>)
    requires forall k :: 0 <= k < |argv| ==> PointsToString(mem, argv[k])
    ensures |args| == |argv|
    ensures forall k :: 0 <= k < |argv| ==> args[k] == ArgumentAt(mem, argv[k])
  {
    seq(|argv|, k requires 0 <= k < |argv| => ArgumentAt(mem, argv[k]))
  }

  lemma LastSnoc(args: seq<Argument>, arg: Argument, key: Key)
    ensures Last(args + [arg], key) == if arg.Names(key) then arg.Pair(key) else Last(args, key)
  {
    assert (args + [arg])[..|args|] == args;
  }

  /** Each pair is that of the last argument for it, or the default. */
  ghost predicate Reflects(g: Geometry, args: seq<Argument>) {
    forall key :: g.At(key) == Last(args, key)
  }

  /** What one more argument makes of a geometry that is right for the earlier ones. */
  lemma LastStep(g: Geometry, r: Geometry, args: seq<Argument>, i: nat)
    requires i < |args| && Reflects(g, args[..i])
    requires Applied(g, args[i], r)
    ensures Reflects(r, args[..i + 1])
  {
    assert args[..i + 1] == args[..i] + [args[i]];
    forall key ensures r.At(key) == Last(args[..i + 1], key) {
      LastSnoc(args[..i], args[i], key);
    }
  }

  lemma NoArguments(args: seq<Argument>)
    ensures Reflects(DEFAULTS, args[..0])
  {
  }

  /** One round of the loop. */
  method NextArgument(g: Geometry, mem: seq<char>, argv: seq<nat>, i: nat, ghost args: seq<Argument>)
    returns (r: Geometry)
    requires i < |argv| == |args| && PointsToString(mem, argv[i]) && args[i] == ArgumentAt(mem, argv[i])
    requires Reflects(g, args[..i])
    ensures Reflects(r, args[..i + 1])
  {
    r := ParseArgument(g, mem, argv[i]);
    LastStep(g, r, args, i);
  }

  /** The arguments after the program name, as pointers into mem. ok is false when no buffer
      size was given. */
  method ParseArguments(mem: seq<char>, argv: seq<nat>) returns (g: Geometry, ok: bool)
    requires forall k :: 0 <= k < |argv| ==> PointsToString(mem, argv[k])
    ensures Reflects(g, ArgumentsAt(mem, argv))
    ensures ok <==> g.dst.0 != -1 && g.dst.1 != -1
  {
    ghost var args := ArgumentsAt(mem, argv);
    g := DEFAULTS;
    NoArguments(args);
    var i := 0;
    while i < |argv|
      invariant i <= |argv| && Reflects(g, args[..i])
    {
      g := NextArgument(g, mem, argv, i, args);
      i := i + 1;
    }
    AllArguments(g, args, i);
    ok := !(g.dst.0 == -1 || g.dst.1 == -1);
  }

  lemma AllArguments(g: Geometry, args: seq<Argument>, n: nat)
    requires n == |args| && Reflects(g, args[..n])
    ensures Reflects(g, args)
  {
    assert args[..n] == args;
  }

  /** The last argument that names an option decides it. */
  lemma {:induction false} LastNamed(args: seq<Argument>, k: nat, key: Key)
    requires k < |args| && args[k].Names(key)
    requires forall j :: k < j < |args| ==> !args[j].Names(key)
    ensures Last(args, key) == args[k].Pair(key)
  {
    var n := |args| - 1;
    if k < n {
      assert !args[n].Names(key);
      LastNamed(args[..n], k, key);
    }
  }

  lemma PrintedOperand(arg: Argument, key: Key, x: nat, y: int, sep: char)
    requires !IsDigit(sep)
    requires arg.text == Prefix(key) + (PrintInt(x) + ([sep] + (PrintInt(y) + "")))
    ensures arg.Names(key) && arg.Pair(key) == (x, y)
  {
    ScanUnsigned(x, y, sep, "", arg.next);
    assert arg.text[|Prefix(key)|..] == PrintInt(x) + ([sep] + (PrintInt(y) + ""));
  }

  /** A pair printed without a sign in front arrives when no later argument names its option. */
  lemma PrintedOptionArrives(args: seq<Argument>, k: nat, key: Key, x: nat, y: int, sep: char)
    requires !IsDigit(sep) && k < |args|
    requires args[k].text == Prefix(key) + (PrintInt(x) + ([sep] + (PrintInt(y) + "")))
    requires forall j :: k < j < |args| ==> !args[j].Names(key)
    ensures Last(args, key) == (x, y)
  {
    PrintedOperand(args[k], key, x, y, sep);
    LastNamed(args, k, key);
  }

  // ------------------------------------------------------------------
  // The seven options by their text and the field they set
  // ------------------------------------------------------------------

  /** An argument in memory: the text at p and the one behind its terminator. */
  lemma ArgumentInMemory(mem: seq<char>, p: nat, text: string, next: string)
    requires '\0' !in text && '\0' !in next && p + |text| + 1 + |next| < |mem|
    requires mem[p..p + |text|] == text && mem[p + |text|] == '\0'
    requires var q := p + |text| + 1; mem[q..q + |next|] == next && mem[q + |next|] == '\0'
    ensures PointsToString(mem, p) && ArgumentAt(mem, p) == Argument(text, next)
  {
    StringAt(mem, p, text);
    StringAt(mem, p + |text| + 1, next);
  }

  /** The last argument that starts with the text of an option decides its field: the number
      behind that text, and the number behind the first character of the rest that is not a
      digit. */
  lemma LastArgumentDecides(g: Geometry, args: seq<Argument>, k: nat, option: string, field: (int, int))
    requires Reflects(g, args)
    requires (option == "-size=" && field == g.window) || (option == "-ssize=" && field == g.view)
      || (option == "-csize=" && field == g.crop) || (option == "-bsize=" && field == g.dst)
      || (option == "-pos=" && field == g.windowAt) || (option == "-cpos=" && field == g.cropAt)
      || (option == "-spos=" && field == g.viewAt)
    requires k < |args| && option <= args[k].text && forall j :: k < j < |args| ==> !(option <= args[j].text)
    ensures field == PairOf(args[k].text[|option|..], args[k].next)
  {
    var key := OptionKey(option);
    LastNamed(args, k, key);
  }

  ghost function OptionKey(option: string): Key {
    if option == "-size=" then Size
    else if option == "-ssize=" then Ssize
    else if option == "-csize=" then Csize
    else if option == "-bsize=" then Bsize
    else if option == "-pos=" then Pos
    else if option == "-cpos=" then Cpos
    else Spos
  }

  /** So a pair of numbers, the first without a sign, arrives in the field of its option,
      whatever character is between them. */
  lemma PrintedPairArrives(g: Geometry, args: seq<Argument>, k: nat, option: string, field: (int, int),
                           x: nat, y: int, sep: char)
    requires Reflects(g, args)
    requires (option == "-size=" && field == g.window) || (option == "-ssize=" && field == g.view)
      || (option == "-csize=" && field == g.crop) || (option == "-bsize=" && field == g.dst)
      || (option == "-pos=" && field == g.windowAt) || (option == "-cpos=" && field == g.cropAt)
      || (option == "-spos=" && field == g.viewAt)
    requires k < |args| && args[k].text == option + PrintInt(x) + [sep] + PrintInt(y) && !('0' <= sep <= '9')
    requires forall j :: k < j < |args| ==> !(option <= args[j].text)
    ensures field == (x, y)
  {
    PrintedPair(args[k].text, args[k].next, option, x, y, sep);
    LastArgumentDecides(g, args, k, option, field);
  }

  lemma PrintedPair(text: string, next: string, option: string, x: nat, y: int, sep: char)
    requires text == option + PrintInt(x) + [sep] + PrintInt(y) && !IsDigit(sep)
    ensures option <= text && PairOf(text[|option|..], next) == (x, y)
  {
    var operand := PrintInt(x) + ([sep] + (PrintInt(y) + ""));
    Regroup(option, PrintInt(x), [sep], PrintInt(y));
    assert text[|option|..] == operand;
    ScanUnsigned(x, y, sep, "", next);
  }

  lemma Regroup(a: string, b: string, c: string, d: string)
    ensures a + b + c + d == a + (b + (c + (d + "")))
  {
    assert d + "" == d && b + (c + d) == b + c + d;
  }

  /** An option that no argument spells keeps its default. */
  lemma NoArgumentKeepsDefault(g: Geometry, args: seq<Argument>, option: string)
    requires Reflects(g, args)
    requires forall j :: 0 <= j < |args| ==> !(option <= args[j].text)
    ensures option == "-size=" ==> g.window == (-1, -1)
    ensures option == "-ssize=" ==> g.view == (-1, -1)
    ensures option == "-csize=" ==> g.crop == (-1, -1)
    ensures option == "-bsize=" ==> g.dst == (-1, -1)
    ensures option == "-pos=" ==> g.windowAt == (0, 0)
    ensures option == "-cpos=" ==> g.cropAt == (-1, -1)
    ensures option == "-spos=" ==> g.viewAt == (0, 0)
  {
    var key := OptionKey(option);
    if Prefix(key) == option {
      NoneNamed(args, key);
    }
  }

  lemma {:induction false} NoneNamed(args: seq<Argument>, key: Key)
    requires forall j :: 0 <= j < |args| ==> !args[j].Names(key)
    ensures Last(args, key) == DEFAULTS.At(key)
  {
    if args != [] {
      NoneNamed(args[..|args| - 1], key);
    }
  }
}
