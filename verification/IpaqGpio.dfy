/**
  The write-only GPIO banks of the iPaq and the shadow copy that stands in for reading
  them: the set, clear and get routines, and any number of clients interleaving them step
  by step on one CPU.
 */
module IpaqGpio {
  import opened Wrappers

  type word = bv32

  /** The two banks, EGPIO and ASIC2, have the same structure and the same routines. */
  datatype Bank = Egpio | Asic2

  datatype Op =
    | Set(bank: Bank, bits: word)
    | Clr(bank: Bank, bits: word)
  {
    /** The new shadow value: value |= bits, or value &= ~bits. */
    function Effect(value: word): word {
      if Set? then value | bits else value & !bits
    }
  }

  // ------------------------------------------------------------------
  // Interleaved steps
  // ------------------------------------------------------------------

  /** Where a client stands in a set or clear routine: interrupts disabled, value loaded,
      changed value stored, value loaded again for out32, register written. */
  datatype Pc =
    | Idle
    | Disabled(op: Op)
    | Loaded(op: Op, tmp: word)
    | Stored(op: Op)
    | Reloaded(op: Op, tmp: word)
    | Written(op: Op)

  datatype Port = Port(shadow: word, register: word)

  /** log records the finished operations in the order in which their critical sections
      ended. */
  datatype State = State(cur: nat, enabled: bool, egpio: Port, asic2: Port, pcs: seq<Pc>, log: seq<Op>) {
    function At(bank: Bank): Port {
      match bank case Egpio => egpio case Asic2 => asic2
    }

    function With(bank: Bank, port: Port): State {
      match bank case Egpio => this.(egpio := port) case Asic2 => this.(asic2 := port)
    }
  }

  /** A step is a context switch or one machine step of the running client. */
  datatype Label =
    | Switch(to: nat)
    | Begin(op: Op)
    | Load
    | Store
    | Reload
    | Out
    | Enable
    | Get(bank: Bank, result: word)

  predicate Initial(s: State, init: map<Bank, word>) {
    && s.cur < |s.pcs| && s.enabled && s.log == []
    && (forall c :: 0 <= c < |s.pcs| ==> s.pcs[c] == Idle)
    && Egpio in init && s.egpio == Port(init[Egpio], init[Egpio])
    && Asic2 in init && s.asic2 == Port(init[Asic2], init[Asic2])
  }

  /** On one CPU the running client keeps the CPU while interrupts are disabled. */
  function Step(s: State, l: Label): Option<State>
    requires s.cur < |s.pcs|
  {
    var pc := s.pcs[s.cur];
    match l
    case Switch(to) =>
      if s.enabled && to < |s.pcs| then Some(s.(cur := to)) else None
    case Begin(op) =>
      if pc.Idle? then Some(s.(enabled := false, pcs := s.pcs[s.cur := Disabled(op)])) else None
    case Load =>
      if pc.Disabled? then Some(s.(pcs := s.pcs[s.cur := Loaded(pc.op, s.At(pc.op.bank).shadow)])) else None
    case Store =>
      if pc.Loaded? then
        var port := s.At(pc.op.bank).(shadow := pc.op.Effect(pc.tmp));
        Some(s.With(pc.op.bank, port).(pcs := s.pcs[s.cur := Stored(pc.op)]))
      else None
    case Reload =>
      if pc.Stored? then Some(s.(pcs := s.pcs[s.cur := Reloaded(pc.op, s.At(pc.op.bank).shadow)])) else None
    case Out =>
      if pc.Reloaded? then
        var port := s.At(pc.op.bank).(register := pc.tmp);
        Some(s.With(pc.op.bank, port).(pcs := s.pcs[s.cur := Written(pc.op)]))
      else None
    case Enable =>
      if pc.Written? then
        Some(s.(enabled := true, pcs := s.pcs[s.cur := Idle], log := s.log + [pc.op]))
      else None
    case Get(bank, result) =>
      if pc.Idle? && result == s.At(bank).shadow then Some(s) else None
  }

  /** A run: its states, and the label of each step. */
  ghost predicate IsRun(states: seq<State>, labels: seq<Label>, init: map<Bank, word>) {
    && |states| == |labels| + 1 && Initial(states[0], init)
    && (forall i :: 0 <= i < |states| ==> states[i].cur < |states[i].pcs|)
    && forall i :: 0 <= i < |labels| ==> Step(states[i], labels[i]) == Some(states[i + 1])
  }

  // ------------------------------------------------------------------
  // What a bank should hold
  // ------------------------------------------------------------------

  /** The operations of log on one bank, applied in order. */
  function Fold(log: seq<Op>, bank: Bank, init: word): word {
    if log == [] then init
    else
      var op, v := log[|log| - 1], Fold(log[..|log| - 1], bank, init);
      if op.bank == bank then op.Effect(v) else v
  }

  predicate SingleBit(m: word) {
    m != 0 && m & (m - 1) == 0
  }

  lemma EveryBit(k: word)
    requires k < 32
    ensures SingleBit(1 << k)
  {
  }

  /** Whether op names the bit m of the bank. */
  predicate Names(op: Op, bank: Bank, m: word) {
    op.bank == bank && op.bits & m != 0
  }

  /** Operation k is the last one that names the bit. */
  ghost predicate LastNaming(log: seq<Op>, bank: Bank, m: word, k: int) {
    0 <= k < |log| && Names(log[k], bank, m) && forall j :: k < j < |log| ==> !Names(log[j], bank, m)
  }

  lemma OrBit(v: word, b: word, m: word)
    requires SingleBit(m)
    ensures (v | b) & m == if b & m == 0 then v & m else m
  {
  }

  lemma ClearBit(v: word, b: word, m: word)
    requires SingleBit(m)
    ensures (v & !b) & m == if b & m == 0 then v & m else 0
  {
  }

  lemma SetOnBit(op: Op, v: word, m: word)
    requires SingleBit(m) && op.Set?
    ensures op.Effect(v) & m == if op.bits & m == 0 then v & m else m
  {
    OrBit(v, op.bits, m);
  }

  lemma ClrOnBit(op: Op, v: word, m: word)
    requires SingleBit(m) && op.Clr?
    ensures op.Effect(v) & m == if op.bits & m == 0 then v & m else 0
  {
    ClearBit(v, op.bits, m);
  }

  /** What op leaves of bit m of a value whose bit m is w. */
  function BitAfter(op: Op, m: word, w: word): word {
    if op.bits & m == 0 then w else if op.Set? then m else 0
  }

  lemma EffectOnBit(op: Op, v: word, m: word)
    requires SingleBit(m)
    ensures op.Effect(v) & m == BitAfter(op, m, v & m)
  {
    if op.Set? {
      SetOnBit(op, v, m);
    } else {
      ClrOnBit(op, v, m);
    }
  }

  lemma {:induction false} FoldUnnamed(log: seq<Op>, bank: Bank, init: word, m: word)
    requires SingleBit(m) && forall j :: 0 <= j < |log| ==> !Names(log[j], bank, m)
    ensures Fold(log, bank, init) & m == init & m
  {
    if log != [] {
      var n := |log| - 1;
      FoldUnnamed(log[..n], bank, init, m);
      assert !Names(log[n], bank, m);
      EffectOnBit(log[n], Fold(log[..n], bank, init), m);
    }
  }

  /** Each bit is what the last operation that named it made it. */
  lemma {:induction false} FoldNamed(log: seq<Op>, bank: Bank, init: word, m: word, k: int)
    requires SingleBit(m) && LastNaming(log, bank, m, k)
    ensures Fold(log, bank, init) & m == if log[k].Set? then m else 0
  {
    var n := |log| - 1;
    EffectOnBit(log[n], Fold(log[..n], bank, init), m);
    if k < n {
      assert !Names(log[n], bank, m);
      FoldNamed(log[..n], bank, init, m, k);
    }
  }

  // ------------------------------------------------------------------
  // The invariant
  // ------------------------------------------------------------------

  /** Shadow and register of op's own bank, whose committed value is v, at pc. */
  predicate MidOperation(pc: Pc, port: Port, v: word) {
    match pc
    case Idle => port == Port(v, v)
    case Disabled(op) => port == Port(v, v)
    case Loaded(op, tmp) => port == Port(v, v) && tmp == v
    case Stored(op) => port == Port(op.Effect(v), v)
    case Reloaded(op, tmp) => port == Port(op.Effect(v), v) && tmp == op.Effect(v)
    case Written(op) => port == Port(op.Effect(v), op.Effect(v))
  }

  /** Bank b relative to the log: only the bank of the running operation may differ. */
  predicate BankInv(s: State, b: Bank, init: word)
    requires s.cur < |s.pcs|
  {
    var pc, v := s.pcs[s.cur], Fold(s.log, b, init);
    if pc.Idle? || pc.op.bank != b then s.At(b) == Port(v, v) else MidOperation(pc, s.At(b), v)
  }

  ghost predicate Inv(s: State, init: map<Bank, word>) {
    && s.cur < |s.pcs| && Egpio in init && Asic2 in init
    && (forall c :: 0 <= c < |s.pcs| && c != s.cur ==> s.pcs[c] == Idle)
    && (s.enabled <==> s.pcs[s.cur] == Idle)
    && BankInv(s, Egpio, init[Egpio]) && BankInv(s, Asic2, init[Asic2])
  }

  lemma FoldSnoc(log: seq<Op>, op: Op, bank: Bank, init: word)
    ensures Fold(log + [op], bank, init)
         == if op.bank == bank then op.Effect(Fold(log, bank, init)) else Fold(log, bank, init)
  {
    assert (log + [op])[..|log|] == log;
  }

  lemma BankInvStep(s: State, l: Label, s': State, b: Bank, init: map<Bank, word>)
    requires Inv(s, init) && Step(s, l) == Some(s')
    ensures s'.cur < |s'.pcs| && BankInv(s', b, init[b])
  {
    if l.Enable? {
      FoldSnoc(s.log, s.pcs[s.cur].op, b, init[b]);
    }
  }

  lemma InvStep(s: State, l: Label, s': State, init: map<Bank, word>)
    requires Inv(s, init) && Step(s, l) == Some(s')
    ensures Inv(s', init)
  {
    BankInvStep(s, l, s', Egpio, init);
    BankInvStep(s, l, s', Asic2, init);
  }

  lemma {:induction false} RunInv(states: seq<State>, labels: seq<Label>, init: map<Bank, word>, i: nat)
    requires IsRun(states, labels, init) && i < |states|
    ensures Inv(states[i], init)
  {
    if i > 0 {
      RunInv(states, labels, init, i - 1);
      InvStep(states[i - 1], labels[i - 1], states[i], init);
    }
  }

  // ------------------------------------------------------------------
  // Theorems over all runs
  // ------------------------------------------------------------------

  /** Bit m of the value v is what the last operation in log naming it made it, or else its
      initial value. */
  ghost predicate LastWriterWins(log: seq<Op>, b: Bank, init: word, m: word, v: word) {
    && (forall k :: LastNaming(log, b, m, k) ==> v & m == if log[k].Set? then m else 0)
    && ((forall k :: 0 <= k < |log| ==> !Names(log[k], b, m)) ==> v & m == init & m)
  }

  lemma FoldLastWriterWins(log: seq<Op>, b: Bank, init: word, m: word)
    requires SingleBit(m)
    ensures LastWriterWins(log, b, init, m, Fold(log, b, init))
  {
    var v := Fold(log, b, init);
    forall k | LastNaming(log, b, m, k) ensures v & m == if log[k].Set? then m else 0 {
      FoldNamed(log, b, init, m, k);
    }
    if forall k :: 0 <= k < |log| ==> !Names(log[k], b, m) {
      FoldUnnamed(log, b, init, m);
    }
  }

  /** Whenever interrupts are enabled, both banks hold the committed value in shadow and
      register. */
  lemma Settled(s: State, init: map<Bank, word>, b: Bank)
    requires Inv(s, init) && s.pcs[s.cur].Idle?
    ensures b in init && s.At(b) == Port(Fold(s.log, b, init[b]), Fold(s.log, b, init[b]))
  {
    match b case Egpio => case Asic2 =>
  }

  lemma NoLostUpdate(states: seq<State>, labels: seq<Label>, init: map<Bank, word>, i: nat, b: Bank, m: word)
    requires IsRun(states, labels, init) && i < |states| && states[i].enabled && SingleBit(m)
    ensures states[i].At(b).shadow == states[i].At(b).register
    ensures b in init && LastWriterWins(states[i].log, b, init[b], m, states[i].At(b).register)
  {
    RunInv(states, labels, init, i);
    Settled(states[i], init, b);
    FoldLastWriterWins(states[i].log, b, init[b], m);
  }

  /** At most one client is inside a routine, and it is the running one. */
  lemma MutualExclusion(states: seq<State>, labels: seq<Label>, init: map<Bank, word>, i: nat, c: nat)
    requires IsRun(states, labels, init) && i < |states| && c < |states[i].pcs|
    ensures states[i].pcs[c] != Idle <==> c == states[i].cur && !states[i].enabled
  {
    RunInv(states, labels, init, i);
  }

  /** A get never sees a half-done operation: it returns the register's own content. */
  lemma GetIsCommitted(states: seq<State>, labels: seq<Label>, init: map<Bank, word>, i: nat, b: Bank, v: word)
    requires IsRun(states, labels, init) && i < |labels| && labels[i] == Get(b, v)
    ensures b in init && v == states[i].At(b).register == Fold(states[i].log, b, init[b])
  {
    assert Step(states[i], labels[i]) == Some(states[i + 1]);
    RunInv(states, labels, init, i);
    Settled(states[i], init, b);
  }

  /** The machine has runs for any number of clients and any initial contents. */
  lemma RunsStart(n: nat, cur: nat, init: map<Bank, word>)
    requires cur < n && Egpio in init && Asic2 in init
    ensures var s := State(cur, true, Port(init[Egpio], init[Egpio]), Port(init[Asic2], init[Asic2]),
                           seq(n, c => Idle), []);
      Initial(s, init) && IsRun([s], [], init)
  {
  }

  /** With interrupts enabled the CPU can go to any client, and the running one can begin any
      operation and read the register's content and nothing else ... */
  lemma EnabledSteps(states: seq<State>, labels: seq<Label>, init: map<Bank, word>, i: nat, to: nat, op: Op, b: Bank)
    requires IsRun(states, labels, init) && i < |states| && states[i].enabled && to < |states[i].pcs|
    ensures Step(states[i], Switch(to)).Some? && Step(states[i], Begin(op)).Some?
    ensures forall v :: Step(states[i], Get(b, v)).Some? <==> v == states[i].At(b).register
  {
    RunInv(states, labels, init, i);
    Settled(states[i], init, b);
  }

  /** ... and with interrupts disabled its next step is the only one possible. */
  lemma DisabledStep(states: seq<State>, labels: seq<Label>, init: map<Bank, word>, i: nat, l: Label)
    requires IsRun(states, labels, init) && i < |states| && !states[i].enabled
    ensures Step(states[i], l).Some? <==>
      match states[i].pcs[states[i].cur]
      case Disabled(_) => l == Load
      case Loaded(_, _) => l == Store
      case Stored(_) => l == Reload
      case Reloaded(_, _) => l == Out
      case Written(_) => l == Enable
      case Idle => false
  {
    RunInv(states, labels, init, i);
  }

  /** The operations begun, in order. */
  function Begun(labels: seq<Label>): seq<Op> {
    if labels == [] then []
    else
      var l := labels[|labels| - 1];
      Begun(labels[..|labels| - 1]) + if l.Begin? then [l.op] else []
  }

  function InProgress(s: State): seq<Op>
    requires s.cur < |s.pcs|
  {
    if s.pcs[s.cur].Idle? then [] else [s.pcs[s.cur].op]
  }

  lemma LoggedStep(s: State, l: Label, s': State)
    requires s.cur < |s.pcs| && Step(s, l) == Some(s') && s'.cur < |s'.pcs|
    requires forall c :: 0 <= c < |s.pcs| && c != s.cur ==> s.pcs[c] == Idle
    requires s.enabled <==> s.pcs[s.cur] == Idle
    ensures s'.log + InProgress(s') == s.log + InProgress(s) + if l.Begin? then [l.op] else []
  {
    match l
    case Switch(to) =>
    case Begin(op) =>
    case _ =>
  }

  /** No operation is dropped, duplicated or reordered: the log is the sequence of begun
      operations, short of the one in progress. */
  lemma {:induction false} EveryOperationLogged(states: seq<State>, labels: seq<Label>, init: map<Bank, word>, i: nat)
    requires IsRun(states, labels, init) && i < |states|
    ensures Begun(labels[..i]) == states[i].log + InProgress(states[i])
  {
    if i > 0 {
      EveryOperationLogged(states, labels, init, i - 1);
      RunInv(states, labels, init, i - 1);
      assert labels[..i][..i - 1] == labels[..i - 1];
      LoggedStep(states[i - 1], labels[i - 1], states[i]);
    }
  }

  // ------------------------------------------------------------------
  // The step machine runs the same routines
  // ------------------------------------------------------------------

  /** The steps of one undisturbed set or clear call. */
  function Routine(op: Op): seq<Label> {
    [Begin(op), Load, Store, Reload, Out, Enable]
  }

  /** The state after a sequence of steps, if all of them can be taken. */
  function Steps(s: State, labels: seq<Label>): (r: Option<State>)
    requires s.cur < |s.pcs|
    decreases |labels|
  {
    if labels == [] then Some(s)
    else
      match Step(s, labels[0])
      case None => None
      case Some(next) => Steps(next, labels[1..])
  }

  /** The state after the third step: the new value is in the shadow only. */
  function AfterStore(s: State, op: Op): State
    requires s.cur < |s.pcs|
  {
    s.With(op.bank, s.At(op.bank).(shadow := op.Effect(s.At(op.bank).shadow)))
     .(enabled := false, pcs := s.pcs[s.cur := Stored(op)])
  }

  lemma UpdateTwice(pcs: seq<Pc>, c: nat, a: Pc, b: Pc)
    requires c < |pcs|
    ensures pcs[c := a][c := b] == pcs[c := b]
  {
  }

  lemma EnterAndStore(s: State, op: Op)
    requires s.cur < |s.pcs| && s.enabled && s.pcs[s.cur] == Idle
    ensures Steps(s, [Begin(op), Load, Store]) == Some(AfterStore(s, op))
  {
    var s1 := s.(enabled := false, pcs := s.pcs[s.cur := Disabled(op)]);
    var s2 := s1.(pcs := s.pcs[s.cur := Loaded(op, s.At(op.bank).shadow)]);
    UpdateTwice(s.pcs, s.cur, Disabled(op), s2.pcs[s.cur]);
    UpdateTwice(s.pcs, s.cur, s2.pcs[s.cur], Stored(op));
    assert Step(s, Begin(op)) == Some(s1) && Step(s1, Load) == Some(s2);
    assert Step(s2, Store) == Some(AfterStore(s, op));
    StepsVia(s, [Begin(op), Load, Store], [s1, s2, AfterStore(s, op)]);
  }

  lemma OutAndLeave(s: State, op: Op)
    requires s.cur < |s.pcs| && !s.enabled && s.pcs[s.cur] == Stored(op)
    ensures var v := s.At(op.bank).shadow;
      Steps(s, [Reload, Out, Enable])
        == Some(s.With(op.bank, Port(v, v)).(enabled := true, pcs := s.pcs[s.cur := Idle], log := s.log + [op]))
  {
    var v := s.At(op.bank).shadow;
    var s1 := s.(pcs := s.pcs[s.cur := Reloaded(op, v)]);
    var s2 := s.With(op.bank, Port(v, v)).(pcs := s.pcs[s.cur := Written(op)]);
    var s3 := s.With(op.bank, Port(v, v)).(enabled := true, pcs := s.pcs[s.cur := Idle], log := s.log + [op]);
    UpdateTwice(s.pcs, s.cur, Reloaded(op, v), Written(op));
    UpdateTwice(s.pcs, s.cur, Written(op), Idle);
    assert Step(s, Reload) == Some(s1) && Step(s1, Out) == Some(s2) && Step(s2, Enable) == Some(s3);
    StepsVia(s, [Reload, Out, Enable], [s1, s2, s3]);
  }

  lemma {:induction false} StepsConcat(s: State, a: seq<Label>, b: seq<Label>, t: State)
    requires s.cur < |s.pcs| && Steps(s, a) == Some(t) && t.cur < |t.pcs|
    ensures Steps(s, a + b) == Steps(t, b)
    decreases |a|
  {
    if a == [] {
      assert a + b == b;
    } else {
      assert (a + b)[1..] == a[1..] + b;
      StepsConcat(Step(s, a[0]).value, a[1..], b, t);
    }
  }

  /** From an idle client with interrupts enabled the six steps of a call can all be taken;
      they give shadow and register of the operation's bank its effect, leave the other bank
      and the other clients alone, and finish the operation. */
  lemma RoutineRuns(s: State, op: Op)
    requires s.cur < |s.pcs| && s.enabled && s.pcs[s.cur] == Idle
    ensures var v := op.Effect(s.At(op.bank).shadow);
      Steps(s, Routine(op)) == Some(s.With(op.bank, Port(v, v)).(log := s.log + [op]))
  {
    var t := AfterStore(s, op);
    EnterAndStore(s, op);
    OutAndLeave(t, op);
    StepsConcat(s, [Begin(op), Load, Store], [Reload, Out, Enable], t);
    assert Routine(op) == [Begin(op), Load, Store] + [Reload, Out, Enable];
    UpdateTwice(s.pcs, s.cur, Stored(op), Idle);
    assert s.pcs[s.cur := Idle] == s.pcs;
  }

  lemma {:induction false} StepsVia(s: State, labels: seq<Label>, via: seq<State>)
    requires |labels| == |via| && s.cur < |s.pcs|
    requires forall i :: 0 <= i < |via| ==> via[i].cur < |via[i].pcs|
    requires via != [] ==> Step(s, labels[0]) == Some(via[0])
    requires forall i :: 1 <= i < |via| ==> Step(via[i - 1], labels[i]) == Some(via[i])
    ensures Steps(s, labels) == Some(if via == [] then s else via[|via| - 1])
    decreases |labels|
  {
    if via != [] {
      var l, v := labels[1..], via[1..];
      assert forall i :: 1 <= i < |v| ==> Step(v[i - 1], l[i]) == Step(via[i], labels[i + 1]);
      StepsVia(via[0], l, v);
    }
  }

  // ------------------------------------------------------------------
  // The routines, one after the other
  // ------------------------------------------------------------------

  /** struct hwi_ipaq_egpio / hwi_ipaq_asic2, with the register behind addr. */
  class HwiGpio {
    const bank: Bank
    var value: word
    var register: word

    constructor (bank: Bank, value: word)
      ensures this.bank == bank && this.value == register == value
    {
      this.bank, this.value, register := bank, value, value;
    }

    method SetBits(bits: word)
      modifies this
      ensures value == register == old(value) | bits == Set(bank, bits).Effect(old(value))
    {
      value := value | bits;
      register := value;
    }

    method ClrBits(bits: word)
      modifies this
      ensures value == register == old(value) & !bits == Clr(bank, bits).Effect(old(value))
    {
      value := value & !bits;
      register := value;
    }

    method Get() returns (v: word)
      ensures v == value && (value == register ==> v == register)
    {
      v := value;
    }

    /** Calls one routine for each operation on this bank; the result is read back by get. */
    method Perform(ops: seq<Op>) returns (v: word)
      requires value == register
      modifies this
      ensures v == value == register == Fold(ops, bank, old(value))
    {
      assert ops[..|ops|] == ops;
      for i := 0 to |ops|
        invariant value == register == Fold(ops[..i], bank, old(value))
      {
        FoldSnoc(ops[..i], ops[i], bank, old(value));
        assert ops[..i + 1] == ops[..i] + [ops[i]];
        if ops[i].bank == bank {
          match ops[i] {
            case Set(_, bits) => SetBits(bits);
            case Clr(_, bits) => ClrBits(bits);
          }
        }
      }
      v := Get();
    }
  }

  // ------------------------------------------------------------------
  // Packed input words
  // ------------------------------------------------------------------

  function GetX(a: word): word { a & 0x7FF }
  function GetY(a: word): word { (a >> 11) & 0x7FF }
  function GetButtons(a: word): word { (a >> 22) & 0x3FF }

  function Input(x: word, y: word, z: word): word {
    (x & 0x7FF) | ((y & 0x7FF) << 11) | ((z & 0x3FF) << 22)
  }

  /** Packing and unpacking are inverse: each field comes back masked to its width, and every
      word is the packing of its own fields. */
  lemma PackedInputBijection(x: word, y: word, z: word, a: word)
    ensures GetX(Input(x, y, z)) == x & 0x7FF
    ensures GetY(Input(x, y, z)) == y & 0x7FF
    ensures GetButtons(Input(x, y, z)) == z & 0x3FF
    ensures Input(GetX(a), GetY(a), GetButtons(a)) == a
  {
  }

  /** The places of the fields: x in bits 0 to 10, y in bits 11 to 21, the buttons above. */
  lemma PackedPlaces(x: word, y: word, z: word)
    requires x < 0x800 && y < 0x800 && z < 0x400
    ensures Input(x, y, z) == x + y * 0x800 + z * 0x40_0000
  {
  }
}
