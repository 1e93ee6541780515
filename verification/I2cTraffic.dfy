/**
  What the bus sees, for every setting and every response stream.
 */
module I2cTraffic {
  import opened Wrappers
  import opened CText
  import opened HexList
  import opened I2cOptions
  import opened I2cBus
  import opened I2cControl

  /** The transfer a run is for, successful: the stopped send of a write, the receive of a
      read. */
  predicate Succeeded(e: Event) {
    (e.Recv? || (e.Send? && e.stop)) && e.rc == 0
  }

  // ------------------------------------------------------------------
  // One retried message
  // ------------------------------------------------------------------

  /** Bounded retry, on the trace: 1 to 11 events, all of the message, all failing but
      possibly the last, which succeeds exactly when one of the first 11 responses does. */
  lemma RetryTrace(rs: Responses, p: nat, m: Message)
    ensures var t := Retry(rs, p, m);
      && 1 <= |t| <= 11
      && (forall i :: 0 <= i < |t| ==> t[i] == m.With(rs(p + i).rc))
      && (forall i :: 0 <= i < |t| - 1 ==> t[i].rc != 0)
      && (t[|t| - 1].rc == 0 <==> Succeeds(rs, p))
      && (!Succeeds(rs, p) ==> |t| == 11)
    ensures Succeeds(rs, p) <==> exists k :: p <= k <= p + 10 && rs(k).rc == 0
  {
    CallsStopAtFirstSuccess(rs, p, RETRIES);
  }

  /** 1 to 11 attempts at m, with the responses from p on in order, all failing but possibly the
      last, and fewer than 11 only if the last succeeds. */
  ghost predicate IsRetry(t: seq<Event>, rs: Responses, p: nat, m: Message) {
    && 1 <= |t| <= 11
    && (forall i :: 0 <= i < |t| ==> t[i] == m.With(rs(p + i).rc))
    && (forall i :: 0 <= i < |t| - 1 ==> t[i].rc != 0)
    && (t[|t| - 1].rc == 0 || |t| == 11)
  }

  lemma RetryIsRetry(rs: Responses, p: nat, m: Message)
    ensures IsRetry(Retry(rs, p, m), rs, p, m) && |Retry(rs, p, m)| == Calls(rs, p, RETRIES)
    ensures Succeeds(rs, p) <==> Retry(rs, p, m)[|Retry(rs, p, m)| - 1].rc == 0
  {
    RetryTrace(rs, p, m);
  }

  // ------------------------------------------------------------------
  // Write mode
  // ------------------------------------------------------------------

  /** After the speed is set, a write run sends nothing but sub-address ++ data, with stop. */
  lemma WriteTraffic(c: Config, isOpen: bool, rs: Responses, p: nat)
    requires c.mode == "write"
    ensures var t := Run(c, isOpen, rs, p).trace;
      && |t| <= 12
      && (t != [] ==> t[0] == SetSpeed(c.speed, rs(p).rc))
      && forall i :: 1 <= i < |t| ==> t[i] == Send(c.slave, c.subaddr + c.data, true, rs(p + i).rc)
  {
    RetryIsRetry(rs, p + 1, Out(c.slave, c.subaddr + c.data, true));
  }

  // ------------------------------------------------------------------
  // Read mode
  // ------------------------------------------------------------------

  /** Event j of t is the acknowledged send of the sub-address. */
  predicate AddressedAt(t: seq<Event>, c: Config, j: int) {
    0 <= j < |t| && t[j] == Send(c.slave, c.subaddr, false, 0)
  }

  lemma ReadOnlyTraffic(c: Config, rs: Responses, p: nat)
    ensures var t := ReadOnlyRun(c, rs, p).trace;
      |t| <= RETRIES + 1 && forall i :: 0 <= i < |t| ==> t[i] == Recv(c.slave, c.readCount, rs(p + i).rc)
  {
    RetryTrace(rs, p, In(c.slave, c.readCount));
  }

  /** First n sends of the sub-address (without stop), then only receives, and those only if
      the last send succeeded or there is no sub-address. */
  ghost predicate Phased(t: seq<Event>, c: Config, n: int) {
    && 0 <= n <= |t|
    && (forall i :: 0 <= i < n ==> t[i] == Send(c.slave, c.subaddr, false, t[i].rc))
    && (forall i :: n <= i < |t| ==> t[i] == Recv(c.slave, c.readCount, t[i].rc))
    && (n < |t| && c.subaddr != [] ==> AddressedAt(t, c, n - 1))
  }

  lemma PhasedConcat(sends: seq<Event>, receives: seq<Event>, c: Config)
    requires Phased(sends, c, |sends|) && Phased(receives, c.(subaddr := []), 0)
    requires AddressedAt(sends, c, |sends| - 1)
    ensures Phased(sends + receives, c, |sends|)
  {
  }

  lemma ReadPhases(c: Config, rs: Responses, p: nat) returns (n: nat)
    ensures Phased(ReadRun(c, rs, p).trace, c, n) && (c.subaddr == [] ==> n == 0)
  {
    if c.subaddr == [] {
      n := 0;
      ReadOnlyTraffic(c, rs, p);
    } else if |c.subaddr| > BUFFER_SIZE {
      n := 0;
    } else {
      n := Calls(rs, p, RETRIES);
      var address := Retry(rs, p, Out(c.slave, c.subaddr, false));
      RetryTrace(rs, p, Out(c.slave, c.subaddr, false));
      assert Phased(address, c, n);
      if Succeeds(rs, p) {
        ReadOnlyTraffic(c, rs, p + n);
        PhasedConcat(address, ReadOnlyRun(c, rs, p + n).trace, c);
      }
    }
  }

  /** The read protocol: every send is the sub-address without stop, no send follows a
      receive, and a receive is only attempted after an acknowledged sub-address when one is
      given. */
  ghost predicate ReadProtocol(t: seq<Event>, c: Config) {
    && (forall i :: 0 <= i < |t| && t[i].SetSpeed? ==> i == 0)
    && (forall i :: 0 <= i < |t| && t[i].Send? ==> t[i] == Send(c.slave, c.subaddr, false, t[i].rc))
    && (forall i :: 0 <= i < |t| && t[i].Recv? ==> t[i] == Recv(c.slave, c.readCount, t[i].rc))
    && (forall i, j :: 0 <= i < j < |t| && t[i].Recv? ==> t[j].Recv?)
    && (forall i :: 0 <= i < |t| && t[i].Recv? && c.subaddr != [] ==> exists j :: j < i && AddressedAt(t, c, j))
  }

  lemma PhasedProtocol(speed: Event, u: seq<Event>, c: Config, n: int)
    requires speed.SetSpeed? && Phased(u, c, n)
    ensures ReadProtocol([speed] + u, c)
  {
    var t := [speed] + u;
    assert forall i :: 1 <= i < |t| ==> t[i] == u[i - 1];
    if n < |u| && c.subaddr != [] {
      assert AddressedAt(t, c, n);
    }
  }

  lemma ReadTraffic(c: Config, isOpen: bool, rs: Responses, p: nat)
    requires c.mode == "read"
    ensures ReadProtocol(Run(c, isOpen, rs, p).trace, c)
  {
    if Starts(c, isOpen) {
      var n := ReadPhases(c, rs, p + 1);
      PhasedProtocol(SetSpeed(c.speed, rs(p).rc), ReadRun(c, rs, p + 1).trace, c, n);
      PhasedProtocol(SetSpeed(c.speed, rs(p).rc), [], c, 0);
      assert [SetSpeed(c.speed, rs(p).rc)] + [] == [SetSpeed(c.speed, rs(p).rc)];
    }
  }

  /** A run attempts a receive exactly when the read branch gets that far: it depends on the
      settings, the speed call and the address phase only. */
  lemma ReceivesIff(c: Config, isOpen: bool, rs: Responses, p: nat)
    ensures var t := Run(c, isOpen, rs, p).trace;
      Receives(c, isOpen, rs, p) <==> exists i :: 0 <= i < |t| && t[i].Recv?
    ensures Receives(c, isOpen, rs, p) <==>
      && c.device.Some? && c.slave != 0 && c.mode == "read" && isOpen && rs(p).rc == 0 && c.readCount != 0
      && (c.subaddr == [] || (|c.subaddr| <= 16 && exists k :: p + 1 <= k <= p + 11 && rs(k).rc == 0))
  {
    AsksIff(c, rs, p + 1);
    var t := Run(c, isOpen, rs, p).trace;
    if Starts(c, isOpen) && rs(p).rc == 0 {
      var u := Transaction(c, rs, p + 1).trace;
      assert t == [SetSpeed(c.speed, 0)] + u;
      if c.mode == "write" {
        WriteTraffic(c, isOpen, rs, p);
      } else {
        ReadReceives(c, rs, p + 1);
        if AsksToReceive(c, rs, p + 1) {
          assert t[|t| - 1] == u[|u| - 1];
        }
      }
    }
  }

  lemma AsksIff(c: Config, rs: Responses, p: nat)
    ensures AsksToReceive(c, rs, p) <==>
      && c.readCount != 0
      && (c.subaddr == [] || (|c.subaddr| <= 16 && exists k :: p <= k <= p + 10 && rs(k).rc == 0))
  {
    RetryTrace(rs, p, Out(c.slave, c.subaddr, false));
  }

  lemma ReadReceives(c: Config, rs: Responses, p: nat)
    ensures var t := ReadRun(c, rs, p).trace;
      if AsksToReceive(c, rs, p) then t != [] && t[|t| - 1].Recv? else forall i :: 0 <= i < |t| ==> !t[i].Recv?
  {
    var q := p + Calls(rs, p, RETRIES);
    RetryTrace(rs, p, Out(c.slave, c.subaddr, false));
    RetryTrace(rs, p, In(c.slave, c.readCount));
    RetryTrace(rs, q, In(c.slave, c.readCount));
  }

  // ------------------------------------------------------------------
  // The whole trace
  // ------------------------------------------------------------------

  /** Everything a write run does on the bus after the speed is set: one retried send, or
      nothing at all without data or with more than 16 bytes. */
  lemma WriteTrace(c: Config, isOpen: bool, rs: Responses, p: nat) returns (sends: seq<Event>)
    requires c.device.Some? && c.slave != 0 && c.mode == "write" && isOpen && rs(p).rc == 0
    ensures Run(c, isOpen, rs, p).trace == [SetSpeed(c.speed, 0)] + sends
    ensures if c.data == [] || |c.subaddr| + |c.data| > 16 then sends == []
            else IsRetry(sends, rs, p + 1, Out(c.slave, c.subaddr + c.data, true))
  {
    sends := WriteRun(c, rs, p + 1).trace;
    RetryIsRetry(rs, p + 1, Out(c.slave, c.subaddr + c.data, true));
  }

  /** The same for a read run without a sub-address: one retried receive, or nothing for a
      count of zero. */
  lemma PlainReadTrace(c: Config, isOpen: bool, rs: Responses, p: nat) returns (receives: seq<Event>)
    requires c.device.Some? && c.slave != 0 && c.mode == "read" && isOpen && rs(p).rc == 0 && c.subaddr == []
    ensures Run(c, isOpen, rs, p).trace == [SetSpeed(c.speed, 0)] + receives
    ensures if c.readCount == 0 then receives == []
            else IsRetry(receives, rs, p + 1, In(c.slave, c.readCount))
  {
    receives := ReadOnlyRun(c, rs, p + 1).trace;
    ReadOnlyTrace(c, rs, p + 1);
  }

  /** With a sub-address of up to 16 bytes: its retried send, whatever the count is, and after a
      success a retried receive unless the count is zero. A longer one is not sent. */
  lemma AddressedReadTrace(c: Config, isOpen: bool, rs: Responses, p: nat)
    returns (sends: seq<Event>, receives: seq<Event>)
    requires c.device.Some? && c.slave != 0 && c.mode == "read" && isOpen && rs(p).rc == 0 && c.subaddr != []
    ensures Run(c, isOpen, rs, p).trace == [SetSpeed(c.speed, 0)] + (sends + receives)
    ensures |c.subaddr| > 16 ==> sends == receives == []
    ensures |c.subaddr| <= 16 ==>
      && IsRetry(sends, rs, p + 1, Out(c.slave, c.subaddr, false))
      && if sends[|sends| - 1].rc == 0 && c.readCount != 0 then
           IsRetry(receives, rs, p + 1 + |sends|, In(c.slave, c.readCount))
         else receives == []
  {
    sends, receives := AddressedRead(c, rs, p + 1);
  }

  lemma AddressedRead(c: Config, rs: Responses, p: nat) returns (sends: seq<Event>, receives: seq<Event>)
    requires c.subaddr != []
    ensures ReadRun(c, rs, p).trace == sends + receives
    ensures |c.subaddr| > 16 ==> sends == receives == []
    ensures |c.subaddr| <= 16 ==>
      && IsRetry(sends, rs, p, Out(c.slave, c.subaddr, false))
      && if sends[|sends| - 1].rc == 0 && c.readCount != 0 then
           IsRetry(receives, rs, p + |sends|, In(c.slave, c.readCount))
         else receives == []
  {
    sends, receives := [], [];
    if |c.subaddr| <= 16 {
      sends := Retry(rs, p, Out(c.slave, c.subaddr, false));
      RetryIsRetry(rs, p, Out(c.slave, c.subaddr, false));
      var q := p + Calls(rs, p, RETRIES);
      ReadOnlyTrace(c, rs, q);
      if Succeeds(rs, p) {
        receives := ReadOnlyRun(c, rs, q).trace;
      } else {
        assert sends + receives == sends;
      }
      assert ReadRun(c, rs, p).trace == sends + receives;
    }
  }

  lemma ReadOnlyTrace(c: Config, rs: Responses, p: nat)
    ensures var t := ReadOnlyRun(c, rs, p).trace;
      if c.readCount == 0 then t == [] else IsRetry(t, rs, p, In(c.slave, c.readCount))
  {
    RetryIsRetry(rs, p, In(c.slave, c.readCount));
  }

  // ------------------------------------------------------------------
  // Every run
  // ------------------------------------------------------------------

  /** The events of t carry the responses from p on, one each. */
  ghost predicate Follows(t: seq<Event>, rs: Responses, p: nat) {
    forall i :: 0 <= i < |t| ==> t[i].rc == rs(p + i).rc
  }

  lemma FollowsConcat(t: seq<Event>, u: seq<Event>, rs: Responses, p: nat)
    requires Follows(t, rs, p) && Follows(u, rs, p + |t|)
    ensures Follows(t + u, rs, p)
  {
    forall i | 0 <= i < |t + u| ensures (t + u)[i].rc == rs(p + i).rc {
      if i >= |t| {
        assert u[i - |t|].rc == rs(p + |t| + (i - |t|)).rc;
      }
    }
  }

  lemma RetryFollows(rs: Responses, p: nat, m: Message)
    ensures Follows(Retry(rs, p, m), rs, p) && |Retry(rs, p, m)| == Calls(rs, p, RETRIES) <= RETRIES + 1
  {
    RetryTrace(rs, p, m);
  }

  lemma ReadFollows(c: Config, rs: Responses, p: nat)
    ensures Follows(ReadRun(c, rs, p).trace, rs, p) && |ReadRun(c, rs, p).trace| <= 2 * RETRIES + 2
  {
    var receive := In(c.slave, c.readCount);
    if c.subaddr == [] {
      RetryFollows(rs, p, receive);
    } else {
      var address := Out(c.slave, c.subaddr, false);
      var q := p + Calls(rs, p, RETRIES);
      RetryFollows(rs, p, address);
      RetryFollows(rs, q, receive);
      FollowsConcat(Retry(rs, p, address), ReadOnlyRun(c, rs, q).trace, rs, p);
    }
  }

  lemma TransactionFollows(c: Config, rs: Responses, p: nat)
    ensures Follows(Transaction(c, rs, p).trace, rs, p) && |Transaction(c, rs, p).trace| <= 2 * RETRIES + 2
  {
    if c.mode == "write" {
      RetryFollows(rs, p, Out(c.slave, c.subaddr + c.data, true));
    } else {
      ReadFollows(c, rs, p);
    }
  }

  /** A run makes at most 23 driver calls; they get the responses of the stream in order,
      none skipped or used twice. */
  lemma RunFollowsResponses(c: Config, isOpen: bool, rs: Responses, p: nat)
    ensures var t := Run(c, isOpen, rs, p).trace; Follows(t, rs, p) && |t| <= 23
  {
    if Starts(c, isOpen) && rs(p).rc == 0 {
      TransactionFollows(c, rs, p + 1);
      FollowsConcat([SetSpeed(c.speed, 0)], Transaction(c, rs, p + 1).trace, rs, p);
    }
  }

  // ------------------------------------------------------------------
  // Completed runs
  // ------------------------------------------------------------------

  ghost predicate OneTransferAtTheEnd(t: seq<Event>) {
    && t != [] && Succeeded(t[|t| - 1])
    && forall i :: 0 <= i < |t| - 1 ==> !Succeeded(t[i])
  }

  lemma TransferLast(pre: seq<Event>, t: seq<Event>)
    requires OneTransferAtTheEnd(t) && forall e :: e in pre ==> !Succeeded(e)
    ensures OneTransferAtTheEnd(pre + t)
  {
    var u := pre + t;
    forall i | 0 <= i < |u| - 1 ensures !Succeeded(u[i]) {
      if i < |pre| {
        assert u[i] in pre;
      }
    }
  }

  lemma RetryTransfer(rs: Responses, p: nat, m: Message)
    requires m.In? || m.stop
    ensures OneTransferAtTheEnd(Retry(rs, p, m)) <==> Succeeds(rs, p)
  {
    RetryTrace(rs, p, m);
  }

  lemma WriteTransfer(c: Config, rs: Responses, p: nat)
    ensures var b := WriteRun(c, rs, p); b.outcome.Completed? ==> OneTransferAtTheEnd(b.trace)
  {
    RetryTransfer(rs, p, Out(c.slave, c.subaddr + c.data, true));
  }

  lemma ReadTransfer(c: Config, rs: Responses, p: nat)
    ensures var b := ReadRun(c, rs, p); b.outcome.Completed? ==> OneTransferAtTheEnd(b.trace)
  {
    if c.subaddr == [] {
      RetryTransfer(rs, p, In(c.slave, c.readCount));
    } else {
      var q := p + Calls(rs, p, RETRIES);
      var address := Retry(rs, p, Out(c.slave, c.subaddr, false));
      if ReadRun(c, rs, p).outcome.Completed? {
        RetryTransfer(rs, q, In(c.slave, c.readCount));
        TransferLast(address, ReadOnlyRun(c, rs, q).trace);
      }
    }
  }

  /** A run that reaches the final exit(0) has made exactly one successful data transfer, and
      it was the last thing on the bus. */
  lemma CompletedMeansTransferred(c: Config, isOpen: bool, rs: Responses, p: nat)
    ensures var b := Run(c, isOpen, rs, p); b.outcome.Completed? ==> OneTransferAtTheEnd(b.trace)
  {
    if Run(c, isOpen, rs, p).outcome.Completed? {
      if c.mode == "write" {
        WriteTransfer(c, rs, p + 1);
      } else {
        ReadTransfer(c, rs, p + 1);
      }
      TransferLast([SetSpeed(c.speed, 0)], Transaction(c, rs, p + 1).trace);
    }
  }

  // ------------------------------------------------------------------
  // When a run completes
  // ------------------------------------------------------------------

  /** Response k is the first success, within the 11 tries from p on. */
  ghost predicate FirstSuccess(rs: Responses, p: nat, k: int) {
    p <= k <= p + RETRIES && rs(k).rc == 0 && forall j :: p <= j < k ==> rs(j).rc != 0
  }

  ghost predicate AnySuccess(rs: Responses, p: nat) {
    exists k :: p <= k <= p + RETRIES && rs(k).rc == 0
  }

  lemma SucceedsAt(rs: Responses, p: nat)
    ensures Succeeds(rs, p) <==> FirstSuccess(rs, p, p + Calls(rs, p, RETRIES) - 1)
    ensures Succeeds(rs, p) <==> AnySuccess(rs, p)
    ensures forall k :: FirstSuccess(rs, p, k) ==> k == p + Calls(rs, p, RETRIES) - 1
  {
    CallsStopAtFirstSuccess(rs, p, RETRIES);
  }

  /** Settings and responses that let a transaction through, told without the retry loops. */
  ghost predicate Accepted(c: Config, rs: Responses, p: nat)
  {
    if c.mode == "write" then
      c.data != [] && |c.subaddr| + |c.data| <= BUFFER_SIZE && AnySuccess(rs, p)
    else
      && c.readCount != 0 && |c.subaddr| <= BUFFER_SIZE
      && if c.subaddr == [] then AnySuccess(rs, p)
         else exists k: nat :: FirstSuccess(rs, p, k) && AnySuccess(rs, k + 1)
  }

  lemma TransactionCompletes(c: Config, rs: Responses, p: nat)
    ensures Transaction(c, rs, p).outcome.Completed? <==> Accepted(c, rs, p)
  {
    SucceedsAt(rs, p);
    var k := p + Calls(rs, p, RETRIES) - 1;
    SucceedsAt(rs, k + 1);
  }

  lemma CompletedIff(c: Config, isOpen: bool, rs: Responses, p: nat)
    ensures Run(c, isOpen, rs, p).outcome.Completed?
       <==> Starts(c, isOpen) && rs(p).rc == 0 && Accepted(c, rs, p + 1)
  {
    if Starts(c, isOpen) {
      TransactionCompletes(c, rs, p + 1);
    }
  }

  /** The same written out. A write: sub-address and data fit into 16 bytes, there is data, and
      one of 11 sends succeeds. */
  lemma WriteCompletesIff(c: Config, isOpen: bool, rs: Responses, p: nat)
    requires c.mode == "write"
    ensures Run(c, isOpen, rs, p).outcome.Completed? <==>
      && c.device.Some? && c.slave != 0 && isOpen && rs(p).rc == 0
      && c.data != [] && |c.subaddr| + |c.data| <= 16
      && exists k :: p + 1 <= k <= p + 11 && rs(k).rc == 0
  {
    CompletedIff(c, isOpen, rs, p);
  }

  /** A read: the count is not zero, and one of 11 receives succeeds after the first success,
      at response k, among 11 sends of the sub-address if there is one. */
  lemma ReadCompletesIff(c: Config, isOpen: bool, rs: Responses, p: nat)
    requires c.mode == "read"
    ensures Run(c, isOpen, rs, p).outcome.Completed? <==>
      && c.device.Some? && c.slave != 0 && isOpen && rs(p).rc == 0 && c.readCount != 0
      && if c.subaddr == [] then exists m :: p + 1 <= m <= p + 11 && rs(m).rc == 0
         else
           && |c.subaddr| <= 16
           && exists k, m ::
                && p + 1 <= k <= p + 11 && rs(k).rc == 0 && (forall j :: p + 1 <= j < k ==> rs(j).rc != 0)
                && k + 1 <= m <= k + 11 && rs(m).rc == 0
  {
    CompletedIff(c, isOpen, rs, p);
    TwoPhases(rs, p + 1);
  }

  lemma TwoPhases(rs: Responses, p: nat)
    ensures (exists k: nat :: FirstSuccess(rs, p, k) && AnySuccess(rs, k + 1)) <==>
      exists k, m ::
        && p <= k <= p + 10 && rs(k).rc == 0 && (forall j :: p <= j < k ==> rs(j).rc != 0)
        && k + 1 <= m <= k + 11 && rs(m).rc == 0
  {
    forall k, m | p <= k <= p + 10 && rs(k).rc == 0 && (forall j :: p <= j < k ==> rs(j).rc != 0)
                  && k + 1 <= m <= k + 11 && rs(m).rc == 0
      ensures FirstSuccess(rs, p, k) && AnySuccess(rs, k + 1)
    {
    }
  }

  /** The tests between parsing and the bus, in order, with their exit statuses. A run that
      passes them sets the speed first, and ends in -1 unless it completes. */
  lemma RunStartsWith(c: Config, isOpen: bool, rs: Responses, p: nat)
    ensures var b := Run(c, isOpen, rs, p);
      if c.device.None? || c.slave == 0 || (c.mode != "write" && c.mode != "read") then
        b == Behaviour(Stopped(0), [])
      else if !isOpen then b == Behaviour(Stopped(-1), [])
      else
        && b.trace != [] && b.trace[0] == SetSpeed(c.speed, rs(p).rc)
        && (b.outcome == Completed || b.outcome == Stopped(-1))
        && (rs(p).rc != 0 ==> |b.trace| == 1 && b.outcome == Stopped(-1))
  {
  }

  // ------------------------------------------------------------------
  // The whole tool
  // ------------------------------------------------------------------

  /** main: parse, then run. */
  method Control(args: seq<Arg>, info: I2cControlInfo, bus: Bus, isOpen: bool) returns (outcome: Outcome)
    requires info.Valid() && Distinct(args)
    requires forall a :: a in args && a.value != null ==> NUL in a.value[..]
    requires !RejectsAny(Words(args)) && Receives(Meaning(Words(args)), isOpen, bus.responses, bus.pos) ==>
      CountFits(Meaning(Words(args)))
    modifies info, info.data, info.subaddr, bus, set a | a in args :: a.value
    ensures var ws := old(Words(args));
      if RejectsAny(ws) then outcome == Stopped(-1) && bus.trace == old(bus.trace)
      else
        var b := Run(Meaning(ws), isOpen, bus.responses, old(bus.pos));
        outcome == b.outcome && bus.trace == old(bus.trace) + b.trace
  {
    ghost var ws := Words(args);
    var rc := info.ParseCommandline(args);
    if rc == -1 {
      return Stopped(-1);
    }
    outcome := RunParsed(info, bus, isOpen, Meaning(ws));
  }

  /** Bytes given to the data option in print reach the wire unchanged. */
  lemma PrintedDataIsSent(ws: seq<Word>, bs: seq<byte>, upper: bool, isOpen: bool, rs: Responses, p: nat)
    requires Last(ws, Data) == Some(PrintHex(bs, upper)) && 1 <= |bs| <= 16
    requires Last(ws, Mode) == Some("write") && Last(ws, SubAddr) == None
    ensures var b := Run(Meaning(ws), isOpen, rs, p);
      b.outcome.Completed? ==> b.trace[|b.trace| - 1] == Send(Meaning(ws).slave, bs, true, 0)
  {
    var c := Meaning(ws);
    ListBytesOfPrint(bs, upper);
    assert c.data == bs && c.subaddr + c.data == bs;
    WriteTraffic(c, isOpen, rs, p);
    CompletedMeansTransferred(c, isOpen, rs, p);
  }
}
