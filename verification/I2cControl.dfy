/**
  A whole run of the I2C tool: option parsing, then one write transaction or one
  (address write, read) transaction.
 */
module I2cControl {
  import opened CText
  import opened I2cOptions
  import opened I2cBus

  /** Stopped: an exit before the transaction could be completed, with the exit status.
      Completed: the final exit(0). */
  datatype Outcome = Stopped(status: int) | Completed

  datatype Behaviour = Behaviour(outcome: Outcome, trace: seq<Event>)

  predicate Starts(c: Config, isOpen: bool) {
    c.device.Some? && c.slave != 0 && (c.mode == "write" || c.mode == "read") && isOpen
  }

  /** A retried message: its events, and whether the last attempt succeeded. */
  function Retry(rs: Responses, p: nat, m: Message): seq<Event> {
    Attempts(rs, p, Calls(rs, p, RETRIES), m)
  }

  predicate Succeeds(rs: Responses, p: nat) {
    rs(p + Calls(rs, p, RETRIES) - 1).rc == 0
  }

  function OutcomeOf(ok: bool): Outcome {
    if ok then Completed else Stopped(-1)
  }

  function WriteRun(c: Config, rs: Responses, p: nat): Behaviour {
    var payload := c.subaddr + c.data;
    if c.data == [] || |payload| > BUFFER_SIZE then Behaviour(Stopped(-1), [])
    else Behaviour(OutcomeOf(Succeeds(rs, p)), Retry(rs, p, Out(c.slave, payload, true)))
  }

  function ReadOnlyRun(c: Config, rs: Responses, p: nat): Behaviour
  {
    if c.readCount == 0 then Behaviour(Stopped(-1), [])
    else Behaviour(OutcomeOf(Succeeds(rs, p)), Retry(rs, p, In(c.slave, c.readCount)))
  }

  function ReadRun(c: Config, rs: Responses, p: nat): Behaviour
  {
    if c.subaddr == [] then ReadOnlyRun(c, rs, p)
    else if |c.subaddr| > BUFFER_SIZE then Behaviour(Stopped(-1), [])
    else
      var address := Retry(rs, p, Out(c.slave, c.subaddr, false));
      if !Succeeds(rs, p) then Behaviour(Stopped(-1), address)
      else
        var rest := ReadOnlyRun(c, rs, p + Calls(rs, p, RETRIES));
        rest.(trace := address + rest.trace)
  }

  function Transaction(c: Config, rs: Responses, p: nat): Behaviour {
    if c.mode == "write" then WriteRun(c, rs, p) else ReadRun(c, rs, p)
  }

  /** Setting the bus speed, then the transaction. */
  function StartedRun(c: Config, rs: Responses, p: nat): Behaviour {
    var speed := [SetSpeed(c.speed, rs(p).rc)];
    if rs(p).rc != 0 then Behaviour(Stopped(-1), speed)
    else
      var rest := Transaction(c, rs, p + 1);
      rest.(trace := speed + rest.trace)
  }

  /** The behaviour of main after the options have been parsed. */
  function Run(c: Config, isOpen: bool, rs: Responses, p: nat): Behaviour {
    if !Starts(c, isOpen) then
      var early := c.device.None? || c.slave == 0 || (c.mode != "write" && c.mode != "read");
      Behaviour(Stopped(if early then 0 else -1), [])
    else StartedRun(c, rs, p)
  }

  /** Whether the read branch gets as far as a receive. */
  predicate AsksToReceive(c: Config, rs: Responses, p: nat) {
    c.readCount != 0 && (c.subaddr == [] || (|c.subaddr| <= BUFFER_SIZE && Succeeds(rs, p)))
  }

  /** The same for a whole run (lemma I2cTraffic.ReceivesIff). */
  predicate Receives(c: Config, isOpen: bool, rs: Responses, p: nat) {
    Starts(c, isOpen) && rs(p).rc == 0 && c.mode == "read" && AsksToReceive(c, rs, p + 1)
  }

  /** A receive needs a count that its 16-byte message can hold. */
  predicate CountFits(c: Config) {
    0 <= c.readCount <= BUFFER_SIZE
  }

  // ------------------------------------------------------------------
  // main
  // ------------------------------------------------------------------

  method WriteMode(info: I2cControlInfo, bus: Bus, ghost c: Config) returns (outcome: Outcome)
    requires info.Valid() && info.Settings() == c
    modifies bus
    ensures var b := WriteRun(c, bus.responses, old(bus.pos));
      outcome == b.outcome && bus.trace == old(bus.trace) + b.trace
  {
    var total := info.dataLen + info.subaddrLen;
    var writeBuffer := new byte[total];
    forall k | 0 <= k < info.subaddrLen {
      writeBuffer[k] := info.subaddr[k];
    }
    forall k | 0 <= k < info.dataLen {
      writeBuffer[info.subaddrLen + k] := info.data[k];
    }
    assert writeBuffer[..total] == c.subaddr + c.data;
    if info.dataLen == 0 {
      return Stopped(-1);
    }
    var rc := bus.Write(info.slave, writeBuffer, total, true);
    outcome := OutcomeOf(rc == 0);
  }

  method ReadOnly(info: I2cControlInfo, bus: Bus, ghost c: Config) returns (outcome: Outcome)
    requires info.Valid() && info.Settings() == c && (c.readCount != 0 ==> CountFits(c))
    modifies bus, info.data
    ensures var b := ReadOnlyRun(c, bus.responses, old(bus.pos));
      outcome == b.outcome && bus.trace == old(bus.trace) + b.trace
    ensures outcome.Completed? ==>
      bus.pos > 0 && forall k :: 0 <= k < c.readCount ==> info.data[k] == bus.responses(bus.pos - 1).fill(k)
  {
    if info.readCount == 0 {
      return Stopped(-1);
    }
    var rc := bus.Read(info.slave, info.data, info.readCount);
    outcome := OutcomeOf(rc == 0);
  }

  method ReadMode(info: I2cControlInfo, bus: Bus, ghost c: Config) returns (outcome: Outcome)
    requires info.Valid() && info.Settings() == c
    requires AsksToReceive(c, bus.responses, bus.pos) ==> CountFits(c)
    modifies bus, info.data
    ensures var b := ReadRun(c, bus.responses, old(bus.pos));
      outcome == b.outcome && bus.trace == old(bus.trace) + b.trace
    ensures outcome.Completed? ==>
      bus.pos > 0 && forall k :: 0 <= k < c.readCount ==> info.data[k] == bus.responses(bus.pos - 1).fill(k)
  {
    if info.subaddrLen != 0 {
      var rc := bus.Write(info.slave, info.subaddr, info.subaddrLen, false);
      if rc != 0 {
        return Stopped(-1);
      }
    }
    outcome := ReadOnly(info, bus, c);
  }

  method Transact(info: I2cControlInfo, bus: Bus, ghost c: Config) returns (outcome: Outcome)
    requires info.Valid() && info.Settings() == c && (c.mode == "write" || c.mode == "read")
    requires c.mode == "read" && AsksToReceive(c, bus.responses, bus.pos) ==> CountFits(c)
    modifies bus, info.data
    ensures var b := Transaction(c, bus.responses, old(bus.pos));
      outcome == b.outcome && bus.trace == old(bus.trace) + b.trace
    ensures outcome.Completed? && c.mode == "read" ==>
      bus.pos > 0 && forall k :: 0 <= k < c.readCount ==> info.data[k] == bus.responses(bus.pos - 1).fill(k)
  {
    if info.mode == "write" {
      outcome := WriteMode(info, bus, c);
    } else {
      outcome := ReadMode(info, bus, c);
    }
  }

  method RunStarted(info: I2cControlInfo, bus: Bus, ghost c: Config) returns (outcome: Outcome)
    requires info.Valid() && info.Settings() == c && (c.mode == "write" || c.mode == "read")
    requires bus.responses(bus.pos).rc == 0 && c.mode == "read" && AsksToReceive(c, bus.responses, bus.pos + 1) ==>
      CountFits(c)
    modifies bus, info.data
    ensures var b := StartedRun(c, bus.responses, old(bus.pos));
      outcome == b.outcome && bus.trace == old(bus.trace) + b.trace
    ensures outcome.Completed? && c.mode == "read" ==>
      bus.pos > 0 && forall k :: 0 <= k < c.readCount ==> info.data[k] == bus.responses(bus.pos - 1).fill(k)
  {
    var rc := bus.DevctlSetSpeed(info.speed);
    if rc != 0 {
      return Stopped(-1);
    }
    outcome := Transact(info, bus, c);
  }

  /** main from the parsed options on. A completed read leaves the received bytes in data. */
  method RunParsed(info: I2cControlInfo, bus: Bus, isOpen: bool, ghost c: Config) returns (outcome: Outcome)
    requires info.Valid() && info.Settings() == c
    requires Receives(c, isOpen, bus.responses, bus.pos) ==> CountFits(c)
    modifies bus, info.data
    ensures var b := Run(c, isOpen, bus.responses, old(bus.pos));
      outcome == b.outcome && bus.trace == old(bus.trace) + b.trace
    ensures outcome.Completed? && c.mode == "read" ==>
      bus.pos > 0 && forall k :: 0 <= k < c.readCount ==> info.data[k] == bus.responses(bus.pos - 1).fill(k)
  {
    if info.device.None? || info.slave == 0 || (info.mode != "write" && info.mode != "read") {
      return Stopped(0);
    }
    if !isOpen {
      return Stopped(-1);
    }
    outcome := RunStarted(info, bus, c);
  }
}
