/**
  The bus side of the I2C tool: bounded retries around the driver call, and the
  transactions a run performs. The driver is an arbitrary stream of responses; every call
  is recorded in a trace.
 */
module I2cBus {
  import opened CText

  /** rc == 0 is EOK; fill is what a receive leaves in the message buffer. */
  datatype Response = Response(rc: int, fill: nat -> byte)

  type Responses = nat -> Response

  datatype Event =
    | SetSpeed(speed: int, rc: int)
    | Send(addr: byte, bytes: seq<byte>, stop: bool, rc: int)
    | Recv(addr: byte, len: int, rc: int)

  datatype Message =
    | Out(addr: byte, bytes: seq<byte>, stop: bool)
    | In(addr: byte, len: int)
  {
    function With(rc: int): Event {
      match this
      case Out(a, bs, stop) => Send(a, bs, stop, rc)
      case In(a, len) => Recv(a, len, rc)
    }
  }

  const BUFFER_SIZE := 16
  const RETRIES := 10
  const TOO_LARGE := -1

  // ------------------------------------------------------------------
  // Retries
  // ------------------------------------------------------------------

  /** The driver calls of a retry loop that starts at response p with retry == left. */
  function Calls(rs: Responses, p: nat, left: nat): (n: nat)
    ensures 1 <= n <= left + 1
    decreases left, p
  {
    if left == 0 || rs(p).rc == 0 then 1 else 1 + Calls(rs, p + 1, left - 1)
  }

  /** What the number of calls means: failures only, up to a success or to exhaustion. */
  lemma {:induction false} CallsStopAtFirstSuccess(rs: Responses, p: nat, left: nat)
    ensures var n := Calls(rs, p, left);
      && (forall k :: p <= k < p + n - 1 ==> rs(k).rc != 0)
      && (rs(p + n - 1).rc == 0 || n == left + 1)
    ensures rs(p + Calls(rs, p, left) - 1).rc == 0 <==> exists k :: p <= k <= p + left && rs(k).rc == 0
    decreases left
  {
    if left > 0 && rs(p).rc != 0 {
      CallsStopAtFirstSuccess(rs, p + 1, left - 1);
    }
  }

  /** The events of n calls from response p on, all for the same message. */
  function Attempts(rs: Responses, p: nat, n: nat, message: Message): (t: seq<Event>)
    ensures |t| == n
    ensures forall k :: 0 <= k < n ==> t[k] == message.With(rs(p + k).rc)
  {
    seq(n, k requires 0 <= k => message.With(rs(p + k).rc))
  }

  /** One more call extends the trace of the attempts by its event. */
  lemma AttemptsSnoc(before: seq<Event>, rs: Responses, p: nat, n: nat, message: Message)
    ensures before + Attempts(rs, p, n, message) + [message.With(rs(p + n).rc)]
         == before + Attempts(rs, p, n + 1, message)
  {
    assert Attempts(rs, p, n, message) + [message.With(rs(p + n).rc)] == Attempts(rs, p, n + 1, message);
  }

  lemma CallsStep(rs: Responses, p: nat, left: nat)
    ensures left == 0 || rs(p).rc == 0 ==> Calls(rs, p, left) == 1
    ensures left > 0 && rs(p).rc != 0 ==> Calls(rs, p, left) == 1 + Calls(rs, p + 1, left - 1)
  {
  }

  class Bus {
    const responses: Responses
    var pos: nat
    ghost var trace: seq<Event>

    constructor (responses: Responses)
      ensures this.responses == responses && pos == 0 && trace == []
    {
      this.responses := responses;
      pos := 0;
      trace := [];
    }

    method DevctlSetSpeed(speed: int) returns (rc: int)
      modifies this
      ensures rc == responses(old(pos)).rc && pos == old(pos) + 1
      ensures trace == old(trace) + [SetSpeed(speed, rc)]
    {
      rc := responses(pos).rc;
      pos := pos + 1;
      trace := trace + [SetSpeed(speed, rc)];
    }

    method DevctlSend(addr: byte, buffer: array<byte>, len: nat, stop: bool) returns (rc: int)
      requires len <= buffer.Length
      modifies this
      ensures rc == responses(old(pos)).rc && pos == old(pos) + 1
      ensures trace == old(trace) + [Send(addr, buffer[..len], stop, rc)]
    {
      rc := responses(pos).rc;
      pos := pos + 1;
      trace := trace + [Send(addr, buffer[..len], stop, rc)];
    }

    method DevctlRecv(addr: byte, data: array<byte>, len: nat) returns (rc: int)
      requires len <= data.Length
      modifies this, data
      ensures rc == responses(old(pos)).rc && pos == old(pos) + 1
      ensures trace == old(trace) + [Recv(addr, len, rc)]
      ensures forall k :: 0 <= k < data.Length ==> data[k] == responses(old(pos)).fill(k)
    {
      rc := responses(pos).rc;
      var fill := responses(pos).fill;
      forall k | 0 <= k < data.Length {
        data[k] := fill(k);
      }
      pos := pos + 1;
      trace := trace + [Recv(addr, len, rc)];
    }

    /** Position and trace after the retry loop for one message. */
    twostate predicate Retried(message: Message)
      reads this
    {
      var n := Calls(responses, old(pos), RETRIES);
      pos == old(pos) + n && trace == old(trace) + Attempts(responses, old(pos), n, message)
    }

    method Copied(buffer: array<byte>, bytes: nat) returns (send: array<byte>)
      requires bytes <= BUFFER_SIZE && bytes <= buffer.Length
      ensures fresh(send) && send.Length == BUFFER_SIZE && send[..bytes] == buffer[..bytes]
    {
      send := new byte[BUFFER_SIZE];
      forall k | 0 <= k < bytes {
        send[k] := buffer[k];
      }
    }

    /** Call n of a retry loop that started at response p with trace before. */
    method SendAttempt(slave: byte, send: array<byte>, bytes: nat, stop: bool,
                       ghost before: seq<Event>, ghost p: nat, ghost n: nat)
      returns (rc: int)
      requires bytes <= send.Length && pos == p + n
      requires trace == before + Attempts(responses, p, n, Out(slave, send[..bytes], stop))
      modifies this
      ensures pos == p + n + 1 && rc == responses(p + n).rc
      ensures trace == before + Attempts(responses, p, n + 1, Out(slave, send[..bytes], stop))
    {
      rc := DevctlSend(slave, send, bytes, stop);
      AttemptsSnoc(before, responses, p, n, Out(slave, send[..bytes], stop));
    }

    method SendRetrying(slave: byte, send: array<byte>, bytes: nat, stop: bool) returns (rc: int)
      requires bytes <= send.Length
      modifies this
      ensures Retried(Out(slave, send[..bytes], stop)) && pos > old(pos) && rc == responses(pos - 1).rc
    {
      ghost var message, before, p, n := Out(slave, send[..bytes], stop), trace, pos, 0;
      ghost var calls := Calls(responses, p, RETRIES);
      var retry := RETRIES;
      assert before + Attempts(responses, p, 0, message) == before;
      while true
        invariant 0 <= retry && 0 <= n && pos == p + n
        invariant trace == before + Attempts(responses, p, n, message)
        invariant calls == n + Calls(responses, p + n, retry)
        decreases retry
      {
        CallsStep(responses, p + n, retry);
        rc := SendAttempt(slave, send, bytes, stop, before, p, n);
        n := n + 1;
        if retry == 0 || rc == 0 {
          break;
        }
        retry := retry - 1;
      }
    }

    /** i2c_write: refuses more than 16 bytes; otherwise sends, and resends while it fails. */
    method Write(slave: byte, buffer: array<byte>, bytes: nat, stop: bool) returns (rc: int)
      requires bytes <= buffer.Length
      modifies this
      ensures bytes > 16 ==> rc == -1 && pos == old(pos) && trace == old(trace)
      ensures bytes <= 16 ==>
        Retried(Out(slave, old(buffer[..bytes]), stop)) && pos > old(pos) && rc == responses(pos - 1).rc
    {
      if bytes > BUFFER_SIZE {
        return TOO_LARGE;
      }
      var send := Copied(buffer, bytes);
      rc := SendRetrying(slave, send, bytes, stop);
    }

    method ReceiveAttempt(slave: byte, msg: array<byte>, bytes: nat,
                          ghost before: seq<Event>, ghost p: nat, ghost n: nat)
      returns (rc: int)
      requires bytes <= msg.Length && pos == p + n
      requires trace == before + Attempts(responses, p, n, In(slave, bytes))
      modifies this, msg
      ensures pos == p + n + 1 && rc == responses(p + n).rc
      ensures trace == before + Attempts(responses, p, n + 1, In(slave, bytes))
      ensures forall k :: 0 <= k < msg.Length ==> msg[k] == responses(p + n).fill(k)
    {
      rc := DevctlRecv(slave, msg, bytes);
      AttemptsSnoc(before, responses, p, n, In(slave, bytes));
    }

    method ReceiveRetrying(slave: byte, msg: array<byte>, bytes: nat) returns (rc: int)
      requires bytes <= msg.Length
      modifies this, msg
      ensures Retried(In(slave, bytes)) && pos > old(pos) && rc == responses(pos - 1).rc
      ensures forall k :: 0 <= k < msg.Length ==> msg[k] == responses(pos - 1).fill(k)
    {
      ghost var message, before, p, n := In(slave, bytes), trace, pos, 0;
      ghost var calls := Calls(responses, p, RETRIES);
      var retry := RETRIES;
      assert before + Attempts(responses, p, 0, message) == before;
      while true
        invariant 0 <= retry && 0 <= n && pos == p + n
        invariant trace == before + Attempts(responses, p, n, message)
        invariant calls == n + Calls(responses, p + n, retry)
        decreases retry
      {
        CallsStep(responses, p + n, retry);
        rc := ReceiveAttempt(slave, msg, bytes, before, p, n);
        n := n + 1;
        if retry == 0 || rc == 0 {
          break;
        }
        retry := retry - 1;
      }
    }

    /** i2c_read: receives, and receives again while it fails; the buffer gets whatever the
        last call left in the message. */
    method Read(slave: byte, buffer: array<byte>, bytes: nat) returns (rc: int)
      requires bytes <= BUFFER_SIZE && bytes <= buffer.Length
      modifies this, buffer
      ensures Retried(In(slave, bytes)) && pos > old(pos) && rc == responses(pos - 1).rc
      ensures forall k :: 0 <= k < bytes ==> buffer[k] == responses(pos - 1).fill(k)
      ensures forall k :: bytes <= k < buffer.Length ==> buffer[k] == old(buffer[k])
    {
      var msg := new byte[BUFFER_SIZE];
      rc := ReceiveRetrying(slave, msg, bytes);
      forall k | 0 <= k < bytes {
        buffer[k] := msg[k];
      }
    }
  }
}
