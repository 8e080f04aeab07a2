/**
 * The I2C transport as the driver sees it. The two blocking primitives are
 * foreign calls, so they are an oracle (`Bus`) of the integers they return
 * and the bytes the reads deliver. Every driver operation returns its result
 * together with the trace of what it put on the bus, each transaction logged
 * with the transport's answers.
 */
module Transport {
  import opened Wrappers
  import opened Bytes

  /**
   * The transport oracle, indexed by transaction: `ret(t, 0)` is what the
   * first transfer of the driver's t-th transaction returns, `ret(t, 1)` what
   * the read that follows it returns, and `byte(t, j)` the byte the read of
   * transaction t delivers at buffer position j.
   */
  datatype Bus = Bus(ret: (nat, nat) -> int, byte: (nat, nat) -> Byte)

  /** One bus call, logged with the integer the transport returned. */
  datatype Transfer =
    | Write(addr: nat, payload: seq<Byte>, nostop: bool, ret: int)
    | Read(addr: nat, len: nat, nostop: bool, ret: int, data: seq<Byte>)
  {
    /** The call moved every byte it was asked to. */
    predicate Complete() {
      match this
      case Write(_, payload, _, ret) => ret == |payload|
      case Read(_, len, _, ret, _) => ret == len
    }
  }

  /**
   * One logged event: a bus transaction, or a wall-clock pause. A transaction
   * is a first transfer (`request`) and, when the driver kept the bus and went
   * on, the read that followed it (`reply`).
   */
  datatype Event =
    | Access(request: Transfer, reply: Option<Transfer>)
    | Delay(ms: nat)
  {
    /** The number of bus calls the event stands for. */
    function Calls(): nat {
      if Delay? then 0 else if reply.Some? then 2 else 1
    }

    /** Every transfer of the event moved all its bytes; a pause always completes. */
    predicate Complete() {
      Delay? || (request.Complete() && (reply.Some? ==> reply.value.Complete()))
    }

    /** A register read: both the address phase and the read phase completed. */
    predicate Succeeded() {
      Access? && request.Complete() && reply.Some? && reply.value.Complete()
    }

    /** The register command the transaction selected, if it opened with a one-byte write. */
    function Selected(): Option<Byte> {
      if Access? && request.Write? && |request.payload| == 1 then Some(request.payload[0]) else None
    }

    /** Every transfer of the event went to device address `addr`. */
    predicate To(addr: nat) {
      Delay? || (request.addr == addr && (reply.Some? ==> reply.value.addr == addr))
    }
  }

  /** A driver result together with the events it produced. */
  datatype Step<T> = Step(value: T, trace: seq<Event>)

  /** `i2c_write_blocking`, issued as the first transfer of transaction `k`. */
  function WriteBlocking(bus: Bus, k: nat, addr: nat, payload: seq<Byte>, nostop: bool): (e: Transfer)
    ensures e.Write? && e.addr == addr && e.payload == payload && e.nostop == nostop
    ensures e.Complete() <==> bus.ret(k, 0) == |payload|
  {
    Write(addr, payload, nostop, bus.ret(k, 0))
  }

  /** `i2c_read_blocking` of `len` bytes, issued as transfer `phase` of transaction `k`. */
  function ReadBlocking(bus: Bus, k: nat, phase: nat, addr: nat, len: nat, nostop: bool): (e: Transfer)
    ensures e.Read? && e.addr == addr && e.len == len && e.nostop == nostop
    ensures e.Complete() <==> bus.ret(k, phase) == len
    ensures |e.data| == len && forall j | 0 <= j < len :: e.data[j] == bus.byte(k, j)
  {
    Read(addr, len, nostop, bus.ret(k, phase), seq(len, j requires 0 <= j < len => bus.byte(k, j)))
  }

  /** How many bus calls a trace holds (pauses are not bus calls). */
  function Calls(trace: seq<Event>): nat {
    if trace == [] then 0
    else Calls(trace[..|trace| - 1]) + trace[|trace| - 1].Calls()
  }

  lemma {:induction false} CallsAppend(a: seq<Event>, b: seq<Event>)
    ensures Calls(a + b) == Calls(a) + Calls(b)
    decreases |b|
  {
    if b == [] {
      assert a + b == a;
    } else {
      var b' := b[..|b| - 1];
      assert (a + b)[..|a + b| - 1] == a + b';
      CallsAppend(a, b');
    }
  }

  /** Every event in the trace completed. */
  predicate AllComplete(trace: seq<Event>) {
    forall i | 0 <= i < |trace| :: trace[i].Complete()
  }

  lemma AllCompleteAppend(a: seq<Event>, b: seq<Event>)
    ensures AllComplete(a + b) <==> AllComplete(a) && AllComplete(b)
  {
    if AllComplete(a) && AllComplete(b) {
      forall i | 0 <= i < |a + b|
        ensures (a + b)[i].Complete()
      {
        if i >= |a| {
          assert (a + b)[i] == b[i - |a|];
        }
      }
    }
    if AllComplete(a + b) {
      forall i | 0 <= i < |a|
        ensures a[i].Complete()
      {
        assert (a + b)[i] == a[i];
      }
      forall i | 0 <= i < |b|
        ensures b[i].Complete()
      {
        assert (a + b)[|a| + i] == b[i];
      }
    }
  }

  /** Every bus call in the trace went to device address `addr`. */
  predicate AllTo(trace: seq<Event>, addr: nat) {
    forall i | 0 <= i < |trace| :: trace[i].To(addr)
  }

  lemma AllToAppend(a: seq<Event>, b: seq<Event>, addr: nat)
    ensures AllTo(a + b, addr) <==> AllTo(a, addr) && AllTo(b, addr)
  {
    if AllTo(a, addr) && AllTo(b, addr) {
      forall i | 0 <= i < |a + b|
        ensures (a + b)[i].To(addr)
      {
        if i >= |a| {
          assert (a + b)[i] == b[i - |a|];
        }
      }
    }
    if AllTo(a + b, addr) {
      forall i | 0 <= i < |a|
        ensures a[i].To(addr)
      {
        assert (a + b)[i] == a[i];
      }
      forall i | 0 <= i < |b|
        ensures b[i].To(addr)
      {
        assert (a + b)[|a| + i] == b[i];
      }
    }
  }

  /** The payloads of the transactions that open with a write, in order. */
  function Payloads(trace: seq<Event>): (r: seq<seq<Byte>>)
    ensures |r| <= |trace|
  {
    if trace == [] then []
    else
      var last := trace[|trace| - 1];
      Payloads(trace[..|trace| - 1]) + (if last.Access? && last.request.Write? then [last.request.payload] else [])
  }

  lemma {:induction false} PayloadsAppend(a: seq<Event>, b: seq<Event>)
    ensures Payloads(a + b) == Payloads(a) + Payloads(b)
    decreases |b|
  {
    if b == [] {
      assert a + b == a;
    } else {
      var b' := b[..|b| - 1];
      assert (a + b)[..|a + b| - 1] == a + b';
      PayloadsAppend(a, b');
    }
  }

  /** The pauses of the trace, in order, by duration. */
  function Delays(trace: seq<Event>): (r: seq<nat>)
    ensures |r| <= |trace|
  {
    if trace == [] then []
    else
      var last := trace[|trace| - 1];
      Delays(trace[..|trace| - 1]) + (if last.Delay? then [last.ms] else [])
  }

  lemma {:induction false} DelaysAppend(a: seq<Event>, b: seq<Event>)
    ensures Delays(a + b) == Delays(a) + Delays(b)
    decreases |b|
  {
    if b == [] {
      assert a + b == a;
    } else {
      var b' := b[..|b| - 1];
      assert (a + b)[..|a + b| - 1] == a + b';
      DelaysAppend(a, b');
    }
  }
}
