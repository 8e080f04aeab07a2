/**
 * The start-up diagnostics: the bus scanner and the sensor identity test.
 */
module Diagnostics {
  import opened Wrappers
  import opened Registers
  import opened Transport
  import opened Protocol

  /** The lowest address the scanner probes; 0 to 7 are reserved by the I2C standard. */
  const FirstProbe: nat := 8

  /** The highest address the scanner probes; 120 to 127 are reserved by the I2C standard. */
  const LastProbe: nat := 119

  /** How many addresses the scanner probes. */
  const ProbeCount: nat := LastProbe - FirstProbe + 1

  /**
   * The probe of address `addr`: a one-byte read that releases the bus,
   * issued as the scan's `(addr - FirstProbe)`-th transaction.
   */
  function Probe(bus: Bus, k: nat, addr: nat): (e: Event)
    requires addr >= FirstProbe
    ensures e.Access? && e.reply.None? && e.request.Read?
    ensures e.request.addr == addr && e.request.len == 1 && !e.request.nostop
  {
    Access(ReadBlocking(bus, k + (addr - FirstProbe), 0, addr, 1, false), None)
  }

  /**
   * `i2c_scanner`: walk the 7-bit address space in rows of 16, skip the
   * reserved addresses, and probe each other address with a one-byte read.
   * An address counts as present when its probe returns a non-negative
   * value. Every address from 8 to 119 is probed exactly once, in increasing
   * order, and no other address is probed. The sensor's own address 0x29
   * is among them: it is reported present exactly when its probe answered.
   */
  method Scan(bus: Bus, k: nat) returns (present: set<nat>, found: bool, trace: seq<Event>)
    ensures |trace| == ProbeCount
    ensures forall i | 0 <= i < |trace| :: trace[i] == Probe(bus, k, FirstProbe + i)
    ensures forall a :: a in present <==> FirstProbe <= a <= LastProbe && bus.ret(k + (a - FirstProbe), 0) >= 0
    ensures found <==> present != {}
    ensures DeviceAddress in present <==> bus.ret(k + (DeviceAddress - FirstProbe), 0) >= 0
  {
    present, found, trace := {}, false, [];
    var row := 0;
    while row < 128
      invariant 0 <= row <= 128 && row % 16 == 0
      invariant |trace| == Probed(row)
      invariant forall j | 0 <= j < |trace| :: trace[j] == Probe(bus, k, FirstProbe + j)
      invariant forall a :: a in present <==> FirstProbe <= a < FirstProbe + |trace| && bus.ret(k + (a - FirstProbe), 0) >= 0
      invariant found <==> present != {}
    {
      var i := 0;
      while i < 16
        invariant 0 <= i <= 16
        invariant |trace| == Probed(row + i)
        invariant forall j | 0 <= j < |trace| :: trace[j] == Probe(bus, k, FirstProbe + j)
        invariant forall a :: a in present <==> FirstProbe <= a < FirstProbe + |trace| && bus.ret(k + (a - FirstProbe), 0) >= 0
        invariant found <==> present != {}
      {
        var address := row + i;
        if address < FirstProbe || address > LastProbe {
          i := i + 1;
          continue;
        }
        var probe := Probe(bus, k, address);
        if probe.request.ret >= 0 {
          present := present + {address};
          found := true;
        }
        trace := trace + [probe];
        i := i + 1;
      }
      row := row + 16;
    }
  }

  /** How many addresses below `n` the scanner probes. */
  function Probed(n: int): nat {
    if n <= FirstProbe then 0 else if n > LastProbe then ProbeCount else n - FirstProbe
  }

  /**
   * `tcs34725_test_connection`: read the ID register and accept only the
   * identities a TCS34725 reports. A failed read is a failed test.
   */
  function TestConnection(bus: Bus, k: nat): (r: Step<bool>)
    ensures |r.trace| == 1 && r.trace[0].To(DeviceAddress)
    ensures r.trace[0].Selected() == Some(Command(Id.Code()))
    ensures r.value <==> bus.ret(k, 0) == 1 && bus.ret(k, 1) == 1 && bus.byte(k, 0) in KnownIds
    ensures r.value <==> ByteFrom(r.trace[0]).Some? && ByteFrom(r.trace[0]).value in KnownIds
    ensures r.value ==> r.trace[0].Succeeded()
  {
    var id := ReadRegister(bus, k, Id.Code());
    if id.value.None? then
      Step(false, id.trace)
    else
      Step(id.value.value == 0x44 || id.value.value == 0x4D, id.trace)
  }
}
