/**
 * Register-level protocol: single-register write, single-register read and
 * the 16-bit little-endian read. Each operation is one bus transaction: it
 * takes the bus oracle and the transaction's index `k` and returns its
 * outcome with its one-event trace. No operation retries: a short transfer is
 * reported as failure.
 */
module Protocol {
  import opened Wrappers
  import opened Bytes
  import opened Registers
  import opened Transport

  /**
   * `tcs34725_write_register`: one two-byte write `[COMMAND_BIT | reg, value]`
   * that releases the bus; it succeeds only when the transport reports 2.
   */
  function WriteRegister(bus: Bus, k: nat, reg: Byte, value: Byte): (r: Step<bool>)
    ensures r.trace == [Access(Write(DeviceAddress, [Command(reg), value], false, bus.ret(k, 0)), None)]
    ensures r.value <==> bus.ret(k, 0) == 2
    ensures r.value <==> AllComplete(r.trace)
    ensures Calls(r.trace) == 1
  {
    var e := Access(WriteBlocking(bus, k, DeviceAddress, [Command(reg), value], false), None);
    assert [e][0] == e;
    assert [e][..0] == [];
    Step(e.Complete(), [e])
  }

  /**
   * The framing shared by the two register reads: send the one-byte command
   * while holding the bus; only if that write moved its byte, read `len`
   * bytes and release the bus. The bytes are handed back only when the read
   * moved all of them.
   */
  function AddressedRead(bus: Bus, k: nat, reg: Byte, len: nat): (r: Step<Option<seq<Byte>>>)
    ensures |r.trace| == 1 && r.trace[0].Access?
    ensures r.trace[0].request == Write(DeviceAddress, [Command(reg)], true, bus.ret(k, 0))
    ensures r.trace[0].reply.Some? <==> bus.ret(k, 0) == 1
    ensures r.trace[0].reply.Some? ==> && r.trace[0].reply.value.Read?
                                       && r.trace[0].reply.value.addr == DeviceAddress
                                       && r.trace[0].reply.value.len == len
                                       && !r.trace[0].reply.value.nostop
                                       && r.trace[0].reply.value.ret == bus.ret(k, 1)
    ensures Calls(r.trace) == r.trace[0].Calls()
    ensures r.value.Some? <==> r.trace[0].Succeeded()
    ensures r.value.Some? <==> AllComplete(r.trace)
    ensures r.value.Some? ==> && r.value.value == r.trace[0].reply.value.data
                              && |r.value.value| == len
                              && forall j | 0 <= j < len :: r.value.value[j] == bus.byte(k, j)
  {
    var cmd := WriteBlocking(bus, k, DeviceAddress, [Command(reg)], true);
    if !cmd.Complete() then
      var t := [Access(cmd, None)];
      assert t[..0] == [];
      Step(None, t)
    else
      var rd := ReadBlocking(bus, k, 1, DeviceAddress, len, false);
      var t := [Access(cmd, Some(rd))];
      assert t[..0] == [];
      Step(if rd.Complete() then Some(rd.data) else None, t)
  }

  /** The byte a completed one-byte register read delivered. */
  function ByteFrom(e: Event): Option<Byte> {
    if e.Succeeded() && e.reply.value.Read? && |e.reply.value.data| == 1 then Some(e.reply.value.data[0]) else None
  }

  /** The word a completed two-byte register read delivered, low byte first. */
  function WordFrom(e: Event): Option<Word> {
    if e.Succeeded() && e.reply.value.Read? && |e.reply.value.data| == 2 then
      Some(LittleEndian(e.reply.value.data[0], e.reply.value.data[1]))
    else None
  }

  /**
   * `tcs34725_read_register`: the command byte is written holding the bus;
   * only when that write moved its byte does a one-byte read follow, which
   * releases the bus. The register's byte when both phases complete, and
   * nothing otherwise.
   */
  function ReadRegister(bus: Bus, k: nat, reg: Byte): (r: Step<Option<Byte>>)
    ensures r.trace == AddressedRead(bus, k, reg, 1).trace
    ensures |r.trace| == 1 && r.trace[0].To(DeviceAddress)
    ensures r.trace[0].request.Write? && r.trace[0].request.nostop
    ensures r.trace[0].reply.Some? <==> bus.ret(k, 0) == 1
    ensures r.trace[0].reply.Some? ==> r.trace[0].reply.value.Read? && r.trace[0].reply.value.len == 1 && !r.trace[0].reply.value.nostop
    ensures r.trace[0].Selected() == Some(Command(reg))
    ensures Calls(r.trace) == r.trace[0].Calls()
    ensures r.value.Some? <==> bus.ret(k, 0) == 1 && bus.ret(k, 1) == 1
    ensures r.value.Some? <==> r.trace[0].Succeeded()
    ensures r.value.Some? <==> AllComplete(r.trace)
    ensures r.value.Some? ==> r.value.value == bus.byte(k, 0)
    ensures r.value == ByteFrom(r.trace[0])
  {
    var a := AddressedRead(bus, k, reg, 1);
    Step(if a.value.Some? then Some(a.value.value[0]) else None, a.trace)
  }

  /**
   * `tcs34725_read_16bit`: framed like the single-register read, with a
   * two-byte read phase. The register pair's little-endian word when both
   * phases complete, and nothing otherwise (the caller's variable is then
   * left as it was).
   */
  function Read16(bus: Bus, k: nat, reg: Byte): (r: Step<Option<Word>>)
    ensures r.trace == AddressedRead(bus, k, reg, 2).trace
    ensures |r.trace| == 1 && r.trace[0].To(DeviceAddress)
    ensures r.trace[0].request.Write? && r.trace[0].request.nostop
    ensures r.trace[0].reply.Some? <==> bus.ret(k, 0) == 1
    ensures r.trace[0].reply.Some? ==> r.trace[0].reply.value.Read? && r.trace[0].reply.value.len == 2 && !r.trace[0].reply.value.nostop
    ensures r.trace[0].Selected() == Some(Command(reg))
    ensures Calls(r.trace) == r.trace[0].Calls()
    ensures r.value.Some? <==> bus.ret(k, 0) == 1 && bus.ret(k, 1) == 2
    ensures r.value.Some? <==> r.trace[0].Succeeded()
    ensures r.value.Some? <==> AllComplete(r.trace)
    ensures r.value.Some? ==> r.value.value == LittleEndian(bus.byte(k, 0), bus.byte(k, 1))
    ensures r.value == WordFrom(r.trace[0])
  {
    var a := AddressedRead(bus, k, reg, 2);
    if a.value.Some? then
      Step(Some(LittleEndian(a.value.value[0], a.value.value[1])), a.trace)
    else
      Step(None, a.trace)
  }

  /**
   * The outcome of a 16-bit register read as transaction `t`, stated from the
   * transport's answers alone: the word of the two bytes delivered, present
   * when the command write moved 1 byte and the read moved 2.
   */
  function WordDelivered(bus: Bus, t: nat): Option<Word> {
    if bus.ret(t, 0) == 1 && bus.ret(t, 1) == 2 then Some(LittleEndian(bus.byte(t, 0), bus.byte(t, 1))) else None
  }

  /** `tcs34725_read_16bit` of any register delivers exactly `WordDelivered`. */
  lemma Read16Delivers(bus: Bus, k: nat, reg: Byte)
    ensures Read16(bus, k, reg).value == WordDelivered(bus, k)
  {
  }

  /**
   * A successful 16-bit read yields `buf[0] + 256 * buf[1]` of the two bytes
   * the read phase delivered, and those bytes are its low and high bytes.
   */
  lemma Read16Value(bus: Bus, k: nat, reg: Byte)
    requires Read16(bus, k, reg).value.Some?
    ensures var w := Read16(bus, k, reg).value.value;
      && w == bus.byte(k, 0) + 256 * bus.byte(k, 1)
      && LowByte(w) == bus.byte(k, 0) && HighByte(w) == bus.byte(k, 1)
  {
    JoinThenSplit(bus.byte(k, 0), bus.byte(k, 1));
  }
}
