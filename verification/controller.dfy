/**
 * Device control: the bring-up sequence, the data-ready test and the colour
 * sample read, built on the register protocol.
 */
module Controller {
  import opened Wrappers
  import opened Bytes
  import opened Registers
  import opened Transport
  import opened Protocol

  /** One raw colour sample, as the C struct `color_data_t`. */
  datatype ColorData = ColorData(clear: Word, red: Word, green: Word, blue: Word, valid: bool)

  /** Pause after power-on before the ADC may be enabled, in milliseconds. */
  const PowerOnSettleMs: nat := 3

  /** Pause after configuration for the first 101 ms conversion plus margin, in milliseconds. */
  const FirstConversionMs: nat := 120

  /** The bring-up writes, in order, as (register, value) pairs. */
  const BringUp: seq<(Byte, Byte)> := [
    (Enable.Code(), EnablePon),
    (Enable.Code(), EnablePon + EnableAen),
    (ATime.Code(), It101ms.Code()),
    (Control.Code(), Gain4x.Code())
  ]

  /** The wire frames a sequence of register writes sends. */
  function Frames(plan: seq<(Byte, Byte)>): (r: seq<seq<Byte>>)
    ensures |r| == |plan|
  {
    if plan == [] then [] else [[Command(plan[0].0), plan[0].1]] + Frames(plan[1..])
  }

  lemma {:induction false} FramesAppend(a: seq<(Byte, Byte)>, b: seq<(Byte, Byte)>)
    ensures Frames(a + b) == Frames(a) + Frames(b)
    decreases |a|
  {
    if a == [] {
      assert a + b == b;
    } else {
      assert (a + b)[1..] == a[1..] + b;
      FramesAppend(a[1..], b);
    }
  }

  /** Framing commutes with cutting the plan: the frames of a prefix or suffix are the prefix or suffix of the frames. */
  lemma FramesSplit(plan: seq<(Byte, Byte)>, a: nat)
    requires a <= |plan|
    ensures Frames(plan[..a]) == Frames(plan)[..a]
    ensures Frames(plan[a..]) == Frames(plan)[a..]
  {
    assert plan == plan[..a] + plan[a..];
    FramesAppend(plan[..a], plan[a..]);
  }

  /** A prefix followed by the next `n` elements is the longer prefix; used to extend the issued frames write by write. */
  lemma PrefixJoin<T>(f: seq<T>, a: nat, n: nat)
    requires a + n <= |f|
    ensures f[..a] + f[a..][..n] == f[..a + n]
  {
  }

  /** How many of the `n` writes issued as transactions `k`, `k + 1`, ... the transport accepts in a row. */
  function LeadingAccepted(bus: Bus, k: nat, n: nat): (r: nat)
    ensures r <= n
    ensures r < n ==> bus.ret(k + r, 0) != 2
    decreases n
  {
    if n == 0 || bus.ret(k, 0) != 2 then 0 else 1 + LeadingAccepted(bus, k + 1, n - 1)
  }

  /** All `n` writes are accepted exactly when the first transfers of transactions `k` to `k + n - 1` all return 2. */
  lemma {:induction false} AllAccepted(bus: Bus, k: nat, n: nat)
    ensures LeadingAccepted(bus, k, n) == n <==> forall j | k <= j < k + n :: bus.ret(j, 0) == 2
    decreases n
  {
    if n > 0 {
      AllAccepted(bus, k + 1, n - 1);
    }
  }

  /** How many writes of an `n`-step sequence are issued: those accepted in a row, plus the rejected one if any. */
  function WritesIssued(bus: Bus, k: nat, n: nat): (m: nat)
    ensures m <= n
    ensures m == n || LeadingAccepted(bus, k, n) == m - 1
  {
    var a := LeadingAccepted(bus, k, n);
    if a == n then n else a + 1
  }

  /**
   * Register writes issued one after another, stopping at the first one the
   * transport rejects: the shape of each step of `tcs34725_init`.
   */
  function WriteSequence(bus: Bus, k: nat, plan: seq<(Byte, Byte)>): (r: Step<bool>)
    ensures r.value <==> AllComplete(r.trace)
    ensures AllTo(r.trace, DeviceAddress)
    decreases |plan|
  {
    if plan == [] then
      Step(true, [])
    else
      var w := WriteRegister(bus, k, plan[0].0, plan[0].1);
      if !w.value then
        Step(false, w.trace)
      else
        var rest := WriteSequence(bus, k + 1, plan[1..]);
        AllCompleteAppend(w.trace, rest.trace);
        Step(rest.value, w.trace + rest.trace)
  }

  /** A write sequence succeeds exactly when every write is accepted. */
  lemma {:induction false} WriteSequenceOutcome(bus: Bus, k: nat, plan: seq<(Byte, Byte)>)
    ensures WriteSequence(bus, k, plan).value <==> LeadingAccepted(bus, k, |plan|) == |plan|
    decreases |plan|
  {
    if plan != [] {
      var w := WriteRegister(bus, k, plan[0].0, plan[0].1);
      if w.value {
        WriteSequenceOutcome(bus, k + 1, plan[1..]);
      }
    }
  }

  /**
   * A write sequence issues the accepted writes plus the first rejected one,
   * each a single bus call.
   */
  lemma {:induction false} WriteSequenceCalls(bus: Bus, k: nat, plan: seq<(Byte, Byte)>)
    ensures var r := WriteSequence(bus, k, plan);
      Calls(r.trace) == |r.trace| == WritesIssued(bus, k, |plan|)
    decreases |plan|
  {
    if plan != [] {
      var w := WriteRegister(bus, k, plan[0].0, plan[0].1);
      if w.value {
        var rest := WriteSequence(bus, k + 1, plan[1..]);
        WriteSequenceCalls(bus, k + 1, plan[1..]);
        CallsAppend(w.trace, rest.trace);
      }
    }
  }

  /** The writes a sequence issues carry the plan's frames, in plan order. */
  lemma {:induction false} WriteSequenceFrames(bus: Bus, k: nat, plan: seq<(Byte, Byte)>)
    ensures var r := WriteSequence(bus, k, plan);
      |r.trace| <= |plan| && Payloads(r.trace) == Frames(plan)[..|r.trace|]
    decreases |plan|
  {
    if plan != [] {
      var w := WriteRegister(bus, k, plan[0].0, plan[0].1);
      if w.value {
        var rest := WriteSequence(bus, k + 1, plan[1..]);
        WriteSequenceFrames(bus, k + 1, plan[1..]);
        var t := w.trace + rest.trace;
        PayloadsAppend(w.trace, rest.trace);
        var f := Frames(plan);
        assert f[..|t|] == [f[0]] + Frames(plan[1..])[..|rest.trace|];
        assert Payloads(w.trace) == [f[0]];
      } else {
        assert Payloads(w.trace) == [Frames(plan)[0]];
      }
    }
  }

  /** A write sequence never pauses, and a failed one ends with the write the transport rejected. */
  lemma {:induction false} WriteSequenceEnds(bus: Bus, k: nat, plan: seq<(Byte, Byte)>)
    ensures var r := WriteSequence(bus, k, plan);
      && Delays(r.trace) == []
      && (!r.value ==> r.trace != [] && !r.trace[|r.trace| - 1].Complete())
    decreases |plan|
  {
    if plan != [] {
      var w := WriteRegister(bus, k, plan[0].0, plan[0].1);
      if w.value {
        var rest := WriteSequence(bus, k + 1, plan[1..]);
        WriteSequenceEnds(bus, k + 1, plan[1..]);
        var t := w.trace + rest.trace;
        DelaysAppend(w.trace, rest.trace);
        if !rest.value {
          assert t[|t| - 1] == rest.trace[|rest.trace| - 1];
        }
      }
    }
  }

  /**
   * `tcs34725_init`: power on, settle, enable the ADC, set the integration
   * time to 101 ms and the gain to 4x, then wait for the first conversion.
   * The first write the transport rejects ends the sequence with false.
   */
  function Init(bus: Bus, k: nat): (r: Step<bool>)
    ensures AllTo(r.trace, DeviceAddress)
    ensures r.value <==> AllComplete(r.trace)
  {
    var on := WriteSequence(bus, k, BringUp[..1]);
    if !on.value then
      Step(false, on.trace)
    else
      var settled := on.trace + [Delay(PowerOnSettleMs)];
      var config := WriteSequence(bus, k + 1, BringUp[1..]);
      AllCompleteAppend(settled, config.trace);
      if !config.value then
        Step(false, settled + config.trace)
      else
        AllCompleteAppend(settled + config.trace, [Delay(FirstConversionMs)]);
        Step(true, settled + config.trace + [Delay(FirstConversionMs)])
  }

  /** The bring-up succeeds exactly when the transport accepts all four writes. */
  lemma InitSucceedsIffAllAccepted(bus: Bus, k: nat)
    ensures Init(bus, k).value <==> forall j | k <= j < k + 4 :: bus.ret(j, 0) == 2
  {
    WriteSequenceOutcome(bus, k, BringUp[..1]);
    WriteSequenceOutcome(bus, k + 1, BringUp[1..]);
    AllAccepted(bus, k, 4);
    AllAccepted(bus, k + 1, 3);
  }

  /** After an accepted power-on write, the issued count is one more than the configuration's. */
  lemma WritesIssuedAfterFirst(bus: Bus, k: nat)
    requires bus.ret(k, 0) == 2
    ensures WritesIssued(bus, k, 4) == 1 + WritesIssued(bus, k + 1, 3)
  {
  }

  /**
   * The bring-up makes one bus call per write issued: the accepted ones and
   * the first rejected one, and no bus call after a rejection.
   */
  lemma InitCallCount(bus: Bus, k: nat)
    ensures Calls(Init(bus, k).trace) == WritesIssued(bus, k, 4)
  {
    var on := WriteSequence(bus, k, BringUp[..1]);
    WriteSequenceCalls(bus, k, BringUp[..1]);
    WriteSequenceOutcome(bus, k, BringUp[..1]);
    if on.value {
      var d1: seq<Event> := [Delay(PowerOnSettleMs)];
      var config := WriteSequence(bus, k + 1, BringUp[1..]);
      WriteSequenceCalls(bus, k + 1, BringUp[1..]);
      WritesIssuedAfterFirst(bus, k);
      assert Calls(d1) == 0;
      CallsAppend(on.trace, d1);
      CallsAppend(on.trace + d1, config.trace);
      if config.value {
        var d2: seq<Event> := [Delay(FirstConversionMs)];
        assert Calls(d2) == 0;
        CallsAppend(on.trace + d1 + config.trace, d2);
      }
    }
  }

  /** The bring-up's writes are the planned frames, in plan order, one per write issued. */
  lemma InitFollowsPlan(bus: Bus, k: nat)
    ensures Payloads(Init(bus, k).trace) == Frames(BringUp)[..WritesIssued(bus, k, 4)]
  {
    var on := WriteSequence(bus, k, BringUp[..1]);
    WriteSequenceCalls(bus, k, BringUp[..1]);
    WriteSequenceOutcome(bus, k, BringUp[..1]);
    WriteSequenceFrames(bus, k, BringUp[..1]);
    FramesSplit(BringUp, 1);
    var f := Frames(BringUp);
    if on.value {
      var d1: seq<Event> := [Delay(PowerOnSettleMs)];
      var config := WriteSequence(bus, k + 1, BringUp[1..]);
      WriteSequenceCalls(bus, k + 1, BringUp[1..]);
      WriteSequenceFrames(bus, k + 1, BringUp[1..]);
      WritesIssuedAfterFirst(bus, k);
      assert Payloads(d1) == [];
      PayloadsAppend(on.trace, d1);
      PayloadsAppend(on.trace + d1, config.trace);
      var n := |config.trace|;
      PrefixJoin(f, 1, n);
      assert |on.trace| == 1;
      assert Payloads(on.trace) == f[..1];
      assert Payloads(config.trace) == f[1..][..n];
      assert Payloads(on.trace + d1 + config.trace) == f[..1] + f[1..][..n];
      assert 1 + n == WritesIssued(bus, k, 4);
      if config.value {
        var d2: seq<Event> := [Delay(FirstConversionMs)];
        assert Payloads(d2) == [];
        PayloadsAppend(on.trace + d1 + config.trace, d2);
      } else {
        assert Init(bus, k).trace == on.trace + d1 + config.trace;
      }
    }
  }

  /** A failed bring-up ends with the write the transport rejected. */
  lemma InitStopsAtRejection(bus: Bus, k: nat)
    requires !Init(bus, k).value
    ensures var r := Init(bus, k); r.trace != [] && !r.trace[|r.trace| - 1].Complete()
  {
    var on := WriteSequence(bus, k, BringUp[..1]);
    WriteSequenceEnds(bus, k, BringUp[..1]);
    if on.value {
      var config := WriteSequence(bus, k + 1, BringUp[1..]);
      WriteSequenceEnds(bus, k + 1, BringUp[1..]);
      var t := on.trace + [Delay(PowerOnSettleMs)] + config.trace;
      assert !config.value && Init(bus, k).trace == t;
      assert t[|t| - 1] == config.trace[|config.trace| - 1];
    } else {
      assert Init(bus, k).trace == on.trace;
    }
  }

  /**
   * A successful bring-up pauses exactly twice: the settle pause right after
   * the power-on write, and the first-conversion pause as the last event.
   */
  lemma InitPauses(bus: Bus, k: nat)
    requires Init(bus, k).value
    ensures var r := Init(bus, k);
      && Delays(r.trace) == [PowerOnSettleMs, FirstConversionMs]
      && r.trace[1] == Delay(PowerOnSettleMs)
      && r.trace[|r.trace| - 1] == Delay(FirstConversionMs)
  {
    var on := WriteSequence(bus, k, BringUp[..1]);
    var config := WriteSequence(bus, k + 1, BringUp[1..]);
    WriteSequenceCalls(bus, k, BringUp[..1]);
    WriteSequenceEnds(bus, k, BringUp[..1]);
    WriteSequenceEnds(bus, k + 1, BringUp[1..]);
    var d1: seq<Event> := [Delay(PowerOnSettleMs)];
    var d2: seq<Event> := [Delay(FirstConversionMs)];
    assert Delays(d1) == [PowerOnSettleMs] && Delays(d2) == [FirstConversionMs];
    DelaysAppend(on.trace, d1);
    DelaysAppend(on.trace + d1, config.trace);
    DelaysAppend(on.trace + d1 + config.trace, d2);
  }

  /** The bring-up's wire frames, byte for byte. */
  lemma BringUpFrames()
    ensures Frames(BringUp) == [[0x80, 0x01], [0x80, 0x03], [0x81, 0xD5], [0x8F, 0x01]]
  {
    PowerAndAdc();
    var p: seq<(Byte, Byte)> := BringUp;
    assert p[1..][1..][1..][1..] == [];
    assert Frames(p[1..][1..][1..]) == [[0x8F, 0x01]];
    assert Frames(p[1..][1..]) == [[0x81, 0xD5], [0x8F, 0x01]];
    assert Frames(p[1..]) == [[0x80, 0x03], [0x81, 0xD5], [0x8F, 0x01]];
  }

  /**
   * `tcs34725_data_ready`: read STATUS and test bit 0 (AVALID). A failed
   * read reads as "not ready".
   */
  function DataReady(bus: Bus, k: nat): (r: Step<bool>)
    ensures |r.trace| == 1 && r.trace[0].To(DeviceAddress)
    ensures r.trace[0].Selected() == Some(Command(Status.Code()))
    ensures Calls(r.trace) == r.trace[0].Calls()
    ensures r.value <==> bus.ret(k, 0) == 1 && bus.ret(k, 1) == 1 && bus.byte(k, 0) % 2 == 1
    ensures r.value <==> ByteFrom(r.trace[0]).Some? && ByteFrom(r.trace[0]).value % 2 == 1
    ensures r.value ==> r.trace[0].Succeeded()
  {
    var st := ReadRegister(bus, k, Status.Code());
    if st.value.None? then
      Step(false, st.trace)
    else
      Step(st.value.value % 2 == 1, st.trace)
  }

  /** The ready test is the C test `(status & 0x01) != 0` on the STATUS byte read. */
  lemma DataReadyTestsAvalid(bus: Bus, k: nat)
    ensures DataReady(bus, k).value <==>
      bus.ret(k, 0) == 1 && bus.ret(k, 1) == 1 && (bus.byte(k, 0) as bv8) & 0x01 != 0
  {
    LowBitIsAnd(bus.byte(k, 0) as bv8);
  }

  /** The value a channel field takes: the word read, or the old value when the read failed. */
  function Keep(read: Option<Word>, previous: Word): Word {
    if read.Some? then read.value else previous
  }

  /**
   * 16-bit reads of the given registers, one after another, each issued
   * whatever the earlier ones returned (`success &= ...` does not
   * short-circuit). The outcome of each read is kept, in order.
   */
  function ReadWords(bus: Bus, k: nat, regs: seq<Byte>): (r: Step<seq<Option<Word>>>)
    ensures |r.value| == |regs| && |r.trace| == |regs|
    decreases |regs|
  {
    if regs == [] then
      Step([], [])
    else
      var x := Read16(bus, k, regs[0]);
      var rest := ReadWords(bus, k + 1, regs[1..]);
      Step([x.value] + rest.value, x.trace + rest.trace)
  }

  /**
   * The i-th transaction of the reads goes to the sensor and selects the
   * i-th register; the i-th outcome is the word that transaction delivered,
   * present exactly when the transaction succeeded, which is exactly when
   * it completed.
   */
  lemma {:induction false} ReadWordsEach(bus: Bus, k: nat, regs: seq<Byte>)
    ensures var r := ReadWords(bus, k, regs);
      forall i | 0 <= i < |regs| ::
        && r.trace[i].To(DeviceAddress)
        && r.trace[i].Selected() == Some(Command(regs[i]))
        && r.value[i] == WordFrom(r.trace[i])
        && (r.value[i].Some? <==> r.trace[i].Succeeded())
        && (r.trace[i].Complete() <==> r.trace[i].Succeeded())
    decreases |regs|
  {
    if regs != [] {
      var x := Read16(bus, k, regs[0]);
      var rest := ReadWords(bus, k + 1, regs[1..]);
      ReadWordsEach(bus, k + 1, regs[1..]);
      var r := ReadWords(bus, k, regs);
      assert r.trace == x.trace + rest.trace && r.value == [x.value] + rest.value;
      assert x.trace[0].Complete() <==> AllComplete(x.trace);
      forall i | 0 <= i < |regs|
        ensures && r.trace[i].To(DeviceAddress)
                && r.trace[i].Selected() == Some(Command(regs[i]))
                && r.value[i] == WordFrom(r.trace[i])
                && (r.value[i].Some? <==> r.trace[i].Succeeded())
                && (r.trace[i].Complete() <==> r.trace[i].Succeeded())
      {
        if i > 0 {
          assert r.trace[i] == rest.trace[i - 1];
          assert r.value[i] == rest.value[i - 1];
          assert regs[i] == regs[1..][i - 1];
        }
      }
    }
  }

  /** The low registers of clear, red, green and blue: the order the colour read takes. */
  const ChannelRegisters: seq<Byte> := [Clear.Low().Code(), Red.Low().Code(), Green.Low().Code(), Blue.Low().Code()]

  /**
   * `tcs34725_read_color`: if data is not ready, mark the sample invalid and
   * read nothing more. Otherwise read clear, red, green and blue, and mark
   * the sample valid only if all four reads succeeded. A channel whose read
   * failed keeps the value `prev` had. The C function's return value is the
   * new `valid` flag.
   */
  function ReadColor(bus: Bus, k: nat, prev: ColorData): (r: Step<ColorData>)
    ensures !DataReady(bus, k).value ==> r.value == prev.(valid := false) && r.trace == DataReady(bus, k).trace
  {
    var ready := DataReady(bus, k);
    if !ready.value then
      Step(prev.(valid := false), ready.trace)
    else
      var words := ReadWords(bus, k + 1, ChannelRegisters);
      var w := words.value;
      var sample := ColorData(Keep(w[0], prev.clear), Keep(w[1], prev.red), Keep(w[2], prev.green), Keep(w[3], prev.blue),
                              w[0].Some? && w[1].Some? && w[2].Some? && w[3].Some?);
      Step(sample, ready.trace + words.trace)
  }

  /**
   * When data is not ready the colour read makes exactly one transaction,
   * the STATUS read, and the sample keeps its counts but is marked invalid.
   */
  lemma ReadColorNotReady(bus: Bus, k: nat, prev: ColorData)
    requires !DataReady(bus, k).value
    ensures var r := ReadColor(bus, k, prev);
      && |r.trace| == 1 && AllTo(r.trace, DeviceAddress)
      && r.trace[0].Selected() == Some(Command(Status.Code()))
      && !r.value.valid
      && r.value.clear == prev.clear && r.value.red == prev.red
      && r.value.green == prev.green && r.value.blue == prev.blue
  {
  }

  /**
   * When data is ready the colour read makes five transactions, all to the
   * sensor: STATUS, then the low registers of clear, red, green and blue, in
   * that order, each issued whatever the earlier ones returned.
   */
  lemma ReadColorOrder(bus: Bus, k: nat, prev: ColorData)
    requires DataReady(bus, k).value
    ensures var t := ReadColor(bus, k, prev).trace;
      && |t| == 5 && AllTo(t, DeviceAddress)
      && t[0].Selected() == Some(Command(Status.Code()))
      && t[1].Selected() == Some(Command(CDataL.Code()))
      && t[2].Selected() == Some(Command(RDataL.Code()))
      && t[3].Selected() == Some(Command(GDataL.Code()))
      && t[4].Selected() == Some(Command(BDataL.Code()))
  {
    var ready := DataReady(bus, k);
    var words := ReadWords(bus, k + 1, ChannelRegisters);
    ReadWordsEach(bus, k + 1, ChannelRegisters);
    var t := ready.trace + words.trace;
    assert ReadColor(bus, k, prev).trace == t;
    assert forall i | 1 <= i < 5 :: t[i] == words.trace[i - 1];
  }

  /**
   * When data is ready each channel of the sample holds the word its
   * transaction delivered, or the previous count when that transaction failed.
   */
  lemma ReadColorFields(bus: Bus, k: nat, prev: ColorData)
    requires DataReady(bus, k).value
    ensures var r := ReadColor(bus, k, prev);
      && |r.trace| == 5
      && r.value.clear == Keep(WordFrom(r.trace[1]), prev.clear)
      && r.value.red == Keep(WordFrom(r.trace[2]), prev.red)
      && r.value.green == Keep(WordFrom(r.trace[3]), prev.green)
      && r.value.blue == Keep(WordFrom(r.trace[4]), prev.blue)
  {
    var ready := DataReady(bus, k);
    var words := ReadWords(bus, k + 1, ChannelRegisters);
    ReadWordsEach(bus, k + 1, ChannelRegisters);
    var t := ready.trace + words.trace;
    assert ReadColor(bus, k, prev).trace == t;
    assert forall i | 1 <= i < 5 :: t[i] == words.trace[i - 1];
  }

  /**
   * When data is ready the sample is valid exactly when all four channel
   * reads succeeded, which is exactly when every transfer completed.
   */
  lemma ReadColorValid(bus: Bus, k: nat, prev: ColorData)
    requires DataReady(bus, k).value
    ensures var r := ReadColor(bus, k, prev);
      && |r.trace| == 5
      && (r.value.valid <==> r.trace[1].Succeeded() && r.trace[2].Succeeded()
                             && r.trace[3].Succeeded() && r.trace[4].Succeeded())
      && (r.value.valid <==> AllComplete(r.trace))
  {
    var ready := DataReady(bus, k);
    var words := ReadWords(bus, k + 1, ChannelRegisters);
    ReadWordsEach(bus, k + 1, ChannelRegisters);
    var t := ready.trace + words.trace;
    assert ReadColor(bus, k, prev).trace == t;
    assert forall i | 1 <= i < 5 :: t[i] == words.trace[i - 1];
    assert t[0].Complete();
  }

  /** The i-th outcome of the reads is what the transport delivered to transaction `k + i`. */
  lemma {:induction false} ReadWordsDelivered(bus: Bus, k: nat, regs: seq<Byte>)
    ensures forall i | 0 <= i < |regs| :: ReadWords(bus, k, regs).value[i] == WordDelivered(bus, k + i)
    decreases |regs|
  {
    if regs != [] {
      var rest := ReadWords(bus, k + 1, regs[1..]);
      ReadWordsDelivered(bus, k + 1, regs[1..]);
      var r := ReadWords(bus, k, regs);
      Read16Delivers(bus, k, regs[0]);
      assert r.value == [WordDelivered(bus, k)] + rest.value;
      forall i | 0 <= i < |regs|
        ensures r.value[i] == WordDelivered(bus, k + i)
      {
        if i > 0 {
          assert r.value[i] == rest.value[i - 1];
        }
      }
    }
  }

  /**
   * When data is ready, the sample is valid exactly when each of the four
   * channel transactions had its command write move 1 byte and its read move
   * 2 bytes.
   */
  lemma ReadColorValidFromBus(bus: Bus, k: nat, prev: ColorData)
    requires DataReady(bus, k).value
    ensures ReadColor(bus, k, prev).value.valid <==>
      forall j | k + 1 <= j < k + 5 :: bus.ret(j, 0) == 1 && bus.ret(j, 1) == 2
  {
    ReadWordsDelivered(bus, k + 1, ChannelRegisters);
    var w := ReadWords(bus, k + 1, ChannelRegisters).value;
    assert w[0] == WordDelivered(bus, k + 1) && w[1] == WordDelivered(bus, k + 2);
    assert w[2] == WordDelivered(bus, k + 3) && w[3] == WordDelivered(bus, k + 4);
    if ReadColor(bus, k, prev).value.valid {
      forall j | k + 1 <= j < k + 5
        ensures bus.ret(j, 0) == 1 && bus.ret(j, 1) == 2
      {
        assert j == k + 1 || j == k + 2 || j == k + 3 || j == k + 4;
      }
    }
  }

  /**
   * When data is ready, each channel whose transaction succeeded holds the
   * little-endian word of the two bytes its read delivered; the others keep
   * their previous counts.
   */
  lemma ReadColorCountsFromBus(bus: Bus, k: nat, prev: ColorData)
    requires DataReady(bus, k).value
    ensures var s := ReadColor(bus, k, prev).value;
      && s.clear == Keep(WordDelivered(bus, k + 1), prev.clear)
      && s.red == Keep(WordDelivered(bus, k + 2), prev.red)
      && s.green == Keep(WordDelivered(bus, k + 3), prev.green)
      && s.blue == Keep(WordDelivered(bus, k + 4), prev.blue)
  {
    ReadWordsDelivered(bus, k + 1, ChannelRegisters);
  }
}
