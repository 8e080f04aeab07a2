/**
 * The TCS34725's bus address, command framing and register map, with the
 * ENABLE bits, gain codes and integration-time codes the driver knows.
 * Each enumeration is closed and carries its one-byte wire encoding.
 */
module Registers {
  import opened Wrappers
  import opened Bytes

  /** The sensor's fixed 7-bit bus address. */
  const DeviceAddress: nat := 0x29

  /** OR'ed into every register address sent to the device. */
  const CommandBit: Byte := 0x80

  /**
   * The byte that selects register `reg`, `COMMAND_BIT | reg`: the command
   * bit is added unless it is already set. `CommandIsOr` shows this is the
   * bitwise OR for every byte.
   */
  function Command(reg: Byte): Byte {
    if reg < CommandBit then reg + CommandBit else reg
  }

  /** `Command` is the C expression `COMMAND_BIT | reg` for every byte. */
  lemma CommandIsOr(reg: bv8)
    ensures Command(reg as int) == (0x80 | reg) as int
  {
  }

  /** The command byte always has the command bit set and keeps the low seven bits of `reg`. */
  lemma CommandFraming(reg: Byte)
    ensures Command(reg) >= 0x80
    ensures Command(reg) % 0x80 == reg % 0x80
  {
  }

  /** Registers the driver names. */
  datatype Register =
    | Enable | ATime | Control | Id | Status
    | CDataL | CDataH | RDataL | RDataH | GDataL | GDataH | BDataL | BDataH
  {
    /** The register's address in the device's register map. */
    function Code(): Byte {
      match this
      case Enable => 0x00
      case ATime => 0x01
      case Control => 0x0F
      case Id => 0x12
      case Status => 0x13
      case CDataL => 0x14
      case CDataH => 0x15
      case RDataL => 0x16
      case RDataH => 0x17
      case GDataL => 0x18
      case GDataH => 0x19
      case BDataL => 0x1A
      case BDataH => 0x1B
    }
  }

  /** The register at a given address, if the driver names one there. */
  function RegisterAt(code: Byte): (r: Option<Register>)
    ensures r.Some? ==> r.value.Code() == code
  {
    match code
    case 0x00 => Some(Enable)
    case 0x01 => Some(ATime)
    case 0x0F => Some(Control)
    case 0x12 => Some(Id)
    case 0x13 => Some(Status)
    case 0x14 => Some(CDataL)
    case 0x15 => Some(CDataH)
    case 0x16 => Some(RDataL)
    case 0x17 => Some(RDataH)
    case 0x18 => Some(GDataL)
    case 0x19 => Some(GDataH)
    case 0x1A => Some(BDataL)
    case 0x1B => Some(BDataH)
    case _ => None
  }

  /** Every register is found again at its own address, so addresses are distinct. */
  lemma RegisterAtCode(reg: Register)
    ensures RegisterAt(reg.Code()) == Some(reg)
  {
  }

  /** Distinct registers have distinct command bytes. */
  lemma CommandsDistinct(a: Register, b: Register)
    requires a != b
    ensures Command(a.Code()) != Command(b.Code())
  {
    RegisterAtCode(a);
    RegisterAtCode(b);
    CommandFraming(a.Code());
    CommandFraming(b.Code());
  }

  /** The four colour channels, in the order the driver reads them. */
  datatype Channel = Clear | Red | Green | Blue {
    /** The channel's low-byte register; a two-byte read there also returns the high byte. */
    function Low(): Register {
      match this
      case Clear => CDataL
      case Red => RDataL
      case Green => GDataL
      case Blue => BDataL
    }

    function High(): Register {
      match this
      case Clear => CDataH
      case Red => RDataH
      case Green => GDataH
      case Blue => BDataH
    }
  }

  /** Each channel's high byte sits at the address right after its low byte. */
  lemma HighFollowsLow(c: Channel)
    ensures c.High().Code() == c.Low().Code() + 1
  {
  }

  /** ENABLE register bits. */
  const EnableAien: Byte := 0x10
  const EnableWen: Byte := 0x08
  const EnableAen: Byte := 0x02
  const EnablePon: Byte := 0x01

  /**
   * Power-on and ADC-enable together, as written in the second bring-up step:
   * the two bits are disjoint, so their sum is the C `ENABLE_PON | ENABLE_AEN`.
   */
  lemma PowerAndAdc()
    ensures EnablePon + EnableAen == 0x03
    ensures ((EnablePon as bv8) | (EnableAen as bv8)) as int == EnablePon + EnableAen
  {
  }

  /** Analog gain settings for the CONTROL register. */
  datatype Gain = Gain1x | Gain4x | Gain16x | Gain60x {
    function Code(): Byte {
      match this
      case Gain1x => 0x00
      case Gain4x => 0x01
      case Gain16x => 0x02
      case Gain60x => 0x03
    }
  }

  function GainOf(code: Byte): (g: Option<Gain>)
    ensures g.Some? ==> g.value.Code() == code
    ensures g.None? <==> code > 3
  {
    match code
    case 0x00 => Some(Gain1x)
    case 0x01 => Some(Gain4x)
    case 0x02 => Some(Gain16x)
    case 0x03 => Some(Gain60x)
    case _ => None
  }

  lemma GainCodeRoundTrip(g: Gain)
    ensures GainOf(g.Code()) == Some(g)
  {
  }

  /** Integration-time settings for the ATIME register, named by their nominal duration. */
  datatype IntegrationTime = It2ms4 | It24ms | It101ms | It154ms | It700ms {
    function Code(): Byte {
      match this
      case It2ms4 => 0xFF
      case It24ms => 0xF6
      case It101ms => 0xD5
      case It154ms => 0xC0
      case It700ms => 0x00
    }
  }

  function IntegrationTimeOf(code: Byte): (t: Option<IntegrationTime>)
    ensures t.Some? ==> t.value.Code() == code
  {
    match code
    case 0xFF => Some(It2ms4)
    case 0xF6 => Some(It24ms)
    case 0xD5 => Some(It101ms)
    case 0xC0 => Some(It154ms)
    case 0x00 => Some(It700ms)
    case _ => None
  }

  lemma IntegrationTimeCodeRoundTrip(t: IntegrationTime)
    ensures IntegrationTimeOf(t.Code()) == Some(t)
  {
  }

  /** The identity-register values of a genuine TCS34725. */
  const KnownIds: set<Byte> := {0x44, 0x4D}
}
