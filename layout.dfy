/** The persistent configuration record PConfig_t: its fields, their byte
    offsets, the flag masks, the schema version, and the little-endian byte
    image that the EEPROM holds (src/EEPROMConfig.h). */
module Layout {

  // ---------------------------------------------------------------------------
  // Machine integers as they appear in the record
  // ---------------------------------------------------------------------------

  type byte = x: int | 0 <= x < 0x100
  type u16 = x: int | 0 <= x < 0x1_0000
  type u32 = x: int | 0 <= x < 0x1_0000_0000
  type i16 = x: int | -0x8000 <= x < 0x8000
  type i32 = x: int | -0x8000_0000 <= x < 0x8000_0000

  // ---------------------------------------------------------------------------
  // Limits, flag masks, version, offsets
  // ---------------------------------------------------------------------------

  const PCONFIG_MAX_SSID := 31
  const PCONFIG_MAX_PASSWORD := 31
  const PCONFIG_MAX_LABEL := 31
  const SPARE_BYTES := 37

  /** A NUL-terminated text buffer of MAX + 1 bytes (all three limits are 31). */
  type TextBuf = s: seq<byte> | |s| == PCONFIG_MAX_SSID + 1 witness seq(32, _ => 0)
  /** Four independent address octets: an IPv4 address as bytes, not as an integer. */
  type Octets = s: seq<byte> | |s| == 4 witness [0, 0, 0, 0]
  type SpareBuf = s: seq<byte> | |s| == SPARE_BYTES witness seq(37, _ => 0)

  const CONFIG_VALUES_INITIALIZED: u32 := 0x01
  const CONFIG_TEMP_PROBE_CONNECTED: u32 := 0x02
  const CONFIG_DEVICE_RELAY_CONNECTED: u32 := 0x04
  const CONFIG_DEBUG_MESSAGE_ENABLED: u32 := 0x08
  const CONFIG_TEMP_DISPLAY_FAHRENHEIT: u32 := 0x10
  const CONFIG_WIFI_STATION_ENABLED: u32 := 0x20

  /** The six configuration flags of the Flags word. */
  datatype ConfigFlag =
    | ValuesInitialized | TempProbeConnected | DeviceRelayConnected
    | DebugMessageEnabled | TempDisplayFahrenheit | WifiStationEnabled

  /** The bit position of a flag within the Flags word. */
  function BitOf(g: ConfigFlag): nat
  {
    match g
    case ValuesInitialized => 0
    case TempProbeConnected => 1
    case DeviceRelayConnected => 2
    case DebugMessageEnabled => 3
    case TempDisplayFahrenheit => 4
    case WifiStationEnabled => 5
  }

  /** The CONFIG_* mask of a flag. */
  function Mask(g: ConfigFlag): u32
  {
    match g
    case ValuesInitialized => CONFIG_VALUES_INITIALIZED
    case TempProbeConnected => CONFIG_TEMP_PROBE_CONNECTED
    case DeviceRelayConnected => CONFIG_DEVICE_RELAY_CONNECTED
    case DebugMessageEnabled => CONFIG_DEBUG_MESSAGE_ENABLED
    case TempDisplayFahrenheit => CONFIG_TEMP_DISPLAY_FAHRENHEIT
    case WifiStationEnabled => CONFIG_WIFI_STATION_ENABLED
  }

  function Pow2(k: nat): nat
  {
    if k == 0 then 1 else 2 * Pow2(k - 1)
  }

  /** Bit k of a word, counting from the least significant: `w & (1 << k) != 0`. */
  predicate Bit(w: nat, k: nat)
  {
    if k == 0 then w % 2 == 1 else Bit(w / 2, k - 1)
  }

  /** The word with bit k forced on (`w | (1 << k)`) or off (`w & ~(1 << k)`). */
  function WithBit(w: nat, k: nat, on: bool): nat
  {
    if k == 0 then 2 * (w / 2) + (if on then 1 else 0)
    else 2 * WithBit(w / 2, k - 1, on) + w % 2
  }

  /** `flags & mask` is non-zero. */
  predicate IsSet(flags: u32, g: ConfigFlag)
  {
    Bit(flags, BitOf(g))
  }

  /** `flags |= mask` when on, `flags &= ~mask` when off. */
  function SetFlag(flags: u32, g: ConfigFlag, on: bool): (r: u32)
    ensures IsSet(r, g) == on
    ensures forall h :: h != g ==> IsSet(r, h) == IsSet(flags, h)
  {
    Pow2Of32();
    WithBitBelow(flags, BitOf(g), on, 32);
    var r := WithBit(flags, BitOf(g), on);
    forall h ensures Bit(r, BitOf(h)) == if h == g then on else IsSet(flags, h) {
      BitWithBit(flags, BitOf(g), on, BitOf(h));
    }
    r
  }

  const PCONFIG_VERSION: u16 := 0x0101

  /** The high byte of a version word is the major version, the low byte the minor. */
  function MajorVersion(v: u16): byte { v / 0x100 }
  function MinorVersion(v: u16): byte { v % 0x100 }

  const PCONFIG_OFFSET := 0

  const PCONFIG_OFFSET_SIZE := PCONFIG_OFFSET + 0
  const PCONFIG_OFFSET_VERSION := PCONFIG_OFFSET + 2
  const PCONFIG_OFFSET_FLAGS := PCONFIG_OFFSET + 4
  const PCONFIG_OFFSET_WIFISSID := PCONFIG_OFFSET + 8
  const PCONFIG_OFFSET_WIFIPASSWORD := PCONFIG_OFFSET + 40
  const PCONFIG_OFFSET_STATIONIP := PCONFIG_OFFSET + 72
  const PCONFIG_OFFSET_ACCESSIP := PCONFIG_OFFSET + 76
  const PCONFIG_OFFSET_NETMASK := PCONFIG_OFFSET + 80
  const PCONFIG_OFFSET_GATEWAY := PCONFIG_OFFSET + 84
  const PCONFIG_OFFSET_SERIALBAUD := PCONFIG_OFFSET + 88
  const PCONFIG_OFFSET_WEBSERVERPORT := PCONFIG_OFFSET + 92
  const PCONFIG_OFFSET_WEBSOCKETSERVERPORT := PCONFIG_OFFSET + 94
  const PCONFIG_OFFSET_SENSORWAITTIME := PCONFIG_OFFSET + 96
  const PCONFIG_OFFSET_TEMPHIGHLIMIT := PCONFIG_OFFSET + 100
  const PCONFIG_OFFSET_TEMPLOWLIMIT := PCONFIG_OFFSET + 102
  const PCONFIG_OFFSET_WIFISSIDLENGTH := PCONFIG_OFFSET + 104
  const PCONFIG_OFFSET_WIFIPASSWORDLENGTH := PCONFIG_OFFSET + 105
  const PCONFIG_OFFSET_LABEL := PCONFIG_OFFSET + 106
  const PCONFIG_OFFSET_LABELLENGTH := PCONFIG_OFFSET + 138

  /** sizeof(PConfig_t). */
  const RECORD_SIZE := 176

  // ---------------------------------------------------------------------------
  // The members of PConfig_t, in declaration order
  // ---------------------------------------------------------------------------

  datatype Field =
    | Size | Version | Flags | WifiSSID | WifiPassword
    | StationIP | AccessIP | NetMask | Gateway | SerialBaud
    | WebServerPort | WebSocketServerPort | SensorWaitTime
    | TempHighLimit | TempLowLimit | WifiSSIDLength | WifiPasswordLength
    | Label | LabelLength | Spare

  /** Declaration index of a member. */
  function Index(f: Field): nat {
    match f
    case Size => 0
    case Version => 1
    case Flags => 2
    case WifiSSID => 3
    case WifiPassword => 4
    case StationIP => 5
    case AccessIP => 6
    case NetMask => 7
    case Gateway => 8
    case SerialBaud => 9
    case WebServerPort => 10
    case WebSocketServerPort => 11
    case SensorWaitTime => 12
    case TempHighLimit => 13
    case TempLowLimit => 14
    case WifiSSIDLength => 15
    case WifiPasswordLength => 16
    case Label => 17
    case LabelLength => 18
    case Spare => 19
  }

  /** The member declared right after f. */
  function Next(f: Field): (g: Field)
    requires f != Spare
    ensures Index(g) == Index(f) + 1
  {
    match f
    case Size => Version
    case Version => Flags
    case Flags => WifiSSID
    case WifiSSID => WifiPassword
    case WifiPassword => StationIP
    case StationIP => AccessIP
    case AccessIP => NetMask
    case NetMask => Gateway
    case Gateway => SerialBaud
    case SerialBaud => WebServerPort
    case WebServerPort => WebSocketServerPort
    case WebSocketServerPort => SensorWaitTime
    case SensorWaitTime => TempHighLimit
    case TempHighLimit => TempLowLimit
    case TempLowLimit => WifiSSIDLength
    case WifiSSIDLength => WifiPasswordLength
    case WifiPasswordLength => Label
    case Label => LabelLength
    case LabelLength => Spare
  }

  /** The member declared right before f. */
  function Prev(f: Field): (p: Field)
    requires f != Size
    ensures p != Spare && Next(p) == f
  {
    match f
    case Version => Size
    case Flags => Version
    case WifiSSID => Flags
    case WifiPassword => WifiSSID
    case StationIP => WifiPassword
    case AccessIP => StationIP
    case NetMask => AccessIP
    case Gateway => NetMask
    case SerialBaud => Gateway
    case WebServerPort => SerialBaud
    case WebSocketServerPort => WebServerPort
    case SensorWaitTime => WebSocketServerPort
    case TempHighLimit => SensorWaitTime
    case TempLowLimit => TempHighLimit
    case WifiSSIDLength => TempLowLimit
    case WifiPasswordLength => WifiSSIDLength
    case Label => WifiPasswordLength
    case LabelLength => Label
    case Spare => LabelLength
  }

  /** Size of one element of a member; C aligns the member to this size. */
  function ElemSize(f: Field): nat {
    match f
    case Size | Version | WebServerPort | WebSocketServerPort | TempHighLimit | TempLowLimit => 2
    case Flags | SerialBaud | SensorWaitTime => 4
    case _ => 1
  }

  /** Number of elements of a member (1 for a scalar). */
  function Count(f: Field): nat {
    match f
    case WifiSSID => PCONFIG_MAX_SSID + 1
    case WifiPassword => PCONFIG_MAX_PASSWORD + 1
    case Label => PCONFIG_MAX_LABEL + 1
    case StationIP | AccessIP | NetMask | Gateway => 4
    case Spare => SPARE_BYTES
    case _ => 1
  }

  /** Bytes a member occupies: ElemSize(f) * Count(f) (see WidthIsElemTimesCount). */
  function Width(f: Field): nat {
    match f
    case Size | Version | WebServerPort | WebSocketServerPort | TempHighLimit | TempLowLimit => 2
    case Flags | SerialBaud | SensorWaitTime => 4
    case WifiSSID | WifiPassword | Label => 32
    case StationIP | AccessIP | NetMask | Gateway => 4
    case Spare => SPARE_BYTES
    case _ => 1
  }

  /** The PCONFIG_OFFSET_* constant of a member: its absolute EEPROM offset. */
  function AbsOffset(f: Field): nat {
    match f
    case Size => PCONFIG_OFFSET_SIZE
    case Version => PCONFIG_OFFSET_VERSION
    case Flags => PCONFIG_OFFSET_FLAGS
    case WifiSSID => PCONFIG_OFFSET_WIFISSID
    case WifiPassword => PCONFIG_OFFSET_WIFIPASSWORD
    case StationIP => PCONFIG_OFFSET_STATIONIP
    case AccessIP => PCONFIG_OFFSET_ACCESSIP
    case NetMask => PCONFIG_OFFSET_NETMASK
    case Gateway => PCONFIG_OFFSET_GATEWAY
    case SerialBaud => PCONFIG_OFFSET_SERIALBAUD
    case WebServerPort => PCONFIG_OFFSET_WEBSERVERPORT
    case WebSocketServerPort => PCONFIG_OFFSET_WEBSOCKETSERVERPORT
    case SensorWaitTime => PCONFIG_OFFSET_SENSORWAITTIME
    case TempHighLimit => PCONFIG_OFFSET_TEMPHIGHLIMIT
    case TempLowLimit => PCONFIG_OFFSET_TEMPLOWLIMIT
    case WifiSSIDLength => PCONFIG_OFFSET_WIFISSIDLENGTH
    case WifiPasswordLength => PCONFIG_OFFSET_WIFIPASSWORDLENGTH
    case Label => PCONFIG_OFFSET_LABEL
    case LabelLength => PCONFIG_OFFSET_LABELLENGTH
    case Spare => PCONFIG_OFFSET + 139
  }

  /** Offset of a member from the start of the record. */
  function RelOffset(f: Field): nat { AbsOffset(f) - PCONFIG_OFFSET }

  // ---------------------------------------------------------------------------
  // How a C compiler lays the members out, and what the offsets promise
  // ---------------------------------------------------------------------------

  function AlignUp(pos: nat, align: nat): nat
    requires align > 0
  {
    if pos % align == 0 then pos else pos + (align - pos % align)
  }

  /** The offset a C compiler gives member f: the end of the member before it,
      rounded up to f's element size. */
  function COffset(f: Field): nat
    decreases Index(f)
  {
    if f == Size then 0
    else AlignUp(COffset(Prev(f)) + Width(Prev(f)), ElemSize(f))
  }

  /** sizeof(PConfig_t) as a C compiler computes it: the end of the last member
      rounded up to the largest element size, 4. */
  function CSizeOf(): nat
  {
    AlignUp(COffset(Spare) + Width(Spare), 4)
  }

  // ---------------------------------------------------------------------------
  // The record as a value
  // ---------------------------------------------------------------------------

  datatype Record = Record(
    size: u16,
    version: u16,
    flags: u32,
    wifiSSID: TextBuf,
    wifiPassword: TextBuf,
    stationIP: Octets,
    accessIP: Octets,
    netMask: Octets,
    gateway: Octets,
    serialBaud: u32,
    webServerPort: u16,
    webSocketServerPort: u16,
    sensorWaitTime: u32,
    tempHighLimit: i16,
    tempLowLimit: i16,
    wifiSSIDLength: byte,
    wifiPasswordLength: byte,
    sensorLabel: TextBuf,
    labelLength: byte,
    spare: SpareBuf)

  // ---------------------------------------------------------------------------
  // Little-endian byte images of the numeric members
  // ---------------------------------------------------------------------------

  function FromLE16(b: seq<byte>): u16
    requires |b| == 2
  {
    b[0] as int + 0x100 * b[1] as int
  }

  function LE16(x: u16): (b: seq<byte>)
    ensures |b| == 2 && FromLE16(b) == x
  {
    [x % 0x100, x / 0x100]
  }

  function FromLE32(b: seq<byte>): u32
    requires |b| == 4
  {
    FromLE16(b[..2]) as int + 0x1_0000 * FromLE16(b[2..]) as int
  }

  function LE32(x: u32): (b: seq<byte>)
    ensures |b| == 4 && FromLE32(b) == x
  {
    var b := LE16(x % 0x1_0000) + LE16(x / 0x1_0000);
    assert b[..2] == LE16(x % 0x1_0000) && b[2..] == LE16(x / 0x1_0000);
    b
  }

  /** The 16-bit two's complement bit pattern of a signed value. */
  function Bits16(x: i16): (u: u16)
    ensures (u < 0x8000) == (x >= 0) && (u - x) % 0x1_0000 == 0
  {
    if x < 0 then x + 0x1_0000 else x
  }

  function FromBits16(u: u16): (x: i16)
    ensures Bits16(x) == u
  {
    if u >= 0x8000 then u - 0x1_0000 else u
  }

  lemma LE16FromLE16(b: seq<byte>)
    requires |b| == 2
    ensures LE16(FromLE16(b)) == b
  {
  }

  lemma LE32FromLE32(b: seq<byte>)
    requires |b| == 4
    ensures LE32(FromLE32(b)) == b
  {
    var lo, hi := FromLE16(b[..2]), FromLE16(b[2..]);
    assert FromLE32(b) % 0x1_0000 == lo && FromLE32(b) / 0x1_0000 == hi;
    LE16FromLE16(b[..2]);
    LE16FromLE16(b[2..]);
    assert b == b[..2] + b[2..];
  }

  // ---------------------------------------------------------------------------
  // Serialisation
  // ---------------------------------------------------------------------------

  /** The bytes one member occupies in the image. */
  function FieldBytes(r: Record, f: Field): (b: seq<byte>)
    ensures |b| == Width(f)
  {
    match f
    case Size => LE16(r.size)
    case Version => LE16(r.version)
    case Flags => LE32(r.flags)
    case WifiSSID => r.wifiSSID
    case WifiPassword => r.wifiPassword
    case StationIP => r.stationIP
    case AccessIP => r.accessIP
    case NetMask => r.netMask
    case Gateway => r.gateway
    case SerialBaud => LE32(r.serialBaud)
    case WebServerPort => LE16(r.webServerPort)
    case WebSocketServerPort => LE16(r.webSocketServerPort)
    case SensorWaitTime => LE32(r.sensorWaitTime)
    case TempHighLimit => LE16(Bits16(r.tempHighLimit))
    case TempLowLimit => LE16(Bits16(r.tempLowLimit))
    case WifiSSIDLength => [r.wifiSSIDLength]
    case WifiPasswordLength => [r.wifiPasswordLength]
    case Label => r.sensorLabel
    case LabelLength => [r.labelLength]
    case Spare => r.spare
  }

  /** The member bytes of a record, as a function of the member. */
  function Parts(r: Record): Field -> seq<byte>
  {
    f => FieldBytes(r, f)
  }

  /** Every member's bytes have that member's width. */
  predicate Sized(parts: Field -> seq<byte>)
  {
    forall f :: |parts(f)| == Width(f)
  }

  /** The bytes of the members from f to the last one, one after the other. */
  function JoinFrom(parts: Field -> seq<byte>, f: Field): (b: seq<byte>)
    requires Sized(parts)
    ensures RelOffset(f) <= RECORD_SIZE && |b| == RECORD_SIZE - RelOffset(f)
    decreases 19 - Index(f)
  {
    if f == Spare then parts(f)
    else
      NextStartsAtEnd(f);
      parts(f) + JoinFrom(parts, Next(f))
  }

  /** The image EEPROM.put writes for a record: 176 bytes, members in declaration order. */
  function Encode(r: Record): (b: seq<byte>)
    ensures |b| == RECORD_SIZE
  {
    JoinFrom(Parts(r), Size)
  }

  /** The bytes of member f within a record image. */
  function Slice(b: seq<byte>, f: Field): (s: seq<byte>)
    requires |b| == RECORD_SIZE
    ensures |s| == Width(f)
  {
    FieldInRecord(f);
    b[RelOffset(f)..RelOffset(f) + Width(f)]
  }

  /** The record whose members hold the given bytes. */
  function DecodeParts(parts: Field -> seq<byte>): Record
    requires Sized(parts)
  {
    Record(
      FromLE16(parts(Size)),
      FromLE16(parts(Version)),
      FromLE32(parts(Flags)),
      parts(WifiSSID),
      parts(WifiPassword),
      parts(StationIP),
      parts(AccessIP),
      parts(NetMask),
      parts(Gateway),
      FromLE32(parts(SerialBaud)),
      FromLE16(parts(WebServerPort)),
      FromLE16(parts(WebSocketServerPort)),
      FromLE32(parts(SensorWaitTime)),
      FromBits16(FromLE16(parts(TempHighLimit))),
      FromBits16(FromLE16(parts(TempLowLimit))),
      parts(WifiSSIDLength)[0],
      parts(WifiPasswordLength)[0],
      parts(Label),
      parts(LabelLength)[0],
      parts(Spare))
  }

  /** The member bytes of a record image, as a function of the member. */
  function Slices(b: seq<byte>): (parts: Field -> seq<byte>)
    requires |b| == RECORD_SIZE
    ensures Sized(parts)
  {
    f => Slice(b, f)
  }

  /** The record EEPROM.get reads back from a 176-byte image. */
  function Decode(b: seq<byte>): Record
    requires |b| == RECORD_SIZE
  {
    DecodeParts(Slices(b))
  }

  // ---------------------------------------------------------------------------
  // Layout lemmas
  // ---------------------------------------------------------------------------

  /** Each member starts where the one declared before it ends. */
  lemma NextStartsAtEnd(f: Field)
    requires f != Spare
    ensures RelOffset(Next(f)) == RelOffset(f) + Width(f)
  {
  }

  lemma IndexInjective(f: Field, g: Field)
    ensures Index(f) == Index(g) ==> f == g
  {
  }

  /** A member declared before another ends at or before the other's start. */
  lemma {:induction false} OffsetsOrdered(f: Field, g: Field)
    requires Index(f) < Index(g)
    ensures RelOffset(f) + Width(f) <= RelOffset(g)
    decreases Index(g) - Index(f)
  {
    NextStartsAtEnd(f);
    if Next(f) != g {
      IndexInjective(Next(f), g);
      OffsetsOrdered(Next(f), g);
    }
  }

  /** No two members share a byte. */
  lemma MembersDisjoint(f: Field, g: Field)
    requires f != g
    ensures AbsOffset(f) + Width(f) <= AbsOffset(g) || AbsOffset(g) + Width(g) <= AbsOffset(f)
  {
    IndexInjective(f, g);
    if Index(f) < Index(g) {
      OffsetsOrdered(f, g);
    } else {
      OffsetsOrdered(g, f);
    }
  }

  /** Every PCONFIG_OFFSET_* is at or above PCONFIG_OFFSET, and the member ends
      within the record; the last member ends exactly at its end. */
  lemma FieldInRecord(f: Field)
    ensures PCONFIG_OFFSET <= AbsOffset(f)
    ensures RelOffset(f) + Width(f) <= RECORD_SIZE
    ensures RelOffset(Spare) + Width(Spare) == RECORD_SIZE
  {
  }

  /** Every 2-byte member sits at an even offset, every 4-byte member at a
      multiple of 4, and the record starts on an 8-byte boundary and its
      size is a multiple of 8. */
  lemma MembersAligned(f: Field)
    ensures RelOffset(f) % ElemSize(f) == 0
    ensures ElemSize(f) == 2 ==> AbsOffset(f) % 2 == 0
    ensures ElemSize(f) == 4 ==> AbsOffset(f) % 4 == 0
    ensures RECORD_SIZE % 8 == 0 && PCONFIG_OFFSET % 8 == 0
  {
  }

  /** The compiler places each member at its PCONFIG_OFFSET_* offset. */
  lemma {:induction false} COffsetIsRelOffset(f: Field)
    ensures COffset(f) == RelOffset(f)
    decreases Index(f)
  {
    if f != Size {
      var p := Prev(f);
      COffsetIsRelOffset(p);
      NextStartsAtEnd(p);
      MembersAligned(f);
    }
  }

  /** The layout the compiler computes from the members' sizes is the one the
      PCONFIG_OFFSET_* constants state, with no padding anywhere, and
      sizeof(PConfig_t) is 176. */
  lemma CompilerLayoutMatchesOffsets()
    ensures forall f :: COffset(f) == RelOffset(f)
    ensures CSizeOf() == RECORD_SIZE
  {
    forall f ensures COffset(f) == RelOffset(f) {
      COffsetIsRelOffset(f);
    }
  }

  /** A member's width is its element size times its element count. */
  lemma WidthIsElemTimesCount(f: Field)
    ensures Width(f) == ElemSize(f) * Count(f) && Width(f) > 0
  {
  }

  /** The three text buffers each have room for MAX == 31 characters and a NUL. */
  lemma TextBuffersHoldMaxPlusTerminator()
    ensures Width(WifiSSID) == PCONFIG_MAX_SSID + 1 == 32
    ensures Width(WifiPassword) == PCONFIG_MAX_PASSWORD + 1 == 32
    ensures Width(Label) == PCONFIG_MAX_LABEL + 1 == 32
  {
  }

  /** Schema version 0x0101 is major version 1, minor version 1. */
  lemma VersionIsOneDotOne()
    ensures MajorVersion(PCONFIG_VERSION) == 1 && MinorVersion(PCONFIG_VERSION) == 1
  {
  }

  // ---------------------------------------------------------------------------
  // Flag word lemmas
  // ---------------------------------------------------------------------------

  /** Each CONFIG_* mask is the single bit at its flag's position, and the six
      positions are distinct. */
  lemma FlagMasksAreDistinctBits(g: ConfigFlag, h: ConfigFlag)
    ensures Mask(g) == Pow2(BitOf(g)) && BitOf(g) < 32
    ensures g != h ==> BitOf(g) != BitOf(h)
  {
  }

  lemma Pow2Of32()
    ensures Pow2(32) == 0x1_0000_0000
  {
    assert Pow2(8) == 0x100;
    assert Pow2(16) == 0x1_0000;
    assert Pow2(24) == 0x100_0000;
  }

  /** Forcing a bit sets that bit as asked and leaves every other bit alone. */
  lemma {:induction false} BitWithBit(w: nat, k: nat, on: bool, j: nat)
    ensures Bit(WithBit(w, k, on), j) == if j == k then on else Bit(w, j)
  {
    if k == 0 {
      if j > 0 {
        assert WithBit(w, k, on) / 2 == w / 2;
      }
    } else {
      var r := WithBit(w / 2, k - 1, on);
      assert WithBit(w, k, on) == 2 * r + w % 2;
      if j > 0 {
        assert WithBit(w, k, on) / 2 == r;
        BitWithBit(w / 2, k - 1, on, j - 1);
      }
    }
  }

  /** Setting a clear bit adds its mask, clearing a set bit subtracts it, and
      forcing a bit to the value it has changes nothing. */
  lemma {:induction false} WithBitArithmetic(w: nat, k: nat, on: bool)
    ensures Bit(w, k) == on ==> WithBit(w, k, on) == w
    ensures !Bit(w, k) && on ==> WithBit(w, k, on) == w + Pow2(k)
    ensures Bit(w, k) && !on ==> WithBit(w, k, on) == w - Pow2(k)
  {
    if k > 0 {
      WithBitArithmetic(w / 2, k - 1, on);
    }
  }

  /** Forcing a bit below position n keeps a word below 2^n. */
  lemma {:induction false} WithBitBelow(w: nat, k: nat, on: bool, n: nat)
    requires w < Pow2(n) && k < n
    ensures WithBit(w, k, on) < Pow2(n)
  {
    if k > 0 {
      WithBitBelow(w / 2, k - 1, on, n - 1);
    }
  }

  /** `flags |= mask` on a clear flag adds the mask; `flags &= ~mask` on a set
      flag subtracts it; otherwise the word is unchanged. */
  lemma SetFlagArithmetic(flags: u32, g: ConfigFlag, on: bool)
    ensures IsSet(flags, g) == on ==> SetFlag(flags, g, on) == flags
    ensures !IsSet(flags, g) && on ==> SetFlag(flags, g, on) == flags + Mask(g)
    ensures IsSet(flags, g) && !on ==> SetFlag(flags, g, on) == flags - Mask(g)
  {
    WithBitArithmetic(flags, BitOf(g), on);
  }

  // ---------------------------------------------------------------------------
  // Serialisation lemmas
  // ---------------------------------------------------------------------------

  /** The image from f's offset on is f's bytes followed by the image from the
      next member's offset on. */
  lemma SplitAt(b: seq<byte>, f: Field)
    requires |b| == RECORD_SIZE
    ensures b[RelOffset(f)..] == Slice(b, f) + (if f == Spare then [] else b[RelOffset(Next(f))..])
  {
    var o := RelOffset(f);
    if f == Spare {
      assert b[o..] == b[o..o + Width(f)];
    } else {
      NextStartsAtEnd(f);
      assert b[o..] == b[o..o + Width(f)] + b[o + Width(f)..];
    }
  }

  /** A join of the members from f is f's bytes followed by the join from the
      next member. */
  lemma JoinFromSplits(parts: Field -> seq<byte>, f: Field, b: seq<byte>)
    requires Sized(parts) && |b| == RECORD_SIZE
    ensures b[RelOffset(f)..] == JoinFrom(parts, f) <==>
      Slice(b, f) == parts(f) && (f != Spare ==> b[RelOffset(Next(f))..] == JoinFrom(parts, Next(f)))
  {
    SplitAt(b, f);
    if f == Spare {
      assert b[RelOffset(f)..] == Slice(b, f) + [];
      assert JoinFrom(parts, f) == parts(f);
    } else {
      var rest := b[RelOffset(Next(f))..];
      assert JoinFrom(parts, f) == parts(f) + JoinFrom(parts, Next(f));
      AppendEq(Slice(b, f), rest, parts(f), JoinFrom(parts, Next(f)));
    }
  }

  /** Two concatenations with equally long first halves are equal exactly when
      both halves are. */
  lemma AppendEq(s1: seq<byte>, s2: seq<byte>, t1: seq<byte>, t2: seq<byte>)
    requires |s1| == |t1|
    ensures s1 + s2 == t1 + t2 <==> s1 == t1 && s2 == t2
  {
    if s1 + s2 == t1 + t2 {
      assert s1 == (s1 + s2)[..|s1|] && t1 == (t1 + t2)[..|s1|];
      assert s2 == (s1 + s2)[|s1|..] && t2 == (t1 + t2)[|s1|..];
    }
  }

  /** If the image from f's offset on is the join of the members from f, every
      member from f on has its bytes at its own offset. */
  lemma {:induction false} SliceOfJoinFrom(parts: Field -> seq<byte>, f: Field, g: Field, b: seq<byte>)
    requires Sized(parts) && |b| == RECORD_SIZE
    requires b[RelOffset(f)..] == JoinFrom(parts, f)
    requires Index(f) <= Index(g)
    ensures Slice(b, g) == parts(g)
    decreases 19 - Index(f)
  {
    JoinFromSplits(parts, f, b);
    if f != g {
      SliceOfJoinFrom(parts, Next(f), g, b);
    }
  }

  /** If every member from f on has its bytes at its own offset, the join of
      those members is the image from f's offset on. */
  lemma {:induction false} JoinFromOfSlices(parts: Field -> seq<byte>, f: Field, b: seq<byte>)
    requires Sized(parts) && |b| == RECORD_SIZE
    requires forall g :: Index(f) <= Index(g) ==> Slice(b, g) == parts(g)
    ensures JoinFrom(parts, f) == b[RelOffset(f)..]
    decreases 19 - Index(f)
  {
    if f != Spare {
      JoinFromOfSlices(parts, Next(f), b);
    }
    JoinFromSplits(parts, f, b);
  }

  /** Member f's bytes sit in the image at f's PCONFIG_OFFSET_* offset. */
  lemma SliceOfEncode(r: Record, f: Field)
    ensures Slice(Encode(r), f) == FieldBytes(r, f)
  {
    var b := Encode(r);
    assert b[RelOffset(Size)..] == b;
    SliceOfJoinFrom(Parts(r), Size, f, b);
  }

  /** An image is the encoding of r exactly when every member's bytes sit at
      that member's offset. */
  lemma EncodeIffSlices(r: Record, b: seq<byte>)
    requires |b| == RECORD_SIZE
    ensures Encode(r) == b <==> forall f :: Slice(b, f) == FieldBytes(r, f)
  {
    if forall f :: Slice(b, f) == FieldBytes(r, f) {
      JoinFromOfSlices(Parts(r), Size, b);
      assert b[RelOffset(Size)..] == b;
    }
    if Encode(r) == b {
      forall f ensures Slice(b, f) == FieldBytes(r, f) {
        SliceOfEncode(r, f);
      }
    }
  }

  /** The numeric members read back from their own bytes. */
  lemma DecodedNumbers(parts: Field -> seq<byte>, r: Record)
    requires Sized(parts)
    requires parts(Size) == LE16(r.size) && parts(Version) == LE16(r.version)
    requires parts(Flags) == LE32(r.flags) && parts(SerialBaud) == LE32(r.serialBaud)
    requires parts(WebServerPort) == LE16(r.webServerPort)
    requires parts(WebSocketServerPort) == LE16(r.webSocketServerPort)
    requires parts(SensorWaitTime) == LE32(r.sensorWaitTime)
    requires parts(TempHighLimit) == LE16(Bits16(r.tempHighLimit))
    requires parts(TempLowLimit) == LE16(Bits16(r.tempLowLimit))
    ensures var d := DecodeParts(parts);
      d.size == r.size && d.version == r.version && d.flags == r.flags &&
      d.serialBaud == r.serialBaud && d.webServerPort == r.webServerPort &&
      d.webSocketServerPort == r.webSocketServerPort && d.sensorWaitTime == r.sensorWaitTime &&
      d.tempHighLimit == r.tempHighLimit && d.tempLowLimit == r.tempLowLimit
  {
  }

  /** The length bytes read back from their own bytes. */
  lemma DecodedLengths(parts: Field -> seq<byte>, r: Record)
    requires Sized(parts)
    requires parts(WifiSSIDLength) == [r.wifiSSIDLength]
    requires parts(WifiPasswordLength) == [r.wifiPasswordLength]
    requires parts(LabelLength) == [r.labelLength]
    ensures var d := DecodeParts(parts);
      d.wifiSSIDLength == r.wifiSSIDLength && d.wifiPasswordLength == r.wifiPasswordLength &&
      d.labelLength == r.labelLength
  {
  }

  /** Building a record from a record's own member bytes gives that record. */
  lemma DecodePartsOfParts(parts: Field -> seq<byte>, r: Record)
    requires Sized(parts)
    requires forall f :: parts(f) == FieldBytes(r, f)
    ensures DecodeParts(parts) == r
  {
    assert parts(Size) == FieldBytes(r, Size);
    assert parts(Version) == FieldBytes(r, Version);
    assert parts(Flags) == FieldBytes(r, Flags);
    assert parts(SerialBaud) == FieldBytes(r, SerialBaud);
    assert parts(WebServerPort) == FieldBytes(r, WebServerPort);
    assert parts(WebSocketServerPort) == FieldBytes(r, WebSocketServerPort);
    assert parts(SensorWaitTime) == FieldBytes(r, SensorWaitTime);
    assert parts(TempHighLimit) == FieldBytes(r, TempHighLimit);
    assert parts(TempLowLimit) == FieldBytes(r, TempLowLimit);
    DecodedNumbers(parts, r);
    assert parts(WifiSSIDLength) == FieldBytes(r, WifiSSIDLength);
    assert parts(WifiPasswordLength) == FieldBytes(r, WifiPasswordLength);
    assert parts(LabelLength) == FieldBytes(r, LabelLength);
    DecodedLengths(parts, r);
  }

  /** The member bytes of a record built from bytes are those bytes. */
  lemma PartsOfDecodeParts(parts: Field -> seq<byte>)
    requires Sized(parts)
    ensures forall f :: FieldBytes(DecodeParts(parts), f) == parts(f)
  {
    var r := DecodeParts(parts);
    forall f ensures FieldBytes(r, f) == parts(f) {
      match f
      case Size => LE16FromLE16(parts(f));
      case Version => LE16FromLE16(parts(f));
      case Flags => LE32FromLE32(parts(f));
      case SerialBaud => LE32FromLE32(parts(f));
      case WebServerPort => LE16FromLE16(parts(f));
      case WebSocketServerPort => LE16FromLE16(parts(f));
      case SensorWaitTime => LE32FromLE32(parts(f));
      case TempHighLimit => LE16FromLE16(parts(f));
      case TempLowLimit => LE16FromLE16(parts(f));
      case _ =>
    }
  }

  /** Reading back what was written gives the same record. */
  lemma DecodeEncode(r: Record)
    ensures Decode(Encode(r)) == r
  {
    var b := Encode(r);
    EncodeIffSlices(r, b);
    DecodePartsOfParts(Slices(b), r);
  }

  /** Writing back what was read gives the same 176 bytes: encoding is a
      bijection between records and images. */
  lemma EncodeDecode(b: seq<byte>)
    requires |b| == RECORD_SIZE
    ensures Encode(Decode(b)) == b
  {
    PartsOfDecodeParts(Slices(b));
    EncodeIffSlices(Decode(b), b);
  }
}
