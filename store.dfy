/** The EEPROM store and the three operations on it (sensor/EEPROMConfig.cpp):
    ClearROM, SetROMDefaults and SetROMValue.

    The ESP8266 EEPROM library keeps a RAM cache of the flash sector:
    EEPROM.write changes one cache byte and ignores an address outside the
    cache, EEPROM.put and EEPROM.get copy a whole record into or out of the
    cache and do nothing when the record does not fit, and EEPROM.commit
    copies the cache to flash. */
module Store {
  import opened Layout

  datatype Option<T> = None | Some(value: T)

  // ---------------------------------------------------------------------------
  // Byte images
  // ---------------------------------------------------------------------------

  /** The image after writing the bytes v from address at on; a byte whose
      address falls outside the image is dropped, as EEPROM.write drops it. */
  function Overwrite(img: seq<byte>, at: int, v: seq<byte>): (r: seq<byte>)
    ensures |r| == |img|
  {
    seq(|img|, i requires 0 <= i < |img| => if at <= i < at + |v| then v[i - at] else img[i])
  }

  function Zeros(n: nat): (z: seq<byte>)
    ensures |z| == n && forall i :: 0 <= i < n ==> z[i] == 0
  {
    seq(n, _ => 0)
  }

  /** The image holds a whole record at PCONFIG_OFFSET. */
  predicate HasRecord(img: seq<byte>)
  {
    Fits(PCONFIG_OFFSET, |img|)
  }

  /** EEPROM.put and EEPROM.get move a record only when all of it fits. */
  predicate Fits(address: int, size: int)
  {
    0 <= address && address + RECORD_SIZE <= size
  }

  /** The 176 bytes of the record in an image. */
  function Window(img: seq<byte>): (w: seq<byte>)
    requires HasRecord(img)
    ensures |w| == RECORD_SIZE
  {
    img[PCONFIG_OFFSET..PCONFIG_OFFSET + RECORD_SIZE]
  }

  /** The record EEPROM.get(PCONFIG_OFFSET, ...) reads from an image. */
  function Stored(img: seq<byte>): Record
    requires HasRecord(img)
  {
    Decode(Window(img))
  }

  // ---------------------------------------------------------------------------
  // Properties of writes
  // ---------------------------------------------------------------------------

  /** Written bytes read back. */
  lemma OverwriteReadsBack(img: seq<byte>, at: int, v: seq<byte>)
    requires 0 <= at && at + |v| <= |img|
    ensures Overwrite(img, at, v)[at..at + |v|] == v
  {
  }

  /** Bytes outside the written range keep their values. */
  lemma OverwriteElsewhere(img: seq<byte>, at: int, v: seq<byte>, lo: int, hi: int)
    requires 0 <= lo <= hi <= |img|
    requires hi <= at || at + |v| <= lo
    ensures Overwrite(img, at, v)[lo..hi] == img[lo..hi]
  {
  }

  /** Writing a range in two consecutive pieces is writing it at once. */
  lemma OverwriteSplit(img: seq<byte>, at: int, v: seq<byte>, w: seq<byte>)
    ensures Overwrite(Overwrite(img, at, v), at + |v|, w) == Overwrite(img, at, v + w)
  {
  }

  /** A later write over the same range replaces an earlier one; in
      particular repeating a write changes nothing. */
  lemma OverwriteTwice(img: seq<byte>, at: int, v: seq<byte>, w: seq<byte>)
    requires |v| == |w|
    ensures Overwrite(Overwrite(img, at, v), at, w) == Overwrite(img, at, w)
  {
  }

  /** Writing the bytes already there changes nothing. */
  lemma OverwriteSame(img: seq<byte>, at: int, v: seq<byte>)
    requires 0 <= at && at + |v| <= |img|
    requires img[at..at + |v|] == v
    ensures Overwrite(img, at, v) == img
  {
    forall i | 0 <= i < |img| ensures Overwrite(img, at, v)[i] == img[i] {
      if at <= i < at + |v| {
        assert img[at..at + |v|][i - at] == img[i];
      }
    }
  }

  /** A member's bytes in the window are its bytes in the image. */
  lemma SliceOfWindow(img: seq<byte>, f: Field)
    requires HasRecord(img)
    ensures AbsOffset(f) + Width(f) <= |img| &&
      Slice(Window(img), f) == img[AbsOffset(f)..AbsOffset(f) + Width(f)]
  {
    FieldInRecord(f);
    var a, n, win := AbsOffset(f), Width(f), Window(img);
    assert Slice(win, f) == win[a - PCONFIG_OFFSET..a - PCONFIG_OFFSET + n];
    assert win == img[PCONFIG_OFFSET..PCONFIG_OFFSET + RECORD_SIZE];
    assert win[a - PCONFIG_OFFSET..a - PCONFIG_OFFSET + n] == img[a..a + n];
  }

  /** The image holds record r at PCONFIG_OFFSET: every member's bytes sit
      at that member's offset. */
  predicate Holds(img: seq<byte>, r: Record)
  {
    HasRecord(img) && forall f :: Slice(Window(img), f) == FieldBytes(r, f)
  }

  /** An image holds exactly the record EEPROM.get reads from it. */
  lemma HoldsStored(img: seq<byte>, r: Record)
    requires HasRecord(img)
    ensures Holds(img, r) <==> Stored(img) == r
  {
    EncodeIffSlices(r, Window(img));
    EncodeDecode(Window(img));
    DecodeEncode(r);
  }

  /** After writing member f's bytes v, member f reads v. */
  lemma ReadWrittenMember(img: seq<byte>, f: Field, v: seq<byte>)
    requires HasRecord(img) && |v| == Width(f)
    ensures HasRecord(Overwrite(img, AbsOffset(f), v))
    ensures Slice(Window(Overwrite(img, AbsOffset(f), v)), f) == v
  {
    SliceOfWindow(Overwrite(img, AbsOffset(f), v), f);
    OverwriteReadsBack(img, AbsOffset(f), v);
  }

  /** After writing member f's bytes, every other member reads what it read
      before. */
  lemma ReadOtherMember(img: seq<byte>, f: Field, v: seq<byte>, g: Field)
    requires HasRecord(img) && |v| == Width(f) && g != f
    ensures HasRecord(Overwrite(img, AbsOffset(f), v))
    ensures Slice(Window(Overwrite(img, AbsOffset(f), v)), g) == Slice(Window(img), g)
  {
    var img2 := Overwrite(img, AbsOffset(f), v);
    SliceOfWindow(img2, g);
    SliceOfWindow(img, g);
    OtherMemberBytes(img, f, v, g);
  }

  /** The bytes of member g are outside member f's. */
  lemma OtherMemberBytes(img: seq<byte>, f: Field, v: seq<byte>, g: Field)
    requires g != f && |v| == Width(f) && AbsOffset(g) + Width(g) <= |img|
    ensures Overwrite(img, AbsOffset(f), v)[AbsOffset(g)..AbsOffset(g) + Width(g)] ==
      img[AbsOffset(g)..AbsOffset(g) + Width(g)]
  {
    MembersDisjoint(f, g);
    var at, lo, hi := AbsOffset(f), AbsOffset(g), AbsOffset(g) + Width(g);
    assert hi <= at || at + |v| <= lo;
    OverwriteElsewhere(img, at, v, lo, hi);
  }

  /** Writing one member's bytes changes that member of the stored record
      and no other: if r2 agrees with r on every other member, the image
      afterwards holds r2. */
  lemma WriteMember(img: seq<byte>, f: Field, r: Record, r2: Record)
    requires Holds(img, r)
    requires forall g :: g != f ==> FieldBytes(r2, g) == FieldBytes(r, g)
    ensures Holds(Overwrite(img, AbsOffset(f), FieldBytes(r2, f)), r2)
  {
    var img2 := Overwrite(img, AbsOffset(f), FieldBytes(r2, f));
    ReadWrittenMember(img, f, FieldBytes(r2, f));
    forall g ensures Slice(Window(img2), g) == FieldBytes(r2, g) {
      if g != f {
        ReadOtherMember(img, f, FieldBytes(r2, f), g);
      }
    }
  }

  /** Record r with member f taken from src. */
  function Graft(r: Record, f: Field, src: Record): (g: Record)
    ensures FieldBytes(g, f) == FieldBytes(src, f)
  {
    match f
    case Size => r.(size := src.size)
    case Version => r.(version := src.version)
    case Flags => r.(flags := src.flags)
    case WifiSSID => r.(wifiSSID := src.wifiSSID)
    case WifiPassword => r.(wifiPassword := src.wifiPassword)
    case StationIP => r.(stationIP := src.stationIP)
    case AccessIP => r.(accessIP := src.accessIP)
    case NetMask => r.(netMask := src.netMask)
    case Gateway => r.(gateway := src.gateway)
    case SerialBaud => r.(serialBaud := src.serialBaud)
    case WebServerPort => r.(webServerPort := src.webServerPort)
    case WebSocketServerPort => r.(webSocketServerPort := src.webSocketServerPort)
    case SensorWaitTime => r.(sensorWaitTime := src.sensorWaitTime)
    case TempHighLimit => r.(tempHighLimit := src.tempHighLimit)
    case TempLowLimit => r.(tempLowLimit := src.tempLowLimit)
    case WifiSSIDLength => r.(wifiSSIDLength := src.wifiSSIDLength)
    case WifiPasswordLength => r.(wifiPasswordLength := src.wifiPasswordLength)
    case Label => r.(sensorLabel := src.sensorLabel)
    case LabelLength => r.(labelLength := src.labelLength)
    case Spare => r.(spare := src.spare)
  }

  /** A record that differs from r only in member f has the bytes of r in
      every other member. */
  lemma GraftElsewhere(r: Record, f: Field, src: Record)
    ensures forall g :: g != f ==> FieldBytes(Graft(r, f, src), g) == FieldBytes(r, g)
  {
  }

  /** Writing one member's bytes from a record that differs only there. */
  lemma WriteGrafted(img: seq<byte>, f: Field, r: Record, r2: Record)
    requires Holds(img, r) && r2 == Graft(r, f, r2)
    ensures Holds(Overwrite(img, AbsOffset(f), FieldBytes(r2, f)), r2)
  {
    GraftElsewhere(r, f, r2);
    WriteMember(img, f, r, r2);
  }

  /** Writing inside a range is writing the whole range with a part replaced. */
  lemma OverwriteInside(img: seq<byte>, base: nat, n: nat, k: nat, v: seq<byte>, cur: seq<byte>)
    requires base + n <= |img| && k + |v| <= n
    requires cur == img[base..base + n]
    ensures Overwrite(img, base + k, v) == Overwrite(img, base, Overwrite(cur, k, v))
  {
  }

  /** Writing a part of member f's bytes is writing all of f's bytes with
      that part replaced. */
  lemma WriteIntoMember(img: seq<byte>, f: Field, r: Record, k: nat, v: seq<byte>)
    requires Holds(img, r)
    requires k + |v| <= Width(f)
    ensures Overwrite(img, AbsOffset(f) + k, v) ==
      Overwrite(img, AbsOffset(f), Overwrite(FieldBytes(r, f), k, v))
  {
    SliceOfWindow(img, f);
    OverwriteInside(img, AbsOffset(f), Width(f), k, v, FieldBytes(r, f));
  }

  /** EEPROM.put of a record at PCONFIG_OFFSET leaves an image that holds it. */
  lemma PutHolds(img: seq<byte>, r: Record)
    requires HasRecord(img)
    ensures Holds(Overwrite(img, PCONFIG_OFFSET, Encode(r)), r)
  {
    var img2 := Overwrite(img, PCONFIG_OFFSET, Encode(r));
    OverwriteReadsBack(img, PCONFIG_OFFSET, Encode(r));
    assert Window(img2) == Encode(r);
    EncodeIffSlices(r, Window(img2));
  }

  /** The record an all-zero image holds. */
  function ZeroRecord(): Record
  {
    Record(0, 0, 0, Zeros(32), Zeros(32), Zeros(4), Zeros(4), Zeros(4), Zeros(4),
      0, 0, 0, 0, 0, 0, 0, 0, Zeros(32), 0, Zeros(SPARE_BYTES))
  }

  /** In an all-zero image each member reads as the zero record's. */
  lemma ZeroSlice(n: nat, f: Field)
    requires n >= PCONFIG_OFFSET + RECORD_SIZE
    ensures HasRecord(Zeros(n)) && Slice(Window(Zeros(n)), f) == FieldBytes(ZeroRecord(), f)
  {
    SliceOfWindow(Zeros(n), f);
    assert Slice(Window(Zeros(n)), f) == Zeros(Width(f));
    assert LE16(0) == Zeros(2) && LE32(0) == Zeros(4) && [0] == Zeros(1);
  }

  /** An all-zero image stores a record whose every member is zero, so its
      values-initialised flag is clear. */
  lemma ZeroImage(n: nat)
    requires n >= PCONFIG_OFFSET + RECORD_SIZE
    ensures Holds(Zeros(n), ZeroRecord())
    ensures HasRecord(Zeros(n)) && Stored(Zeros(n)) == ZeroRecord()
    ensures !IsSet(ZeroRecord().flags, ValuesInitialized)
  {
    forall f ensures Slice(Window(Zeros(n)), f) == FieldBytes(ZeroRecord(), f) {
      ZeroSlice(n, f);
    }
    HoldsStored(Zeros(n), ZeroRecord());
  }

  // ---------------------------------------------------------------------------
  // The EEPROM object and the in-memory record
  // ---------------------------------------------------------------------------

  class Eeprom {
    /** The RAM cache that EEPROM.read/write/put/get use. */
    const cache: array<byte>
    /** What the flash sector holds since the last commit. */
    var flash: seq<byte>

    constructor (image: seq<byte>)
      ensures cache[..] == image && flash == image
    {
      cache := new byte[|image|](i requires 0 <= i < |image| => image[i]);
      flash := image;
    }

    /** EEPROM.write: one byte; an address outside the cache is ignored. */
    method Write(address: int, value: byte)
      modifies cache
      ensures cache[..] == Overwrite(old(cache[..]), address, [value])
    {
      if 0 <= address < cache.Length {
        cache[address] := value;
      }
    }

    /** EEPROM.commit: the cache goes to flash. */
    method Commit()
      modifies this`flash
      ensures flash == cache[..]
    {
      flash := cache[..];
    }

    /** EEPROM.put of a PConfig_t: its 176-byte image, or nothing when it
        does not fit. */
    method Put(address: int, r: Record)
      modifies cache
      ensures cache[..] ==
        if Fits(address, cache.Length) then Overwrite(old(cache[..]), address, Encode(r))
        else old(cache[..])
    {
      if Fits(address, cache.Length) {
        PutBytes(address, Encode(r));
      }
    }

    /** The copy at the heart of EEPROM.put. */
    method PutBytes(address: int, b: seq<byte>)
      requires 0 <= address && address + |b| <= cache.Length
      modifies cache
      ensures cache[..] == Overwrite(old(cache[..]), address, b)
    {
      forall k | 0 <= k < |b| {
        cache[address + k] := b[k];
      }
      assert forall i | 0 <= i < cache.Length ::
        cache[i] == Overwrite(old(cache[..]), address, b)[i];
    }

    /** EEPROM.get of a PConfig_t: the record the 176 bytes at address hold,
        or the record unchanged when it does not fit. */
    method Get(address: int, cfg: ConfigRecord)
      modifies cfg
      ensures cfg.data ==
        if Fits(address, cache.Length) then Decode(cache[address..address + RECORD_SIZE])
        else old(cfg.data)
    {
      if Fits(address, cache.Length) {
        cfg.data := Decode(cache[address..address + RECORD_SIZE]);
      }
    }
  }

  /** The PConfig_t that the firmware keeps in RAM (ConfigDatah). */
  class ConfigRecord {
    var data: Record

    constructor (r: Record)
      ensures data == r
    {
      data := r;
    }
  }

  // ---------------------------------------------------------------------------
  // ClearROM
  // ---------------------------------------------------------------------------

  /** ClearROM(Size, Offset): zero every byte from Offset up to, but not
      including, Size (Size is an end address, not a count), then commit. */
  method ClearROM(rom: Eeprom, size: u32, offset: u32)
    modifies rom, rom.cache
    ensures rom.cache[..] ==
      if offset < size then Overwrite(old(rom.cache[..]), offset, Zeros(size - offset))
      else old(rom.cache[..])
    ensures rom.flash == rom.cache[..]
  {
    var i: int := offset;
    while i < size
      invariant offset <= i <= if offset < size then size else offset
      invariant rom.cache[..] == Overwrite(old(rom.cache[..]), offset, Zeros(i - offset))
    {
      ghost var before := rom.cache[..];
      rom.Write(i, 0);
      OverwriteSplit(old(rom.cache[..]), offset, Zeros(i - offset), [0]);
      assert Zeros(i - offset) + [0] == Zeros(i + 1 - offset);
      i := i + 1;
    }
    assert offset >= size ==> Overwrite(old(rom.cache[..]), offset, Zeros(0)) == old(rom.cache[..]);
    rom.Commit();
  }

  /** ClearROM zeroes exactly [Offset, Size) of the cache and flash, and
      changes nothing else. */
  lemma ClearedRange(img: seq<byte>, size: u32, offset: u32, i: int)
    requires 0 <= i < |img|
    ensures var r := if offset < size then Overwrite(img, offset, Zeros(size - offset)) else img;
      r[i] == if offset <= i < size then 0 else img[i]
  {
  }

  /** Clearing a whole store from address 0 leaves a record whose
      CONFIG_VALUES_INITIALIZED flag, which marks the stored values as
      initialised, is clear. */
  lemma ClearAllIsUninitialised(img: seq<byte>)
    requires HasRecord(img) && |img| < 0x1_0000_0000
    ensures HasRecord(Overwrite(img, 0, Zeros(|img|)))
    ensures !IsSet(Stored(Overwrite(img, 0, Zeros(|img|))).flags, ValuesInitialized)
  {
    assert Overwrite(img, 0, Zeros(|img|)) == Zeros(|img|);
    ZeroImage(|img|);
  }

  // ---------------------------------------------------------------------------
  // SetROMDefaults
  // ---------------------------------------------------------------------------

  const DEFAULT_BAUD: u32 := 115200

  /** The flags SetROMDefaults sets: initialised, probe, relay, Fahrenheit
      and wifi station. */
  const DEFAULT_FLAGS: u32 := 0x37

  /** The record SetROMDefaults builds; Spare is never assigned. */
  function Defaults(spare: SpareBuf): (d: Record)
    ensures d.spare == spare
  {
    Record(
      size := RECORD_SIZE,
      version := PCONFIG_VERSION,
      flags := DEFAULT_FLAGS,
      wifiSSID := seq(32, _ => 0),
      wifiPassword := seq(32, _ => 0),
      stationIP := [0, 0, 0, 0],
      accessIP := [192, 168, 0, 10],
      netMask := [255, 255, 255, 0],
      gateway := [192, 168, 0, 62],
      serialBaud := DEFAULT_BAUD,
      webServerPort := 80,
      webSocketServerPort := 81,
      sensorWaitTime := 15 * 1000,
      tempHighLimit := 85,
      tempLowLimit := 35,
      wifiSSIDLength := 0,
      wifiPasswordLength := 0,
      sensorLabel := seq(32, _ => 0),
      labelLength := 0,
      spare := spare)
  }

  /** The default flags are the OR of the five masks, and every flag but the
      debug-message one is set. */
  lemma DefaultFlags(g: ConfigFlag)
    ensures DEFAULT_FLAGS == CONFIG_VALUES_INITIALIZED + CONFIG_TEMP_PROBE_CONNECTED +
      CONFIG_DEVICE_RELAY_CONNECTED + CONFIG_TEMP_DISPLAY_FAHRENHEIT + CONFIG_WIFI_STATION_ENABLED
    ensures IsSet(DEFAULT_FLAGS, g) <==> g != DebugMessageEnabled
  {
  }

  /** The defaults record describes itself (size 176, version 1.1) and its
      three strings are empty and terminated. */
  lemma DefaultsSane(spare: SpareBuf)
    ensures var d := Defaults(spare);
      d.size == CSizeOf() && MajorVersion(d.version) == 1 && MinorVersion(d.version) == 1 &&
      d.wifiSSID[d.wifiSSIDLength] == 0 && d.wifiPassword[d.wifiPasswordLength] == 0 &&
      d.sensorLabel[d.labelLength] == 0
  {
    CompilerLayoutMatchesOffsets();
  }

  /** SetROMDefaults: with no record nothing happens; otherwise the record
      becomes the defaults (keeping its Spare bytes), its image is put at
      PCONFIG_OFFSET, and the store is committed. */
  method SetROMDefaults(rom: Eeprom, cfg: ConfigRecord?)
    modifies rom, rom.cache, cfg
    ensures cfg == null ==> rom.cache[..] == old(rom.cache[..]) && rom.flash == old(rom.flash)
    ensures cfg != null ==> cfg.data == Defaults(old(cfg.data.spare))
    ensures cfg != null ==>
      rom.cache[..] == if HasRecord(old(rom.cache[..]))
        then Overwrite(old(rom.cache[..]), PCONFIG_OFFSET, Encode(cfg.data))
        else old(rom.cache[..])
    ensures cfg != null ==> rom.flash == rom.cache[..]
    ensures cfg != null && HasRecord(rom.cache[..]) ==>
      Holds(rom.cache[..], cfg.data) && Stored(rom.cache[..]) == cfg.data
  {
    if cfg != null {
      cfg.data := Defaults(cfg.data.spare);
      rom.Put(PCONFIG_OFFSET, cfg.data);
      rom.Commit();
      if HasRecord(rom.cache[..]) {
        PutHolds(old(rom.cache[..]), cfg.data);
        HoldsStored(rom.cache[..], cfg.data);
      }
    }
  }

  // ---------------------------------------------------------------------------
  // SetROMValue
  // ---------------------------------------------------------------------------

  /** SetROMValue's guard: an offset inside the record area, a value, and a
      size that is not negative. */
  predicate Accepts(offset: int, value: Option<seq<byte>>, size: int)
  {
    offset >= PCONFIG_OFFSET && value.Some? && size >= 0
  }

  /** SetROMValue(Offset, Value, Size): when the guard holds, write the Size
      bytes of Value one at a time from Offset on, then commit; when it does
      not, change nothing. */
  method SetROMValue(rom: Eeprom, offset: int, value: Option<seq<byte>>, size: int)
    requires Accepts(offset, value, size) ==> size <= |value.value|
    modifies rom, rom.cache
    ensures rom.cache[..] ==
      if Accepts(offset, value, size) then Overwrite(old(rom.cache[..]), offset, value.value[..size])
      else old(rom.cache[..])
    ensures rom.flash == if Accepts(offset, value, size) then rom.cache[..] else old(rom.flash)
  {
    if Accepts(offset, value, size) {
      var v := value.value;
      for i := 0 to size
        invariant rom.cache[..] == Overwrite(old(rom.cache[..]), offset, v[..i])
      {
        rom.Write(offset + i, v[i]);
        OverwriteSplit(old(rom.cache[..]), offset, v[..i], [v[i]]);
        assert v[..i] + [v[i]] == v[..i + 1];
      }
      rom.Commit();
    }
  }

  /** Every PCONFIG_OFFSET_* passes SetROMValue's offset test, and a member's
      own bytes land inside the record. */
  lemma MemberWritesAccepted(f: Field, v: seq<byte>)
    requires |v| == Width(f)
    ensures Accepts(AbsOffset(f), Some(v), Width(f))
    ensures AbsOffset(f) + Width(f) <= PCONFIG_OFFSET + RECORD_SIZE
  {
    FieldInRecord(f);
  }
}
