/** The configuration-form handlers of the sensor's web server
    (sensor/WebConfig.cpp): the Config* member updaters, the flag
    aggregation of HandleSensorConfigPost, HandleWifiConfigPost, and
    GetContentType.

    Each value updater reads one form argument, narrows it with the C cast
    the source applies, tests the narrowed value, and, when the value
    differs from the in-memory record, writes the member's bytes with
    SetROMValue and updates the in-memory record; ConfigSSID also zeroes
    the bytes of a longer previous SSID. The flag updaters change only the
    in-memory Flags; their caller persists them.

    The text, address and wait-time updaters are modelled as written. Where
    the written rule departs from what the form promises, a corrected rule
    stands beside it (Rules.Corrected), and the handler compositions are
    stated for both. */
module WebConfig {
  import opened Layout
  import opened Store

  // ---------------------------------------------------------------------------
  // Form arguments
  // ---------------------------------------------------------------------------

  /** The bytes of an Arduino String. */
  type Text = seq<byte>

  /** One form argument: its text, and what String::toInt made of it (a
      32-bit long on the ESP8266). */
  datatype Arg = Arg(text: Text, number: i32)

  /** The arguments of a POST, by name; hasArg is membership. */
  type Form = map<string, Arg>

  /** WebServer::arg: a missing argument reads as the empty String, whose
      toInt is 0. */
  function ArgOf(form: Form, name: string): (a: Arg)
    ensures name !in form ==> a == Arg([], 0)
  {
    if name in form then form[name] else Arg([], 0)
  }

  function TextOf(form: Form, name: string): Text { ArgOf(form, name).text }
  function NumberOf(form: Form, name: string): i32 { ArgOf(form, name).number }

  const ZERO_TEXT: Text := [0x30]      // "0"
  const F_TEXT: Text := [0x46]         // "F"
  const C_TEXT: Text := [0x43]         // "C"

  /** equalsIgnoreCase("Y") and equalsIgnoreCase("N"). */
  predicate IsYes(t: Text) { t == [0x59] || t == [0x79] }
  predicate IsNo(t: Text) { t == [0x4E] || t == [0x6E] }

  // ---------------------------------------------------------------------------
  // The C narrowing casts
  // ---------------------------------------------------------------------------

  /** (int16_t) of a long: the low 16 bits read as two's complement. */
  function Int16Of(x: i32): (r: i16)
    ensures (r - x) % 0x1_0000 == 0
    ensures -0x8000 <= x < 0x8000 ==> r == x
  {
    var u := x % 0x1_0000;
    if u >= 0x8000 then u - 0x1_0000 else u
  }

  /** (uint16_t) of a long. */
  function UInt16Of(x: i32): (r: u16)
    ensures (r - x) % 0x1_0000 == 0
    ensures 0 <= x < 0x1_0000 ==> r == x
  {
    x % 0x1_0000
  }

  /** (uint32_t) of a long. */
  function UInt32Of(x: i32): (r: u32)
    ensures (r - x) % 0x1_0000_0000 == 0
    ensures x >= 0 ==> r == x
  {
    x % 0x1_0000_0000
  }

  /** (uint8_t) of an int or a length. */
  function UInt8Of(x: int): (r: byte)
    ensures (r - x) % 0x100 == 0
    ensures 0 <= x < 0x100 ==> r == x
  {
    x % 0x100
  }

  // ---------------------------------------------------------------------------
  // The in-memory record and the record the EEPROM image holds
  // ---------------------------------------------------------------------------

  /** The two copies of the configuration a POST handler works on: the
      in-memory PConfig_t, and the record the EEPROM cache holds. */
  datatype Copies = Copies(mem: Record, stored: Record)

  /** Which rules the text, address and wait-time updaters follow: the
      source's, or the corrected ones. */
  datatype Rules = AsWritten | Corrected

  /** Every write reached the flash: either the flash holds the cache, or
      the cache and the flash are as they were. */
  predicate Committed(cache0: seq<byte>, flash0: seq<byte>, cache: seq<byte>, flash: seq<byte>) {
    flash == cache || (cache == cache0 && flash == flash0)
  }

  /** Only bytes of the configuration record changed: SetROMValue refuses
      an offset below PCONFIG_OFFSET, and every member ends inside the
      record, so the bytes before and after it keep their values. */
  predicate WithinRecord(cache0: seq<byte>, cache: seq<byte>) {
    |cache| == |cache0| &&
    forall i :: 0 <= i < |cache| && !(PCONFIG_OFFSET <= i < PCONFIG_OFFSET + RECORD_SIZE) ==> cache[i] == cache0[i]
  }

  /** A write inside the record leaves everything else as it was. */
  lemma OverwriteWithinRecord(img: seq<byte>, at: int, v: seq<byte>)
    requires PCONFIG_OFFSET <= at && at + |v| <= PCONFIG_OFFSET + RECORD_SIZE
    ensures WithinRecord(img, Overwrite(img, at, v))
  {
  }

  /** Persist one member: SetROMValue(PCONFIG_OFFSET_<f>, &Value, sizeof
      member), where v is the member's bytes. The image then holds st2, the
      stored record with member f replaced. */
  method PersistMember(rom: Eeprom, f: Field, v: seq<byte>, ghost st: Record, ghost st2: Record)
    requires |v| == Width(f) && FieldBytes(st2, f) == v && st2 == Graft(st, f, st2)
    modifies rom, rom.cache
    ensures WithinRecord(old(rom.cache[..]), rom.cache[..])
    ensures rom.cache[..] == Overwrite(old(rom.cache[..]), AbsOffset(f), v)
    ensures rom.flash == rom.cache[..]
    ensures Holds(old(rom.cache[..]), st) ==> Holds(rom.cache[..], st2)
  {
    MemberWritesAccepted(f, v);
    SetROMValue(rom, AbsOffset(f), Some(v), Width(f));
    assert v[..Width(f)] == v;
    if Holds(old(rom.cache[..]), st) {
      WriteGrafted(old(rom.cache[..]), f, st, st2);
    }
  }

  /** Persist bytes v at position k within member f. The image then holds
      st2, the stored record whose member f has those bytes replaced. */
  method PersistPart(rom: Eeprom, f: Field, k: nat, v: seq<byte>, ghost st: Record, ghost st2: Record)
    requires k + |v| <= Width(f)
    requires FieldBytes(st2, f) == Overwrite(FieldBytes(st, f), k, v) && st2 == Graft(st, f, st2)
    modifies rom, rom.cache
    ensures WithinRecord(old(rom.cache[..]), rom.cache[..])
    ensures rom.cache[..] == Overwrite(old(rom.cache[..]), AbsOffset(f) + k, v)
    ensures rom.flash == rom.cache[..]
    ensures Holds(old(rom.cache[..]), st) ==> Holds(rom.cache[..], st2)
  {
    FieldInRecord(f);
    OverwriteWithinRecord(rom.cache[..], AbsOffset(f) + k, v);
    SetROMValue(rom, AbsOffset(f) + k, Some(v), |v|);
    assert v[..|v|] == v;
    if Holds(old(rom.cache[..]), st) {
      WritePart(old(rom.cache[..]), f, st, k, v, st2);
    }
  }

  lemma WritePart(img: seq<byte>, f: Field, st: Record, k: nat, v: seq<byte>, st2: Record)
    requires Holds(img, st) && k + |v| <= Width(f)
    requires FieldBytes(st2, f) == Overwrite(FieldBytes(st, f), k, v) && st2 == Graft(st, f, st2)
    ensures Holds(Overwrite(img, AbsOffset(f) + k, v), st2)
  {
    WriteIntoMember(img, f, st, k, v);
    WriteGrafted(img, f, st, st2);
  }

  // ---------------------------------------------------------------------------
  // Flag updaters: ConfigProbe, ConfigRelay, ConfigTempUnits, ConfigDebug,
  // ConfigWifiEnable
  // ---------------------------------------------------------------------------

  /** The flag rule all five updaters share: set flag g when the entry asks
      for it (on) and it is clear; otherwise clear it when the entry asks
      (off) and it is set. An entry never asks for both; if it did, the
      flag would toggle. */
  function FlagRule(flags: u32, g: ConfigFlag, on: bool, off: bool): (r: u32)
    ensures !(on && off) ==> IsSet(r, g) == (on || (!off && IsSet(flags, g)))
    ensures forall h :: h != g ==> IsSet(r, h) == IsSet(flags, h)
    ensures r != flags <==> (on && !IsSet(flags, g)) || (off && IsSet(flags, g))
    ensures r != flags ==> IsSet(r, g) != IsSet(flags, g)
  {
    if on && !IsSet(flags, g) then SetFlag(flags, g, true)
    else if off && IsSet(flags, g) then SetFlag(flags, g, false)
    else flags
  }

  const PROBE_ARG := "sensor_probe"
  const RELAY_ARG := "sensor_relay"
  const UNITS_ARG := "sensor_units"
  const DEBUG_ARG := "sensor_debug"
  const WIFI_ARG := "wifi_station"

  function ProbeRule(form: Form, flags: u32): u32 {
    FlagRule(flags, TempProbeConnected, IsYes(TextOf(form, PROBE_ARG)), IsNo(TextOf(form, PROBE_ARG)))
  }

  function RelayRule(form: Form, flags: u32): u32 {
    FlagRule(flags, DeviceRelayConnected, IsYes(TextOf(form, RELAY_ARG)), IsNo(TextOf(form, RELAY_ARG)))
  }

  /** Units compare exactly: "F" sets Fahrenheit and "C" clears it. */
  function UnitsRule(form: Form, flags: u32): u32 {
    FlagRule(flags, TempDisplayFahrenheit, TextOf(form, UNITS_ARG) == F_TEXT, TextOf(form, UNITS_ARG) == C_TEXT)
  }

  function DebugRule(form: Form, flags: u32): u32 {
    FlagRule(flags, DebugMessageEnabled, IsYes(TextOf(form, DEBUG_ARG)), IsNo(TextOf(form, DEBUG_ARG)))
  }

  function WifiRule(form: Form, flags: u32): u32 {
    FlagRule(flags, WifiStationEnabled, IsYes(TextOf(form, WIFI_ARG)), IsNo(TextOf(form, WIFI_ARG)))
  }

  /** The in-memory update of one flag; the result tells whether Flags changed. */
  method UpdateFlag(cfg: ConfigRecord, g: ConfigFlag, on: bool, off: bool) returns (changed: bool)
    modifies cfg
    ensures cfg.data == old(cfg.data).(flags := FlagRule(old(cfg.data.flags), g, on, off))
    ensures changed <==> cfg.data.flags != old(cfg.data.flags)
  {
    changed := false;
    if on && !IsSet(cfg.data.flags, g) {
      cfg.data := cfg.data.(flags := SetFlag(cfg.data.flags, g, true));
      changed := true;
    } else if off && IsSet(cfg.data.flags, g) {
      cfg.data := cfg.data.(flags := SetFlag(cfg.data.flags, g, false));
      changed := true;
    }
  }

  method ConfigProbe(form: Form, cfg: ConfigRecord) returns (changed: bool)
    modifies cfg
    ensures cfg.data == old(cfg.data).(flags := ProbeRule(form, old(cfg.data.flags)))
    ensures changed <==> cfg.data.flags != old(cfg.data.flags)
  {
    var t := TextOf(form, PROBE_ARG);
    changed := UpdateFlag(cfg, TempProbeConnected, IsYes(t), IsNo(t));
  }

  method ConfigRelay(form: Form, cfg: ConfigRecord) returns (changed: bool)
    modifies cfg
    ensures cfg.data == old(cfg.data).(flags := RelayRule(form, old(cfg.data.flags)))
    ensures changed <==> cfg.data.flags != old(cfg.data.flags)
  {
    var t := TextOf(form, RELAY_ARG);
    changed := UpdateFlag(cfg, DeviceRelayConnected, IsYes(t), IsNo(t));
  }

  method ConfigTempUnits(form: Form, cfg: ConfigRecord) returns (changed: bool)
    modifies cfg
    ensures cfg.data == old(cfg.data).(flags := UnitsRule(form, old(cfg.data.flags)))
    ensures changed <==> cfg.data.flags != old(cfg.data.flags)
  {
    var t := TextOf(form, UNITS_ARG);
    changed := UpdateFlag(cfg, TempDisplayFahrenheit, t == F_TEXT, t == C_TEXT);
  }

  method ConfigDebug(form: Form, cfg: ConfigRecord) returns (changed: bool)
    modifies cfg
    ensures cfg.data == old(cfg.data).(flags := DebugRule(form, old(cfg.data.flags)))
    ensures changed <==> cfg.data.flags != old(cfg.data.flags)
  {
    var t := TextOf(form, DEBUG_ARG);
    changed := UpdateFlag(cfg, DebugMessageEnabled, IsYes(t), IsNo(t));
  }

  /** The wifi-station flag: like the others, but persisted here, as the
      4-byte Flags member, whenever it changed. */
  function WifiStep(s: Copies, form: Form): Copies {
    var flags := WifiRule(form, s.mem.flags);
    if flags != s.mem.flags then Copies(s.mem.(flags := flags), s.stored.(flags := flags))
    else s
  }

  method ConfigWifiEnable(form: Form, cfg: ConfigRecord, rom: Eeprom, ghost st: Record)
    modifies cfg, rom, rom.cache
    ensures WithinRecord(old(rom.cache[..]), rom.cache[..])
    ensures cfg.data == WifiStep(Copies(old(cfg.data), st), form).mem
    ensures Holds(old(rom.cache[..]), st) ==> Holds(rom.cache[..], WifiStep(Copies(old(cfg.data), st), form).stored)
    ensures if cfg.data.flags != old(cfg.data.flags)
      then rom.cache[..] == Overwrite(old(rom.cache[..]), PCONFIG_OFFSET_FLAGS, LE32(cfg.data.flags)) &&
        rom.flash == rom.cache[..]
      else rom.cache[..] == old(rom.cache[..]) && rom.flash == old(rom.flash)
  {
    var t := TextOf(form, WIFI_ARG);
    var changed := UpdateFlag(cfg, WifiStationEnabled, IsYes(t), IsNo(t));
    if changed {
      PersistMember(rom, Flags, LE32(cfg.data.flags), st, st.(flags := cfg.data.flags));
    }
  }

  // ---------------------------------------------------------------------------
  // Numeric updaters: ConfigLowTemp, ConfigHighTemp, ConfigWebPort,
  // ConfigDataPort
  // ---------------------------------------------------------------------------

  /** The value a numeric updater takes: the parsed entry, except that a
      parse of 0 from any text but "0" (toInt's answer for text that is not
      a number) keeps the current value. */
  function Entered(text: Text, parsed: int, current: int): int {
    if parsed == 0 && text != ZERO_TEXT then current else parsed
  }

  /** A numeric updater changes the value only to the parsed entry, and to 0
      only when the entry reads "0". */
  lemma EnteredRule(text: Text, parsed: int, current: int)
    ensures Entered(text, parsed, current) == current || Entered(text, parsed, current) == parsed
    ensures Entered(text, parsed, current) != current ==>
      Entered(text, parsed, current) == parsed && (parsed == 0 ==> text == ZERO_TEXT)
    ensures parsed != 0 ==> Entered(text, parsed, current) == parsed
  {
  }

  const LOWTEMP_ARG := "sensor_lowtemp"
  const HIGHTEMP_ARG := "sensor_hightemp"
  const WEBPORT_ARG := "webport"
  const WSPORT_ARG := "wsport"

  function LowTempValue(form: Form, current: i16): i16 {
    Entered(TextOf(form, LOWTEMP_ARG), Int16Of(NumberOf(form, LOWTEMP_ARG)), current)
  }

  function HighTempValue(form: Form, current: i16): i16 {
    Entered(TextOf(form, HIGHTEMP_ARG), Int16Of(NumberOf(form, HIGHTEMP_ARG)), current)
  }

  function WebPortValue(form: Form, current: u16): u16 {
    Entered(TextOf(form, WEBPORT_ARG), UInt16Of(NumberOf(form, WEBPORT_ARG)), current)
  }

  function DataPortValue(form: Form, current: u16): u16 {
    Entered(TextOf(form, WSPORT_ARG), UInt16Of(NumberOf(form, WSPORT_ARG)), current)
  }

  function LowTempStep(s: Copies, form: Form): Copies {
    var v := LowTempValue(form, s.mem.tempLowLimit);
    if v != s.mem.tempLowLimit then Copies(s.mem.(tempLowLimit := v), s.stored.(tempLowLimit := v)) else s
  }

  function HighTempStep(s: Copies, form: Form): Copies {
    var v := HighTempValue(form, s.mem.tempHighLimit);
    if v != s.mem.tempHighLimit then Copies(s.mem.(tempHighLimit := v), s.stored.(tempHighLimit := v)) else s
  }

  function WebPortStep(s: Copies, form: Form): Copies {
    var v := WebPortValue(form, s.mem.webServerPort);
    if v != s.mem.webServerPort then Copies(s.mem.(webServerPort := v), s.stored.(webServerPort := v)) else s
  }

  function DataPortStep(s: Copies, form: Form): Copies {
    var v := DataPortValue(form, s.mem.webSocketServerPort);
    if v != s.mem.webSocketServerPort
    then Copies(s.mem.(webSocketServerPort := v), s.stored.(webSocketServerPort := v))
    else s
  }

  method ConfigLowTemp(form: Form, cfg: ConfigRecord, rom: Eeprom, ghost st: Record)
    modifies cfg, rom, rom.cache
    ensures WithinRecord(old(rom.cache[..]), rom.cache[..])
    ensures cfg.data == LowTempStep(Copies(old(cfg.data), st), form).mem
    ensures Holds(old(rom.cache[..]), st) ==> Holds(rom.cache[..], LowTempStep(Copies(old(cfg.data), st), form).stored)
    ensures if cfg.data.tempLowLimit != old(cfg.data.tempLowLimit)
      then rom.cache[..] == Overwrite(old(rom.cache[..]), PCONFIG_OFFSET_TEMPLOWLIMIT, LE16(Bits16(cfg.data.tempLowLimit))) &&
        rom.flash == rom.cache[..]
      else rom.cache[..] == old(rom.cache[..]) && rom.flash == old(rom.flash)
  {
    var value := Int16Of(NumberOf(form, LOWTEMP_ARG));
    if value == 0 {
      if TextOf(form, LOWTEMP_ARG) != ZERO_TEXT {
        value := cfg.data.tempLowLimit;
      }
    }
    if value != cfg.data.tempLowLimit {
      PersistMember(rom, TempLowLimit, LE16(Bits16(value)), st, st.(tempLowLimit := value));
      cfg.data := cfg.data.(tempLowLimit := value);
    }
  }

  method ConfigHighTemp(form: Form, cfg: ConfigRecord, rom: Eeprom, ghost st: Record)
    modifies cfg, rom, rom.cache
    ensures WithinRecord(old(rom.cache[..]), rom.cache[..])
    ensures cfg.data == HighTempStep(Copies(old(cfg.data), st), form).mem
    ensures Holds(old(rom.cache[..]), st) ==> Holds(rom.cache[..], HighTempStep(Copies(old(cfg.data), st), form).stored)
    ensures if cfg.data.tempHighLimit != old(cfg.data.tempHighLimit)
      then rom.cache[..] == Overwrite(old(rom.cache[..]), PCONFIG_OFFSET_TEMPHIGHLIMIT, LE16(Bits16(cfg.data.tempHighLimit))) &&
        rom.flash == rom.cache[..]
      else rom.cache[..] == old(rom.cache[..]) && rom.flash == old(rom.flash)
  {
    var value := Int16Of(NumberOf(form, HIGHTEMP_ARG));
    if value == 0 {
      if TextOf(form, HIGHTEMP_ARG) != ZERO_TEXT {
        value := cfg.data.tempHighLimit;
      }
    }
    if value != cfg.data.tempHighLimit {
      PersistMember(rom, TempHighLimit, LE16(Bits16(value)), st, st.(tempHighLimit := value));
      cfg.data := cfg.data.(tempHighLimit := value);
    }
  }

  method ConfigWebPort(form: Form, cfg: ConfigRecord, rom: Eeprom, ghost st: Record)
    modifies cfg, rom, rom.cache
    ensures WithinRecord(old(rom.cache[..]), rom.cache[..])
    ensures cfg.data == WebPortStep(Copies(old(cfg.data), st), form).mem
    ensures Holds(old(rom.cache[..]), st) ==> Holds(rom.cache[..], WebPortStep(Copies(old(cfg.data), st), form).stored)
    ensures if cfg.data.webServerPort != old(cfg.data.webServerPort)
      then rom.cache[..] == Overwrite(old(rom.cache[..]), PCONFIG_OFFSET_WEBSERVERPORT, LE16(cfg.data.webServerPort)) &&
        rom.flash == rom.cache[..]
      else rom.cache[..] == old(rom.cache[..]) && rom.flash == old(rom.flash)
  {
    var value := UInt16Of(NumberOf(form, WEBPORT_ARG));
    if value == 0 {
      if TextOf(form, WEBPORT_ARG) != ZERO_TEXT {
        value := cfg.data.webServerPort;
      }
    }
    if value != cfg.data.webServerPort {
      PersistMember(rom, WebServerPort, LE16(value), st, st.(webServerPort := value));
      cfg.data := cfg.data.(webServerPort := value);
    }
  }

  method ConfigDataPort(form: Form, cfg: ConfigRecord, rom: Eeprom, ghost st: Record)
    modifies cfg, rom, rom.cache
    ensures WithinRecord(old(rom.cache[..]), rom.cache[..])
    ensures cfg.data == DataPortStep(Copies(old(cfg.data), st), form).mem
    ensures Holds(old(rom.cache[..]), st) ==> Holds(rom.cache[..], DataPortStep(Copies(old(cfg.data), st), form).stored)
    ensures if cfg.data.webSocketServerPort != old(cfg.data.webSocketServerPort)
      then rom.cache[..] == Overwrite(old(rom.cache[..]), PCONFIG_OFFSET_WEBSOCKETSERVERPORT, LE16(cfg.data.webSocketServerPort)) &&
        rom.flash == rom.cache[..]
      else rom.cache[..] == old(rom.cache[..]) && rom.flash == old(rom.flash)
  {
    var value := UInt16Of(NumberOf(form, WSPORT_ARG));
    if value == 0 {
      if TextOf(form, WSPORT_ARG) != ZERO_TEXT {
        value := cfg.data.webSocketServerPort;
      }
    }
    if value != cfg.data.webSocketServerPort {
      PersistMember(rom, WebSocketServerPort, LE16(value), st, st.(webSocketServerPort := value));
      cfg.data := cfg.data.(webSocketServerPort := value);
    }
  }

  // ---------------------------------------------------------------------------
  // Text updaters: ConfigSensorLabel, ConfigSSID, ConfigPassword
  // ---------------------------------------------------------------------------

  predicate NoNul(b: seq<byte>) { forall i :: 0 <= i < |b| ==> b[i] != 0 }

  /** The C string a NUL-terminated buffer holds: its bytes before the
      first NUL (all of them when there is none). */
  function CString(b: seq<byte>): (r: seq<byte>)
    ensures |r| <= |b| && r == b[..|r|] && NoNul(r)
    ensures |r| < |b| ==> b[|r|] == 0
  {
    if |b| == 0 || b[0] == 0 then [] else [b[0]] + CString(b[1..])
  }

  /** A buffer holding text t, a NUL and anything after holds the C string t. */
  lemma {:induction false} CStringOfTerminated(t: seq<byte>, rest: seq<byte>)
    requires NoNul(t)
    ensures CString(t + [0] + rest) == t
    decreases |t|
  {
    if |t| > 0 {
      assert (t + [0] + rest)[1..] == t[1..] + [0] + rest;
      CStringOfTerminated(t[1..], rest);
    }
  }

  /** String::equals against String(buffer): equal lengths, and strcmp of
      the two C strings finds no difference. */
  predicate SameString(t: Text, buf: seq<byte>) {
    |t| == |CString(buf)| && CString(t) == CString(buf)
  }

  /** A buffer whose string equals a text without NULs reads as that text. */
  lemma SameStringReads(t: Text, buf: seq<byte>)
    requires NoNul(t) && SameString(t, buf)
    ensures CString(buf) == t
  {
    assert CString(t) == t;
  }

  /** strncpy(dst, src, n) where src ends at its length: the bytes of src up
      to its first NUL, then NULs, n bytes in all. */
  function StrNCpy(src: seq<byte>, n: nat): (r: seq<byte>)
    ensures |r| == n
  {
    if n == 0 then []
    else if |src| == 0 || src[0] == 0 then Zeros(n)
    else [src[0]] + StrNCpy(src[1..], n - 1)
  }

  /** strncpy copies a text without NULs verbatim. */
  lemma {:induction false} StrNCpyCopies(src: seq<byte>, n: nat)
    requires NoNul(src) && n <= |src|
    ensures StrNCpy(src, n) == src[..n]
    decreases n
  {
    if n > 0 {
      StrNCpyCopies(src[1..], n - 1);
      assert src[..n] == [src[0]] + src[1..][..n - 1];
    }
  }

  /** The bytes the source's text updaters write at the member's offset
      (ValueLength + 1 of them), or None when the entry is refused as too
      long. As written: ValueLength is the length cast to uint8_t, and the
      text is copied with toCharArray(Value, 31), which copies at most 30
      bytes, before Value[ValueLength] = 0. Bytes of the uninitialised
      Value past the copy never reach the output: the only one that could,
      Value[31], is the terminator when ValueLength is 31. The SSID, the
      password and the label have limits of their own (PCONFIG_MAX_SSID,
      PCONFIG_MAX_PASSWORD, PCONFIG_MAX_LABEL), all 31, so one rule serves
      the three updaters. */
  function TextEntryAsWritten(t: Text): (w: Option<seq<byte>>)
    ensures w.Some? ==> |w.value| == |t| % 256 + 1 <= PCONFIG_MAX_LABEL + 1 && w.value[|w.value| - 1] == 0
  {
    var len := UInt8Of(|t|);
    if len > PCONFIG_MAX_LABEL then None
    else
      var n := if |t| < PCONFIG_MAX_LABEL - 1 then |t| else PCONFIG_MAX_LABEL - 1;
      var value := StrNCpy(t, n) + [0] + Zeros(PCONFIG_MAX_LABEL - n);
      Some(value[len := 0][..len + 1])
  }

  /** The bytes the text updaters write, corrected: an entry longer than 31
      bytes is refused, and the copy has room for all 31 bytes and the
      terminator (toCharArray(Value, 32)). */
  function TextEntry(t: Text): (w: Option<seq<byte>>)
    ensures w.Some? ==> |w.value| == |t| + 1 <= PCONFIG_MAX_LABEL + 1
  {
    if |t| > PCONFIG_MAX_LABEL then None else Some(StrNCpy(t, |t|) + [0])
  }

  /** The entry bytes under either rules: the stored length is the entry's
      length read as a uint8_t, and the last byte is the terminator. */
  function TextRule(rules: Rules, t: Text): (w: Option<seq<byte>>)
    ensures w.Some? ==> |w.value| == UInt8Of(|t|) as int + 1 <= PCONFIG_MAX_LABEL + 1 && w.value[|w.value| - 1] == 0
  {
    if rules == AsWritten then TextEntryAsWritten(t) else TextEntry(t)
  }

  /** The C string stored for an accepted entry without NULs: the entry
      itself when corrected; as written, the entry cut to its length read
      as a uint8_t and to the 30 bytes toCharArray copies. */
  function StoredText(rules: Rules, t: Text): (r: Text)
    ensures |r| <= |t|
  {
    if rules == Corrected then t
    else t[..if UInt8Of(|t|) < PCONFIG_MAX_LABEL - 1 then UInt8Of(|t|) as int else PCONFIG_MAX_LABEL - 1]
  }

  /** An accepted entry without NULs is written as its stored text, the
      terminator, and NULs up to the stored length. */
  lemma EntryShape(rules: Rules, t: Text)
    requires NoNul(t) && TextRule(rules, t).Some?
    ensures UInt8Of(|t|) as int >= |StoredText(rules, t)|
    ensures TextRule(rules, t).value == StoredText(rules, t) + [0] + Zeros(UInt8Of(|t|) as int - |StoredText(rules, t)|)
  {
    if rules == Corrected {
      StrNCpyCopies(t, |t|);
      assert t[..|t|] == t;
    } else {
      var len := UInt8Of(|t|);
      var n := if |t| < PCONFIG_MAX_LABEL - 1 then |t| else PCONFIG_MAX_LABEL - 1;
      var value := StrNCpy(t, n) + [0] + Zeros(PCONFIG_MAX_LABEL - n);
      StrNCpyCopies(t, n);
      if len as int <= n {
        assert value[len := 0][..len + 1] == t[..len] + [0];
      } else {
        assert n == 30 && len == 31;
        assert value[len := 0][..len + 1] == t[..30] + [0] + [0];
      }
    }
  }

  /** A 31-byte entry loses its last byte as written: the stored text is its
      first 30 bytes while the stored length says 31. */
  lemma LongestEntryTruncated(t: Text)
    requires NoNul(t) && |t| == PCONFIG_MAX_LABEL
    ensures TextEntryAsWritten(t) == Some(t[..30] + [0, 0])
    ensures CString(TextEntryAsWritten(t).value) != t
    ensures TextEntry(t) == Some(t + [0])
  {
    StrNCpyCopies(t, 30);
    StrNCpyCopies(t, 31);
    assert t[..31] == t;
    var value := StrNCpy(t, 30) + [0] + Zeros(1);
    assert value[31 := 0][..32] == t[..30] + [0, 0];
    CStringOfTerminated(t[..30], [0]);
    assert t[..30] + [0, 0] == t[..30] + [0] + [0];
  }

  /** An entry of 256 bytes passes the length test as written (its length
      reads 0 as a uint8_t) and clears the stored text; corrected it is
      refused. */
  lemma OverlongEntryAccepted(t: Text)
    requires |t| == 256
    ensures TextEntryAsWritten(t) == Some([0])
    ensures TextEntry(t) == None
  {
    var value := StrNCpy(t, 30) + [0] + Zeros(1);
    assert value[0 := 0][..1] == [0];
  }

  /** The concrete inputs: 31 and 256 letters 'A'. */
  lemma TextEntryCounterexamples()
    ensures TextEntryAsWritten(seq(31, _ => 0x41)) != TextEntry(seq(31, _ => 0x41))
    ensures TextEntryAsWritten(seq(256, _ => 0x41)).Some? && TextEntry(seq(256, _ => 0x41)).None?
  {
    var a := seq(31, _ => 0x41);
    LongestEntryTruncated(a);
    assert a[..30] + [0, 0] != a + [0] by { assert (a[..30] + [0, 0])[30] == 0 != (a + [0])[30]; }
    OverlongEntryAccepted(seq(256, _ => 0x41));
  }

  /** Corrected, an accepted entry without NULs is stored so that the buffer
      reads back as the entry, and submitting it again changes nothing. */
  lemma TextEntryStored(t: Text, buf: TextBuf)
    ensures TextEntry(t).None? <==> |t| > PCONFIG_MAX_LABEL
    ensures TextEntry(t).Some? ==> TextEntry(t).value[|t|] == 0
    ensures TextEntry(t).Some? && NoNul(t) ==>
      TextEntry(t).value == t + [0] &&
      CString(Overwrite(buf, 0, TextEntry(t).value)) == t &&
      SameString(t, Overwrite(buf, 0, TextEntry(t).value))
  {
    if TextEntry(t).Some? && NoNul(t) {
      var w := TextEntry(t).value;
      StrNCpyCopies(t, |t|);
      assert t[..|t|] == t;
      var img := Overwrite(buf, 0, w);
      assert img == w + img[|w|..];
      CStringOfTerminated(t, img[|w|..]);
      CStringOfTerminated(t, []);
      assert t + [0] + [] == t + [0];
    }
  }

  /** The change a text entry makes: the bytes to write, unless the entry is
      refused or already equal to the buffer's string. */
  function TextChange(rules: Rules, t: Text, buf: seq<byte>): (c: Option<seq<byte>>)
    ensures c.Some? ==> c == TextRule(rules, t)
  {
    var w := TextRule(rules, t);
    if w.Some? && !SameString(t, buf) then w else None
  }

  /** The three text members, and the length member that goes with each. */
  predicate IsText(f: Field) { f == WifiSSID || f == WifiPassword || f == Label }

  function LengthOf(f: Field): Field
    requires IsText(f)
  {
    if f == WifiSSID then WifiSSIDLength else if f == WifiPassword then WifiPasswordLength else LabelLength
  }

  /** Record r with text member f set to b. */
  function WithText(r: Record, f: Field, b: TextBuf): (r2: Record)
    requires IsText(f)
    ensures FieldBytes(r2, f) == b && r2 == Graft(r, f, r2)
  {
    if f == WifiSSID then r.(wifiSSID := b)
    else if f == WifiPassword then r.(wifiPassword := b)
    else r.(sensorLabel := b)
  }

  /** Record r with the length member of text member f set to n. */
  function WithLength(r: Record, f: Field, n: byte): (r2: Record)
    requires IsText(f)
    ensures FieldBytes(r2, LengthOf(f)) == [n] && r2 == Graft(r, LengthOf(f), r2)
  {
    if f == WifiSSID then r.(wifiSSIDLength := n)
    else if f == WifiPassword then r.(wifiPasswordLength := n)
    else r.(labelLength := n)
  }

  /** The stored text buffer after writing entry bytes w (a text of |w| - 1
      bytes and its terminator) and then, as ConfigSSID does, zeroing the
      bytes from the new terminator up to the previous length clear. */
  function TextBuffer(buf: TextBuf, w: seq<byte>, clear: int): TextBuf
    requires 1 <= |w| <= |buf|
  {
    var b := Overwrite(buf, 0, w);
    if clear - (|w| - 1) > 0 then Overwrite(b, |w| - 1, Zeros(clear - (|w| - 1))) else b
  }

  /** The stored record after a text updater wrote entry bytes w. */
  function TextStored(r: Record, f: Field, w: seq<byte>, clear: int): Record
    requires IsText(f) && 1 <= |w| <= PCONFIG_MAX_LABEL + 1
  {
    var n := |w| - 1;
    WithLength(WithText(r, f, TextBuffer(FieldBytes(r, f), w, clear)), f, n as byte)
  }

  /** The image after a text updater: the entry bytes at the text member,
      the zeros up to the previous length clear, and the length. */
  function TextImage(img: seq<byte>, f: Field, w: seq<byte>, clear: int): seq<byte>
    requires IsText(f) && 1 <= |w| <= PCONFIG_MAX_LABEL + 1
  {
    Overwrite(EntryImage(img, f, w, clear), AbsOffset(LengthOf(f)), [(|w| - 1) as byte])
  }

  /** The image after the entry bytes and the zeros up to clear. */
  function EntryImage(img: seq<byte>, f: Field, w: seq<byte>, clear: int): seq<byte>
    requires IsText(f) && 1 <= |w| <= PCONFIG_MAX_LABEL + 1
  {
    var n := |w| - 1;
    var a := Overwrite(img, AbsOffset(f), w);
    if clear - n > 0 then Overwrite(a, AbsOffset(f) + n, Zeros(clear - n)) else a
  }

  /** The writes of a text updater: SetROMValue of the entry bytes at the
      text member, of the zeros (ConfigSSID), and of the length. */
  method StoreText(rom: Eeprom, f: Field, w: seq<byte>, clear: int, ghost st: Record)
    requires IsText(f) && 1 <= |w| <= PCONFIG_MAX_LABEL + 1 && clear <= PCONFIG_MAX_LABEL + 1
    modifies rom, rom.cache
    ensures WithinRecord(old(rom.cache[..]), rom.cache[..])
    ensures rom.cache[..] == TextImage(old(rom.cache[..]), f, w, clear)
    ensures rom.flash == rom.cache[..]
    ensures Holds(old(rom.cache[..]), st) ==> Holds(rom.cache[..], TextStored(st, f, w, clear))
  {
    var n := |w| - 1;
    ghost var st2 := WithText(st, f, TextBuffer(FieldBytes(st, f), w, clear));
    StoreEntry(rom, f, w, clear, st);
    PersistMember(rom, LengthOf(f), [n as byte], st2, WithLength(st2, f, n as byte));
  }

  /** The entry bytes and, as ConfigSSID does, the zeros up to clear. */
  method StoreEntry(rom: Eeprom, f: Field, w: seq<byte>, clear: int, ghost st: Record)
    requires IsText(f) && 1 <= |w| <= PCONFIG_MAX_LABEL + 1 && clear <= PCONFIG_MAX_LABEL + 1
    modifies rom, rom.cache
    ensures WithinRecord(old(rom.cache[..]), rom.cache[..])
    ensures rom.cache[..] == EntryImage(old(rom.cache[..]), f, w, clear)
    ensures rom.flash == rom.cache[..]
    ensures Holds(old(rom.cache[..]), st) ==> Holds(rom.cache[..], WithText(st, f, TextBuffer(FieldBytes(st, f), w, clear)))
  {
    var n := |w| - 1;
    ghost var buf: TextBuf := FieldBytes(st, f);
    ghost var st1 := WithText(st, f, Overwrite(buf, 0, w));
    PersistPart(rom, f, 0, w, st, st1);
    if clear - n > 0 {
      ghost var st2 := WithText(st1, f, TextBuffer(buf, w, clear));
      PersistPart(rom, f, n, Zeros(clear - n), st1, st2);
      WithTextTwice(st, f, Overwrite(buf, 0, w), TextBuffer(buf, w, clear));
    }
  }

  lemma WithTextTwice(r: Record, f: Field, a: TextBuf, b: TextBuf)
    requires IsText(f)
    ensures WithText(WithText(r, f, a), f, b) == WithText(r, f, b)
  {
  }

  /** One text updater. The in-memory record gets the new length only: the
      source's closing memcpy copies from the record into the local buffer,
      so the in-memory text keeps its old bytes. */
  function TextStep(s: Copies, form: Form, name: string, f: Field, rules: Rules): Copies
    requires IsText(f)
  {
    var t := TextOf(form, name);
    var clear := if f == WifiSSID then s.mem.wifiSSIDLength as int else 0;
    match TextChange(rules, t, FieldBytes(s.mem, f))
    case None => s
    case Some(w) => Copies(WithLength(s.mem, f, (|w| - 1) as byte), TextStored(s.stored, f, w, clear))
  }

  /** The three text updaters as written: the length is cast to uint8_t
      before it is tested, and an entry equal to the current text is
      skipped. */
  method ConfigText(form: Form, cfg: ConfigRecord, rom: Eeprom, name: string, f: Field, ghost st: Record)
    requires IsText(f) && (f == WifiSSID ==> cfg.data.wifiSSIDLength as int <= PCONFIG_MAX_SSID + 1)
    modifies cfg, rom, rom.cache
    ensures WithinRecord(old(rom.cache[..]), rom.cache[..])
    ensures cfg.data == TextStep(Copies(old(cfg.data), st), form, name, f, AsWritten).mem
    ensures Holds(old(rom.cache[..]), st) ==> Holds(rom.cache[..], TextStep(Copies(old(cfg.data), st), form, name, f, AsWritten).stored)
    ensures match TextChange(AsWritten, TextOf(form, name), FieldBytes(old(cfg.data), f))
      case None => rom.cache[..] == old(rom.cache[..]) && rom.flash == old(rom.flash)
      case Some(w) =>
        rom.cache[..] == TextImage(old(rom.cache[..]), f, w, if f == WifiSSID then old(cfg.data.wifiSSIDLength) as int else 0) &&
        rom.flash == rom.cache[..]
  {
    var t := TextOf(form, name);
    var n := UInt8Of(|t|);
    if n as int <= PCONFIG_MAX_LABEL && !SameString(t, FieldBytes(cfg.data, f)) {
      var w := TextEntryAsWritten(t).value;
      var clear := if f == WifiSSID then cfg.data.wifiSSIDLength as int else 0;
      StoreText(rom, f, w, clear, st);
      cfg.data := WithLength(cfg.data, f, n);
    }
  }

  const LABEL_ARG := "sensor_label"
  const SSID_ARG := "ssid"
  const PASSWORD_ARG := "password"

  /** ConfigSensorLabel: a label whose length as a uint8_t is at most 31 and
      that differs from the current one is stored with its terminator, then
      its length. */
  method ConfigSensorLabel(form: Form, cfg: ConfigRecord, rom: Eeprom, ghost st: Record)
    modifies cfg, rom, rom.cache
    ensures WithinRecord(old(rom.cache[..]), rom.cache[..])
    ensures cfg.data == TextStep(Copies(old(cfg.data), st), form, LABEL_ARG, Label, AsWritten).mem
    ensures Holds(old(rom.cache[..]), st) ==>
      Holds(rom.cache[..], TextStep(Copies(old(cfg.data), st), form, LABEL_ARG, Label, AsWritten).stored)
    ensures match TextChange(AsWritten, TextOf(form, LABEL_ARG), old(cfg.data.sensorLabel))
      case None => rom.cache[..] == old(rom.cache[..]) && rom.flash == old(rom.flash)
      case Some(w) => rom.cache[..] == TextImage(old(rom.cache[..]), Label, w, 0) && rom.flash == rom.cache[..]
  {
    ConfigText(form, cfg, rom, LABEL_ARG, Label, st);
  }

  /** ConfigPassword: as ConfigSensorLabel, for the station password. */
  method ConfigPassword(form: Form, cfg: ConfigRecord, rom: Eeprom, ghost st: Record)
    modifies cfg, rom, rom.cache
    ensures WithinRecord(old(rom.cache[..]), rom.cache[..])
    ensures cfg.data == TextStep(Copies(old(cfg.data), st), form, PASSWORD_ARG, WifiPassword, AsWritten).mem
    ensures Holds(old(rom.cache[..]), st) ==>
      Holds(rom.cache[..], TextStep(Copies(old(cfg.data), st), form, PASSWORD_ARG, WifiPassword, AsWritten).stored)
    ensures match TextChange(AsWritten, TextOf(form, PASSWORD_ARG), old(cfg.data.wifiPassword))
      case None => rom.cache[..] == old(rom.cache[..]) && rom.flash == old(rom.flash)
      case Some(w) => rom.cache[..] == TextImage(old(rom.cache[..]), WifiPassword, w, 0) && rom.flash == rom.cache[..]
  {
    ConfigText(form, cfg, rom, PASSWORD_ARG, WifiPassword, st);
  }

  /** ConfigSSID: as ConfigSensorLabel, and the bytes of a longer previous
      SSID past the new terminator are zeroed. The zeroing copies from a
      32-byte local buffer, so the in-memory length must not exceed it. */
  method ConfigSSID(form: Form, cfg: ConfigRecord, rom: Eeprom, ghost st: Record)
    requires cfg.data.wifiSSIDLength as int <= PCONFIG_MAX_SSID + 1
    modifies cfg, rom, rom.cache
    ensures WithinRecord(old(rom.cache[..]), rom.cache[..])
    ensures cfg.data == TextStep(Copies(old(cfg.data), st), form, SSID_ARG, WifiSSID, AsWritten).mem
    ensures Holds(old(rom.cache[..]), st) ==>
      Holds(rom.cache[..], TextStep(Copies(old(cfg.data), st), form, SSID_ARG, WifiSSID, AsWritten).stored)
    ensures match TextChange(AsWritten, TextOf(form, SSID_ARG), old(cfg.data.wifiSSID))
      case None => rom.cache[..] == old(rom.cache[..]) && rom.flash == old(rom.flash)
      case Some(w) =>
        rom.cache[..] == TextImage(old(rom.cache[..]), WifiSSID, w, old(cfg.data.wifiSSIDLength) as int) &&
        rom.flash == rom.cache[..]
  {
    ConfigText(form, cfg, rom, SSID_ARG, WifiSSID, st);
  }

  /** After an accepted text entry without NULs, the stored buffer holds the
      stored text and reads back as it, and every byte from there up to
      the new length, and from the new length up to clear (a longer
      previous text), is zero. */
  lemma TextBufferStored(rules: Rules, buf: TextBuf, t: Text, clear: int)
    requires TextRule(rules, t).Some? && NoNul(t) && clear <= |buf|
    ensures TextBuffer(buf, TextRule(rules, t).value, clear)[..|StoredText(rules, t)|] == StoredText(rules, t)
    ensures forall i :: |StoredText(rules, t)| <= i <= UInt8Of(|t|) as int ==> TextBuffer(buf, TextRule(rules, t).value, clear)[i] == 0
    ensures forall i :: UInt8Of(|t|) as int <= i < clear ==> TextBuffer(buf, TextRule(rules, t).value, clear)[i] == 0
    ensures CString(TextBuffer(buf, TextRule(rules, t).value, clear)) == StoredText(rules, t)
  {
    EntryShape(rules, t);
    var w := TextRule(rules, t).value;
    var u := StoredText(rules, t);
    var r := TextBuffer(buf, w, clear);
    assert r[..|u|] == u;
    assert r[|u|] == 0;
    assert r == u + [0] + r[|u| + 1..];
    CStringOfTerminated(u, r[|u| + 1..]);
  }

  // ---------------------------------------------------------------------------
  // Address updaters: ConfigAccessIP, ConfigAPNetmask, ConfigAPGateway
  // ---------------------------------------------------------------------------

  const AP_PREFIX := "ap_"
  const NM_PREFIX := "nm_"
  const GW_PREFIX := "gw_"

  /** The form field of octet i: the prefix followed by the digit i. */
  function FieldName(prefix: string, i: nat): string
    requires i < 4
  {
    prefix + [(48 + i) as char]
  }

  /** The four numbers the form gives for an address. */
  function Numbers(form: Form, prefix: string): (nums: seq<int>)
    ensures |nums| == 4
  {
    seq(4, i requires 0 <= i < 4 => NumberOf(form, FieldName(prefix, i)) as int)
  }

  /** Whether the handler calls the updater: all four fields are present. */
  predicate HasAllOctets(form: Form, prefix: string) {
    FieldName(prefix, 0) in form && FieldName(prefix, 1) in form &&
    FieldName(prefix, 2) in form && FieldName(prefix, 3) in form
  }

  /** ConfigAccessIP's rules on octet i: the first octet is 10, 172 or 192;
      after 172 the second is 16 to 31, after 192 it is 168. */
  predicate AccessRule(nums: seq<int>, i: nat)
    requires |nums| == 4 && i < 4
  {
    if i == 0 then nums[0] == 10 || nums[0] == 172 || nums[0] == 192
    else if i == 1 then (nums[0] == 172 ==> 16 <= nums[1] <= 31) && (nums[0] == 192 ==> nums[1] == 168)
    else true
  }

  /** Octet i is accepted: it is a byte value, and an access-point address
      (access) also keeps AccessRule. */
  predicate OctetAccepted(nums: seq<int>, i: nat, access: bool)
    requires |nums| == 4 && i < 4
  {
    0 <= nums[i] <= 255 && (access ==> AccessRule(nums, i))
  }

  function Bytes4(nums: seq<int>): (o: Octets)
    requires |nums| == 4
    ensures forall i :: 0 <= i < 4 ==> o[i] == UInt8Of(nums[i])
  {
    [UInt8Of(nums[0]), UInt8Of(nums[1]), UInt8Of(nums[2]), UInt8Of(nums[3])]
  }

  /** The address an update takes, as written: each number is cast to
      uint8_t before it is tested, so the test for values above 255 never
      holds, and the access-point rules are applied to the cast bytes. */
  function OctetEntryAsWritten(form: Form, prefix: string, access: bool): (o: Option<Octets>)
    ensures o.Some? ==> forall i :: 0 <= i < 4 ==> o.value[i] as int == Numbers(form, prefix)[i] % 256
  {
    var b := Bytes4(Numbers(form, prefix));
    if access && !(AccessRule(b, 0) && AccessRule(b, 1)) then None else Some(b)
  }

  /** The address an update takes, corrected: every number must be a byte
      value before it is cast. */
  function OctetEntry(form: Form, prefix: string, access: bool): (o: Option<Octets>)
    ensures o.Some? ==> forall i :: 0 <= i < 4 ==> o.value[i] as int == Numbers(form, prefix)[i]
  {
    var nums := Numbers(form, prefix);
    if OctetAccepted(nums, 0, access) && OctetAccepted(nums, 1, access) &&
      OctetAccepted(nums, 2, access) && OctetAccepted(nums, 3, access)
    then Some(Bytes4(nums)) else None
  }

  /** The address an update takes under either rules. */
  function OctetRule(rules: Rules, form: Form, prefix: string, access: bool): Option<Octets> {
    if rules == AsWritten then OctetEntryAsWritten(form, prefix, access) else OctetEntry(form, prefix, access)
  }

  /** A network mask field of 256 is stored as 0 as written; corrected, the
      address is refused. An access-point first field of 266 passes the
      10/172/192 rule as written, as 10. */
  lemma OctetEntryCounterexamples()
    ensures OctetEntryAsWritten(map[FieldName(NM_PREFIX, 0) := Arg([0x32, 0x35, 0x36], 256)], NM_PREFIX, false).Some? &&
      OctetEntryAsWritten(map[FieldName(NM_PREFIX, 0) := Arg([0x32, 0x35, 0x36], 256)], NM_PREFIX, false).value == [0, 0, 0, 0]
    ensures OctetEntry(map[FieldName(NM_PREFIX, 0) := Arg([0x32, 0x35, 0x36], 256)], NM_PREFIX, false) == None
    ensures OctetEntryAsWritten(map[FieldName(AP_PREFIX, 0) := Arg([0x32, 0x36, 0x36], 266)], AP_PREFIX, true).Some? &&
      OctetEntryAsWritten(map[FieldName(AP_PREFIX, 0) := Arg([0x32, 0x36, 0x36], 266)], AP_PREFIX, true).value == [10, 0, 0, 0]
    ensures OctetEntry(map[FieldName(AP_PREFIX, 0) := Arg([0x32, 0x36, 0x36], 266)], AP_PREFIX, true) == None
  {
    var nm := map[FieldName(NM_PREFIX, 0) := Arg([0x32, 0x35, 0x36], 256)];
    assert FieldName(NM_PREFIX, 1) != FieldName(NM_PREFIX, 0) by { assert FieldName(NM_PREFIX, 1)[3] != FieldName(NM_PREFIX, 0)[3]; }
    assert FieldName(NM_PREFIX, 2) != FieldName(NM_PREFIX, 0) by { assert FieldName(NM_PREFIX, 2)[3] != FieldName(NM_PREFIX, 0)[3]; }
    assert FieldName(NM_PREFIX, 3) != FieldName(NM_PREFIX, 0) by { assert FieldName(NM_PREFIX, 3)[3] != FieldName(NM_PREFIX, 0)[3]; }
    assert Numbers(nm, NM_PREFIX) == [256, 0, 0, 0];
    var ap := map[FieldName(AP_PREFIX, 0) := Arg([0x32, 0x36, 0x36], 266)];
    assert FieldName(AP_PREFIX, 1) != FieldName(AP_PREFIX, 0) by { assert FieldName(AP_PREFIX, 1)[3] != FieldName(AP_PREFIX, 0)[3]; }
    assert FieldName(AP_PREFIX, 2) != FieldName(AP_PREFIX, 0) by { assert FieldName(AP_PREFIX, 2)[3] != FieldName(AP_PREFIX, 0)[3]; }
    assert FieldName(AP_PREFIX, 3) != FieldName(AP_PREFIX, 0) by { assert FieldName(AP_PREFIX, 3)[3] != FieldName(AP_PREFIX, 0)[3]; }
    assert Numbers(ap, AP_PREFIX) == [266, 0, 0, 0];
  }

  /** The 32-bit address of four octets, first octet most significant. */
  function Address(nums: seq<int>): int
    requires |nums| == 4
  {
    nums[0] * 0x100_0000 + nums[1] * 0x1_0000 + nums[2] * 0x100 + nums[3]
  }

  /** The private address blocks of section 3 of RFC 1918: 10/8,
      172.16/12 and 192.168/16. */
  predicate PrivateAddress(a: int) {
    (10 * 0x100_0000 <= a < 11 * 0x100_0000) ||
    (172 * 0x100_0000 + 16 * 0x1_0000 <= a < 172 * 0x100_0000 + 32 * 0x1_0000) ||
    (192 * 0x100_0000 + 168 * 0x1_0000 <= a < 192 * 0x100_0000 + 169 * 0x1_0000)
  }

  /** The access-point rules accept exactly the private addresses. */
  lemma AccessRulesArePrivateBlocks(nums: seq<int>)
    requires |nums| == 4 && forall i :: 0 <= i < 4 ==> 0 <= nums[i] <= 255
    ensures (AccessRule(nums, 0) && AccessRule(nums, 1)) <==> PrivateAddress(Address(nums))
  {
  }

  /** Corrected, an address is taken exactly when every number is a byte
      value and, for the access point, the rules hold; it is then the
      entered address, and an access-point address is a private one. */
  lemma OctetEntryAccepts(form: Form, prefix: string, access: bool)
    ensures OctetEntry(form, prefix, access).Some? <==>
      forall i :: 0 <= i < 4 ==> OctetAccepted(Numbers(form, prefix), i, access)
    ensures OctetEntry(form, prefix, access).Some? ==>
      forall i :: 0 <= i < 4 ==> OctetEntry(form, prefix, access).value[i] as int == Numbers(form, prefix)[i]
    ensures OctetEntry(form, prefix, access).Some? && access ==> PrivateAddress(Address(Numbers(form, prefix)))
  {
    var nums := Numbers(form, prefix);
    if OctetEntry(form, prefix, access).Some? && access {
      AccessRulesArePrivateBlocks(nums);
    }
  }

  /** As written, the access-point address taken, read as bytes, is still
      a private one, whatever numbers were entered. */
  lemma OctetEntryAsWrittenPrivate(form: Form, prefix: string)
    ensures OctetEntryAsWritten(form, prefix, true).Some? ==>
      PrivateAddress(Address(BytesAsInts(OctetEntryAsWritten(form, prefix, true).value)))
  {
    var b := Bytes4(Numbers(form, prefix));
    if OctetEntryAsWritten(form, prefix, true).Some? {
      assert BytesAsInts(b) == [b[0] as int, b[1] as int, b[2] as int, b[3] as int];
      AccessRulesArePrivateBlocks(BytesAsInts(b));
    }
  }

  function BytesAsInts(o: Octets): (nums: seq<int>)
    ensures |nums| == 4 && forall i :: 0 <= i < 4 ==> nums[i] == o[i] as int
  {
    [o[0] as int, o[1] as int, o[2] as int, o[3] as int]
  }

  /** Reading the four fields, as the source's loop does: each number is
      cast to uint8_t, the cast byte is tested, and the loop stops at the
      first octet refused. The test for a byte above 255 can never hold. */
  method ReadOctets(form: Form, prefix: string, access: bool) returns (newIP: Octets, update: bool)
    ensures update <==> OctetEntryAsWritten(form, prefix, access).Some?
    ensures update ==> newIP == OctetEntryAsWritten(form, prefix, access).value
  {
    ghost var b := Bytes4(Numbers(form, prefix));
    var ip: seq<byte> := [0, 0, 0, 0];
    update := true;
    var i := 0;
    while i < 4 && update
      invariant 0 <= i <= 4 && |ip| == 4
      invariant update <==> forall j :: 0 <= j < i ==> access ==> AccessRule(b, j)
      invariant forall j :: 0 <= j < i ==> ip[j] == b[j]
    {
      ip := ip[i := UInt8Of(NumberOf(form, FieldName(prefix, i)) as int)];
      assert ip[i] == b[i] && (i > 0 ==> ip[0] == b[0]);
      if ip[i] as int > 255 {
        update := false;
      }
      if access {
        if i == 0 {
          if ip[0] != 10 && ip[0] != 172 && ip[0] != 192 {
            update := false;
          }
        } else if i == 1 {
          if ip[0] == 172 {
            if ip[1] < 16 || ip[1] > 31 {
              update := false;
            }
          } else if ip[0] == 192 {
            if ip[1] != 168 {
              update := false;
            }
          }
        }
      }
      assert update <==> (access ==> AccessRule(b, i));
      i := i + 1;
    }
    newIP := ip;
    if update {
      assert ip == b;
    }
  }

  predicate IsOctets(f: Field) { f == AccessIP || f == NetMask || f == Gateway }

  /** Record r with address member f set to o. */
  function WithOctets(r: Record, f: Field, o: Octets): (r2: Record)
    requires IsOctets(f)
    ensures FieldBytes(r2, f) == o && r2 == Graft(r, f, r2)
  {
    if f == AccessIP then r.(accessIP := o)
    else if f == NetMask then r.(netMask := o)
    else r.(gateway := o)
  }

  lemma WithOctetsTwice(r: Record, f: Field, o: Octets, o2: Octets)
    requires IsOctets(f)
    ensures WithOctets(WithOctets(r, f, o), f, o2) == WithOctets(r, f, o2)
  {
  }

  /** The octets an image holds after the updater wrote each octet of the
      entered address that differs from the in-memory one (cur); the others
      keep what the image held (stored). */
  function Merge(entered: Octets, cur: Octets, stored: Octets): (m: Octets)
    ensures forall i :: 0 <= i < 4 ==> m[i] == if entered[i] != cur[i] then entered[i] else stored[i]
  {
    seq(4, i requires 0 <= i < 4 => if entered[i] != cur[i] then entered[i] else stored[i])
  }

  /** When the image held the in-memory address, it now holds the entered one. */
  lemma MergeInSync(entered: Octets, cur: Octets)
    ensures Merge(entered, cur, cur) == entered
  {
  }

  /** The image after the writes of an address update at offset at. */
  function MergeImage(img: seq<byte>, at: int, entered: Octets, cur: Octets): (r: seq<byte>)
    ensures |r| == |img|
  {
    seq(|img|, k requires 0 <= k < |img| =>
      if at <= k < at + 4 && entered[k - at] != cur[k - at] then entered[k - at] else img[k])
  }

  /** An address update: each octet of entered that differs from the
      in-memory one is written to the image and to the record. */
  method WriteOctets(cfg: ConfigRecord, rom: Eeprom, f: Field, newIP: Octets, ghost st: Record)
    requires IsOctets(f)
    modifies cfg, rom, rom.cache
    ensures WithinRecord(old(rom.cache[..]), rom.cache[..])
    ensures cfg.data == WithOctets(old(cfg.data), f, newIP)
    ensures Holds(old(rom.cache[..]), st) ==>
      Holds(rom.cache[..], WithOctets(st, f, Merge(newIP, FieldBytes(old(cfg.data), f), FieldBytes(st, f))))
    ensures rom.cache[..] == MergeImage(old(rom.cache[..]), AbsOffset(f), newIP, FieldBytes(old(cfg.data), f))
    ensures if newIP == FieldBytes(old(cfg.data), f)
      then rom.cache[..] == old(rom.cache[..]) && rom.flash == old(rom.flash)
      else rom.flash == rom.cache[..]
  {
    var mem: Octets := FieldBytes(cfg.data, f);
    WriteOctetBytes(rom, f, newIP, mem, st);
    cfg.data := WithOctets(cfg.data, f, newIP);
  }

  /** The image side of an address update: the octets of entered that
      differ from cur are written one SetROMValue at a time. */
  method WriteOctetBytes(rom: Eeprom, f: Field, newIP: Octets, cur: Octets, ghost st: Record)
    requires IsOctets(f)
    modifies rom, rom.cache
    ensures WithinRecord(old(rom.cache[..]), rom.cache[..])
    ensures Holds(old(rom.cache[..]), st) ==> Holds(rom.cache[..], WithOctets(st, f, Merge(newIP, cur, FieldBytes(st, f))))
    ensures rom.cache[..] == MergeImage(old(rom.cache[..]), AbsOffset(f), newIP, cur)
    ensures if newIP == cur then rom.cache[..] == old(rom.cache[..]) && rom.flash == old(rom.flash)
      else rom.flash == rom.cache[..]
  {
    ghost var img := rom.cache[..];
    ghost var sto: Octets := FieldBytes(st, f);
    ghost var sti := st;
    ghost var prev: Octets := cur;
    assert Mix(newIP, cur, 0) == cur;
    assert Merge(cur, cur, sto) == sto;
    assert MergeImage(img, AbsOffset(f), cur, cur) == img;
    var i := 0;
    while i < 4
      invariant 0 <= i <= 4
      invariant prev == Mix(newIP, cur, i)
      invariant sti == WithOctets(st, f, Merge(prev, cur, sto))
      invariant Holds(img, st) ==> Holds(rom.cache[..], sti)
      invariant rom.cache[..] == MergeImage(img, AbsOffset(f), prev, cur)
      invariant prev == cur ==> rom.cache[..] == img && rom.flash == old(rom.flash)
      invariant prev != cur ==> rom.flash == rom.cache[..]
    {
      ghost var next: Octets := Mix(newIP, cur, i + 1);
      assert next == prev[i := newIP[i]];
      if newIP[i] != cur[i] {
        OctetWritten(img, AbsOffset(f), prev, next, cur, i, rom.cache[..]);
        OctetStored(st, f, prev, next, cur, sto, i);
        PersistPart(rom, f, i, [newIP[i]], sti, WithOctets(st, f, Merge(next, cur, sto)));
        sti := WithOctets(st, f, Merge(next, cur, sto));
        assert next != cur by { assert next[i] != cur[i]; }
      } else {
        assert next == prev;
      }
      prev := next;
      i := i + 1;
    }
    assert Mix(newIP, cur, 4) == newIP;
  }

  /** The first i octets of entered and the rest of cur. */
  function Mix(entered: Octets, cur: Octets, i: nat): (m: Octets)
    ensures forall j :: 0 <= j < 4 ==> m[j] == if j < i then entered[j] else cur[j]
  {
    seq(4, j requires 0 <= j < 4 => if j < i then entered[j] else cur[j])
  }

  /** One more octet written takes the stored record from one merge to the
      next, by a write inside the member. */
  lemma OctetStored(st: Record, f: Field, prev: Octets, next: Octets, cur: Octets, sto: Octets, i: nat)
    requires IsOctets(f) && i < 4 && next == prev[i := next[i]] && next[i] != cur[i]
    ensures FieldBytes(WithOctets(st, f, Merge(next, cur, sto)), f) ==
      Overwrite(FieldBytes(WithOctets(st, f, Merge(prev, cur, sto)), f), i, [next[i]])
    ensures WithOctets(st, f, Merge(next, cur, sto)) ==
      Graft(WithOctets(st, f, Merge(prev, cur, sto)), f, WithOctets(st, f, Merge(next, cur, sto)))
  {
    assert Merge(next, cur, sto) == Overwrite(Merge(prev, cur, sto), i, [next[i]]);
    WithOctetsTwice(st, f, Merge(prev, cur, sto), Merge(next, cur, sto));
  }

  /** One more octet written takes the image from one merge to the next. */
  lemma OctetWritten(img: seq<byte>, at: int, prev: Octets, next: Octets, cur: Octets, i: nat, now: seq<byte>)
    requires i < 4 && next == prev[i := next[i]] && next[i] != cur[i]
    requires now == MergeImage(img, at, prev, cur)
    ensures Overwrite(now, at + i, [next[i]]) == MergeImage(img, at, next, cur)
  {
  }

  /** One address updater: the address the rules take, then the writes of
      WriteOctets. */
  function OctetStep(s: Copies, form: Form, prefix: string, f: Field, access: bool, rules: Rules): Copies
    requires IsOctets(f)
  {
    match OctetRule(rules, form, prefix, access)
    case None => s
    case Some(o) =>
      Copies(WithOctets(s.mem, f, o), WithOctets(s.stored, f, Merge(o, FieldBytes(s.mem, f), FieldBytes(s.stored, f))))
  }

  /** The three address updaters as written. */
  method ConfigOctets(form: Form, cfg: ConfigRecord, rom: Eeprom, prefix: string, f: Field, access: bool, ghost st: Record)
    requires IsOctets(f)
    modifies cfg, rom, rom.cache
    ensures WithinRecord(old(rom.cache[..]), rom.cache[..])
    ensures cfg.data == OctetStep(Copies(old(cfg.data), st), form, prefix, f, access, AsWritten).mem
    ensures Holds(old(rom.cache[..]), st) ==> Holds(rom.cache[..], OctetStep(Copies(old(cfg.data), st), form, prefix, f, access, AsWritten).stored)
    ensures match OctetEntryAsWritten(form, prefix, access)
      case None => rom.cache[..] == old(rom.cache[..]) && rom.flash == old(rom.flash)
      case Some(o) =>
        rom.cache[..] == MergeImage(old(rom.cache[..]), AbsOffset(f), o, FieldBytes(old(cfg.data), f)) &&
        (o == FieldBytes(old(cfg.data), f) ==> rom.cache[..] == old(rom.cache[..]) && rom.flash == old(rom.flash)) &&
        (o != FieldBytes(old(cfg.data), f) ==> rom.flash == rom.cache[..])
  {
    var newIP, update := ReadOctets(form, prefix, access);
    if update {
      WriteOctets(cfg, rom, f, newIP, st);
    }
  }

  /** ConfigAccessIP: an access-point address whose octets, cast to
      bytes, lie in the private blocks. */
  method ConfigAccessIP(form: Form, cfg: ConfigRecord, rom: Eeprom, ghost st: Record)
    modifies cfg, rom, rom.cache
    ensures WithinRecord(old(rom.cache[..]), rom.cache[..])
    ensures cfg.data == OctetStep(Copies(old(cfg.data), st), form, AP_PREFIX, AccessIP, true, AsWritten).mem
    ensures Holds(old(rom.cache[..]), st) ==>
      Holds(rom.cache[..], OctetStep(Copies(old(cfg.data), st), form, AP_PREFIX, AccessIP, true, AsWritten).stored)
    ensures OctetEntryAsWritten(form, AP_PREFIX, true).None? ==> rom.cache[..] == old(rom.cache[..]) && rom.flash == old(rom.flash)
    ensures Committed(old(rom.cache[..]), old(rom.flash), rom.cache[..], rom.flash)
  {
    ConfigOctets(form, cfg, rom, AP_PREFIX, AccessIP, true, st);
  }

  /** ConfigAPNetmask: any four numbers, each cast to a byte. */
  method ConfigAPNetmask(form: Form, cfg: ConfigRecord, rom: Eeprom, ghost st: Record)
    modifies cfg, rom, rom.cache
    ensures WithinRecord(old(rom.cache[..]), rom.cache[..])
    ensures cfg.data == OctetStep(Copies(old(cfg.data), st), form, NM_PREFIX, NetMask, false, AsWritten).mem
    ensures Holds(old(rom.cache[..]), st) ==>
      Holds(rom.cache[..], OctetStep(Copies(old(cfg.data), st), form, NM_PREFIX, NetMask, false, AsWritten).stored)
    ensures OctetEntryAsWritten(form, NM_PREFIX, false).None? ==> rom.cache[..] == old(rom.cache[..]) && rom.flash == old(rom.flash)
    ensures Committed(old(rom.cache[..]), old(rom.flash), rom.cache[..], rom.flash)
  {
    ConfigOctets(form, cfg, rom, NM_PREFIX, NetMask, false, st);
  }

  /** ConfigAPGateway: any four numbers, each cast to a byte. */
  method ConfigAPGateway(form: Form, cfg: ConfigRecord, rom: Eeprom, ghost st: Record)
    modifies cfg, rom, rom.cache
    ensures WithinRecord(old(rom.cache[..]), rom.cache[..])
    ensures cfg.data == OctetStep(Copies(old(cfg.data), st), form, GW_PREFIX, Gateway, false, AsWritten).mem
    ensures Holds(old(rom.cache[..]), st) ==>
      Holds(rom.cache[..], OctetStep(Copies(old(cfg.data), st), form, GW_PREFIX, Gateway, false, AsWritten).stored)
    ensures OctetEntryAsWritten(form, GW_PREFIX, false).None? ==> rom.cache[..] == old(rom.cache[..]) && rom.flash == old(rom.flash)
    ensures Committed(old(rom.cache[..]), old(rom.flash), rom.cache[..], rom.flash)
  {
    ConfigOctets(form, cfg, rom, GW_PREFIX, Gateway, false, st);
  }

  // ---------------------------------------------------------------------------
  // ConfigBaud
  // ---------------------------------------------------------------------------

  /** The permitted serial rates, BaudList in sensor/WebConfig.h. */
  const BAUD_LIST: seq<u32> := [100, 9600, 14400, 19200, 28800, 38400, 57600, 115200, 230400, 460800]

  const BAUD_ARG := "set_baud"

  /** The source's search of BaudList. */
  method InBaudList(value: u32) returns (inList: bool)
    ensures inList <==> value in BAUD_LIST
  {
    inList := false;
    for i := 0 to |BAUD_LIST|
      invariant inList <==> value in BAUD_LIST[..i]
    {
      if value == BAUD_LIST[i] {
        inList := true;
      }
      assert BAUD_LIST[..i + 1] == BAUD_LIST[..i] + [BAUD_LIST[i]];
    }
    assert BAUD_LIST[..|BAUD_LIST|] == BAUD_LIST;
  }

  /** The rate ConfigBaud takes: the entry cast to uint32_t when it is a
      permitted rate, else the current rate. */
  function BaudValue(form: Form, current: u32): u32 {
    var v := UInt32Of(NumberOf(form, BAUD_ARG));
    if v in BAUD_LIST then v else current
  }

  /** A permitted rate stays permitted, whatever the entry; the rate changes
      only to a permitted rate. */
  lemma BaudStaysListed(form: Form, current: u32)
    ensures BaudValue(form, current) == current || BaudValue(form, current) in BAUD_LIST
    ensures current in BAUD_LIST ==> BaudValue(form, current) in BAUD_LIST
    ensures BaudValue(form, current) != current ==> BaudValue(form, current) == UInt32Of(NumberOf(form, BAUD_ARG))
  {
  }

  function BaudStep(s: Copies, form: Form): Copies {
    var v := BaudValue(form, s.mem.serialBaud);
    if v != s.mem.serialBaud then Copies(s.mem.(serialBaud := v), s.stored.(serialBaud := v)) else s
  }

  method ConfigBaud(form: Form, cfg: ConfigRecord, rom: Eeprom, ghost st: Record)
    modifies cfg, rom, rom.cache
    ensures WithinRecord(old(rom.cache[..]), rom.cache[..])
    ensures cfg.data == BaudStep(Copies(old(cfg.data), st), form).mem
    ensures Holds(old(rom.cache[..]), st) ==> Holds(rom.cache[..], BaudStep(Copies(old(cfg.data), st), form).stored)
    ensures if cfg.data.serialBaud != old(cfg.data.serialBaud)
      then rom.cache[..] == Overwrite(old(rom.cache[..]), PCONFIG_OFFSET_SERIALBAUD, LE32(cfg.data.serialBaud)) &&
        rom.flash == rom.cache[..]
      else rom.cache[..] == old(rom.cache[..]) && rom.flash == old(rom.flash)
  {
    var value := UInt32Of(NumberOf(form, BAUD_ARG));
    var inList := InBaudList(value);
    if !inList {
      value := cfg.data.serialBaud;
    }
    if value != cfg.data.serialBaud {
      PersistMember(rom, SerialBaud, LE32(value), st, st.(serialBaud := value));
      cfg.data := cfg.data.(serialBaud := value);
    }
  }

  // ---------------------------------------------------------------------------
  // ConfigWaitInterval
  // ---------------------------------------------------------------------------

  const INTERVAL_ARG := "sensor_interval"

  /** The wait time ConfigWaitInterval stores, as written: an entry of 0
      seconds is replaced by the current time in whole seconds, then the
      seconds are multiplied by 1000 in 32 bits and the result is stored as
      the uint32_t member. */
  function WaitAsWritten(seconds: i32, current: u32): u32 {
    var value := if seconds == 0 then current / 1000 else seconds as int;
    (value * 1000) % 0x1_0000_0000
  }

  /** The wait time ConfigWaitInterval stores, corrected: the milliseconds
      of a positive entry whose product fits the int32_t it is computed in;
      otherwise, as the source intends for 0, the current time unchanged. */
  function WaitValue(seconds: i32, current: u32): (r: u32)
    ensures r == current || (r == seconds as int * 1000 && seconds > 0)
    ensures seconds <= 0 ==> r == current
  {
    if 0 < seconds && seconds as int * 1000 <= 0x7FFF_FFFF then seconds as int * 1000 else current
  }

  /** As written, an entry of 0 stores 0 when the current time is under a
      second, an entry whose product overflows stores a wrapped time (0 for
      536870912 seconds), and a negative entry stores a huge time. */
  lemma WaitAsWrittenCounterexamples()
    ensures WaitAsWritten(0, 704) == 0
    ensures WaitAsWritten(536870912, 15000) == 0
    ensures WaitAsWritten(4294968, 15000) == 704
    ensures WaitAsWritten(-1, 15000) == 0xFFFF_FFFF - 999
    ensures WaitValue(0, 704) == 704 && WaitValue(536870912, 15000) == 15000 && WaitValue(-1, 15000) == 15000
  {
  }

  /** Corrected, a nonzero wait time stays nonzero, and an accepted entry is
      stored as its milliseconds exactly. */
  lemma WaitStaysPositive(seconds: i32, current: u32)
    ensures current > 0 ==> WaitValue(seconds, current) > 0
    ensures WaitValue(seconds, current) != current ==> WaitValue(seconds, current) / 1000 == seconds as int
    ensures 0 < seconds <= 2147483 ==> WaitValue(seconds, current) == seconds as int * 1000
  {
  }

  /** The wait time stored under either rules. */
  function WaitRule(rules: Rules, seconds: i32, current: u32): u32 {
    if rules == AsWritten then WaitAsWritten(seconds, current) else WaitValue(seconds, current)
  }

  function WaitStep(s: Copies, form: Form, rules: Rules): Copies {
    var v := WaitRule(rules, NumberOf(form, INTERVAL_ARG), s.mem.sensorWaitTime);
    if v != s.mem.sensorWaitTime then Copies(s.mem.(sensorWaitTime := v), s.stored.(sensorWaitTime := v)) else s
  }

  /** ConfigWaitInterval as written. The int32_t product wraps, and its
      comparison with the uint32_t member and its stored bytes both read it
      as a uint32_t, so the value is kept as its uint32_t reading. */
  method ConfigWaitInterval(form: Form, cfg: ConfigRecord, rom: Eeprom, ghost st: Record)
    modifies cfg, rom, rom.cache
    ensures WithinRecord(old(rom.cache[..]), rom.cache[..])
    ensures cfg.data == WaitStep(Copies(old(cfg.data), st), form, AsWritten).mem
    ensures Holds(old(rom.cache[..]), st) ==> Holds(rom.cache[..], WaitStep(Copies(old(cfg.data), st), form, AsWritten).stored)
    ensures if cfg.data.sensorWaitTime != old(cfg.data.sensorWaitTime)
      then rom.cache[..] == Overwrite(old(rom.cache[..]), PCONFIG_OFFSET_SENSORWAITTIME, LE32(cfg.data.sensorWaitTime)) &&
        rom.flash == rom.cache[..]
      else rom.cache[..] == old(rom.cache[..]) && rom.flash == old(rom.flash)
  {
    var seconds: int := NumberOf(form, INTERVAL_ARG) as int;
    if seconds == 0 {
      seconds := cfg.data.sensorWaitTime as int / 1000;
    }
    var value: u32 := (seconds * 1000) % 0x1_0000_0000;
    if value != cfg.data.sensorWaitTime {
      PersistMember(rom, SensorWaitTime, LE32(value), st, st.(sensorWaitTime := value));
      cfg.data := cfg.data.(sensorWaitTime := value);
    }
  }

  // ---------------------------------------------------------------------------
  // GetContentType
  // ---------------------------------------------------------------------------

  /** String::endsWith. */
  predicate EndsWith(s: string, suffix: string) {
    |suffix| <= |s| && s[|s| - |suffix|..] == suffix
  }

  /** The suffixes GetContentType tests, in its order, with their types. */
  const CONTENT_TYPES: seq<(string, string)> := [
    (".htm", "text/html"), (".html", "text/html"), (".css", "text/css"),
    (".js", "application/javascript"), (".png", "image/png"), (".gif", "image/gif"),
    (".jpg", "image/jpeg"), (".ico", "image/x-icon"), (".xml", "text/xml"),
    (".pdf", "application/x-pdf"), (".zip", "application/x-zip"), (".gz", "application/x-gzip")]

  const DEFAULT_CONTENT_TYPE := "text/plain"

  /** GetContentType's else-if chain over a table: the type of the first
      entry whose suffix the name ends with, text/plain when there is none. */
  function FirstMatch(path: string, table: seq<(string, string)>): string
    decreases |table|
  {
    if |table| == 0 then DEFAULT_CONTENT_TYPE
    else if EndsWith(path, table[0].0) then table[0].1
    else FirstMatch(path, table[1..])
  }

  function ContentType(path: string): string {
    FirstMatch(path, CONTENT_TYPES)
  }

  /** The last three bytes of a name decide which suffix it can end with. */
  lemma EndsWithTail(path: string, suffix: string)
    requires EndsWith(path, suffix) && |suffix| >= 3
    ensures path[|path| - 3..] == suffix[|suffix| - 3..]
  {
    assert path[|path| - 3..] == path[|path| - |suffix|..][|suffix| - 3..];
  }

  lemma NotBothSuffixes(path: string, s: string, t: string)
    requires |s| >= 3 && |t| >= 3 && s[|s| - 3..] != t[|t| - 3..]
    ensures !(EndsWith(path, s) && EndsWith(path, t))
  {
    if EndsWith(path, s) && EndsWith(path, t) {
      EndsWithTail(path, s);
      EndsWithTail(path, t);
    }
  }

  /** The entry whose suffix ends in the three bytes t, told apart by the
      first and last of them. */
  function TailIndex(t: string): nat
    requires |t| == 3
  {
    match t[0]
    case 'h' => 0
    case 't' => 1
    case 'c' => 2
    case '.' => if t[2] == 's' then 3 else 11
    case 'p' => if t[2] == 'g' then 4 else 9
    case 'g' => 5
    case 'j' => 6
    case 'i' => 7
    case 'x' => 8
    case _ => 10
  }

  /** Each suffix has at least three bytes, and its last three name it. */
  lemma TailNamesEntry(i: nat)
    requires i < |CONTENT_TYPES|
    ensures |CONTENT_TYPES[i].0| >= 3
    ensures TailIndex(CONTENT_TYPES[i].0[|CONTENT_TYPES[i].0| - 3..]) == i
  {
    if i == 0 {
      assert CONTENT_TYPES[0].0 == ".htm";
    } else if i == 1 {
      assert CONTENT_TYPES[1].0 == ".html";
    } else if i == 2 {
      assert CONTENT_TYPES[2].0 == ".css";
    } else if i == 3 {
      assert CONTENT_TYPES[3].0 == ".js";
    } else if i == 4 {
      assert CONTENT_TYPES[4].0 == ".png";
    } else if i == 5 {
      assert CONTENT_TYPES[5].0 == ".gif";
    } else if i == 6 {
      assert CONTENT_TYPES[6].0 == ".jpg";
    } else if i == 7 {
      assert CONTENT_TYPES[7].0 == ".ico";
    } else if i == 8 {
      assert CONTENT_TYPES[8].0 == ".xml";
    } else if i == 9 {
      assert CONTENT_TYPES[9].0 == ".pdf";
    } else if i == 10 {
      assert CONTENT_TYPES[10].0 == ".zip";
    } else {
      assert CONTENT_TYPES[11].0 == ".gz";
    }
  }

  /** Every suffix has at least three bytes, and no two end alike. */
  lemma SuffixTailsDistinct(i: nat, j: nat)
    requires i < |CONTENT_TYPES| && j < |CONTENT_TYPES| && i != j
    ensures |CONTENT_TYPES[i].0| >= 3 && |CONTENT_TYPES[j].0| >= 3
    ensures CONTENT_TYPES[i].0[|CONTENT_TYPES[i].0| - 3..] != CONTENT_TYPES[j].0[|CONTENT_TYPES[j].0| - 3..]
  {
    TailNamesEntry(i);
    TailNamesEntry(j);
  }

  /** No name ends with two of the suffixes, so the order of the chain does
      not matter: a name ending with a listed suffix gets that suffix's type. */
  lemma ContentTypeOfSuffix(path: string, i: nat)
    requires i < |CONTENT_TYPES| && EndsWith(path, CONTENT_TYPES[i].0)
    ensures ContentType(path) == CONTENT_TYPES[i].1
    ensures forall j :: 0 <= j < |CONTENT_TYPES| && j != i ==> !EndsWith(path, CONTENT_TYPES[j].0)
  {
    forall j | 0 <= j < |CONTENT_TYPES| && j != i
      ensures !EndsWith(path, CONTENT_TYPES[j].0)
    {
      SuffixTailsDistinct(i, j);
      NotBothSuffixes(path, CONTENT_TYPES[i].0, CONTENT_TYPES[j].0);
    }
    FirstMatchOfOnly(path, CONTENT_TYPES, i);
  }

  /** When only entry i matches, FirstMatch gives its type. */
  lemma {:induction false} FirstMatchOfOnly(path: string, table: seq<(string, string)>, i: nat)
    requires i < |table| && EndsWith(path, table[i].0)
    requires forall j :: 0 <= j < |table| && j != i ==> !EndsWith(path, table[j].0)
    ensures FirstMatch(path, table) == table[i].1
    decreases i
  {
    if i > 0 {
      assert !EndsWith(path, table[0].0);
      FirstMatchOfOnly(path, table[1..], i - 1);
    }
  }

  lemma {:induction false} FirstMatchOfNone(path: string, table: seq<(string, string)>)
    requires forall j :: 0 <= j < |table| ==> !EndsWith(path, table[j].0)
    ensures FirstMatch(path, table) == DEFAULT_CONTENT_TYPE
    decreases |table|
  {
    if |table| > 0 {
      assert !EndsWith(path, table[0].0);
      FirstMatchOfNone(path, table[1..]);
    }
  }

  lemma TypesNotPlain(j: nat)
    requires j < |CONTENT_TYPES|
    ensures CONTENT_TYPES[j].1 != DEFAULT_CONTENT_TYPE
  {
  }

  /** A name with none of the suffixes is text/plain, and only such a name. */
  lemma PlainOtherwise(path: string)
    ensures ContentType(path) == DEFAULT_CONTENT_TYPE <==>
      forall j :: 0 <= j < |CONTENT_TYPES| ==> !EndsWith(path, CONTENT_TYPES[j].0)
  {
    if exists j :: 0 <= j < |CONTENT_TYPES| && EndsWith(path, CONTENT_TYPES[j].0) {
      var j :| 0 <= j < |CONTENT_TYPES| && EndsWith(path, CONTENT_TYPES[j].0);
      ContentTypeOfSuffix(path, j);
      TypesNotPlain(j);
    } else {
      FirstMatchOfNone(path, CONTENT_TYPES);
    }
  }
}
