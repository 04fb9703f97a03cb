// The two POST handlers of the sensor's configuration web server:
// HandleSensorConfigPost and HandleWifiConfigPost. Each calls the updaters
// whose form fields are present, and finally re-reads the configuration
// record from the EEPROM cache.

module WebConfigPost {
  import opened Layout
  import opened Store
  import opened WebConfig

  // ---------------------------------------------------------------------------
  // HandleSensorConfigPost as a function of the two copies
  // ---------------------------------------------------------------------------

  /** The handler's state between updaters: the two copies and FlagsChanged. */
  datatype Pass = Pass(s: Copies, flagsChanged: bool)

  /** A flag updater that leaves the persisting to the handler: the
      in-memory flags become flags, and FlagsChanged records a change. */
  function FlagPass(p: Pass, flags: u32): Pass {
    Pass(Copies(p.s.mem.(flags := flags), p.s.stored), p.flagsChanged || flags != p.s.mem.flags)
  }

  /** A flag updater runs when its field is present or its flag is set. */
  function ProbePass(p: Pass, form: Form): Pass {
    if PROBE_ARG in form || IsSet(p.s.mem.flags, TempProbeConnected)
    then FlagPass(p, ProbeRule(form, p.s.mem.flags)) else p
  }

  function RelayPass(p: Pass, form: Form): Pass {
    if RELAY_ARG in form || IsSet(p.s.mem.flags, DeviceRelayConnected)
    then FlagPass(p, RelayRule(form, p.s.mem.flags)) else p
  }

  function UnitsPass(p: Pass, form: Form): Pass {
    if UNITS_ARG in form || IsSet(p.s.mem.flags, TempDisplayFahrenheit)
    then FlagPass(p, UnitsRule(form, p.s.mem.flags)) else p
  }

  function DebugPass(p: Pass, form: Form): Pass {
    if DEBUG_ARG in form || IsSet(p.s.mem.flags, DebugMessageEnabled)
    then FlagPass(p, DebugRule(form, p.s.mem.flags)) else p
  }

  /** The updaters between the flags, each when its field is present:
      the low and high limits, the label and the wait interval. */
  function SensorValues(s: Copies, form: Form, rules: Rules): Copies {
    IntervalCall(LabelCall(SensorLimits(s, form), form, rules), form, rules)
  }

  function SensorLimits(s: Copies, form: Form): Copies {
    HighTempCall(LowTempCall(s, form), form)
  }

  /** The handler's call of each updater, made when its field is present. */
  function LowTempCall(s: Copies, form: Form): Copies {
    if LOWTEMP_ARG in form then LowTempStep(s, form) else s
  }

  function HighTempCall(s: Copies, form: Form): Copies {
    if HIGHTEMP_ARG in form then HighTempStep(s, form) else s
  }

  function LabelCall(s: Copies, form: Form, rules: Rules): Copies {
    if LABEL_ARG in form then TextStep(s, form, LABEL_ARG, Label, rules) else s
  }

  function IntervalCall(s: Copies, form: Form, rules: Rules): Copies {
    if INTERVAL_ARG in form then WaitStep(s, form, rules) else s
  }

  function ValuesPass(p: Pass, form: Form, rules: Rules): Pass {
    Pass(SensorValues(p.s, form, rules), p.flagsChanged)
  }

  /** Every updater of the sensor form, in the handler's order. */
  function SensorPasses(s: Copies, form: Form, rules: Rules): Pass {
    DebugPass(UnitsPass(ValuesPass(RelayPass(ProbePass(Pass(s, false), form), form), form, rules), form), form)
  }

  /** The closing SetROMValue of Flags, when FlagsChanged. */
  function SaveFlags(p: Pass): Copies {
    if p.flagsChanged then Copies(p.s.mem, p.s.stored.(flags := p.s.mem.flags)) else p.s
  }

  /** The two copies after the updaters of HandleSensorConfigPost; after
      the handler's EEPROM.get, the in-memory record is the stored one. */
  function SensorSteps(s: Copies, form: Form, rules: Rules): Copies {
    SaveFlags(SensorPasses(s, form, rules))
  }

  // ---------------------------------------------------------------------------
  // HandleWifiConfigPost as a function of the two copies
  // ---------------------------------------------------------------------------

  /** The updaters of the wifi form, in the handler's order, each when its
      field (or all four fields of an address) is present. */
  function WifiSteps(s: Copies, form: Form, rules: Rules): Copies {
    WifiPorts(WifiAddresses(WifiCredentials(s, form, rules), form, rules), form)
  }

  function WifiCredentials(s: Copies, form: Form, rules: Rules): Copies {
    PasswordCall(SSIDCall(StationCall(s, form), form, rules), form, rules)
  }

  function WifiAddresses(s: Copies, form: Form, rules: Rules): Copies {
    GatewayCall(NetmaskCall(AccessIPCall(s, form, rules), form, rules), form, rules)
  }

  function WifiPorts(s: Copies, form: Form): Copies {
    DataPortCall(WebPortCall(BaudCall(s, form), form), form)
  }

  function StationCall(s: Copies, form: Form): Copies {
    if WIFI_ARG in form then WifiStep(s, form) else s
  }

  function SSIDCall(s: Copies, form: Form, rules: Rules): Copies {
    if SSID_ARG in form then TextStep(s, form, SSID_ARG, WifiSSID, rules) else s
  }

  function PasswordCall(s: Copies, form: Form, rules: Rules): Copies {
    if PASSWORD_ARG in form then TextStep(s, form, PASSWORD_ARG, WifiPassword, rules) else s
  }

  /** An address updater is called when all four of its fields are present. */
  function AccessIPCall(s: Copies, form: Form, rules: Rules): Copies {
    if HasAllOctets(form, AP_PREFIX) then OctetStep(s, form, AP_PREFIX, AccessIP, true, rules) else s
  }

  function NetmaskCall(s: Copies, form: Form, rules: Rules): Copies {
    if HasAllOctets(form, NM_PREFIX) then OctetStep(s, form, NM_PREFIX, NetMask, false, rules) else s
  }

  function GatewayCall(s: Copies, form: Form, rules: Rules): Copies {
    if HasAllOctets(form, GW_PREFIX) then OctetStep(s, form, GW_PREFIX, Gateway, false, rules) else s
  }

  function BaudCall(s: Copies, form: Form): Copies {
    if BAUD_ARG in form then BaudStep(s, form) else s
  }

  function WebPortCall(s: Copies, form: Form): Copies {
    if WEBPORT_ARG in form then WebPortStep(s, form) else s
  }

  function DataPortCall(s: Copies, form: Form): Copies {
    if WSPORT_ARG in form then DataPortStep(s, form) else s
  }

  // ---------------------------------------------------------------------------
  // The handlers
  // ---------------------------------------------------------------------------

  /** The copies the handler starts from: the in-memory record, and the
      record the image holds (any record when the image holds none). */
  function Start(mem: Record, img: seq<byte>): Copies {
    Copies(mem, if HasRecord(img) then Stored(img) else mem)
  }

  /** HandleSensorConfigPost: when the image holds a record, the in-memory
      record ends as the stored record SensorSteps gives, which the image
      holds; otherwise the reload does nothing and the in-memory record is
      the one the updaters left. Every write is committed. */
  method HandleSensorConfigPost(form: Form, cfg: ConfigRecord, rom: Eeprom)
    modifies cfg, rom, rom.cache
    ensures WithinRecord(old(rom.cache[..]), rom.cache[..])
    ensures HasRecord(old(rom.cache[..])) ==>
      cfg.data == SensorSteps(Start(old(cfg.data), old(rom.cache[..])), form, AsWritten).stored &&
      Stored(rom.cache[..]) == cfg.data
    ensures !HasRecord(old(rom.cache[..])) ==> cfg.data == SensorSteps(Start(old(cfg.data), old(rom.cache[..])), form, AsWritten).mem
    ensures Committed(old(rom.cache[..]), old(rom.flash), rom.cache[..], rom.flash)
  {
    ghost var s := Start(cfg.data, rom.cache[..]);
    if HasRecord(rom.cache[..]) {
      HoldsStored(rom.cache[..], s.stored);
    }
    var flagsChanged := SensorUpdaters(form, cfg, rom, s);
    ghost var p := SensorPasses(s, form, AsWritten);
    ghost var before := rom.cache[..];
    ghost var flashBefore := rom.flash;
    // If any flags changed from the reconfiguration, update the EEPROM field.
    if flagsChanged {
      PersistMember(rom, Flags, LE32(cfg.data.flags), p.s.stored, p.s.stored.(flags := cfg.data.flags));
    }
    assert Committed(before, flashBefore, rom.cache[..], rom.flash);
    Reload(cfg, rom, SaveFlags(p));
  }

  /** Every updater of the sensor form; the result is FlagsChanged. */
  method SensorUpdaters(form: Form, cfg: ConfigRecord, rom: Eeprom, ghost s: Copies) returns (flagsChanged: bool)
    requires cfg.data == s.mem
    modifies cfg, rom, rom.cache
    ensures WithinRecord(old(rom.cache[..]), rom.cache[..])
    ensures cfg.data == SensorPasses(s, form, AsWritten).s.mem && flagsChanged == SensorPasses(s, form, AsWritten).flagsChanged
    ensures Holds(old(rom.cache[..]), s.stored) ==> Holds(rom.cache[..], SensorPasses(s, form, AsWritten).s.stored)
    ensures Committed(old(rom.cache[..]), old(rom.flash), rom.cache[..], rom.flash)
  {
    flagsChanged := LeadingFlags(form, cfg, s);
    ghost var p := RelayPass(ProbePass(Pass(s, false), form), form);
    SensorValueUpdaters(form, cfg, rom, p.s);
    flagsChanged := TrailingFlags(form, cfg, flagsChanged, ValuesPass(p, form, AsWritten));
  }

  /** The probe and relay updaters, each when its field is present or its
      flag is set. */
  method LeadingFlags(form: Form, cfg: ConfigRecord, ghost s: Copies) returns (flagsChanged: bool)
    requires cfg.data == s.mem
    modifies cfg
    ensures cfg.data == RelayPass(ProbePass(Pass(s, false), form), form).s.mem
    ensures flagsChanged == RelayPass(ProbePass(Pass(s, false), form), form).flagsChanged
  {
    flagsChanged := false;
    var bitsChanged: bool;
    if PROBE_ARG in form || IsSet(cfg.data.flags, TempProbeConnected) {
      bitsChanged := ConfigProbe(form, cfg);
      flagsChanged := flagsChanged || bitsChanged;
    }
    if RELAY_ARG in form || IsSet(cfg.data.flags, DeviceRelayConnected) {
      bitsChanged := ConfigRelay(form, cfg);
      flagsChanged := flagsChanged || bitsChanged;
    }
  }

  /** The units and debug updaters, each when its field is present or its
      flag is set. */
  method TrailingFlags(form: Form, cfg: ConfigRecord, changed: bool, ghost p: Pass) returns (flagsChanged: bool)
    requires cfg.data == p.s.mem && changed == p.flagsChanged
    modifies cfg
    ensures cfg.data == DebugPass(UnitsPass(p, form), form).s.mem
    ensures flagsChanged == DebugPass(UnitsPass(p, form), form).flagsChanged
  {
    flagsChanged := changed;
    var bitsChanged: bool;
    if UNITS_ARG in form || IsSet(cfg.data.flags, TempDisplayFahrenheit) {
      bitsChanged := ConfigTempUnits(form, cfg);
      flagsChanged := flagsChanged || bitsChanged;
    }
    if DEBUG_ARG in form || IsSet(cfg.data.flags, DebugMessageEnabled) {
      bitsChanged := ConfigDebug(form, cfg);
      flagsChanged := flagsChanged || bitsChanged;
    }
  }

  /** The updaters between the flags, each when its field is present. */
  method SensorValueUpdaters(form: Form, cfg: ConfigRecord, rom: Eeprom, ghost s: Copies)
    requires cfg.data == s.mem
    modifies cfg, rom, rom.cache
    ensures WithinRecord(old(rom.cache[..]), rom.cache[..])
    ensures cfg.data == SensorValues(s, form, AsWritten).mem
    ensures Holds(old(rom.cache[..]), s.stored) ==> Holds(rom.cache[..], SensorValues(s, form, AsWritten).stored)
    ensures Committed(old(rom.cache[..]), old(rom.flash), rom.cache[..], rom.flash)
  {
    LimitUpdaters(form, cfg, rom, s);
    ghost var s2 := SensorLimits(s, form);
    ghost var s3 := LabelCall(s2, form, AsWritten);
    if LABEL_ARG in form {
      ConfigSensorLabel(form, cfg, rom, s2.stored);
    }
    if INTERVAL_ARG in form {
      ConfigWaitInterval(form, cfg, rom, s3.stored);
    }
  }

  method LimitUpdaters(form: Form, cfg: ConfigRecord, rom: Eeprom, ghost s: Copies)
    requires cfg.data == s.mem
    modifies cfg, rom, rom.cache
    ensures WithinRecord(old(rom.cache[..]), rom.cache[..])
    ensures cfg.data == SensorLimits(s, form).mem
    ensures Holds(old(rom.cache[..]), s.stored) ==> Holds(rom.cache[..], SensorLimits(s, form).stored)
    ensures Committed(old(rom.cache[..]), old(rom.flash), rom.cache[..], rom.flash)
  {
    ghost var s1 := LowTempCall(s, form);
    if LOWTEMP_ARG in form {
      ConfigLowTemp(form, cfg, rom, s.stored);
    }
    if HIGHTEMP_ARG in form {
      ConfigHighTemp(form, cfg, rom, s1.stored);
    }
  }

  /** The closing EEPROM.get(PCONFIG_OFFSET, *ConfigDatah). */
  method Reload(cfg: ConfigRecord, rom: Eeprom, ghost s: Copies)
    requires cfg.data == s.mem
    requires HasRecord(rom.cache[..]) ==> Holds(rom.cache[..], s.stored)
    modifies cfg
    ensures HasRecord(rom.cache[..]) ==> cfg.data == s.stored && Stored(rom.cache[..]) == cfg.data
    ensures !HasRecord(rom.cache[..]) ==> cfg.data == s.mem
  {
    if HasRecord(rom.cache[..]) {
      HoldsStored(rom.cache[..], s.stored);
    }
    rom.Get(PCONFIG_OFFSET, cfg);
  }

  /** HandleWifiConfigPost: as HandleSensorConfigPost, with WifiSteps. The
      SSID updater zeroes up to the in-memory SSID length from a 32-byte
      buffer, so that length must not exceed 32. */
  method HandleWifiConfigPost(form: Form, cfg: ConfigRecord, rom: Eeprom)
    requires cfg.data.wifiSSIDLength as int <= PCONFIG_MAX_SSID + 1
    modifies cfg, rom, rom.cache
    ensures WithinRecord(old(rom.cache[..]), rom.cache[..])
    ensures HasRecord(old(rom.cache[..])) ==>
      cfg.data == WifiSteps(Start(old(cfg.data), old(rom.cache[..])), form, AsWritten).stored &&
      Stored(rom.cache[..]) == cfg.data
    ensures !HasRecord(old(rom.cache[..])) ==> cfg.data == WifiSteps(Start(old(cfg.data), old(rom.cache[..])), form, AsWritten).mem
    ensures Committed(old(rom.cache[..]), old(rom.flash), rom.cache[..], rom.flash)
  {
    ghost var s := Start(cfg.data, rom.cache[..]);
    if HasRecord(rom.cache[..]) {
      HoldsStored(rom.cache[..], s.stored);
    }
    WifiUpdaters(form, cfg, rom, s);
    Reload(cfg, rom, WifiSteps(s, form, AsWritten));
  }

  /** Every updater of the wifi form. */
  method WifiUpdaters(form: Form, cfg: ConfigRecord, rom: Eeprom, ghost s: Copies)
    requires cfg.data == s.mem && cfg.data.wifiSSIDLength as int <= PCONFIG_MAX_SSID + 1
    modifies cfg, rom, rom.cache
    ensures WithinRecord(old(rom.cache[..]), rom.cache[..])
    ensures cfg.data == WifiSteps(s, form, AsWritten).mem
    ensures Holds(old(rom.cache[..]), s.stored) ==> Holds(rom.cache[..], WifiSteps(s, form, AsWritten).stored)
    ensures Committed(old(rom.cache[..]), old(rom.flash), rom.cache[..], rom.flash)
  {
    CredentialUpdaters(form, cfg, rom, s);
    ghost var s1 := WifiCredentials(s, form, AsWritten);
    AddressUpdaters(form, cfg, rom, s1);
    ghost var s2 := WifiAddresses(s1, form, AsWritten);
    PortUpdaters(form, cfg, rom, s2);
  }

  /** The station flag, SSID and password updaters. */
  method CredentialUpdaters(form: Form, cfg: ConfigRecord, rom: Eeprom, ghost s: Copies)
    requires cfg.data == s.mem && cfg.data.wifiSSIDLength as int <= PCONFIG_MAX_SSID + 1
    modifies cfg, rom, rom.cache
    ensures WithinRecord(old(rom.cache[..]), rom.cache[..])
    ensures cfg.data == WifiCredentials(s, form, AsWritten).mem
    ensures Holds(old(rom.cache[..]), s.stored) ==> Holds(rom.cache[..], WifiCredentials(s, form, AsWritten).stored)
    ensures Committed(old(rom.cache[..]), old(rom.flash), rom.cache[..], rom.flash)
  {
    ghost var s1 := StationCall(s, form);
    if WIFI_ARG in form {
      ConfigWifiEnable(form, cfg, rom, s.stored);
    }
    ghost var s2 := SSIDCall(s1, form, AsWritten);
    if SSID_ARG in form {
      ConfigSSID(form, cfg, rom, s1.stored);
    }
    if PASSWORD_ARG in form {
      ConfigPassword(form, cfg, rom, s2.stored);
    }
  }

  /** The three address updaters, each when all four of its fields are present. */
  method AddressUpdaters(form: Form, cfg: ConfigRecord, rom: Eeprom, ghost s: Copies)
    requires cfg.data == s.mem
    modifies cfg, rom, rom.cache
    ensures WithinRecord(old(rom.cache[..]), rom.cache[..])
    ensures cfg.data == WifiAddresses(s, form, AsWritten).mem
    ensures Holds(old(rom.cache[..]), s.stored) ==> Holds(rom.cache[..], WifiAddresses(s, form, AsWritten).stored)
    ensures Committed(old(rom.cache[..]), old(rom.flash), rom.cache[..], rom.flash)
  {
    ghost var s1 := AccessIPCall(s, form, AsWritten);
    if HasAllOctets(form, AP_PREFIX) {
      ConfigAccessIP(form, cfg, rom, s.stored);
    }
    ghost var s2 := NetmaskCall(s1, form, AsWritten);
    if HasAllOctets(form, NM_PREFIX) {
      ConfigAPNetmask(form, cfg, rom, s1.stored);
    }
    if HasAllOctets(form, GW_PREFIX) {
      ConfigAPGateway(form, cfg, rom, s2.stored);
    }
  }

  /** The baud, web port and data port updaters. */
  method PortUpdaters(form: Form, cfg: ConfigRecord, rom: Eeprom, ghost s: Copies)
    requires cfg.data == s.mem
    modifies cfg, rom, rom.cache
    ensures WithinRecord(old(rom.cache[..]), rom.cache[..])
    ensures cfg.data == WifiPorts(s, form).mem
    ensures Holds(old(rom.cache[..]), s.stored) ==> Holds(rom.cache[..], WifiPorts(s, form).stored)
    ensures Committed(old(rom.cache[..]), old(rom.flash), rom.cache[..], rom.flash)
  {
    ghost var s1 := BaudCall(s, form);
    if BAUD_ARG in form {
      ConfigBaud(form, cfg, rom, s.stored);
    }
    ghost var s2 := WebPortCall(s1, form);
    if WEBPORT_ARG in form {
      ConfigWebPort(form, cfg, rom, s1.stored);
    }
    if WSPORT_ARG in form {
      ConfigDataPort(form, cfg, rom, s2.stored);
    }
  }

  // ---------------------------------------------------------------------------
  // FlagsChanged
  // ---------------------------------------------------------------------------

  /** Flags b differ from flags a at most in flag g, and when they differ
      at all, they differ in g. */
  predicate FlipsAtMost(a: u32, b: u32, g: ConfigFlag) {
    (forall h :: h != g ==> IsSet(b, h) == IsSet(a, h)) && (b != a ==> IsSet(b, g) != IsSet(a, g))
  }

  lemma SensorValuesKeepFlags(s: Copies, form: Form, rules: Rules)
    ensures SensorValues(s, form, rules).mem.flags == s.mem.flags
    ensures SensorValues(s, form, rules).stored.flags == s.stored.flags
  {
  }

  /** The four flag updaters touch four different flags, so FlagsChanged is
      set exactly when the in-memory flags end different from how they
      started: the handler persists Flags exactly when they changed. */
  lemma {:induction false} FlagsChangedExactly(s: Copies, form: Form, rules: Rules)
    ensures SensorPasses(s, form, rules).flagsChanged <==> SensorPasses(s, form, rules).s.mem.flags != s.mem.flags
  {
    var p1 := ProbePass(Pass(s, false), form);
    var p2 := RelayPass(p1, form);
    var p3 := ValuesPass(p2, form, rules);
    var p4 := UnitsPass(p3, form);
    var p5 := DebugPass(p4, form);
    SensorValuesKeepFlags(p2.s, form, rules);
    var f0, f1, f2, f4, f5 := s.mem.flags, p1.s.mem.flags, p2.s.mem.flags, p4.s.mem.flags, p5.s.mem.flags;
    assert FlipsAtMost(f0, f1, TempProbeConnected);
    assert FlipsAtMost(f1, f2, DeviceRelayConnected);
    assert FlipsAtMost(f2, f4, TempDisplayFahrenheit);
    assert FlipsAtMost(f4, f5, DebugMessageEnabled);
    assert p5.flagsChanged == (f1 != f0 || f2 != f1 || f4 != f2 || f5 != f4);
    if f1 != f0 {
      assert IsSet(f5, TempProbeConnected) != IsSet(f0, TempProbeConnected);
    } else if f2 != f1 {
      assert IsSet(f5, DeviceRelayConnected) != IsSet(f0, DeviceRelayConnected);
    } else if f4 != f2 {
      assert IsSet(f5, TempDisplayFahrenheit) != IsSet(f0, TempDisplayFahrenheit);
    }
  }

  // ---------------------------------------------------------------------------
  // The two copies in step
  // ---------------------------------------------------------------------------

  /** The two copies agree on every member but the three text buffers. */
  predicate InSync(s: Copies) {
    s.mem.(wifiSSID := s.stored.wifiSSID, wifiPassword := s.stored.wifiPassword,
      sensorLabel := s.stored.sensorLabel) == s.stored
  }

  /** As InSync, and the flags may differ too. */
  predicate InSyncButFlags(s: Copies) {
    s.mem.(flags := s.stored.flags, wifiSSID := s.stored.wifiSSID, wifiPassword := s.stored.wifiPassword,
      sensorLabel := s.stored.sensorLabel) == s.stored
  }

  /** A text updater gives both copies the same length; the new text goes
      to the image only. */
  lemma TextStepInSync(s: Copies, form: Form, name: string, f: Field, rules: Rules)
    requires IsText(f) && InSyncButFlags(s)
    ensures InSyncButFlags(TextStep(s, form, name, f, rules))
    ensures TextStep(s, form, name, f, rules).mem.flags == s.mem.flags
    ensures TextStep(s, form, name, f, rules).stored.flags == s.stored.flags
    ensures FieldBytes(TextStep(s, form, name, f, rules).mem, f) == FieldBytes(s.mem, f)
  {
  }

  /** An address updater gives both copies the entered address, since the
      image held the in-memory one. */
  lemma OctetStepInSync(s: Copies, form: Form, prefix: string, f: Field, access: bool, rules: Rules)
    requires IsOctets(f) && InSync(s)
    ensures InSync(OctetStep(s, form, prefix, f, access, rules))
  {
    match OctetRule(rules, form, prefix, access)
    case None =>
    case Some(o) =>
      assert FieldBytes(s.stored, f) == FieldBytes(s.mem, f);
      MergeInSync(o, FieldBytes(s.mem, f));
  }

  lemma LimitsInSync(s: Copies, form: Form)
    requires InSyncButFlags(s)
    ensures InSyncButFlags(SensorLimits(s, form))
    ensures SensorLimits(s, form).mem.flags == s.mem.flags && SensorLimits(s, form).stored.flags == s.stored.flags
    ensures SensorLimits(s, form).mem.sensorLabel == s.mem.sensorLabel
  {
  }

  lemma IntervalInSync(s: Copies, form: Form, rules: Rules)
    requires InSyncButFlags(s)
    ensures InSyncButFlags(IntervalCall(s, form, rules))
    ensures IntervalCall(s, form, rules).mem.flags == s.mem.flags && IntervalCall(s, form, rules).stored.flags == s.stored.flags
    ensures IntervalCall(s, form, rules).mem.sensorLabel == s.mem.sensorLabel
  {
  }

  lemma SensorValuesInSync(s: Copies, form: Form, rules: Rules)
    requires InSyncButFlags(s)
    ensures InSyncButFlags(SensorValues(s, form, rules))
    ensures SensorValues(s, form, rules).stored.flags == s.stored.flags
    ensures SensorValues(s, form, rules).mem.sensorLabel == s.mem.sensorLabel
  {
    var s2 := SensorLimits(s, form);
    LimitsInSync(s, form);
    TextStepInSync(s2, form, LABEL_ARG, Label, rules);
    IntervalInSync(LabelCall(s2, form, rules), form, rules);
  }

  /** After HandleSensorConfigPost's updaters, when the two copies started
      in step they end in step: the closing EEPROM.get changes nothing but
      the label buffer, which the in-memory record never received. */
  lemma SensorStepsInSync(s: Copies, form: Form, rules: Rules)
    requires InSync(s)
    ensures InSync(SensorSteps(s, form, rules))
    ensures SensorSteps(s, form, rules).mem.sensorLabel == s.mem.sensorLabel
  {
    var p2 := RelayPass(ProbePass(Pass(s, false), form), form);
    assert InSyncButFlags(p2.s) && p2.s.stored.flags == s.stored.flags && p2.s.mem.sensorLabel == s.mem.sensorLabel;
    SensorValuesInSync(p2.s, form, rules);
    var p5 := DebugPass(UnitsPass(ValuesPass(p2, form, rules), form), form);
    assert p5.s.stored == SensorValues(p2.s, form, rules).stored;
    assert p5.s.mem == SensorValues(p2.s, form, rules).mem.(flags := p5.s.mem.flags);
    assert SensorPasses(s, form, rules) == p5;
    FlagsChangedExactly(s, form, rules);
  }

  lemma CredentialsInSync(s: Copies, form: Form, rules: Rules)
    requires InSync(s)
    ensures InSync(WifiCredentials(s, form, rules))
    ensures WifiCredentials(s, form, rules).mem.wifiSSID == s.mem.wifiSSID
    ensures WifiCredentials(s, form, rules).mem.wifiPassword == s.mem.wifiPassword
  {
    var s1 := StationCall(s, form);
    assert InSync(s1) && s1.mem.wifiSSID == s.mem.wifiSSID && s1.mem.wifiPassword == s.mem.wifiPassword;
    TextStepInSync(s1, form, SSID_ARG, WifiSSID, rules);
    var s2 := SSIDCall(s1, form, rules);
    assert s2.mem.wifiPassword == s.mem.wifiPassword;
    TextStepInSync(s2, form, PASSWORD_ARG, WifiPassword, rules);
  }

  lemma AddressesInSync(s: Copies, form: Form, rules: Rules)
    requires InSync(s)
    ensures InSync(WifiAddresses(s, form, rules))
    ensures WifiAddresses(s, form, rules).mem.wifiSSID == s.mem.wifiSSID
    ensures WifiAddresses(s, form, rules).mem.wifiPassword == s.mem.wifiPassword
  {
    OctetStepInSync(s, form, AP_PREFIX, AccessIP, true, rules);
    var a1 := AccessIPCall(s, form, rules);
    OctetStepInSync(a1, form, NM_PREFIX, NetMask, false, rules);
    var a2 := NetmaskCall(a1, form, rules);
    OctetStepInSync(a2, form, GW_PREFIX, Gateway, false, rules);
  }

  lemma PortsInSync(s: Copies, form: Form)
    requires InSync(s)
    ensures InSync(WifiPorts(s, form))
    ensures WifiPorts(s, form).mem.wifiSSID == s.mem.wifiSSID
    ensures WifiPorts(s, form).mem.wifiPassword == s.mem.wifiPassword
  {
  }

  /** The same for HandleWifiConfigPost, which persists the station flag at
      once: only the SSID and password buffers differ. */
  lemma WifiStepsInSync(s: Copies, form: Form, rules: Rules)
    requires InSync(s)
    ensures InSync(WifiSteps(s, form, rules))
    ensures WifiSteps(s, form, rules).mem.wifiSSID == s.mem.wifiSSID
    ensures WifiSteps(s, form, rules).mem.wifiPassword == s.mem.wifiPassword
  {
    CredentialsInSync(s, form, rules);
    var s1 := WifiCredentials(s, form, rules);
    AddressesInSync(s1, form, rules);
    PortsInSync(WifiAddresses(s1, form, rules), form);
  }

  // ---------------------------------------------------------------------------
  // What the image holds after a handler
  // ---------------------------------------------------------------------------

  /** The buffer a text updater stores is terminated at the new length,
      under either rules. */
  lemma TextTerminated(buf: TextBuf, t: Text, clear: int, rules: Rules)
    requires TextRule(rules, t).Some?
    ensures TextBuffer(buf, TextRule(rules, t).value, clear)[UInt8Of(|t|)] == 0
  {
  }

  /** A stored record the firmware can trust: each text length is within
      its limit with a NUL at that position, the baud rate is one of the
      permitted rates, and the wait time is not zero. */
  predicate Sane(r: Record) {
    r.wifiSSIDLength as int <= PCONFIG_MAX_SSID && r.wifiSSID[r.wifiSSIDLength] == 0 &&
    r.wifiPasswordLength as int <= PCONFIG_MAX_PASSWORD && r.wifiPassword[r.wifiPasswordLength] == 0 &&
    r.labelLength as int <= PCONFIG_MAX_LABEL && r.sensorLabel[r.labelLength] == 0 &&
    r.serialBaud in BAUD_LIST && r.sensorWaitTime > 0
  }

  lemma DefaultsAreSane(spare: SpareBuf)
    ensures Sane(Defaults(spare))
  {
  }

  lemma TextStepKeepsSane(s: Copies, form: Form, name: string, f: Field, rules: Rules)
    requires IsText(f) && Sane(s.stored)
    ensures Sane(TextStep(s, form, name, f, rules).stored)
  {
    var t := TextOf(form, name);
    if TextChange(rules, t, FieldBytes(s.mem, f)).Some? {
      var clear := if f == WifiSSID then s.mem.wifiSSIDLength as int else 0;
      TextTerminated(FieldBytes(s.stored, f), t, clear, rules);
    }
  }

  lemma LimitsKeepSane(s: Copies, form: Form)
    requires Sane(s.stored)
    ensures Sane(SensorLimits(s, form).stored)
  {
  }

  /** As written, a wait entry keeps the wait time nonzero when it is a
      number of seconds whose milliseconds fit the int32_t product. */
  predicate WaitEntryFits(form: Form) {
    INTERVAL_ARG in form ==> 0 < NumberOf(form, INTERVAL_ARG) as int <= 0x7FFF_FFFF / 1000
  }

  lemma IntervalKeepsSane(s: Copies, form: Form, rules: Rules)
    requires Sane(s.stored) && (rules == AsWritten ==> WaitEntryFits(form))
    ensures Sane(IntervalCall(s, form, rules).stored)
  {
  }

  lemma SensorValuesKeepSane(s: Copies, form: Form, rules: Rules)
    requires Sane(s.stored) && (rules == AsWritten ==> WaitEntryFits(form))
    ensures Sane(SensorValues(s, form, rules).stored)
  {
    var s2 := SensorLimits(s, form);
    LimitsKeepSane(s, form);
    TextStepKeepsSane(s2, form, LABEL_ARG, Label, rules);
    IntervalKeepsSane(LabelCall(s2, form, rules), form, rules);
  }

  /** Corrected, HandleSensorConfigPost keeps the stored record sane
      whatever the form; as written, only when the wait entry is absent or
      fits (SensorStepsBreakSane shows one that does not). */
  lemma SensorStepsKeepSane(s: Copies, form: Form, rules: Rules)
    requires Sane(s.stored) && (rules == AsWritten ==> WaitEntryFits(form))
    ensures Sane(SensorSteps(s, form, rules).stored)
  {
    var p2 := RelayPass(ProbePass(Pass(s, false), form), form);
    assert p2.s.stored == s.stored;
    SensorValuesKeepSane(p2.s, form, rules);
    var p5 := DebugPass(UnitsPass(ValuesPass(p2, form, rules), form), form);
    assert p5.s.stored == SensorValues(p2.s, form, rules).stored;
    assert SensorPasses(s, form, rules) == p5;
  }

  /** As written, an interval of 536870912 seconds stores a wait time of 0
      (536870912000 wraps to 0 in 32 bits), so the handler leaves a record
      that is not sane, from any configuration whose copies are in step. */
  lemma SensorStepsBreakSane(s: Copies, form: Form)
    requires InSync(s) && INTERVAL_ARG in form && NumberOf(form, INTERVAL_ARG) == 536870912
    ensures SensorSteps(s, form, AsWritten).stored.sensorWaitTime == 0
    ensures !Sane(SensorSteps(s, form, AsWritten).stored)
  {
    var p2 := RelayPass(ProbePass(Pass(s, false), form), form);
    assert InSyncButFlags(p2.s);
    var s2 := SensorLimits(p2.s, form);
    LimitsInSync(p2.s, form);
    TextStepInSync(s2, form, LABEL_ARG, Label, AsWritten);
    var s3 := LabelCall(s2, form, AsWritten);
    WaitWrapsToZero(s3, form);
    var p5 := DebugPass(UnitsPass(ValuesPass(p2, form, AsWritten), form), form);
    assert p5.s.stored == SensorValues(p2.s, form, AsWritten).stored;
    assert SensorPasses(s, form, AsWritten) == p5;
  }

  lemma WaitWrapsToZero(s: Copies, form: Form)
    requires s.mem.sensorWaitTime == s.stored.sensorWaitTime
    requires INTERVAL_ARG in form && NumberOf(form, INTERVAL_ARG) == 536870912
    ensures IntervalCall(s, form, AsWritten).stored.sensorWaitTime == 0
  {
    assert WaitAsWritten(536870912, s.mem.sensorWaitTime) == 0;
  }

  lemma CredentialsKeepSane(s: Copies, form: Form, rules: Rules)
    requires Sane(s.stored)
    ensures Sane(WifiCredentials(s, form, rules).stored)
  {
    var s1 := StationCall(s, form);
    assert Sane(s1.stored);
    TextStepKeepsSane(s1, form, SSID_ARG, WifiSSID, rules);
    TextStepKeepsSane(SSIDCall(s1, form, rules), form, PASSWORD_ARG, WifiPassword, rules);
  }

  lemma AddressesKeepSane(s: Copies, form: Form, rules: Rules)
    requires Sane(s.stored)
    ensures Sane(WifiAddresses(s, form, rules).stored)
  {
    AddressesKeepView(s, form, rules);
  }

  /** The members Sane reads. */
  function SaneView(r: Record): (TextBuf, byte, TextBuf, byte, TextBuf, byte, u32, u32) {
    (r.wifiSSID, r.wifiSSIDLength, r.wifiPassword, r.wifiPasswordLength, r.sensorLabel, r.labelLength,
     r.serialBaud, r.sensorWaitTime)
  }

  lemma OctetStepKeepsView(s: Copies, form: Form, prefix: string, f: Field, access: bool, rules: Rules)
    requires IsOctets(f)
    ensures SaneView(OctetStep(s, form, prefix, f, access, rules).stored) == SaneView(s.stored)
  {
  }

  lemma AddressesKeepView(s: Copies, form: Form, rules: Rules)
    ensures SaneView(WifiAddresses(s, form, rules).stored) == SaneView(s.stored)
  {
    OctetStepKeepsView(s, form, AP_PREFIX, AccessIP, true, rules);
    var a1 := AccessIPCall(s, form, rules);
    OctetStepKeepsView(a1, form, NM_PREFIX, NetMask, false, rules);
    OctetStepKeepsView(NetmaskCall(a1, form, rules), form, GW_PREFIX, Gateway, false, rules);
  }

  lemma PortsKeepSane(s: Copies, form: Form)
    requires Sane(s.stored)
    ensures Sane(WifiPorts(s, form).stored)
  {
  }

  /** HandleSensorConfigPost never writes the SSID, the password or their
      lengths, in either copy, so the SSID length stays what the wifi
      handler last left. */
  lemma SensorStepsKeepTexts(s: Copies, form: Form, rules: Rules)
    ensures TextsOf(SensorSteps(s, form, rules).stored) == TextsOf(s.stored)
    ensures TextsOf(SensorSteps(s, form, rules).mem) == TextsOf(s.mem)
  {
    var p2 := RelayPass(ProbePass(Pass(s, false), form), form);
    assert TextsOf(p2.s.stored) == TextsOf(s.stored) && TextsOf(p2.s.mem) == TextsOf(s.mem);
    SensorValuesKeepTexts(p2.s, form, rules);
    var p5 := DebugPass(UnitsPass(ValuesPass(p2, form, rules), form), form);
    assert TextsOf(p5.s.stored) == TextsOf(SensorValues(p2.s, form, rules).stored);
    assert TextsOf(p5.s.mem) == TextsOf(SensorValues(p2.s, form, rules).mem);
    assert SensorPasses(s, form, rules) == p5;
  }

  lemma SensorValuesKeepTexts(s: Copies, form: Form, rules: Rules)
    ensures TextsOf(SensorValues(s, form, rules).stored) == TextsOf(s.stored)
    ensures TextsOf(SensorValues(s, form, rules).mem) == TextsOf(s.mem)
  {
    var s2 := SensorLimits(s, form);
    assert TextsOf(s2.stored) == TextsOf(s.stored) && TextsOf(s2.mem) == TextsOf(s.mem);
    LabelKeepsTexts(s2, form, rules);
    var s3 := LabelCall(s2, form, rules);
    assert TextsOf(IntervalCall(s3, form, rules).stored) == TextsOf(s3.stored);
    assert TextsOf(IntervalCall(s3, form, rules).mem) == TextsOf(s3.mem);
  }

  lemma LabelKeepsTexts(s: Copies, form: Form, rules: Rules)
    ensures TextsOf(LabelCall(s, form, rules).stored) == TextsOf(s.stored)
    ensures TextsOf(LabelCall(s, form, rules).mem) == TextsOf(s.mem)
  {
    if LABEL_ARG in form && TextChange(rules, TextOf(form, LABEL_ARG), s.mem.sensorLabel).Some? {
      var w := TextChange(rules, TextOf(form, LABEL_ARG), s.mem.sensorLabel).value;
      assert LabelCall(s, form, rules) ==
        Copies(WithLength(s.mem, Label, (|w| - 1) as byte), TextStored(s.stored, Label, w, 0));
    }
  }

  /** Whatever the form, HandleWifiConfigPost keeps the stored record sane;
      so after its reload the SSID length meets its own requirement again. */
  lemma WifiStepsKeepSane(s: Copies, form: Form, rules: Rules)
    requires Sane(s.stored)
    ensures Sane(WifiSteps(s, form, rules).stored)
    ensures WifiSteps(s, form, rules).stored.wifiSSIDLength as int <= PCONFIG_MAX_SSID + 1
  {
    CredentialsKeepSane(s, form, rules);
    var s1 := WifiCredentials(s, form, rules);
    AddressesKeepSane(s1, form, rules);
    PortsKeepSane(WifiAddresses(s1, form, rules), form);
  }

  // ---------------------------------------------------------------------------
  // Entered texts read back
  // ---------------------------------------------------------------------------

  /** From a reloaded configuration, an entered label without NULs that the
      updater accepts reads back from the image after the handler as its
      stored text (the label itself when corrected, or when it was already
      the label), and a changed one takes its length as a uint8_t with it. */
  lemma SensorLabelReadsBack(r: Record, form: Form, rules: Rules)
    requires LABEL_ARG in form && TextRule(rules, TextOf(form, LABEL_ARG)).Some? && NoNul(TextOf(form, LABEL_ARG))
    ensures CString(SensorSteps(Copies(r, r), form, rules).stored.sensorLabel) ==
      if SameString(TextOf(form, LABEL_ARG), r.sensorLabel) then TextOf(form, LABEL_ARG) else StoredText(rules, TextOf(form, LABEL_ARG))
    ensures !SameString(TextOf(form, LABEL_ARG), r.sensorLabel) ==>
      SensorSteps(Copies(r, r), form, rules).stored.labelLength == UInt8Of(|TextOf(form, LABEL_ARG)|)
  {
    var p2 := RelayPass(ProbePass(Pass(Copies(r, r), false), form), form);
    var s2 := SensorLimits(p2.s, form);
    assert s2.mem.sensorLabel == r.sensorLabel && s2.stored.sensorLabel == r.sensorLabel;
    LabelCallStores(s2, form, rules);
    LabelKept(p2, form, rules);
    assert SensorPasses(Copies(r, r), form, rules) == DebugPass(UnitsPass(ValuesPass(p2, form, rules), form), form);
  }

  lemma LabelCallStores(s: Copies, form: Form, rules: Rules)
    requires s.mem.sensorLabel == s.stored.sensorLabel
    requires LABEL_ARG in form && TextRule(rules, TextOf(form, LABEL_ARG)).Some? && NoNul(TextOf(form, LABEL_ARG))
    ensures CString(LabelCall(s, form, rules).stored.sensorLabel) ==
      if SameString(TextOf(form, LABEL_ARG), s.mem.sensorLabel) then TextOf(form, LABEL_ARG) else StoredText(rules, TextOf(form, LABEL_ARG))
    ensures !SameString(TextOf(form, LABEL_ARG), s.mem.sensorLabel) ==>
      LabelCall(s, form, rules).stored.labelLength == UInt8Of(|TextOf(form, LABEL_ARG)|)
  {
    var t := TextOf(form, LABEL_ARG);
    if SameString(t, s.mem.sensorLabel) {
      SameStringReads(t, s.mem.sensorLabel);
      assert LabelCall(s, form, rules) == s;
    } else {
      TextBufferStored(rules, s.stored.sensorLabel, t, 0);
      LabelCallWrites(s, form, rules);
    }
  }

  /** A changed label: the stored buffer and length are replaced. */
  lemma LabelCallWrites(s: Copies, form: Form, rules: Rules)
    requires LABEL_ARG in form && TextRule(rules, TextOf(form, LABEL_ARG)).Some?
    requires !SameString(TextOf(form, LABEL_ARG), s.mem.sensorLabel)
    ensures LabelCall(s, form, rules).stored == s.stored.(
      sensorLabel := TextBuffer(s.stored.sensorLabel, TextRule(rules, TextOf(form, LABEL_ARG)).value, 0),
      labelLength := UInt8Of(|TextOf(form, LABEL_ARG)|))
  {
    var w := TextRule(rules, TextOf(form, LABEL_ARG)).value;
    assert TextStep(s, form, LABEL_ARG, Label, rules).stored == TextStored(s.stored, Label, w, 0);
  }

  /** Nothing after the label updater touches the label. */
  lemma LabelKept(p2: Pass, form: Form, rules: Rules)
    ensures var s3 := LabelCall(SensorLimits(p2.s, form), form, rules);
      var p5 := DebugPass(UnitsPass(ValuesPass(p2, form, rules), form), form);
      SaveFlags(p5).stored.sensorLabel == s3.stored.sensorLabel &&
      SaveFlags(p5).stored.labelLength == s3.stored.labelLength
  {
  }

  /** From a reloaded configuration, an accepted SSID without NULs reads
      back as SensorLabelReadsBack says, and when it changed, no byte of a
      longer previous SSID survives past its stored text. */
  lemma WifiSSIDReadsBack(r: Record, form: Form, rules: Rules)
    requires r.wifiSSIDLength as int <= PCONFIG_MAX_SSID + 1
    requires SSID_ARG in form && TextRule(rules, TextOf(form, SSID_ARG)).Some? && NoNul(TextOf(form, SSID_ARG))
    ensures CString(WifiSteps(Copies(r, r), form, rules).stored.wifiSSID) ==
      if SameString(TextOf(form, SSID_ARG), r.wifiSSID) then TextOf(form, SSID_ARG) else StoredText(rules, TextOf(form, SSID_ARG))
    ensures !SameString(TextOf(form, SSID_ARG), r.wifiSSID) ==>
      WifiSteps(Copies(r, r), form, rules).stored.wifiSSIDLength == UInt8Of(|TextOf(form, SSID_ARG)|) &&
      forall i :: |StoredText(rules, TextOf(form, SSID_ARG))| <= i < r.wifiSSIDLength as int ==>
        WifiSteps(Copies(r, r), form, rules).stored.wifiSSID[i] == 0
  {
    var s1 := StationCall(Copies(r, r), form);
    assert s1.mem.wifiSSID == r.wifiSSID && s1.stored.wifiSSID == r.wifiSSID;
    assert s1.mem.wifiSSIDLength == r.wifiSSIDLength;
    SSIDCallStores(s1, form, rules);
    var s2 := SSIDCall(s1, form, rules);
    assert TextsOf(s2.stored).0 == TextsOf(PasswordCall(s2, form, rules).stored).0;
    assert TextsOf(s2.stored).1 == TextsOf(PasswordCall(s2, form, rules).stored).1;
    CredentialsKept(WifiCredentials(Copies(r, r), form, rules), form, rules);
  }

  lemma SSIDCallStores(s: Copies, form: Form, rules: Rules)
    requires s.mem.wifiSSID == s.stored.wifiSSID && s.mem.wifiSSIDLength as int <= PCONFIG_MAX_SSID + 1
    requires SSID_ARG in form && TextRule(rules, TextOf(form, SSID_ARG)).Some? && NoNul(TextOf(form, SSID_ARG))
    ensures CString(SSIDCall(s, form, rules).stored.wifiSSID) ==
      if SameString(TextOf(form, SSID_ARG), s.mem.wifiSSID) then TextOf(form, SSID_ARG) else StoredText(rules, TextOf(form, SSID_ARG))
    ensures !SameString(TextOf(form, SSID_ARG), s.mem.wifiSSID) ==>
      SSIDCall(s, form, rules).stored.wifiSSIDLength == UInt8Of(|TextOf(form, SSID_ARG)|) &&
      forall i :: |StoredText(rules, TextOf(form, SSID_ARG))| <= i < s.mem.wifiSSIDLength as int ==>
        SSIDCall(s, form, rules).stored.wifiSSID[i] == 0
  {
    TextBufferStored(rules, s.stored.wifiSSID, TextOf(form, SSID_ARG), s.mem.wifiSSIDLength as int);
  }

  /** The same for the password. */
  lemma WifiPasswordReadsBack(r: Record, form: Form, rules: Rules)
    requires PASSWORD_ARG in form && TextRule(rules, TextOf(form, PASSWORD_ARG)).Some? && NoNul(TextOf(form, PASSWORD_ARG))
    ensures CString(WifiSteps(Copies(r, r), form, rules).stored.wifiPassword) ==
      if SameString(TextOf(form, PASSWORD_ARG), r.wifiPassword) then TextOf(form, PASSWORD_ARG) else StoredText(rules, TextOf(form, PASSWORD_ARG))
    ensures !SameString(TextOf(form, PASSWORD_ARG), r.wifiPassword) ==>
      WifiSteps(Copies(r, r), form, rules).stored.wifiPasswordLength == UInt8Of(|TextOf(form, PASSWORD_ARG)|)
  {
    var t := TextOf(form, PASSWORD_ARG);
    var s2 := SSIDCall(StationCall(Copies(r, r), form), form, rules);
    assert s2.mem.wifiPassword == r.wifiPassword && s2.stored.wifiPassword == r.wifiPassword;
    TextBufferStored(rules, r.wifiPassword, t, 0);
    CredentialsKept(WifiCredentials(Copies(r, r), form, rules), form, rules);
  }

  /** Nothing after the password updater touches the SSID or the password. */
  lemma CredentialsKept(s: Copies, form: Form, rules: Rules)
    ensures TextsOf(WifiPorts(WifiAddresses(s, form, rules), form).stored) == TextsOf(s.stored)
  {
    AddressesKeepTexts(s, form, rules);
    PortsKeepTexts(WifiAddresses(s, form, rules), form);
  }

  /** The SSID and password members with their lengths. */
  function TextsOf(r: Record): (TextBuf, byte, TextBuf, byte) {
    (r.wifiSSID, r.wifiSSIDLength, r.wifiPassword, r.wifiPasswordLength)
  }

  lemma OctetStepKeepsTexts(s: Copies, form: Form, prefix: string, f: Field, access: bool, rules: Rules)
    requires IsOctets(f)
    ensures TextsOf(OctetStep(s, form, prefix, f, access, rules).stored) == TextsOf(s.stored)
  {
  }

  lemma AddressesKeepTexts(s: Copies, form: Form, rules: Rules)
    ensures TextsOf(WifiAddresses(s, form, rules).stored) == TextsOf(s.stored)
  {
    OctetStepKeepsTexts(s, form, AP_PREFIX, AccessIP, true, rules);
    var a1 := AccessIPCall(s, form, rules);
    OctetStepKeepsTexts(a1, form, NM_PREFIX, NetMask, false, rules);
    OctetStepKeepsTexts(NetmaskCall(a1, form, rules), form, GW_PREFIX, Gateway, false, rules);
  }

  lemma PortsKeepTexts(s: Copies, form: Form)
    ensures TextsOf(WifiPorts(s, form).stored) == TextsOf(s.stored)
  {
  }
}
