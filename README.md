# Sensor configuration record, web-form updaters and page date rules

This project models the configuration core of an ESP8266 temperature-sensor
firmware:

- **The persistent configuration record.** `PConfig_t` is a 176-byte record
  kept in the EEPROM emulation at `PCONFIG_OFFSET`. The model gives its
  members, their offsets, the flag masks, the version word and the
  little-endian encoding of every member (`Layout`).
- **The byte store and its three operations** `ClearROM`, `SetROMDefaults`
  and `SetROMValue` (`Store`). The EEPROM is a class. Its RAM cache is an
  `array<byte>` that `write`, `put` and `get` use, and `flash` is the image
  as of the last `commit`. The in-memory `PConfig_t` is a class holding the
  record datatype.
- **The web-form updaters** `Config*` of `sensor/WebConfig.cpp` and the
  MIME mapping `GetContentType` (`WebConfig`). Each updater checks one form
  entry and changes the in-memory record:
  - A value updater writes the member's bytes through `SetROMValue` when
    the value changed. `ConfigSSID` also writes zeros over the tail of a
    longer previous SSID and then the new length, and each text updater
    writes its length member.
  - The flag updaters `ConfigProbe`, `ConfigRelay`, `ConfigTempUnits` and
    `ConfigDebug` change only the in-memory `Flags` and write nothing. Their
    caller writes `Flags` once. `ConfigWifiEnable` writes `Flags` itself.
- **The two POST handlers**, `HandleSensorConfigPost` and
  `HandleWifiConfigPost` (`WebConfigPost`):
  - They call the updaters under the source's guards.
  - The sensor handler collects FlagsChanged and persists the flag word once.
  - Both reload the record with `EEPROM.get`.
- **The page footer's date rules** in `sensor/data/PageSaveDate.js`: the
  ordinal day suffix, the year normalisation, and the two-digit hours and
  minutes (`PageSaveDate`).

Each updater method is tied to a step function on a pair of records,
`Copies(mem, stored)`:

- `mem` is the in-memory record.
- `stored` is the record the EEPROM image holds.
- Each updater ensures `cfg.data == XStep(...).mem`.
- It also ensures that an image holding `stored` before the call holds
  `XStep(...).stored` after it, and it gives the exact bytes written.

The text, address and wait updaters follow the source as written. The
step functions of these three kinds take a `Rules` argument:

- `AsWritten` is the code's behaviour, which the methods implement.
- `Corrected` is the evidently intended behaviour (see Findings).

Each handler composes these steps. Lemmas over the composed steps, stated
for both rules, prove three further properties:

- which of the record's properties survive a POST;
- that FlagsChanged is exact;
- that the stored text reads back as the entered text.

The source's three text updaters end with a `memcpy` whose arguments are
reversed (`sensor/WebConfig.cpp:1463`, `1778`, `1843`). The model keeps this:

- The in-memory record gets the new length but keeps its old text bytes.
- The closing `EEPROM.get` repairs the record.
- `WebConfigPost.SensorStepsInSync` and `WebConfigPost.WifiStepsInSync` state
  that, before that reload, the two copies differ only in the text buffers
  the updaters never wrote in memory. The reload then makes them equal.

Where the code and its comments disagree, the model follows the code:

- `BaudList` holds 100 as well as the nine rates the header comment lists.
- `PageSaveDate.js` blanks a year of 0 too, although its comment calls only
  negative years errors.

Three kinds of input come from library calls that are not modelled:

- A form is a map from argument names to the entered text and the number
  `toInt()` gives for it.
- The browser's `getDate`, `getYear`, `getHours` and `getMinutes` values are
  parameters.
- Dafny's unbounded integers are narrowed explicitly wherever the source
  casts: `Int16Of`, `UInt16Of`, `UInt32Of`, `UInt8Of` and the 32-bit
  product in `WaitAsWritten`.

## Model

| member | source | states |
|---|---|---|
| Layout.SetFlag | sensor/WebConfig.cpp:1205-1223 | `Flags \|= mask` / `Flags &= ~mask` leave flag g as asked and every other flag as it was |
| Layout.SetFlagArithmetic | sensor/WebConfig.cpp:1211-1222 | setting a clear flag adds its mask, clearing a set flag subtracts it, and otherwise the word is unchanged |
| Layout.FlagMasksAreDistinctBits | src/EEPROMConfig.h:147-152 | each CONFIG_* mask is a single bit below 32, and distinct flags have distinct bits |
| Layout.MembersDisjoint | src/EEPROMConfig.h:112-142 | no two members of PConfig_t share a byte |
| Layout.FieldInRecord | src/EEPROMConfig.h:165-189 | every PCONFIG_OFFSET_* is at or above PCONFIG_OFFSET, every member ends inside the 176 bytes, and Spare ends exactly at 176 (139 + 37) |
| Layout.MembersAligned | src/EEPROMConfig.h:83-96 | every member's offset is a multiple of its element size, 2- and 4-byte members are aligned, and the record size is a multiple of 8 |
| Layout.CompilerLayoutMatchesOffsets | src/EEPROMConfig.h:112-189 | the offsets a C compiler gives the members, from their sizes and alignments, are the PCONFIG_OFFSET_* constants, and sizeof(PConfig_t) is 176 |
| Layout.WidthIsElemTimesCount | src/EEPROMConfig.h:112-142 | a member's width is its element size times its element count |
| Layout.TextBuffersHoldMaxPlusTerminator | src/EEPROMConfig.h:108-137 | the SSID, password and label buffers are MAX + 1 = 32 bytes each |
| Layout.VersionIsOneDotOne | src/EEPROMConfig.h:157-159 | PCONFIG_VERSION 0x0101 is major version 1 and minor version 1 |
| Layout.LE16FromLE16 | sensor/EEPROMConfig.cpp:12-13 | two little-endian bytes read as a 16-bit value are written back as the same two bytes |
| Layout.LE32FromLE32 | sensor/EEPROMConfig.cpp:12-13 | the same for four bytes and a 32-bit value |
| Layout.SliceOfEncode | src/EEPROMConfig.h:171-189 | in the encoded record, each member's bytes sit at its PCONFIG_OFFSET_* offset |
| Layout.EncodeIffSlices | src/EEPROMConfig.h:79-81 | 176 bytes are the encoding of r exactly when every member's slice is r's member bytes |
| Layout.DecodeEncode | src/EEPROMConfig.h:79-81 | reading back the bytes written for a record gives the same record |
| Layout.EncodeDecode | src/EEPROMConfig.h:79-81 | writing back the record read from any 176 bytes gives the same bytes |
| Store.OverwriteReadsBack | sensor/EEPROMConfig.cpp:277-281 | bytes written at an address in range read back |
| Store.OverwriteElsewhere | sensor/EEPROMConfig.cpp:277-281 | bytes outside the written range keep their values |
| Store.OverwriteTwice | sensor/EEPROMConfig.cpp:277-281 | a second write over the same range replaces the first, so repeating a write is idempotent |
| Store.OverwriteSame | sensor/EEPROMConfig.cpp:277-281 | writing the bytes already there changes nothing |
| Store.HoldsStored | sensor/WebConfig.cpp:751 | an image holds record r, member by member, exactly when EEPROM.get reads r from it |
| Store.ReadWrittenMember | sensor/EEPROMConfig.cpp:277-281 | after writing a member's bytes at its offset, the stored record's member reads those bytes |
| Store.ReadOtherMember | sensor/EEPROMConfig.cpp:277-281 | after writing one member's bytes, every other member reads as before |
| Store.WriteMember | sensor/EEPROMConfig.cpp:264-285 | writing member f's bytes from r2 into an image holding r leaves an image holding r2, when r2 differs from r only in f |
| Store.PutHolds | sensor/EEPROMConfig.cpp:139 | after EEPROM.put of a record at PCONFIG_OFFSET, the image holds that record |
| Store.ZeroImage | sensor/EEPROMConfig.cpp:54-57 | an all-zero image holds the all-zero record, whose initialised flag is clear |
| Store.Eeprom.Write | sensor/EEPROMConfig.cpp:56 | EEPROM.write changes the one byte at the address, or nothing when the address is outside the cache |
| Store.Eeprom.Commit | sensor/EEPROMConfig.cpp:58 | after commit the flash holds the cache |
| Store.Eeprom.Put | sensor/EEPROMConfig.cpp:139 | EEPROM.put writes the record's 176-byte encoding at the address, or nothing when it does not fit |
| Store.Eeprom.Get | sensor/WebConfig.cpp:751 | EEPROM.get decodes the 176 bytes at the address into the record, or leaves the record unchanged when they do not fit |
| Store.ClearROM | sensor/EEPROMConfig.cpp:49-59 | the cache becomes the old cache with [Offset, Size) zeroed (Size is an end address), unchanged when Offset >= Size, and the flash holds it |
| Store.ClearedRange | sensor/EEPROMConfig.cpp:54-57 | byte i after ClearROM is 0 when Offset <= i < Size, and its old value otherwise |
| Store.ClearAllIsUninitialised | sensor/EEPROMConfig.cpp:49-59 | clearing a whole store from 0 leaves a record whose initialised flag is clear |
| Store.Defaults | sensor/EEPROMConfig.cpp:91-137 | the defaults record keeps its Spare bytes, which SetROMDefaults never assigns |
| Store.DefaultFlags | sensor/EEPROMConfig.cpp:94-99 | the default flags 0x37 are the OR of the five masks, and every flag but debug-message is set |
| Store.DefaultsSane | sensor/EEPROMConfig.cpp:91-137 | the defaults have size sizeof(PConfig_t), version 1.1, and three empty NUL-terminated strings |
| Store.SetROMDefaults | sensor/EEPROMConfig.cpp:87-142 | a null record changes nothing; otherwise the record becomes the defaults with its old Spare, its encoding is put at PCONFIG_OFFSET, the store is committed, and the image then holds exactly that record |
| Store.SetROMValue | sensor/EEPROMConfig.cpp:264-285 | when Offset >= PCONFIG_OFFSET, Value is present and Size >= 0, the Size bytes of Value are written from Offset and committed; otherwise the cache and flash are unchanged |
| Store.MemberWritesAccepted | src/EEPROMConfig.h:165-189 | SetROMValue's guard accepts every member's offset and width, and the write ends inside the record |
| WebConfig.PersistMember | sensor/WebConfig.cpp:1335-1338 | persisting a member writes exactly its bytes at its absolute offset, commits, and takes an image holding st to one holding st with that member replaced |
| WebConfig.OverwriteWithinRecord | sensor/EEPROMConfig.cpp:270-281 | a write that starts at or above PCONFIG_OFFSET and ends inside the record changes no byte outside the record |
| WebConfig.PersistPart | sensor/WebConfig.cpp:1948-1951 | the same for bytes inside a member, as the octet and SSID-tail writes do |
| WebConfig.FlagRule | sensor/WebConfig.cpp:1205-1223 | the flag is set when asked for and clear, cleared when asked against and set, and otherwise unchanged; no other flag changes; the word changes exactly when one of the first two cases applies |
| WebConfig.UpdateFlag | sensor/WebConfig.cpp:1203-1225 | the record changes only in Flags, to FlagRule's result, and BitsChanged is true exactly when Flags changed |
| WebConfig.ConfigProbe | sensor/WebConfig.cpp:1198-1226 | the probe flag follows "Y"/"N" (ignoring case); only Flags changes; the result is true exactly when Flags changed |
| WebConfig.ConfigRelay | sensor/WebConfig.cpp:1257-1285 | the same for the relay flag |
| WebConfig.ConfigTempUnits | sensor/WebConfig.cpp:1558-1584 | the same for the Fahrenheit flag, with exactly "F" and "C" |
| WebConfig.ConfigDebug | sensor/WebConfig.cpp:1615-1643 | the same for the debug-message flag |
| WebConfig.ConfigWifiEnable | sensor/WebConfig.cpp:1669-1703 | the station flag follows "Y"/"N"; when Flags changed its 4 bytes are written at offset 4 and committed, otherwise the store is unchanged |
| WebConfig.EnteredRule | sensor/WebConfig.cpp:1318-1330 | a numeric entry either keeps the current value or takes the parsed one, takes 0 only from the text "0", and always takes a nonzero parse |
| WebConfig.ConfigLowTemp | sensor/WebConfig.cpp:1311-1342 | the low limit becomes the int16_t entry under EnteredRule; a change writes its 2 bytes at offset 102 and commits, otherwise the store is unchanged |
| WebConfig.ConfigHighTemp | sensor/WebConfig.cpp:1368-1399 | the same for the high limit at offset 100 |
| WebConfig.ConfigWebPort | sensor/WebConfig.cpp:2187-2219 | the same for the uint16_t web server port at offset 92 |
| WebConfig.ConfigDataPort | sensor/WebConfig.cpp:2245-2277 | the same for the uint16_t web socket port at offset 94 |
| WebConfig.CString | sensor/WebConfig.cpp:1443 | String(buffer) is the prefix of the buffer before its first NUL, and a shorter prefix is followed by a NUL |
| WebConfig.CStringOfTerminated | sensor/WebConfig.cpp:1443-1450 | a buffer holding a NUL-free text, a NUL and anything after reads as that text |
| WebConfig.StrNCpyCopies | sensor/WebConfig.cpp:1447 | the copy into the local buffer copies a NUL-free text verbatim |
| WebConfig.TextEntryAsWritten | sensor/WebConfig.cpp:1433-1455 | as written, an accepted entry writes (length mod 256) + 1 bytes, at most 32, the last of them a NUL |
| WebConfig.TextEntry | sensor/WebConfig.cpp:1433-1455 | corrected, an accepted entry writes its length + 1 bytes, at most 32 |
| WebConfig.TextRule | sensor/WebConfig.cpp:1433-1455 | under either rules, an accepted entry writes its length read as a uint8_t plus one bytes, at most 32, the last of them a NUL |
| WebConfig.EntryShape | sensor/WebConfig.cpp:1443-1455 | an accepted NUL-free entry is written as its stored text, a NUL, and NULs up to its uint8_t length; the stored text is the entry when corrected, and as written the entry cut to its uint8_t length and to the 30 bytes toCharArray copies |
| WebConfig.LongestEntryTruncated | sensor/WebConfig.cpp:1447-1450 | as written, a 31-byte entry is stored as its first 30 bytes and two NULs, so it does not read back; corrected it is stored whole |
| WebConfig.OverlongEntryAccepted | sensor/WebConfig.cpp:1433-1436 | as written, a 256-byte entry passes the length test and clears the text; corrected it is refused |
| WebConfig.TextEntryCounterexamples | sensor/WebConfig.cpp:1433-1450 | the two concrete entries 31 × 'A' and 256 × 'A' |
| WebConfig.TextEntryStored | sensor/WebConfig.cpp:1443-1455 | an entry is refused exactly when it is longer than 31; an accepted NUL-free entry is stored terminated, reads back as itself, and equals the stored string on the next POST |
| WebConfig.StoreText | sensor/WebConfig.cpp:1755-1776 | the text updater's writes are the entry bytes at the text member, the zeros up to the previous length, and the length byte, all committed; an image holding st ends holding TextStored |
| WebConfig.StoreEntry | sensor/WebConfig.cpp:1755-1770 | the entry bytes and then the zeros up to the previous length, committed; an image holding st ends holding st with the text member replaced by those bytes |
| WebConfig.ConfigText | sensor/WebConfig.cpp:1729-1781 | as written: an entry whose length read as a uint8_t exceeds 31, or that equals the current string, leaves the store unchanged; otherwise the image is TextImage of the as-written entry bytes; the in-memory record gets only the new length |
| WebConfig.ConfigSensorLabel | sensor/WebConfig.cpp:1426-1466 | ConfigText for the label: up to 30 bytes of text and NULs, (length mod 256) + 1 bytes in all, at offset 106, then the length at 138 |
| WebConfig.ConfigPassword | sensor/WebConfig.cpp:1807-1846 | ConfigText for the password at offset 40, then the length at 105 |
| WebConfig.ConfigSSID | sensor/WebConfig.cpp:1729-1781 | ConfigText for the SSID at offset 8, also zeroing the stored bytes from the new length up to the old length, then the length at 104 |
| WebConfig.TextBufferStored | sensor/WebConfig.cpp:1755-1770 | under either rules, after an accepted NUL-free entry the stored buffer starts with the stored text, is zero from there to the new length and from the new length to the old one, and reads back as the stored text (the entry corrected; as written, the entry cut to its uint8_t length and to 30 bytes) |
| WebConfig.OctetEntryAsWritten | sensor/WebConfig.cpp:1891-1932 | as written, an accepted address holds each entered number mod 256 |
| WebConfig.OctetEntry | sensor/WebConfig.cpp:1891-1932 | corrected, an accepted address holds the four entered numbers exactly |
| WebConfig.OctetEntryAccepts | sensor/WebConfig.cpp:1891-1932 | corrected, an address is accepted exactly when all four numbers are byte values that pass the access-point rules where they apply; it then holds the four numbers, and an access-point address lies in a private block |
| WebConfig.OctetEntryCounterexamples | sensor/WebConfig.cpp:1999-2001 | as written, netmask field 256 is taken as 0 and access-point field 266 passes the 10/172/192 rule as 10; corrected, both addresses are refused |
| WebConfig.AccessRulesArePrivateBlocks | sensor/WebConfig.cpp:1905-1931 | on byte values, the access-point rules accept exactly the private blocks 10/8, 172.16/12 and 192.168/16 of section 3 of RFC 1918 |
| WebConfig.OctetEntryAsWrittenPrivate | sensor/WebConfig.cpp:1905-1931 | as written, an accepted access-point address, read as bytes, still lies in a private block |
| WebConfig.ReadOctets | sensor/WebConfig.cpp:1891-1932 | the loop over the four fields, casting each number to a byte before testing it, sets Update exactly when OctetEntryAsWritten accepts the address, and then yields it |
| WebConfig.Merge | sensor/WebConfig.cpp:1938-1954 | an octet of the image is the entered one where it differs from the in-memory one, and the stored one otherwise |
| WebConfig.MergeInSync | sensor/WebConfig.cpp:1938-1954 | when the image held the in-memory address, it ends holding the entered one |
| WebConfig.WriteOctets | sensor/WebConfig.cpp:1936-1955 | the in-memory address becomes the entered one; the image gets each differing octet; with no difference the store is unchanged, otherwise committed |
| WebConfig.WriteOctetBytes | sensor/WebConfig.cpp:1938-1954 | the per-octet loop writes exactly the differing octets, one SetROMValue each |
| WebConfig.ConfigOctets | sensor/WebConfig.cpp:1879-1956 | as written: a refused address changes nothing; an accepted one, each number cast to a byte, is written octet by octet as WriteOctets states |
| WebConfig.ConfigAccessIP | sensor/WebConfig.cpp:1879-1956 | ConfigOctets under the access-point rules on the cast bytes; a refused address leaves cache and flash unchanged, and every write is committed |
| WebConfig.ConfigAPNetmask | sensor/WebConfig.cpp:1982-2025 | ConfigOctets for the netmask: any four numbers, each cast to a byte |
| WebConfig.ConfigAPGateway | sensor/WebConfig.cpp:2051-2094 | ConfigOctets for the gateway: any four numbers, each cast to a byte |
| WebConfig.InBaudList | sensor/WebConfig.cpp:2133-2141 | the search loop finds the entry exactly when it is in BaudList |
| WebConfig.BaudStaysListed | sensor/WebConfig.cpp:2132-2152 | the rate changes only to the cast entry, which is in BaudList, and a listed rate stays listed |
| WebConfig.ConfigBaud | sensor/WebConfig.cpp:2124-2161 | a listed rate that differs is written as 4 bytes at offset 88 and committed; otherwise the store is unchanged |
| WebConfig.WaitValue | sensor/WebConfig.cpp:1500-1521 | corrected, the wait time is either unchanged or the milliseconds of a positive entry, and a non-positive entry changes nothing |
| WebConfig.WaitAsWrittenCounterexamples | sensor/WebConfig.cpp:1500-1511 | as written, entry 0 stores 0 when the current time is 704 ms, 536870912 wraps to 0, and -1 stores 4294966296; corrected, each keeps the current time |
| WebConfig.WaitStaysPositive | sensor/WebConfig.cpp:1502-1511 | corrected, a nonzero wait time stays nonzero, and a changed value is the entry in milliseconds |
| WebConfig.ConfigWaitInterval | sensor/WebConfig.cpp:1493-1522 | as written: the wait time becomes WaitAsWritten of the entry (0 replaced by the current seconds, the product wrapped to 32 bits); a changed wait time is written as 4 bytes at offset 96 and committed; otherwise the store is unchanged |
| WebConfig.ContentTypeOfSuffix | sensor/WebConfig.cpp:2442-2453 | a path ending in one of the twelve listed suffixes gets that suffix's type, and ends in no other listed suffix |
| WebConfig.TypesNotPlain | sensor/WebConfig.cpp:2442-2455 | no listed type is the default "text/plain" |
| WebConfig.PlainOtherwise | sensor/WebConfig.cpp:2455 | the type is "text/plain" exactly when no listed suffix matches |
| WebConfigPost.HandleSensorConfigPost | sensor/WebConfig.cpp:657-766 | when the image holds a record, the record ends as the stored record of SensorSteps as written and the image holds it; otherwise it is that in-memory record; every write is committed, and no byte outside the 176-byte record at PCONFIG_OFFSET changes |
| WebConfigPost.SensorUpdaters | sensor/WebConfig.cpp:677-733 | the guarded updaters produce SensorPasses' record and FlagsChanged, and take the image along |
| WebConfigPost.LeadingFlags | sensor/WebConfig.cpp:677-691 | the probe and relay updaters, called when their argument is present or their flag is set |
| WebConfigPost.SensorValueUpdaters | sensor/WebConfig.cpp:694-716 | the limit, label and interval updaters, each called only when its argument is present |
| WebConfigPost.LimitUpdaters | sensor/WebConfig.cpp:694-704 | the low and high limit updaters |
| WebConfigPost.TrailingFlags | sensor/WebConfig.cpp:718-733 | the units and debug updaters, OR-ing their results into FlagsChanged |
| WebConfigPost.Reload | sensor/WebConfig.cpp:751 | the closing EEPROM.get makes the record the one the image holds |
| WebConfigPost.HandleWifiConfigPost | sensor/WebConfig.cpp:922-1017 | as HandleSensorConfigPost, with WifiSteps as written, and again no byte outside the record changes |
| WebConfigPost.WifiUpdaters | sensor/WebConfig.cpp:941-1001 | the guarded updaters of the wifi form produce WifiSteps |
| WebConfigPost.CredentialUpdaters | sensor/WebConfig.cpp:941-955 | the station flag, SSID and password updaters |
| WebConfigPost.AddressUpdaters | sensor/WebConfig.cpp:957-985 | the three address updaters, each called only when all four fields are present |
| WebConfigPost.PortUpdaters | sensor/WebConfig.cpp:987-1001 | the baud and port updaters |
| WebConfigPost.SensorValuesKeepFlags | sensor/WebConfig.cpp:694-716 | the value updaters leave Flags alone in both copies |
| WebConfigPost.FlagsChangedExactly | sensor/WebConfig.cpp:664-743 | under either rules, FlagsChanged is true exactly when the flags end different from the start, so Flags is persisted exactly when it changed |
| WebConfigPost.SensorStepsInSync | sensor/WebConfig.cpp:737-751 | under either rules, when the two copies agree except in the text buffers, they still do after the handler's updates and flag write, before the reload; the in-memory label is untouched until then |
| WebConfigPost.WifiStepsInSync | sensor/WebConfig.cpp:941-1008 | the same for the wifi form; the in-memory SSID and password are untouched until the reload |
| WebConfigPost.DefaultsAreSane | sensor/EEPROMConfig.cpp:87-142 | the defaults have terminated texts within their limits, a listed baud rate and a nonzero wait time |
| WebConfigPost.SensorStepsKeepSane | sensor/WebConfig.cpp:657-766 | corrected, a sane stored record stays sane through any sensor form; as written, when the interval entry is absent or a positive number of seconds whose milliseconds fit an int32_t |
| WebConfigPost.SensorStepsBreakSane | sensor/WebConfig.cpp:1500-1511 | as written, from copies in step, an interval of 536870912 seconds stores a wait time of 0, so the stored record is not sane |
| WebConfigPost.WaitWrapsToZero | sensor/WebConfig.cpp:1500-1511 | as written, the interval updater stores 0 for an entry of 536870912 seconds |
| WebConfigPost.SensorStepsKeepTexts | sensor/WebConfig.cpp:677-743 | under either rules, the sensor form leaves the SSID, the password and their lengths as they were, in both copies |
| WebConfigPost.WifiStepsKeepSane | sensor/WebConfig.cpp:922-1017 | under either rules, a sane stored record stays sane through the wifi form, with an SSID length that HandleWifiConfigPost accepts again |
| WebConfigPost.SensorLabelReadsBack | sensor/WebConfig.cpp:1443-1463 | under either rules, an accepted NUL-free label reads back from the stored record as itself when it equalled the current label, and otherwise as its stored text (itself corrected; cut to its uint8_t length and 30 bytes as written); when it differed, the stored length is its length mod 256 |
| WebConfigPost.WifiSSIDReadsBack | sensor/WebConfig.cpp:1745-1779 | the same for the SSID, and when it changed no byte of a longer previous SSID survives past the stored text |
| WebConfigPost.WifiPasswordReadsBack | sensor/WebConfig.cpp:1823-1844 | the same for the password |
| PageSaveDate.SuffixIndex | sensor/data/PageSaveDate.js:79-95 | for a day 1 to 31 the index into DateSuffix is 0 to 3 |
| PageSaveDate.DaySuffix | sensor/data/PageSaveDate.js:79-95 | every day 1 to 31 has a suffix |
| PageSaveDate.DaySuffixIsOrdinal | sensor/data/PageSaveDate.js:79-95 | every day 1 to 31 gets its English ordinal suffix |
| PageSaveDate.DaySuffixCases | sensor/data/PageSaveDate.js:79-95 | 1st, 2nd, 3rd, 21st, 22nd, 23rd, 31st, 30th, and "th" for 4 to 20 |
| PageSaveDate.DaySuffixOutsideMonth | sensor/data/PageSaveDate.js:85-95 | outside a month the rule breaks: day 40 has no suffix and day 0 gets "th" |
| PageSaveDate.NormalizeYear | sensor/data/PageSaveDate.js:109-138 | a year is shown exactly when the value is positive, and the shown year is at least 1900 |
| PageSaveDate.NormalizeYearFormats | sensor/data/PageSaveDate.js:99-131 | a count from 1900 (for 1950 to 3799), two digits (for 2001 to 2049) and a full year (from 1900) each give the year back |
| PageSaveDate.NormalizeYearAmbiguous | sensor/data/PageSaveDate.js:103-138 | counts from 1900 of 1 to 49 read as 2001 to 2049, and 0 is blanked |
| PageSaveDate.Pad2ReadsBack | sensor/data/PageSaveDate.js:72-73 | ('0' + n).slice(-2) for n up to 59 is two digits that read back as n, with a leading '0' exactly below ten |

## Left out

- `ShowROMValues`, the serial messages and the debug dumps of the form
  arguments only print, so they are not modelled.
- Web server plumbing is not modelled: route registration, file requests and
  uploads, `Send404`, the 303 redirect and headers after a POST, the GET
  handlers and their page templating. It is web, SPIFFS and String I/O
  outside the configuration core.
- The durability of `EEPROM.commit` and the restart timer are not modelled.
  Commit is modelled as "the flash holds the cache".
- The ESP8266 EEPROM library is not part of this model. Its behaviour is
  assumed:
  - `write` ignores an address outside the cache.
  - `put` and `get` ignore a record that does not fit.
  - `commit` copies the cache to flash.
- The Arduino `String` calls are not modelled; their results are inputs:
  - `toInt` is the number carried by each form argument.
  - `equalsIgnoreCase("Y"/"N")` is reduced to `IsYes` and `IsNo`.
  - `toCharArray` is modelled as a strncpy of the entry.
- `ConfigSensorLabel` returns nothing in the model. The source declares a
  boolean result but never returns one.
- ClearROM's loop counter is a signed `int` compared with `uint32_t` bounds.
  The model takes the bounds as unsigned and does not model sizes of 2^31
  or more.
- The JavaScript date calls and number formatting are not modelled:
  - `getDate`, `getYear`, `getHours` and `getMinutes` values are inputs.
  - Number-to-string conversion is modelled only for naturals (`Decimal`).
  - `document.lastModified` and `document.write` are left out.
- The other client scripts are outside this core: temperature charts, form
  validation and footer.
- WebConfig.ConfigSSID: requires the in-memory SSID length to be at most 32.
  The source's zeroing copies the old tail from a 32-byte local buffer and
  would read past it for a longer length. `WebConfigPost.WifiStepsKeepSane`
  shows the wifi handler keeps a sane stored length within 31.
  `WebConfigPost.SensorStepsKeepTexts` shows the sensor handler never
  writes it.
- WebConfigPost.HandleWifiConfigPost: requires the same bound on the
  in-memory SSID length, for the same reason.
- WebConfigPost.SensorStepsKeepSane: as written, it holds only when the
  interval entry is absent or its milliseconds fit an int32_t, because the
  wrapped product can store a wait time of 0.
  `WebConfigPost.SensorStepsBreakSane` gives such an entry.

## Findings

| source | as written | input that shows it | evidently intended | confidence | as-written member | corrected member |
|---|---|---|---|---|---|---|
| sensor/WebConfig.cpp:1500-1511 | the zero test runs before `Value *= 1000`, which is computed in int32_t and stored as uint32_t | entry 0 with a stored time of 704 ms stores 0; entry 536870912 wraps to 0; entry -1 stores 4294966296 | a wait time is never set to zero, and only a positive entry whose milliseconds fit is taken | not executed | WebConfig.WaitAsWritten (WebConfigPost.SensorStepsBreakSane) | WebConfig.WaitValue (WebConfig.WaitStaysPositive) |
| sensor/WebConfig.cpp:1447 | `toCharArray(Value, PCONFIG_MAX_LABEL)` copies at most 30 bytes, but 31 is accepted | a 31-byte entry is stored as its first 30 bytes and two NULs, with length 31 | all 31 bytes and the terminator are stored | not executed | WebConfig.TextEntryAsWritten (WebConfig.LongestEntryTruncated) | WebConfig.TextEntry (WebConfig.TextEntryStored) |
| sensor/WebConfig.cpp:1433-1436 | the length is cast to uint8_t before the length test | a 256-byte entry has length 0 and clears the stored text | an entry longer than 31 bytes is refused | not executed | WebConfig.TextEntryAsWritten (WebConfig.OverlongEntryAccepted) | WebConfig.TextEntry (WebConfig.TextEntryStored) |
| sensor/WebConfig.cpp:1999-2001 | each octet is cast to uint8_t before the `> 255` test, which therefore never holds | netmask field 256 is stored as 0; access-point field 266 passes the first-octet rule as 10 | a field outside 0 to 255 refuses the address | not executed | WebConfig.OctetEntryAsWritten (WebConfig.OctetEntryCounterexamples) | WebConfig.OctetEntry (WebConfig.OctetEntryAccepts) |
