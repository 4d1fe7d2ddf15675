# BLE iBeacon scanner: a verified model of the decoding core

This project models the core of `scanner.py`, a Python scanner for Bluetooth Low
Energy advertising packets taken from an HCI socket. The core has four parts:

- **the hex helpers**. `bytesToStringWithSep`, `bytesToString` and
  `bytesToStringWithColumns` write each byte as two lowercase hex digits and join
  the pairs with a separator: none, or `:`.
- **the Beacon object**. It has a type (`UNKNOWN` or `IBEACON`), the byte-string
  fields `mac`, `udid`, `major` and `minor`, and a transmit power that
  `setTxPower` reads as an unsigned big-endian integer. `getUniqueId` (hex of
  UUID + major + minor) and `getMac` (hex of the address) return its identity
  strings.
- **`BeaconFactory.create`**. It compares the nine-byte iBeacon signature
  `02 01 06 1a ff 4c 00 02 15` byte by byte from offset 10 of a report buffer.
  When every byte matches, it builds an `IBeacon` through its setters from the
  slices `[3:9]`, `[19:35]`, `[35:37]`, `[37:39]` and `[39:40]`. Otherwise it
  returns a plain `Beacon` of type `UNKNOWN`.
- **`parse_events`**. It reads up to `loop_count` HCI events. For an LE Meta
  event (`0x3e`) carrying an LE Advertising Report (sub-event `0x02`), it drops
  the first four bytes and calls `create` `num_reports` times on what
  remains. Each iBeacon it finds is written into `devicesFound[uniqueId] = mac`.

Files:

| file | module | contents |
|---|---|---|
| `wrappers.dfy` | `Wrappers` | `Option` and `Result` |
| `pybytes.dfy` | `PyBytes` | octets; Python's clipping slice; `int.from_bytes(..., 'big', signed=False)`; the exceptions a fixed-offset read raises |
| `hex.dfy` | `Hex` | the hex helpers, plus a decoder `ParseHex` used as their partner |
| `beacons.dfy` | `Beacons` | the `Beacon` class with its setters, and a value view of its fields |
| `factory.dfy` | `BeaconFactory` | the offsets, the signature, the specification `Recognize`, and the loop `Create` |
| `discovery.dfy` | `Discovery` | one packet (`StepPacket`), a run of packets (`Run`), and the loop `ParseEvents` |
| `sample_values.dfy`, `example.dfy` | `SampleValues`, `Example` | one concrete iBeacon event followed end to end |

How the source is modelled:

- `create` and `parse_events` work by updating variables in loops. They are
  methods with loops: `Create` mutates a fresh `Beacon` object, and
  `ParseEvents` updates a registry variable. Each is proved against a
  specification function (`Recognize` and `Run`), and the properties are proved
  as lemmas about those functions.
- The socket read `recv(255)` becomes a parameter: the sequence of packets
  received.
- Python slicing never fails. A slice past the end is shortened or empty, and
  `Slice` models that exactly. So slicing needs no minimum length: on a short
  buffer the fields are simply shorter.
- An indexed read or a `struct.unpack` on too few bytes raises an exception.
  Nothing in the source catches it, so it ends `parse_events` and the registry
  built so far is lost. The model returns `Failure(e)` with one of
  `HeaderTooShort`, `SubeventMissing`, `ReportCountMissing` or
  `PrefixByteMissing`.
- The signature comparison stops at the first mismatch. It raises exactly
  when the buffer has fewer than 19 bytes and every signature byte it holds
  agrees. A buffer of 10 bytes or fewer holds no signature byte, so it always
  raises at the first read `pkt[10]`. `ReadsPastEnd` states that condition.

Behaviours of the code that the model keeps exactly as written:

- The registry maps the identity key to `getMac()` (scanner.py:57). That is hex
  **without** colons (`aabbccddeeff`), unlike `getPrintableMac()`
  (scanner.py:58), which puts a `:` between bytes.
- A failed read is never caught, so it aborts `parse_events`. A packet raises
  only when it is cut off in one of four places:
  - inside the three header bytes;
  - before the sub-event byte;
  - before the report count;
  - for an advertising report with a non-zero count, before the end of the
    signature region, provided every signature byte present still agrees. This
    includes a report cut off before the signature region begins, for example
    inside the address field.
- A packet cut off after the signature is recorded with clipped fields
  (`TruncatedReportRecorded`):
  - A packet of 23 to 42 bytes is cut off inside the UUID, major or minor. Its
    key has `2*(|pkt|-23)` digits, which is shorter than 40 and empty for
    23 bytes.
  - A 43-byte packet lacks only the power byte, so it keeps the full 40-digit
    key.
  - The power reads 0 for every packet of 43 bytes or fewer.
- The transmit power byte is read unsigned: `0xC5` reads as 197. iBeacon power
  is usually read as a signed byte, which would give -59.
- The report offset is never advanced (scanner.py:188-190), so every report of
  a batch is decoded from the same buffer. `ReportsCollapse` and
  `NumReportsIrrelevant` prove the consequence: any positive report count acts
  like one.

## Model

| member | source | states |
|---|---|---|
| PyBytes.Slice | scanner.py:116-120 | Python's `pkt[lo:hi]`. It equals the Dafny slice when `hi` is in range, otherwise it is clipped to the buffer. Its length is `min(hi,len) - min(lo,len)`, and element `i` is `pkt[lo+i]`. |
| PyBytes.BigEndianUnsigned | scanner.py:72 | `int.from_bytes(big, unsigned)` is below `256^len`, is 0 for no bytes, and is the byte itself for one byte. |
| Hex.HexDigitValue | scanner.py:126 | The `%x` digit of a nibble is a lowercase hex digit that reads back as the nibble. |
| Hex.DigitValueHex | scanner.py:126 | Each lowercase hex digit is the `%x` digit of its own value. |
| Hex.ByteToHex | scanner.py:126 | `"%02x" % b`. It has no contract of its own; `ByteToHexDigits` states what it produces. |
| Hex.ByteToHexDigits | scanner.py:126 | `"%02x" % b` is exactly two lowercase hex digits, high nibble first, whose value is `b`. |
| Hex.BytesToStringWithSep | scanner.py:125-126 | The joined string has `2*n + (n-1)*len(sep)` characters for n bytes, and is empty for no bytes. |
| Hex.HexWithSepAt | scanner.py:125-126 | Byte `i` sits at position `i*(2+len(sep))` as its two digits, and the separator follows every byte but the last. |
| Hex.BytesToString | scanner.py:128-129 | The separator-free form has exactly two characters per byte. |
| Hex.BytesToStringWithColumns | scanner.py:131-132 | The printable form has `3n-1` characters for n > 0 bytes, and is empty for none. |
| Hex.ColumnsLayout | scanner.py:131-132 | In the printable form byte `i` is at `3i..3i+2`, and a `:` follows every byte but the last. |
| Hex.ParseHex | scanner.py:128-129 | The decoder partner accepts only strings of lowercase digit pairs, twice as long as the result. |
| Hex.BytesToStringConcat | scanner.py:128-129 | The separator-free encoding of a concatenation is the concatenation of the encodings. |
| Hex.ParseHexRoundTrip | scanner.py:128-129 | Decoding the separator-free encoding gives back the bytes. |
| Hex.BytesToStringOfParseHex | scanner.py:128-129 | Any decodable string is exactly the encoding of what it decodes to, which is the other direction of the round trip. |
| Hex.BytesToStringInjective | scanner.py:128-129 | Different byte strings have different encodings. |
| Beacons.UniqueId | scanner.py:54 | The identity key exists exactly when UUID, major and minor all hold bytes. It then has two digits per byte and decodes to UUID + major + minor in order. |
| Beacons.MacString | scanner.py:57 | The MAC string exists exactly when the address holds bytes. It then has two digits per byte and decodes to the address in wire order. |
| Beacons.Beacon.constructor | scanner.py:44-50 | A new `Beacon` has every class default: UNKNOWN, no mac, udid, major or minor, and power 0. |
| Beacons.Beacon.NewIBeacon | scanner.py:84-86 | A new `IBeacon` has the defaults with only the type set to IBEACON. |
| Beacons.Beacon.SetMac | scanner.py:56 | The setter sets `mac` and changes no other field. |
| Beacons.Beacon.SetUdid | scanner.py:60 | The setter sets `udid` and changes no other field. |
| Beacons.Beacon.SetMajor | scanner.py:64 | The setter sets `major` and changes no other field. |
| Beacons.Beacon.SetMinor | scanner.py:68 | The setter sets `minor` and changes no other field. |
| Beacons.Beacon.SetTxPower | scanner.py:72 | The setter stores the unsigned big-endian value of its bytes, never negative and below `256^len`. No other field changes. |
| Beacons.Beacon.GetUniqueId | scanner.py:54 | It is defined exactly when udid, major and minor are set, and decodes to them laid end to end. |
| Beacons.Beacon.GetMac | scanner.py:57 | It is defined exactly when mac is set, and decodes to it. |
| BeaconFactory.Create | scanner.py:106-123 | The loop raises exactly when `Recognize` fails, with the same error. Otherwise it returns a fresh object whose fields are `Recognize`'s beacon. |
| BeaconFactory.RecognizeOutcome | scanner.py:108-123 | create raises exactly when the comparison runs off the buffer. It gives an IBEACON exactly when bytes 10..18 equal the signature, and otherwise an UNKNOWN beacon with all defaults. |
| BeaconFactory.SingleByteMismatch | scanner.py:111-114 | Changing any one signature byte turns an iBeacon buffer into an UNKNOWN beacon. |
| BeaconFactory.RecognizeFields | scanner.py:116-120 | On a buffer of at least 40 bytes the fields are exactly `[3:9]`, `[19:35]`, `[35:37]` and `[37:39]`, and the power is the unsigned value of byte 39. |
| BeaconFactory.TxPowerIsUnsignedByte | scanner.py:120 | The power of any recognised beacon lies in 0..255. |
| BeaconFactory.RecognizeIgnoresReportCount | scanner.py:107-120 | create never reads byte 0 of its buffer. |
| BeaconFactory.IdentityStrings | scanner.py:116-119 | For an iBeacon buffer of at least 39 bytes the key is 40 digits decoding to `[19:39]`, and the MAC is 12 digits decoding to `[3:9]`. |
| BeaconFactory.IdentityDeterminesFields | scanner.py:54 | Equal identity keys mean equal UUID, major and minor. |
| BeaconFactory.Recognize | scanner.py:107-123 | The outcome of `create` as a value: the IndexError, an IBEACON with the clipped fields, or the UNKNOWN defaults. It has no contract of its own; `RecognizeOutcome` states when each outcome occurs, and `Create` is proved equal to it. |
| Discovery.Record | scanner.py:191-193 | An iBeacon adds or overwrites exactly its own key with its MAC, and any other beacon leaves the registry unchanged. |
| Discovery.Reports | scanner.py:189-193 | The inner report loop: `create` applied `n` times to the same buffer, each iBeacon recorded, with the first IndexError ending the loop. It has no contract of its own; `ReportsCollapse` and `ReportsFailurePersists` state its properties. |
| Discovery.StepPacket | scanner.py:178-193 | One iteration of the outer loop on one received packet. It has no contract of its own; `StepPacketSpec` states its outcome against `Rejected` and `SightingOf`. |
| Discovery.Run | scanner.py:177-193 | The packet loop over a sequence of packets; the first exception ends it. It has no contract of its own; `RunFailsIff` and `RunContents` state its properties, and `ParseEvents` is proved equal to it. |
| Discovery.ReportsCollapse | scanner.py:188-193 | Because the report offset is never advanced, any positive `num_reports` has the effect of one report. |
| Discovery.ReportsFailurePersists | scanner.py:189-190 | Once a report raises, later reports change nothing. |
| Discovery.StepPacketSpec | scanner.py:182-193 | A packet raises exactly when `Rejected` (a short header, a missing sub-event or report count, or a signature read past the end). Otherwise the registry changes by at most the one write `SightingOf` names. |
| Discovery.SightingShape | scanner.py:185-193 | A write holds a 12-digit MAC decoding to packet bytes 7..12 and, for a full report, a 40-digit key decoding to packet bytes 23..42. |
| Discovery.TruncatedReportRecorded | scanner.py:111-120 | A report of at most 43 bytes that holds the signature is not rejected and is recorded. For 23 to 42 bytes its key has two digits per UUID, major and minor byte present, and is empty for 23 bytes; for 43 bytes it keeps all 40 digits. Its power is 0. |
| Discovery.NumReportsIrrelevant | scanner.py:187-189 | A report count of 0 leaves the registry alone, and all positive counts give the same result. |
| Discovery.StepIdempotent | scanner.py:182-193 | Decoding the same packet twice is decoding it once. |
| Discovery.RunFailurePersists | scanner.py:177-190 | After an exception, later packets do not matter. |
| Discovery.RunFailsIff | scanner.py:177-193 | A run raises exactly when one of its packets is rejected. |
| Discovery.LastMac | scanner.py:193 | The reference "last write wins" value is defined exactly when some packet writes the key. |
| Discovery.LastMacIsLast | scanner.py:193 | The reference is the MAC of a packet writing the key that no later packet overwrites. |
| Discovery.RunContents | scanner.py:176-199 | After a run every key is in the registry exactly when it was there before or some packet wrote it. Its value is the last packet's MAC, or else the starting value. |
| Discovery.ParseEvents | scanner.py:175-199 | The loop consumes at most `loop_count` packets and returns exactly `Run` over them: the registry, or the first packet's exception. |
| Discovery.LastSightingWins | scanner.py:193 | Two sightings of one key leave the later MAC. |
| Discovery.RegistryValuesAreMacs | scanner.py:193 | Every value in a finished registry is a 12-digit colon-free MAC that decodes to bytes 7..12 of a received packet. |
| SampleValues.SampleIdentity | scanner.py:54-57 | For the sample fields, getUniqueId is `00112233445566778899aabbccddeeff00010002` and getMac is `aabbccddeeff`. |
| Example.SampleFields | scanner.py:116-119 | The sample event's buffer carries the signature, and the sample fields sit at their offsets. |
| Example.SampleSighting | scanner.py:182-193 | The sample event is not rejected, and it writes the sample key with the sample MAC. |
| Example.SampleScan | scanner.py:175-199 | A run over the sample event alone yields exactly the one-entry registry `{key: mac}`. |

## Left out

- The socket and adapter plumbing (`IBeaconDiscoveryService.__init__`, `scan`, `close`, `hci_enable_le_scan`, `hci_disable_le_scan`, `hci_toggle_le_scan`, the HCI filter) is left out. It is I/O on a Bluetooth device. `recv(255)` becomes the packet sequence, and a run on a sequence shorter than `loop_count` ends when the sequence does, where the real socket would block.
- The debug output (`Beacon.print`, the `debug` prints in `parse_events`) and the `getPrintable*` getters are left out. They only print. The colon format they use is modelled by `BytesToStringWithColumns` and `ColumnsLayout`.
- `getType`, `getUDID`, `getMajor`, `getMinor` and `getTxPower` are plain field reads. They appear as the fields of `Beacon` and of `BeaconView`.
- The constants the code never uses are left out. These are the HCI opcodes, roles and advertisement types at the top of the file, and `ADVERTISING_HEADER`, `COMPANY_ID`, `IBEACON_TYPE` and `IBEACON_LENGTH`. So is `report_pkt_offset`, which is set and never read.
- `ptype` and `plen` are unpacked and never used. The model checks only that the three header bytes exist.
- The Python exception types are collapsed into one `ReadError` value per read site. The model does not distinguish `struct.error` from `IndexError` beyond that.
- The default integer 0 of `major` and `minor` is modelled as `None`, like the `None` of `mac` and `udid`, because `bytesToString` raises on either alike. No modelled path reaches that raise: `getUniqueId` is called only on an iBeacon, whose fields were all set.
- The test `beacon != None` is always true in the source, because `create` never returns `None`. The model has no such branch.
- `ParseEvents` takes the loop count as an explicit argument. The default `loop_count=100` of `parse_events` (scanner.py:175) and the count 20 that `scan` passes (scanner.py:158) are left to the caller.
