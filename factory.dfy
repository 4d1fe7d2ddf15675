/**
 * BeaconFactory.create: recognises the iBeacon advertising layout in one
 * LE Advertising Report buffer (the HCI event with its first four bytes
 * dropped) and extracts the beacon fields at fixed offsets.
 *
 * Buffer layout for one report, as the offsets below assume:
 *   0 num_reports, 1 event type, 2 address type, 3..9 device address,
 *   9 data length, 10..19 Flags AD (02 01 06) and the Manufacturer Specific
 *   Data AD header for Apple iBeacon (1a ff 4c 00 02 15), 19..35 proximity
 *   UUID, 35..37 major, 37..39 minor, 39 measured transmit power.
 */
module BeaconFactory {
  import opened Wrappers
  import opened PyBytes
  import opened Hex
  import opened Beacons

  const MacStartIndex: nat := 3
  const MacEndIndex: nat := 9
  const UdidStartIndex: nat := 19
  const UdidEndIndex: nat := 35
  const MajorStartIndex: nat := 35
  const MajorEndIndex: nat := 37
  const MinorStartIndex: nat := 37
  const MinorEndIndex: nat := 39
  const AdvertisingFlags: nat := 10
  const TxPower: nat := 39

  const IBeaconPrefix: Bytes := [0x02, 0x01, 0x06, 0x1a, 0xff, 0x4c, 0x00, 0x02, 0x15]

  /** The nine bytes at `pkt[10..19)` are the iBeacon signature. */
  predicate HasIBeaconPrefix(pkt: Bytes) {
    AdvertisingFlags + |IBeaconPrefix| <= |pkt| &&
    pkt[AdvertisingFlags .. AdvertisingFlags + |IBeaconPrefix|] == IBeaconPrefix
  }

  /**
   * The byte-by-byte comparison runs off the end of the buffer: the buffer
   * ends before the ninth signature byte and every signature byte it does
   * hold agrees, so no mismatch stops the comparison first.
   */
  predicate ReadsPastEnd(pkt: Bytes) {
    |pkt| < AdvertisingFlags + |IBeaconPrefix| &&
    (|pkt| <= AdvertisingFlags ||
     pkt[AdvertisingFlags..] == IBeaconPrefix[..|pkt| - AdvertisingFlags])
  }

  /** The fields an iBeacon gets from the buffer, through Python's clipping slices. */
  function IBeaconView(pkt: Bytes): BeaconView {
    BeaconView(IBeacon,
      Some(Slice(pkt, MacStartIndex, MacEndIndex)),
      Some(Slice(pkt, UdidStartIndex, UdidEndIndex)),
      Some(Slice(pkt, MajorStartIndex, MajorEndIndex)),
      Some(Slice(pkt, MinorStartIndex, MinorEndIndex)),
      BigEndianUnsigned(Slice(pkt, TxPower, TxPower + 1)))
  }

  /** What `create` yields for a buffer: an iBeacon, a plain unknown Beacon, or the IndexError. */
  function Recognize(pkt: Bytes): Result<BeaconView, ReadError> {
    if ReadsPastEnd(pkt) then Failure(PrefixByteMissing)
    else if HasIBeaconPrefix(pkt) then Success(IBeaconView(pkt))
    else Success(Defaults)
  }

  /**
   * `BeaconFactory.create(pkt)`: compares the signature byte by byte from
   * `pkt[10]`, stopping at the first mismatch, then builds the beacon through
   * its setters. The comparison never reads beyond `pkt[18]`.
   */
  method Create(pkt: Bytes) returns (res: Result<Beacon, ReadError>)
    ensures res.Failure? <==> Recognize(pkt).Failure?
    ensures res.Failure? ==> res.error == Recognize(pkt).error
    ensures res.Success? ==> fresh(res.value) && res.value.View() == Recognize(pkt).value
  {
    var ibeaconTest := true;
    var index := 0;
    while ibeaconTest && index < |IBeaconPrefix|
      invariant 0 <= index <= |IBeaconPrefix|
      invariant index == 0 || AdvertisingFlags + index <= |pkt|
      invariant forall j :: 0 <= j < index - 1 ==> pkt[AdvertisingFlags + j] == IBeaconPrefix[j]
      invariant ibeaconTest <==> (index == 0 || pkt[AdvertisingFlags + index - 1] == IBeaconPrefix[index - 1])
      decreases |IBeaconPrefix| - index
    {
      if AdvertisingFlags + index >= |pkt| {
        // the indexed read pkt[ADVERTISING_FLAGS + index] raises IndexError
        assert index == 0 || pkt[AdvertisingFlags..] == IBeaconPrefix[..index];
        return Failure(PrefixByteMissing);
      }
      ibeaconTest := IBeaconPrefix[index] == pkt[AdvertisingFlags + index];
      index := index + 1;
    }
    var beacon: Beacon;
    if ibeaconTest {
      assert pkt[AdvertisingFlags .. AdvertisingFlags + |IBeaconPrefix|] == IBeaconPrefix;
      beacon := new Beacon.NewIBeacon();
      beacon.SetMac(Slice(pkt, MacStartIndex, MacEndIndex));
      beacon.SetUdid(Slice(pkt, UdidStartIndex, UdidEndIndex));
      beacon.SetMajor(Slice(pkt, MajorStartIndex, MajorEndIndex));
      beacon.SetMinor(Slice(pkt, MinorStartIndex, MinorEndIndex));
      beacon.SetTxPower(Slice(pkt, TxPower, TxPower + 1));
    } else {
      assert pkt[AdvertisingFlags + index - 1] != IBeaconPrefix[index - 1];
      beacon := new Beacon();
    }
    return Success(beacon);
  }

  /**
   * The three outcomes of create: the error exactly when the comparison runs
   * off the buffer, an iBeacon exactly when all nine signature bytes match,
   * and otherwise a Beacon of type UNKNOWN with its defaults.
   */
  lemma RecognizeOutcome(pkt: Bytes)
    ensures Recognize(pkt).Failure? <==> ReadsPastEnd(pkt)
    ensures Recognize(pkt).Success? && Recognize(pkt).value.beaconType == IBeacon
      <==> |pkt| >= 19 && forall i :: 0 <= i < 9 ==> pkt[10 + i] == IBeaconPrefix[i]
    ensures Recognize(pkt).Success? && Recognize(pkt).value.beaconType == Unknown
      ==> Recognize(pkt).value == Defaults
  {
  }

  /** A buffer agreeing with the signature except at one byte is an unknown beacon. */
  lemma SingleByteMismatch(pkt: Bytes, i: nat, v: byte)
    requires HasIBeaconPrefix(pkt)
    requires i < |IBeaconPrefix| && v != IBeaconPrefix[i]
    ensures Recognize(pkt[AdvertisingFlags + i := v]) == Success(Defaults)
  {
  }

  /**
   * Field extraction on a full-length buffer: the fields are exactly the slices
   * `[3:9]`, `[19:35]`, `[35:37]`, `[37:39]`, and the power is the unsigned
   * value of byte 39 (0xC5 reads as 197).
   */
  lemma RecognizeFields(pkt: Bytes)
    requires |pkt| >= 40 && HasIBeaconPrefix(pkt)
    ensures var v := Recognize(pkt).value;
      Recognize(pkt).Success? && v.beaconType == IBeacon &&
      v.mac == Some(pkt[3..9]) && v.udid == Some(pkt[19..35]) &&
      v.major == Some(pkt[35..37]) && v.minor == Some(pkt[37..39]) &&
      v.txPower == pkt[39]
  {
  }

  /** Whatever the buffer, a recognised beacon's power lies in 0..255. */
  lemma TxPowerIsUnsignedByte(pkt: Bytes)
    requires Recognize(pkt).Success?
    ensures 0 <= Recognize(pkt).value.txPower < 256
  {
  }

  /** create never looks at byte 0 of its buffer (the report count). */
  lemma RecognizeIgnoresReportCount(pkt: Bytes, x: byte)
    requires |pkt| > 0
    ensures Recognize(pkt[0 := x]) == Recognize(pkt)
  {
  }

  /**
   * The identity strings of an iBeacon buffer of at least 39 bytes: a 40-digit
   * key that decodes to `pkt[19:39]` and a 12-digit MAC that decodes to
   * `pkt[3:9]`, byte for byte in wire order (not reversed).
   */
  lemma IdentityStrings(pkt: Bytes)
    requires |pkt| >= 39 && HasIBeaconPrefix(pkt)
    ensures var v := IBeaconView(pkt);
      var key, mac := UniqueId(v.udid, v.major, v.minor), MacString(v.mac);
      key.Some? && |key.value| == 40 && ParseHex(key.value) == Some(pkt[19..39]) &&
      mac.Some? && |mac.value| == 12 && ParseHex(mac.value) == Some(pkt[3..9])
  {
    assert pkt[19..35] + pkt[35..37] + pkt[37..39] == pkt[19..39];
  }

  /** Two iBeacon buffers with the same identity key carry the same UUID, major and minor. */
  lemma IdentityDeterminesFields(p: Bytes, q: Bytes)
    requires |p| >= 39 && HasIBeaconPrefix(p)
    requires |q| >= 39 && HasIBeaconPrefix(q)
    requires UniqueId(IBeaconView(p).udid, IBeaconView(p).major, IBeaconView(p).minor)
          == UniqueId(IBeaconView(q).udid, IBeaconView(q).major, IBeaconView(q).minor)
    ensures p[19..35] == q[19..35] && p[35..37] == q[35..37] && p[37..39] == q[37..39]
  {
    IdentityStrings(p);
    IdentityStrings(q);
    assert p[19..39] == q[19..39];
    assert p[19..35] == p[19..39][..16] && q[19..35] == q[19..39][..16];
    assert p[35..37] == p[19..39][16..18] && q[35..37] == q[19..39][16..18];
    assert p[37..39] == p[19..39][18..] && q[37..39] == q[19..39][18..];
  }
}
