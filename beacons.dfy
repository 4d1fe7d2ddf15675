/**
 * The Beacon object of the scanner: a beacon type, byte-string fields set
 * through setters, a transmit power read as an unsigned big-endian integer,
 * and the two identity strings derived from the fields.
 */
module Beacons {
  import opened Wrappers
  import opened PyBytes
  import opened Hex

  datatype BeaconType = Unknown | IBeacon

  /**
   * The fields of one Beacon object as a value. A field that holds no byte
   * string (the class defaults `None` of mac and udid, and the integer 0 of
   * major and minor) is None.
   */
  datatype BeaconView = BeaconView(
    beaconType: BeaconType,
    mac: Option<Bytes>,
    udid: Option<Bytes>,
    major: Option<Bytes>,
    minor: Option<Bytes>,
    txPower: nat)

  /** The class-level defaults every Beacon starts from. */
  const Defaults := BeaconView(Unknown, None, None, None, None, 0)

  /**
   * getUniqueId: hex(udid) + hex(major) + hex(minor), no separators. It exists
   * only when all three fields hold bytes (otherwise the source raises), and
   * it decodes back to the three fields laid end to end.
   */
  function UniqueId(udid: Option<Bytes>, major: Option<Bytes>, minor: Option<Bytes>): (r: Option<string>)
    ensures r.Some? <==> udid.Some? && major.Some? && minor.Some?
    ensures r.Some? ==> |r.value| == 2 * (|udid.value| + |major.value| + |minor.value|)
    ensures r.Some? ==> ParseHex(r.value) == Some(udid.value + major.value + minor.value)
  {
    match (udid, major, minor)
    case (Some(u), Some(j), Some(n)) =>
      BytesToStringConcat(u, j);
      BytesToStringConcat(u + j, n);
      ParseHexRoundTrip(u + j + n);
      Some(BytesToString(u) + BytesToString(j) + BytesToString(n))
    case _ => None
  }

  /** getMac: hex(mac) with no separator, two lowercase digits per byte in wire order. */
  function MacString(mac: Option<Bytes>): (r: Option<string>)
    ensures r.Some? <==> mac.Some?
    ensures r.Some? ==> |r.value| == 2 * |mac.value|
    ensures r.Some? ==> ParseHex(r.value) == Some(mac.value)
  {
    match mac
    case Some(m) => ParseHexRoundTrip(m); Some(BytesToString(m))
    case None => None
  }

  class Beacon {
    var beaconType: BeaconType
    var mac: Option<Bytes>
    var udid: Option<Bytes>
    var major: Option<Bytes>
    var minor: Option<Bytes>
    var txPower: nat

    function View(): BeaconView
      reads this
    {
      BeaconView(beaconType, mac, udid, major, minor, txPower)
    }

    /** `Beacon()`: every field keeps its class default. */
    constructor ()
      ensures View() == Defaults
    {
      beaconType, mac, udid, major, minor, txPower := Unknown, None, None, None, None, 0;
    }

    /** `IBeacon()`: only the type is overridden. */
    constructor NewIBeacon()
      ensures View() == Defaults.(beaconType := IBeacon)
    {
      beaconType, mac, udid, major, minor, txPower := IBeacon, None, None, None, None, 0;
    }

    method SetMac(m: Bytes)
      modifies this
      ensures View() == old(View()).(mac := Some(m))
    {
      mac := Some(m);
    }

    method SetUdid(u: Bytes)
      modifies this
      ensures View() == old(View()).(udid := Some(u))
    {
      udid := Some(u);
    }

    method SetMajor(j: Bytes)
      modifies this
      ensures View() == old(View()).(major := Some(j))
    {
      major := Some(j);
    }

    method SetMinor(n: Bytes)
      modifies this
      ensures View() == old(View()).(minor := Some(n))
    {
      minor := Some(n);
    }

    /** The power is read unsigned, so it is never negative and fits the width of its bytes. */
    method SetTxPower(t: Bytes)
      modifies this
      ensures View() == old(View()).(txPower := BigEndianUnsigned(t))
      ensures txPower < Pow256(|t|)
    {
      txPower := BigEndianUnsigned(t);
    }

    function GetUniqueId(): (r: Option<string>)
      reads this
      ensures r.Some? <==> udid.Some? && major.Some? && minor.Some?
      ensures r.Some? ==> ParseHex(r.value) == Some(udid.value + major.value + minor.value)
    {
      UniqueId(udid, major, minor)
    }

    function GetMac(): (r: Option<string>)
      reads this
      ensures r.Some? <==> mac.Some?
      ensures r.Some? ==> ParseHex(r.value) == Some(mac.value)
    {
      MacString(mac)
    }
  }
}
