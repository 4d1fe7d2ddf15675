/**
 * IBeaconDiscoveryService.parse_events: the decode-and-aggregate loop. Each
 * received packet is an HCI event; an LE Meta event (0x3e) carrying an LE
 * Advertising Report (sub-event 0x02) has its first four bytes dropped and
 * the rest handed to create once per announced report. Every iBeacon found
 * is written into the registry under its identity key, holding its MAC.
 *
 * The socket read `recv(255)` is replaced by a sequence of received packets.
 */
module Discovery {
  import opened Wrappers
  import opened PyBytes
  import opened Hex
  import opened Beacons
  import opened BeaconFactory

  const LeMetaEvent: byte := 0x3e
  const EvtLeAdvertisingReport: byte := 0x02

  /** devicesFound: identity key to MAC string. */
  type Registry = map<string, string>

  /** One registry write: the identity key of an iBeacon and its MAC string. */
  datatype Entry = Entry(key: string, mac: string)

  /**
   * The write a beacon value causes: one for an iBeacon, none for anything
   * else. The `case _` of an iBeacon with a field still unset stands for the
   * TypeError `bytesToString` would raise there; no view `Recognize` yields
   * reaches it, since an iBeacon always gets all four fields.
   */
  function EntryOf(v: BeaconView): Option<Entry> {
    match (v.beaconType, UniqueId(v.udid, v.major, v.minor), MacString(v.mac))
    case (IBeacon, Some(key), Some(mac)) => Some(Entry(key, mac))
    case _ => None
  }

  function Enter(found: Registry, e: Option<Entry>): Registry {
    if e.Some? then found[e.value.key := e.value.mac] else found
  }

  /**
   * `devicesFound[beacon.getUniqueId()] = beacon.getMac()` when the beacon is
   * an iBeacon: an overwrite of one key; no other key is touched.
   */
  function Record(found: Registry, v: BeaconView): (r: Registry)
    ensures found.Keys <= r.Keys
    ensures EntryOf(v).None? ==> r == found
    ensures EntryOf(v).Some? ==> var e := EntryOf(v).value;
      r.Keys == found.Keys + {e.key} && r[e.key] == e.mac &&
      forall k :: k in found && k != e.key ==> r[k] == found[k]
  {
    Enter(found, EntryOf(v))
  }

  /** Recording the same beacon twice is recording it once. */
  lemma RecordIdempotent(found: Registry, v: BeaconView)
    ensures Record(Record(found, v), v) == Record(found, v)
  {
  }

  /**
   * The inner loop: `create` applied `n` times to the SAME buffer (the offset
   * is never advanced), each iBeacon recorded; the first IndexError ends it.
   */
  function Reports(found: Registry, buf: Bytes, n: nat): Result<Registry, ReadError>
    decreases n
  {
    if n == 0 then Success(found)
    else
      match Reports(found, buf, n - 1)
      case Failure(e) => Failure(e)
      case Success(m) =>
        match Recognize(buf)
        case Failure(e) => Failure(e)
        case Success(v) => Success(Record(m, v))
  }

  /** Any positive report count has the effect of a single report. */
  lemma {:induction false} ReportsCollapse(found: Registry, buf: Bytes, n: nat)
    requires n >= 1
    ensures Reports(found, buf, n) == Reports(found, buf, 1)
    decreases n
  {
    if n > 1 {
      ReportsCollapse(found, buf, n - 1);
      if Recognize(buf).Success? {
        RecordIdempotent(found, Recognize(buf).value);
      }
    }
  }

  lemma {:induction false} ReportsFailurePersists(found: Registry, buf: Bytes, j: nat, n: nat)
    requires j <= n && Reports(found, buf, j).Failure?
    ensures Reports(found, buf, n) == Reports(found, buf, j)
    decreases n
  {
    if n > j {
      ReportsFailurePersists(found, buf, j, n - 1);
    }
  }

  /** The effect of one received packet on the registry, or the exception it raises. */
  function StepPacket(found: Registry, pkt: Bytes): Result<Registry, ReadError> {
    if |pkt| < 3 then Failure(HeaderTooShort)
    else
      // ptype = pkt[0] and plen = pkt[2] are read and never used
      if pkt[1] != LeMetaEvent then Success(found)
      else if |pkt| < 4 then Failure(SubeventMissing)
      else
        var report := pkt[4..];
        if pkt[3] != EvtLeAdvertisingReport then Success(found)
        else if |report| < 1 then Failure(ReportCountMissing)
        else Reports(found, report, report[0])
  }

  /** The packets `parse_events` consumes, processed in order; the first exception ends the run. */
  function Run(found: Registry, ps: seq<Bytes>): Result<Registry, ReadError>
    decreases |ps|
  {
    if ps == [] then Success(found)
    else
      match Run(found, ps[..|ps| - 1])
      case Failure(e) => Failure(e)
      case Success(m) => StepPacket(m, ps[|ps| - 1])
  }

  // ---------------------------------------------------------------------------
  // Declarative description of one packet

  /** The buffer handed to create: the packet with its first four bytes dropped. */
  function ReportBuffer(pkt: Bytes): Bytes
    requires |pkt| >= 4
  {
    pkt[4..]
  }

  /** An LE Meta event carrying an LE Advertising Report with at least one report announced. */
  predicate IsAdvertisingReport(pkt: Bytes) {
    |pkt| >= 5 && pkt[1] == LeMetaEvent && pkt[3] == EvtLeAdvertisingReport && pkt[4] > 0
  }

  /** The packet makes `parse_events` raise (struct.error or IndexError). */
  predicate Rejected(pkt: Bytes) {
    |pkt| < 3 ||
    (pkt[1] == LeMetaEvent && |pkt| < 4) ||
    (pkt[1] == LeMetaEvent && |pkt| == 4 && pkt[3] == EvtLeAdvertisingReport) ||
    (IsAdvertisingReport(pkt) && ReadsPastEnd(ReportBuffer(pkt)))
  }

  /** The registry write a packet causes, if any. */
  function SightingOf(pkt: Bytes): Option<Entry> {
    if IsAdvertisingReport(pkt) && HasIBeaconPrefix(ReportBuffer(pkt)) then
      EntryOf(IBeaconView(ReportBuffer(pkt)))
    else None
  }

  predicate Keyed(pkt: Bytes, k: string) {
    SightingOf(pkt).Some? && SightingOf(pkt).value.key == k
  }

  /**
   * The registry changes only for an LE Advertising Report whose buffer holds
   * the iBeacon signature, and then by one overwrite; everything else leaves
   * it unchanged or raises.
   */
  lemma StepPacketSpec(found: Registry, pkt: Bytes)
    ensures StepPacket(found, pkt).Failure? <==> Rejected(pkt)
    ensures !Rejected(pkt) ==> StepPacket(found, pkt) == Success(Enter(found, SightingOf(pkt)))
  {
    if IsAdvertisingReport(pkt) {
      var buf := ReportBuffer(pkt);
      ReportsCollapse(found, buf, buf[0]);
      RecognizeOutcome(buf);
      if HasIBeaconPrefix(buf) {
        var v := IBeaconView(buf);
        assert v.udid.Some? && v.major.Some? && v.minor.Some? && v.mac.Some?;
        assert EntryOf(v).Some?;
      }
    }
  }

  /**
   * What a write holds: a 12-digit MAC decoding to the six address bytes
   * `pkt[7..13)` in wire order, and for a full-length report a 40-digit key
   * decoding to the UUID, major and minor bytes `pkt[23..43)`.
   */
  lemma SightingShape(pkt: Bytes)
    requires SightingOf(pkt).Some?
    ensures var e := SightingOf(pkt).value;
      |e.mac| == 12 && ParseHex(e.mac) == Some(pkt[7..13]) &&
      (|pkt| >= 43 ==> |e.key| == 40 && ParseHex(e.key) == Some(pkt[23..43]))
  {
    var buf := ReportBuffer(pkt);
    var v := IBeaconView(buf);
    assert buf[3..9] == pkt[7..13];
    assert v.mac == Some(buf[3..9]);
    if |pkt| >= 43 {
      IdentityStrings(buf);
      assert buf[19..39] == pkt[23..43];
    }
  }

  /**
   * A report cut off after the signature is still recorded, because the slices
   * clip. A packet of 23 to 42 bytes is cut off inside the UUID, major or minor:
   * its key holds only the bytes present (none at all for 23 bytes, giving the
   * empty key). A 43-byte packet lacks only the power byte and keeps the full
   * 40-digit key. The power reads 0 in every case.
   */
  lemma TruncatedReportRecorded(found: Registry, pkt: Bytes)
    requires IsAdvertisingReport(pkt) && HasIBeaconPrefix(ReportBuffer(pkt)) && |pkt| < 44
    ensures !Rejected(pkt) && SightingOf(pkt).Some?
    ensures |pkt| < 43 ==> |SightingOf(pkt).value.key| == 2 * (|pkt| - 23)
    ensures |pkt| == 23 ==> SightingOf(pkt).value.key == ""
    ensures |pkt| == 43 ==> |SightingOf(pkt).value.key| == 40
    ensures IBeaconView(ReportBuffer(pkt)).txPower == 0
    ensures StepPacket(found, pkt) == Success(found[SightingOf(pkt).value.key := SightingOf(pkt).value.mac])
  {
    StepPacketSpec(found, pkt);
    var buf := ReportBuffer(pkt);
    assert Slice(buf, TxPower, TxPower + 1) == [];
  }

  /**
   * For one packet only "zero or not" of num_reports matters: zero reports
   * leave the registry alone, and any positive count acts like one.
   */
  lemma NumReportsIrrelevant(found: Registry, pkt: Bytes, x: byte)
    requires |pkt| >= 5 && pkt[1] == LeMetaEvent && pkt[3] == EvtLeAdvertisingReport
    ensures pkt[4] == 0 ==> StepPacket(found, pkt) == Success(found)
    ensures pkt[4] > 0 && x > 0 ==> StepPacket(found, pkt[4 := x]) == StepPacket(found, pkt)
  {
    if pkt[4] > 0 && x > 0 {
      var q := pkt[4 := x];
      var buf := pkt[4..];
      assert q[4..] == buf[0 := x];
      ReportsCollapse(found, buf, pkt[4]);
      ReportsCollapse(found, buf[0 := x], x);
      RecognizeIgnoresReportCount(buf, x);
    }
  }

  /** Decoding the same packet again changes nothing more. */
  lemma StepIdempotent(found: Registry, pkt: Bytes, m: Registry)
    requires StepPacket(found, pkt) == Success(m)
    ensures StepPacket(m, pkt) == Success(m)
  {
    StepPacketSpec(found, pkt);
    StepPacketSpec(m, pkt);
    var e := SightingOf(pkt);
    if e.Some? {
      assert Enter(m, e) == m;
    }
  }

  // ---------------------------------------------------------------------------
  // Properties of a whole run

  lemma {:induction false} RunFailurePersists(found: Registry, ps: seq<Bytes>, qs: seq<Bytes>)
    requires Run(found, ps).Failure?
    ensures Run(found, ps + qs) == Run(found, ps)
    decreases |qs|
  {
    if qs == [] {
      assert ps + qs == ps;
    } else {
      var qs' := qs[..|qs| - 1];
      assert (ps + qs)[..|ps + qs| - 1] == ps + qs';
      RunFailurePersists(found, ps, qs');
    }
  }

  /** A run raises exactly when one of its packets is rejected. */
  lemma {:induction false} RunFailsIff(found: Registry, ps: seq<Bytes>)
    ensures Run(found, ps).Failure? <==> exists j :: 0 <= j < |ps| && Rejected(ps[j])
    decreases |ps|
  {
    if ps != [] {
      var init := ps[..|ps| - 1];
      RunFailsIff(found, init);
      assert forall j :: 0 <= j < |init| ==> init[j] == ps[j];
      if Run(found, init).Success? {
        StepPacketSpec(Run(found, init).value, ps[|ps| - 1]);
      } else {
        var j :| 0 <= j < |init| && Rejected(init[j]);
        assert Rejected(ps[j]);
      }
    }
  }

  /** The MAC of the last packet in `ps` that writes key `k`; an independent reference for the registry. */
  function LastMac(ps: seq<Bytes>, k: string): (r: Option<string>)
    ensures r.Some? <==> exists j :: 0 <= j < |ps| && Keyed(ps[j], k)
    decreases |ps|
  {
    if ps == [] then None
    else
      var last := ps[|ps| - 1];
      var init := ps[..|ps| - 1];
      assert forall j :: 0 <= j < |init| ==> init[j] == ps[j];
      if Keyed(last, k) then Some(SightingOf(last).value.mac)
      else LastMac(init, k)
  }

  /** LastMac names the MAC of a packet writing `k` that no later packet overwrites. */
  lemma {:induction false} LastMacIsLast(ps: seq<Bytes>, k: string) returns (j: nat)
    requires LastMac(ps, k).Some?
    ensures j < |ps| && Keyed(ps[j], k) && SightingOf(ps[j]).value.mac == LastMac(ps, k).value
    ensures forall j' :: j < j' < |ps| ==> !Keyed(ps[j'], k)
    decreases |ps|
  {
    var init := ps[..|ps| - 1];
    var last := ps[|ps| - 1];
    if Keyed(last, k) {
      j := |ps| - 1;
      assert LastMac(ps, k) == Some(SightingOf(last).value.mac);
    } else {
      assert LastMac(ps, k) == LastMac(init, k);
      j := LastMacIsLast(init, k);
      assert ps[j] == init[j];
      var keyed := (x: Bytes) => Keyed(x, k);
      NoLaterMatch(ps, init, keyed, j);
    }
  }

  /** If nothing in `init` after `j` satisfies `p`, and the element appended to it does not either, nothing after `j` does. */
  lemma NoLaterMatch<T>(ps: seq<T>, init: seq<T>, p: T -> bool, j: nat)
    requires ps != [] && init == ps[..|ps| - 1] && !p(ps[|ps| - 1]) && j < |init|
    requires forall j' :: j < j' < |init| ==> !p(init[j'])
    ensures forall j' :: j < j' < |ps| ==> !p(ps[j'])
  {
    forall j' | j < j' < |ps| ensures !p(ps[j']) {
      if j' < |init| {
        assert ps[j'] == init[j'];
      }
    }
  }

  /**
   * A run that raises nothing holds, for every key, the MAC of the last packet
   * that wrote it, and otherwise the value it started with; no key is lost.
   */
  lemma {:induction false} RunContents(found: Registry, ps: seq<Bytes>, m: Registry)
    requires Run(found, ps) == Success(m)
    ensures forall k :: k in m <==> k in found || LastMac(ps, k).Some?
    ensures forall k :: k in m ==> m[k] == if LastMac(ps, k).Some? then LastMac(ps, k).value else found[k]
    decreases |ps|
  {
    if ps != [] {
      var init := ps[..|ps| - 1];
      var last := ps[|ps| - 1];
      var m0 := Run(found, init).value;
      RunContents(found, init, m0);
      StepPacketSpec(m0, last);
      assert m == Enter(m0, SightingOf(last));
    }
  }

  /** Once the packets up to `i` raise, so does every longer prefix, alike. */
  lemma FailureEndsRun(ps: seq<Bytes>, i: nat, count: nat)
    requires i < count <= |ps| && Run(map[], ps[..i + 1]).Failure?
    ensures Run(map[], ps[..count]) == Run(map[], ps[..i + 1])
  {
    RunFailurePersists(map[], ps[..i + 1], ps[i + 1..count]);
    assert ps[..i + 1] + ps[i + 1..count] == ps[..count];
  }

  /**
   * `parse_events(loop_count)` with `recv` replaced by `packets`: at most
   * `loop_count` packets are consumed, and the result is the registry built
   * from them, or the exception the first malformed packet raises.
   */
  method ParseEvents(packets: seq<Bytes>, loopCount: nat) returns (res: Result<Registry, ReadError>)
    ensures res == Run(map[], packets[..Min(loopCount, |packets|)])
  {
    var devicesFound: Registry := map[];
    var count := Min(loopCount, |packets|);
    for i := 0 to count
      invariant Run(map[], packets[..i]) == Success(devicesFound)
    {
      var pkt := packets[i];
      assert packets[..i + 1][..i] == packets[..i];
      assert Run(map[], packets[..i + 1]) == StepPacket(devicesFound, pkt);
      if |pkt| < 3 {
        FailureEndsRun(packets, i, count);
        return Failure(HeaderTooShort);
      }
      var ptype, event, plen := pkt[0], pkt[1], pkt[2];
      if event == LeMetaEvent {
        if |pkt| < 4 {
          FailureEndsRun(packets, i, count);
          return Failure(SubeventMissing);
        }
        var subevent := pkt[3];
        pkt := pkt[4..];
        if subevent == EvtLeAdvertisingReport {
          if |pkt| < 1 {
            FailureEndsRun(packets, i, count);
            return Failure(ReportCountMissing);
          }
          var numReports := pkt[0];
          ghost var before := devicesFound;
          for j := 0 to numReports
            invariant Reports(before, pkt, j) == Success(devicesFound)
          {
            var created := Create(pkt);
            if created.Failure? {
              ReportsFailurePersists(before, pkt, j + 1, numReports);
              FailureEndsRun(packets, i, count);
              return Failure(created.error);
            }
            var beacon := created.value;
            if beacon.beaconType == IBeacon {
              devicesFound := devicesFound[beacon.GetUniqueId().value := beacon.GetMac().value];
            }
          }
        }
      }
    }
    assert packets[..count] == packets[..Min(loopCount, |packets|)];
    return Success(devicesFound);
  }

  /**
   * Two sightings of one identity leave one entry, holding the MAC of the
   * second.
   */
  lemma LastSightingWins(found: Registry, p1: Bytes, p2: Bytes)
    requires SightingOf(p1).Some? && SightingOf(p2).Some?
    requires SightingOf(p1).value.key == SightingOf(p2).value.key
    ensures var e := SightingOf(p2).value;
      Run(found, [p1, p2]) == Success(found[e.key := e.mac])
  {
    StepPacketSpec(found, p1);
    var m1 := StepPacket(found, p1).value;
    StepPacketSpec(m1, p2);
    assert [p1, p2][..1] == [p1];
    assert [p1][..0] == [];
    assert Run(found, [p1]) == Success(m1);
    var e := SightingOf(p2).value;
    assert m1 == found[e.key := SightingOf(p1).value.mac];
    assert Run(found, [p1, p2]) == Success(m1[e.key := e.mac]);
    assert m1[e.key := e.mac] == found[e.key := e.mac];
  }

  /**
   * Every value of the registry a run returns is the 12-digit, colon-free hex
   * of the six address bytes `[7..13)` of a received packet.
   */
  lemma RegistryValuesAreMacs(ps: seq<Bytes>, m: Registry)
    requires Run(map[], ps) == Success(m)
    ensures forall k :: k in m ==>
      (|m[k]| == 12 && exists j :: 0 <= j < |ps| && |ps[j]| >= 13 && ParseHex(m[k]) == Some(ps[j][7..13]))
  {
    RunContents(map[], ps, m);
    forall k | k in m
      ensures |m[k]| == 12 &&
        exists j :: 0 <= j < |ps| && |ps[j]| >= 13 && ParseHex(m[k]) == Some(ps[j][7..13])
    {
      var j := LastMacIsLast(ps, k);
      SightingShape(ps[j]);
    }
  }
}
