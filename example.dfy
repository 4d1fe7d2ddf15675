// A worked example, part 2: one HCI LE Meta event carrying the sample beacon's
// advertising report, run through the scan loop end to end.

module Example {
  import opened Wrappers
  import opened PyBytes
  import opened BeaconFactory
  import opened Discovery
  import opened SampleValues

  /** num_reports 1, event type 3, address type 0, the address, data length 30, the signature and fields, power 0xc0, RSSI. */
  const SampleReport: Bytes :=
    [0x01, 0x03, 0x00] + SampleAddress + [0x1e] + IBeaconPrefix +
    SampleUuid + SampleMajor + SampleMinor + [0xc0, 0xb3]

  /** An LE Meta event (plen 42) carrying an LE Advertising Report. */
  const SamplePacket: Bytes := [0x04, 0x3e, 0x2a, 0x02] + SampleReport

  /** The sample's report buffer holds the signature and the sample fields at their offsets. */
  lemma SampleFields()
    ensures HasIBeaconPrefix(ReportBuffer(SamplePacket))
    ensures var v := IBeaconView(ReportBuffer(SamplePacket));
      v.mac == Some(SampleAddress) && v.udid == Some(SampleUuid) &&
      v.major == Some(SampleMajor) && v.minor == Some(SampleMinor)
  {
    assert ReportBuffer(SamplePacket) == SampleReport;
    assert |SampleReport| == 41;
    assert SampleReport[3..9] == SampleAddress;
    assert SampleReport[10..19] == IBeaconPrefix;
    assert SampleReport[19..35] == SampleUuid;
    assert SampleReport[35..37] == SampleMajor;
    assert SampleReport[37..39] == SampleMinor;
  }

  lemma SampleSighting()
    ensures !Rejected(SamplePacket)
    ensures SightingOf(SamplePacket) == Some(Entry(SampleKey, SampleMac))
  {
    SampleFields();
    SampleIdentity();
    assert SamplePacket[..5] == [0x04, 0x3e, 0x2a, 0x02, 0x01];
    assert IsAdvertisingReport(SamplePacket);
  }

  /** End to end: one such packet yields exactly one entry, keyed by UUID+major+minor, holding the bare-hex MAC. */
  lemma SampleScan()
    ensures Run(map[], [SamplePacket]) == Success(map[SampleKey := SampleMac])
  {
    SampleSighting();
    StepPacketSpec(map[], SamplePacket);
    assert [SamplePacket][..0] == [];
  }
}
