// A worked example, part 1: the field values of one sample iBeacon and their
// bare-hex renderings. The module sees only the codec and the beacon strings,
// which keeps the evaluation of renderings of literals cheap.

module SampleValues {
  import opened Wrappers
  import opened PyBytes
  import opened Hex
  import opened Beacons

  const SampleAddress: Bytes := [0xaa, 0xbb, 0xcc, 0xdd, 0xee, 0xff]
  const SampleUuid1: Bytes := [0x00, 0x11, 0x22, 0x33]
  const SampleUuid2: Bytes := [0x44, 0x55, 0x66, 0x77]
  const SampleUuid3: Bytes := [0x88, 0x99, 0xaa, 0xbb]
  const SampleUuid4: Bytes := [0xcc, 0xdd, 0xee, 0xff]
  const SampleUuid: Bytes := SampleUuid1 + SampleUuid2 + SampleUuid3 + SampleUuid4
  const SampleMajor: Bytes := [0x00, 0x01]
  const SampleMinor: Bytes := [0x00, 0x02]

  /** The registry entry the sample should produce, written in pieces: UUID, major, minor; and the MAC. */
  const SampleKey: string := "00112233" + "44556677" + "8899aabb" + "ccddeeff" + "0001" + "0002"
  const SampleMac: string := "aabbcc" + "ddeeff"

  lemma SampleUuidHex1()
    ensures BytesToString(SampleUuid1) == "00112233"
  {
  }

  lemma SampleUuidHex2()
    ensures BytesToString(SampleUuid2) == "44556677"
  {
  }

  lemma SampleUuidHex3()
    ensures BytesToString(SampleUuid3) == "8899aabb"
  {
  }

  lemma SampleUuidHex4()
    ensures BytesToString(SampleUuid4) == "ccddeeff"
  {
  }

  lemma SampleVersionHex()
    ensures BytesToString(SampleMajor) == "0001" && BytesToString(SampleMinor) == "0002"
  {
  }

  lemma SampleMacHex()
    ensures BytesToString(SampleAddress) == SampleMac
  {
    BytesToStringConcat(SampleAddress[..3], SampleAddress[3..]);
    assert SampleAddress[..3] + SampleAddress[3..] == SampleAddress;
    assert SampleAddress[..3] == [0xaa, 0xbb, 0xcc];
    assert SampleAddress[3..] == [0xdd, 0xee, 0xff];
  }

  /** getUniqueId and getMac of the sample beacon. */
  lemma SampleIdentity()
    ensures UniqueId(Some(SampleUuid), Some(SampleMajor), Some(SampleMinor)) == Some(SampleKey)
    ensures MacString(Some(SampleAddress)) == Some(SampleMac)
  {
    SampleUuidHex1();
    SampleUuidHex2();
    SampleUuidHex3();
    SampleUuidHex4();
    BytesToStringConcat(SampleUuid1, SampleUuid2);
    BytesToStringConcat(SampleUuid1 + SampleUuid2, SampleUuid3);
    BytesToStringConcat(SampleUuid1 + SampleUuid2 + SampleUuid3, SampleUuid4);
    SampleVersionHex();
    SampleMacHex();
  }
}
