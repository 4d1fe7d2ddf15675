/**
 * The pieces of Python's `bytes` semantics that the scanner relies on:
 * octets, slicing that clips out-of-range indices instead of raising,
 * `int.from_bytes(..., byteorder='big', signed=False)`, and the exceptions
 * raised by an indexed read or a `struct.unpack` on too few bytes.
 */
module PyBytes {

  /** One unsigned octet of a received packet. */
  type byte = x: int | 0 <= x < 256

  type Bytes = seq<byte>

  /** The exceptions a fixed-offset read of a packet can raise. */
  datatype ReadError =
    | HeaderTooShort       // struct.unpack("BBB", pkt[:3]) on fewer than 3 bytes
    | SubeventMissing      // struct.unpack("B", pkt[3:4]) on an empty slice
    | ReportCountMissing   // struct.unpack("B", pkt[0:1]) on an empty slice
    | PrefixByteMissing    // IndexError from pkt[ADVERTISING_FLAGS + index]

  function Min(a: nat, b: nat): (m: nat)
    ensures m <= a && m <= b && (m == a || m == b)
  {
    if a <= b then a else b
  }

  /** Python's `s[lo:hi]` for `0 <= lo <= hi`: bounds past the end are clipped, never an error. */
  function Slice(s: Bytes, lo: nat, hi: nat): (r: Bytes)
    requires lo <= hi
    ensures hi <= |s| ==> r == s[lo..hi]
    ensures |r| == Min(hi, |s|) - Min(lo, |s|)
    ensures forall i :: 0 <= i < |r| ==> r[i] == s[lo + i]
  {
    if hi <= |s| then s[lo..hi] else if lo <= |s| then s[lo..] else []
  }

  function Pow256(n: nat): (p: nat)
    ensures p > 0
  {
    if n == 0 then 1 else 256 * Pow256(n - 1)
  }

  /** `int.from_bytes(s, byteorder='big', signed=False)`. */
  function BigEndianUnsigned(s: Bytes): (v: nat)
    ensures v < Pow256(|s|)
    ensures s == [] ==> v == 0
    ensures |s| == 1 ==> v == s[0]
    decreases |s|
  {
    if s == [] then 0
    else
      var high := BigEndianUnsigned(s[..|s| - 1]);
      assert high * 256 + s[|s| - 1] < Pow256(|s|) by {
        assert high <= Pow256(|s| - 1) - 1;
        assert Pow256(|s|) == 256 * Pow256(|s| - 1);
      }
      high * 256 + s[|s| - 1]
  }
}
