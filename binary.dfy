/** JavaScript "binary strings" (one code unit per byte) and the bit strings
    that encoding.ts builds with toString(2), padStart and parseInt(_, 2). */
module Binary {

  /** A character code below 256: the only codes btoa and padStart(8, '0') handle. */
  type Byte = x: int | 0 <= x < 256
  type Bytes = seq<Byte>

  /** A UTF-16 code unit, what String.fromCharCode produces. */
  type CodeUnit = x: int | 0 <= x < 0x1_0000

  type Bit = x: int | 0 <= x < 2

  function Pow2(n: nat): (r: nat)
    ensures r >= 1
  {
    if n == 0 then 1 else 2 * Pow2(n - 1)
  }

  /** v.toString(2).padStart(width, '0') for a v that fits in `width`
      digits: the binary digits of v, most significant first, left-filled
      with zeros. (padStart never truncates, hence the requires.) */
  function ToBits(v: nat, width: nat): (bs: seq<Bit>)
    requires v < Pow2(width)
    ensures |bs| == width
  {
    if width == 0 then [] else ToBits(v / 2, width - 1) + [v % 2]
  }

  /** parseInt(bs, 2): the number a string of binary digits denotes. */
  function FromBits(bs: seq<Bit>): (v: nat)
    ensures v < Pow2(|bs|)
  {
    if bs == [] then 0 else 2 * FromBits(bs[..|bs| - 1]) + bs[|bs| - 1]
  }

  function Zeros(n: nat): (z: seq<Bit>)
    ensures |z| == n && forall i :: 0 <= i < n ==> z[i] == 0
  {
    seq(n, i => 0)
  }

  /** Reading back the fixed-width digits of a value that fits gives it back. */
  lemma {:induction false} FromToBits(v: nat, width: nat)
    requires v < Pow2(width)
    ensures FromBits(ToBits(v, width)) == v
  {
    if width > 0 {
      FromToBits(v / 2, width - 1);
      var bs := ToBits(v, width);
      assert bs[..|bs| - 1] == ToBits(v / 2, width - 1);
    }
  }

  /** Writing out the value of a bit string at its own width gives it back. */
  lemma {:induction false} ToFromBits(bs: seq<Bit>)
    ensures ToBits(FromBits(bs), |bs|) == bs
  {
    if bs != [] {
      var init := bs[..|bs| - 1];
      ToFromBits(init);
      assert bs == init + [bs[|bs| - 1]];
    }
  }

  /** Every character code also below 256: the strings btoa accepts. */
  predicate IsBinary(s: string)
  {
    forall i :: 0 <= i < |s| ==> s[i] as int < 256
  }

  /** The byte sequence a binary string stands for (charCodeAt per
      character). The ensures is the definition; BytesRoundTrip and
      StringRoundTrip below make it and FromBytes inverses. */
  function ToBytes(s: string): (b: Bytes)
    requires IsBinary(s)
    ensures |b| == |s| && forall i :: 0 <= i < |s| ==> b[i] == s[i] as int
  {
    seq(|s|, i requires 0 <= i < |s| => s[i] as int)
  }

  /** String.fromCharCode applied to each byte; the inverse of ToBytes. */
  function FromBytes(b: Bytes): (s: string)
    ensures |s| == |b| && IsBinary(s)
    ensures forall i :: 0 <= i < |b| ==> s[i] as int == b[i]
  {
    seq(|b|, i requires 0 <= i < |b| => b[i] as char)
  }

  lemma BytesRoundTrip(b: Bytes)
    ensures ToBytes(FromBytes(b)) == b
  {
  }

  lemma StringRoundTrip(s: string)
    requires IsBinary(s)
    ensures FromBytes(ToBytes(s)) == s
  {
  }
}
