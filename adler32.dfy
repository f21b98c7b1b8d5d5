/** The Adler-32 checksum of section 2.2 of RFC 1950, which `zlib.adler32` computes:
    two sums modulo 65521 updated byte by byte, packed as `s2 * 65536 + s1`. */
module Adler32 {
  import opened Bytes

  /** The largest prime below 65536. */
  const Base: nat := 65521

  /** The sum of all bytes. */
  function Sum(d: Bytes): (s: nat) {
    if |d| == 0 then 0 else Sum(d[..|d| - 1]) + d[|d| - 1] as nat
  }

  /** `(1 + D1) + (1 + D1 + D2) + … + (1 + D1 + … + Dn)`: the sum of every prefix sum
      plus one, before reduction. */
  function PrefixSums(d: Bytes): (s: nat) {
    if |d| == 0 then 0 else PrefixSums(d[..|d| - 1]) + 1 + Sum(d)
  }

  /** The running pair `(s1, s2)` as zlib updates it, one byte at a time, reducing both
      sums after each byte. */
  function Sums(d: Bytes): (r: (nat, nat))
    ensures r.0 < Base && r.1 < Base
  {
    if |d| == 0 then (1, 0)
    else
      var (s1, s2) := Sums(d[..|d| - 1]);
      var t := (s1 + d[|d| - 1] as nat) % Base;
      (t, (s2 + t) % Base)
  }

  /** `zlib.adler32(data)`. */
  function Checksum(d: Bytes): (r: nat)
    ensures r < TWO32
  {
    var (s1, s2) := Sums(d);
    s2 * 65536 + s1
  }

  lemma ModAdd(a: nat, b: nat)
    ensures (a % Base + b) % Base == (a + b) % Base
  {
    var q := a / Base;
    assert a == q * Base + a % Base;
    assert a + b == (a % Base + b) + q * Base;
  }

  /** The running sums are the sums RFC 1950 defines: A = 1 + D1 + … + Dn and
      B = (1 + D1) + … + (1 + D1 + … + Dn), both modulo 65521. */
  lemma {:induction false} SumsAreRfcSums(d: Bytes)
    ensures Sums(d).0 == (1 + Sum(d)) % Base
    ensures Sums(d).1 == PrefixSums(d) % Base
    decreases |d|
  {
    if |d| > 0 {
      var init := d[..|d| - 1];
      var x := d[|d| - 1] as nat;
      SumsAreRfcSums(init);
      ModAdd(1 + Sum(init), x);
      var t := (1 + Sum(d)) % Base;
      ModAdd(PrefixSums(init), t);
      assert (PrefixSums(init) + t) % Base == (t + PrefixSums(init)) % Base;
      ModAdd(1 + Sum(d), PrefixSums(init));
    }
  }

  /** The checksum of no bytes is 1. */
  lemma ChecksumEmpty()
    ensures Checksum([]) == 1
  {
  }
}
