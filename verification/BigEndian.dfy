/** Big-endian unsigned integers inside byte sequences, and two's complement for the signed ones. */
module BigEndian {
  import opened Pages

  function Pow256(n: nat): (p: nat)
    ensures p >= 1
  {
    if n == 0 then 1 else 256 * Pow256(n - 1)
  }

  /** The low n bytes of v, most significant first. */
  function Encode(v: nat, n: nat): (b: Bytes)
    ensures |b| == n
  {
    if n == 0 then [] else Encode(v / 256, n - 1) + [v % 256]
  }

  function Decode(b: Bytes): (v: nat)
    ensures v < Pow256(|b|)
  {
    if b == [] then 0 else 256 * Decode(b[..|b| - 1]) + b[|b| - 1]
  }

  lemma {:induction false} DecodeEncode(v: nat, n: nat)
    requires v < Pow256(n)
    ensures Decode(Encode(v, n)) == v
  {
    if n > 0 {
      DecodeEncode(v / 256, n - 1);
      assert Encode(v, n)[..n - 1] == Encode(v / 256, n - 1);
    }
  }

  lemma {:induction false} EncodeDecode(b: Bytes)
    ensures Encode(Decode(b), |b|) == b
  {
    if b != [] {
      var n := |b| - 1;
      EncodeDecode(b[..n]);
      assert Decode(b) / 256 == Decode(b[..n]) && Decode(b) % 256 == b[n];
      assert b == b[..n] + [b[n]];
    }
  }

  lemma {:induction false} ZeroDecode(b: Bytes)
    requires forall i :: 0 <= i < |b| ==> b[i] == 0
    ensures Decode(b) == 0
  {
    if b != [] { ZeroDecode(b[..|b| - 1]); }
  }

  lemma Widths()
    ensures Pow256(2) == 0x1_0000 && Pow256(4) == 0x1_0000_0000 && Pow256(8) == 0x1_0000_0000_0000_0000
  {
    assert Pow256(3) == 256 * Pow256(2);
    assert Pow256(4) == 256 * Pow256(3);
    assert Pow256(5) == 256 * Pow256(4);
    assert Pow256(6) == 256 * Pow256(5);
    assert Pow256(7) == 256 * Pow256(6);
    assert Pow256(8) == 256 * Pow256(7);
  }

  /** `b` with `w` written over it at `off`. */
  function Splice(b: Bytes, off: nat, w: Bytes): (r: Bytes)
    requires off + |w| <= |b|
    ensures |r| == |b|
  {
    b[..off] + w + b[off + |w|..]
  }

  lemma SpliceInside(b: Bytes, off: nat, w: Bytes)
    requires off + |w| <= |b|
    ensures Splice(b, off, w)[off..off + |w|] == w
  {
  }

  lemma SpliceOutside(b: Bytes, off: nat, w: Bytes, o: nat, n: nat)
    requires off + |w| <= |b| && o + n <= |b| && (o + n <= off || off + |w| <= o)
    ensures Splice(b, off, w)[o..o + n] == b[o..o + n]
  {
    assert forall j :: o <= j < o + n ==> Splice(b, off, w)[j] == b[j];
  }

  lemma SpliceHead(b: Bytes, off: nat, w: Bytes, n: nat)
    requires off + |w| <= n <= |b|
    ensures Splice(b, off, w)[..n] == Splice(b[..n], off, w) && Splice(b, off, w)[n..] == b[n..]
  {
  }

  /** Stores the low n bytes of v at `off`. */
  method Write(a: array<byte>, off: nat, n: nat, v: nat)
    requires off + n <= a.Length
    modifies a
    ensures a[..] == Splice(old(a[..]), off, Encode(v, n))
  {
    var w := Encode(v, n);
    forall i | 0 <= i < n {
      a[off + i] := w[i];
    }
  }

  /** Stores w at `off`. */
  method Copy(a: array<byte>, off: nat, w: Bytes)
    requires off + |w| <= a.Length
    modifies a
    ensures a[..] == Splice(old(a[..]), off, w)
  {
    forall i | 0 <= i < |w| {
      a[off + i] := w[i];
    }
  }

  lemma SpliceTwice(b: Bytes, off: nat, u: Bytes, w: Bytes)
    requires off + |u| + |w| <= |b|
    ensures Splice(Splice(b, off, u), off + |u|, w) == Splice(b, off, u + w)
  {
  }

  /** Writing just after a stretch extends it. */
  lemma SpliceAppends(b: Bytes, from: nat, off: nat, w: Bytes)
    requires from <= off && off + |w| <= |b|
    ensures Splice(b, off, w)[..from] == b[..from]
    ensures Splice(b, off, w)[from..off + |w|] == b[from..off] + w
  {
  }

  const TWO_64 := 0x1_0000_0000_0000_0000
  const TWO_63 := 0x8000_0000_0000_0000

  /** Two's complement over 64 bits. */
  function ToUnsigned(k: int): (v: nat)
    requires -TWO_63 <= k < TWO_63
    ensures v < TWO_64
  {
    if k < 0 then k + TWO_64 else k
  }

  function ToSigned(v: nat): (k: int)
    requires v < TWO_64
    ensures -TWO_63 <= k < TWO_63 && ToUnsigned(k) == v
  {
    if v < TWO_63 then v else v - TWO_64
  }

  lemma SignedRoundTrip(k: int)
    requires -TWO_63 <= k < TWO_63
    ensures ToSigned(ToUnsigned(k)) == k
  {
  }
}
