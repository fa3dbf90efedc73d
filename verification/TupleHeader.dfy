/** The 12-byte tuple header: two transaction ids, the packed flags and column count, and the data offset. */
module TupleHeader {
  import opened Pages
  import opened BigEndian
  import opened Bits

  const SIZE := 12
  const FLAGS_POS := 64
  const COLUMNS_POS := 70
  const HOFF := 10
  const HAS_NULL := 1

  datatype Header = Header(xmin: nat, xmax: nat, flags: nat, columns: nat, hoff: nat) {
    ghost predicate HasNull() {
      Bit(flags, 0)
    }
  }

  ghost function HeaderOf(h: Bytes): Header
    requires |h| == SIZE
  {
    Header(BigEndian.Decode(h[0..4]), BigEndian.Decode(h[4..8]),
           RunValue(h, FLAGS_POS, 6), RunValue(h, COLUMNS_POS, 10), h[HOFF])
  }

  /** The fields and the reserved last byte are all there is to a header. */
  lemma HeaderDetermined(h: Bytes, h': Bytes)
    requires |h| == |h'| == SIZE && HeaderOf(h) == HeaderOf(h') && h[11] == h'[11]
    ensures h == h'
  {
    hide RunValue, BigEndian.Decode, BigEndian.Encode;
    SamePrefixBytes(h, h', 0);
    SamePrefixBytes(h, h', 4);
    PackedByte(h, h', 8);
    PackedByte(h, h', 9);
    assert forall i :: 0 <= i < SIZE ==> h[i] == h'[i];
  }

  lemma SamePrefixBytes(h: Bytes, h': Bytes, o: nat)
    requires |h| == |h'| && o + 4 <= |h| && BigEndian.Decode(h[o..o + 4]) == BigEndian.Decode(h'[o..o + 4])
    ensures forall i :: o <= i < o + 4 ==> h[i] == h'[i]
  {
    hide BigEndian.Decode, BigEndian.Encode;
    EncodeDecode(h[o..o + 4]);
    EncodeDecode(h'[o..o + 4]);
    assert h[o..o + 4] == h'[o..o + 4];
    assert forall i :: o <= i < o + 4 ==> h[i] == h[o..o + 4][i - o] && h'[i] == h'[o..o + 4][i - o];
  }

  lemma PackedByte(h: Bytes, h': Bytes, i: nat)
    requires |h| == |h'| == SIZE && (i == 8 || i == 9)
    requires RunValue(h, FLAGS_POS, 6) == RunValue(h', FLAGS_POS, 6)
    requires RunValue(h, COLUMNS_POS, 10) == RunValue(h', COLUMNS_POS, 10)
    ensures h[i] == h'[i]
  {
    hide RunValue, Bit;
    forall k | 0 <= k < 8 ensures Bit(h[i], k) == Bit(h'[i], k) {
      var x := 8 * i + 7 - k;
      assert x / 8 == i && x % 8 == 7 - k;
      if x < COLUMNS_POS {
        SameRunBits(h, h', FLAGS_POS, 6, x);
      } else {
        SameRunBits(h, h', COLUMNS_POS, 10, x);
      }
      assert BitAt(h, x) == BitAt(h', x);
    }
    SameByte(h[i], h'[i]);
  }

  /** Bytes that a bit run does not meet are not changed by writing it. */
  lemma WrittenBytes(b: Bytes, b': Bytes, off: nat, n: nat, v: nat, i: nat)
    requires Written(b, b', off, n, v) && i < |b| && (8 * i + 8 <= off || off + n <= 8 * i)
    ensures b'[i] == b[i]
  {
    hide Bit, Shl;
    forall k: nat ensures Bit(b'[i], k) == Bit(b[i], k) {
      Powers();
      if k < 8 {
        var x := 8 * i + 7 - k;
        assert x / 8 == i && x % 8 == 7 - k;
        assert BitAt(b', x) == BitAt(b, x);
      } else {
        NoHighBit(b[i], 8, k);
        NoHighBit(b'[i], 8, k);
      }
    }
    SameBits(b'[i], b[i]);
  }

  lemma PackedKeepsBytes(h: Bytes, h': Bytes, off: nat, n: nat, v: nat)
    requires |h| == SIZE && Written(h, h', off, n, v) && FLAGS_POS <= off && off + n <= FLAGS_POS + 16
    ensures h'[0..4] == h[0..4] && h'[4..8] == h[4..8] && h'[HOFF] == h[HOFF] && h'[11] == h[11]
  {
    forall i | (0 <= i < 8 || 10 <= i < 12) ensures h'[i] == h[i] { WrittenBytes(h, h', off, n, v, i); }
  }

  method SetFlags(a: array<byte>, v: nat) returns (ok: bool)
    requires a.Length >= SIZE
    modifies a
    ensures ok <==> v < 64
    ensures a[SIZE..] == old(a[SIZE..])
    ensures HeaderOf(a[..SIZE]) == if ok then HeaderOf(old(a[..SIZE])).(flags := v) else HeaderOf(old(a[..SIZE]))
    ensures a[11] == old(a[11])
  {
    hide Shl, RunValue, Written;
    FieldWidths();
    assert a[0..SIZE] == a[..SIZE];
    ok := WriteBits(a, 0, SIZE, FLAGS_POS, 6, v);
    assert a[0..SIZE] == a[..SIZE];
    if ok {
      WrittenRuns(old(a[..SIZE]), a[..SIZE], FLAGS_POS, 6, v);
      PackedKeepsBytes(old(a[..SIZE]), a[..SIZE], FLAGS_POS, 6, v);
    } else {
      assert a[..SIZE] == a[..][..SIZE];
    }
  }

  method SetColumnCount(a: array<byte>, v: nat) returns (ok: bool)
    requires a.Length >= SIZE
    modifies a
    ensures ok <==> v < 1024
    ensures a[SIZE..] == old(a[SIZE..])
    ensures HeaderOf(a[..SIZE]) == if ok then HeaderOf(old(a[..SIZE])).(columns := v) else HeaderOf(old(a[..SIZE]))
    ensures a[11] == old(a[11])
  {
    hide Shl, RunValue, Written;
    FieldWidths();
    assert a[0..SIZE] == a[..SIZE];
    ok := WriteBits(a, 0, SIZE, COLUMNS_POS, 10, v);
    assert a[0..SIZE] == a[..SIZE];
    if ok {
      WrittenRuns(old(a[..SIZE]), a[..SIZE], COLUMNS_POS, 10, v);
      PackedKeepsBytes(old(a[..SIZE]), a[..SIZE], COLUMNS_POS, 10, v);
    } else {
      assert a[..SIZE] == a[..][..SIZE];
    }
  }

  lemma FieldWidths()
    ensures Shl(1, 6) == 64 && Shl(1, 10) == 1024
  {
    assert Shl(1, 2) == 4;
    assert Shl(1, 4) == 16;
    assert Shl(1, 6) == 64;
    assert Shl(1, 8) == 256;
  }

  method SetHoff(a: array<byte>, v: byte)
    requires a.Length >= SIZE
    modifies a
    ensures a[SIZE..] == old(a[SIZE..])
    ensures HeaderOf(a[..SIZE]) == HeaderOf(old(a[..SIZE])).(hoff := v)
    ensures a[11] == old(a[11])
  {
    ghost var h := a[..SIZE];
    a[HOFF] := v;
    assert a[..SIZE][0..4] == h[0..4] && a[..SIZE][4..8] == h[4..8];
    SameRun(h, a[..SIZE], FLAGS_POS, 6);
    SameRun(h, a[..SIZE], COLUMNS_POS, 10);
  }

  lemma {:induction false} SameRun(b: Bytes, b': Bytes, off: nat, n: nat)
    requires |b| == |b'| && off + n <= 8 * |b|
    requires forall i :: off / 8 <= i < |b| && 8 * i < off + n ==> b'[i] == b[i]
    ensures RunValue(b', off, n) == RunValue(b, off, n)
    decreases n
  {
    if n > 0 { SameRun(b, b', off, n - 1); }
  }

  method SetTxMin(a: array<byte>, xid: nat)
    requires a.Length >= SIZE && xid < 0x1_0000_0000
    modifies a
    ensures a[SIZE..] == old(a[SIZE..])
    ensures HeaderOf(a[..SIZE]) == HeaderOf(old(a[..SIZE])).(xmin := xid)
    ensures a[11] == old(a[11])
  {
    hide HeaderOf, BigEndian.Encode;
    ghost var b := a[..];
    BigEndian.Write(a, 0, 4, xid);
    SpliceHead(b, 0, BigEndian.Encode(xid, 4), SIZE);
    assert a[..SIZE] == a[..][..SIZE] && a[SIZE..] == a[..][SIZE..];
    TxWrite(b[..SIZE], a[..SIZE], 0, xid);
  }

  method SetTxMax(a: array<byte>, xid: nat)
    requires a.Length >= SIZE && xid < 0x1_0000_0000
    modifies a
    ensures a[SIZE..] == old(a[SIZE..])
    ensures HeaderOf(a[..SIZE]) == HeaderOf(old(a[..SIZE])).(xmax := xid)
    ensures a[11] == old(a[11])
  {
    hide HeaderOf, BigEndian.Encode;
    ghost var b := a[..];
    BigEndian.Write(a, 4, 4, xid);
    SpliceHead(b, 4, BigEndian.Encode(xid, 4), SIZE);
    assert a[..SIZE] == a[..][..SIZE] && a[SIZE..] == a[..][SIZE..];
    TxWrite(b[..SIZE], a[..SIZE], 4, xid);
  }

  lemma TxWrite(h: Bytes, h': Bytes, off: nat, xid: nat)
    requires |h| == SIZE && (off == 0 || off == 4) && xid < 0x1_0000_0000
    requires h' == Splice(h, off, BigEndian.Encode(xid, 4))
    ensures HeaderOf(h') == if off == 0 then HeaderOf(h).(xmin := xid) else HeaderOf(h).(xmax := xid)
  {
    hide RunValue, BigEndian.Encode, BigEndian.Decode, Pow256;
    Widths();
    DecodeEncode(xid, 4);
    SpliceInside(h, off, BigEndian.Encode(xid, 4));
    SpliceOutside(h, off, BigEndian.Encode(xid, 4), 4 - off, 4);
    assert forall i :: 8 <= i < SIZE ==> h'[i] == h[i];
    SameRun(h, h', FLAGS_POS, 6);
    SameRun(h, h', COLUMNS_POS, 10);
  }

  method Flags(h: Bytes) returns (v: nat)
    requires |h| == SIZE
    ensures v == HeaderOf(h).flags
  {
    var ok;
    ok, v := ReadBits(h, FLAGS_POS, 6);
  }

  /** Whether a null bitmap follows the header: the lowest flag bit. */
  method HasNull(h: Bytes) returns (b: bool)
    requires |h| == SIZE
    ensures b <==> HeaderOf(h).HasNull()
    ensures b <==> HeaderOf(h).flags % 2 == 1
  {
    var v := Flags(h);
    TestBit(v, 0);
    b := And(v, HAS_NULL) != 0;
  }

  method ColumnCount(h: Bytes) returns (v: nat)
    requires |h| == SIZE
    ensures v == HeaderOf(h).columns && v < 1024
  {
    var ok;
    ok, v := ReadBits(h, COLUMNS_POS, 10);
    RunBound(h, COLUMNS_POS, 10, 16);
    FieldWidths();
  }

  method Hoff(h: Bytes) returns (v: nat)
    requires |h| == SIZE
    ensures v == HeaderOf(h).hoff
  {
    v := h[HOFF];
  }

  /** Testing one bit with a mask. */
  lemma TestBit(w: nat, k: nat)
    ensures And(w, Shl(1, k)) != 0 <==> Bit(w, k)
  {
    var r := And(w, Shl(1, k));
    AndBit(w, Shl(1, k), k);
    ShlBit(1, k, k);
    if Bit(w, k) {
      ZeroBit(k);
    } else {
      forall j: nat ensures Bit(r, j) == Bit(0, j) {
        AndBit(w, Shl(1, k), j);
        ShlBit(1, k, j);
        ZeroBit(j);
        if j > k { ZeroBit(j - k - 1); }
      }
      SameBits(r, 0);
    }
  }
}
