/** The formats of the engine in plain numbers: which bytes hold what, and with what weight. */
module Layout {
  import opened Pages
  import BigEndian
  import opened Bits
  import SlotEntry
  import TupleHeader
  import SlottedPage
  import opened IndexTree
  import IndexNode
  import BTree
  import Record

  // ---- bits and integers ----

  function Pow2(k: nat): (p: nat)
    ensures p > 0
  {
    if k == 0 then 1 else 2 * Pow2(k - 1)
  }

  lemma Powers2()
    ensures Pow2(1) == 2 && Pow2(2) == 4 && Pow2(6) == 64 && Pow2(7) == 128 && Pow2(8) == 256 && Pow2(14) == 16384
    ensures Pow2(16) == 65536
  {
    assert Pow2(4) == 16;
    assert Pow2(6) == 64;
    assert Pow2(8) == 256;
    assert Pow2(10) == 1024;
    assert Pow2(12) == 4096;
    assert Pow2(14) == 16384;
  }

  lemma Doubled(v: nat, p: nat)
    ensures v * (2 * p) == 2 * (v * p)
  {
  }

  /** A run is its first n bits followed by its last m. */
  lemma {:induction false} RunJoin(b: Bytes, off: nat, n: nat, m: nat)
    requires off + n + m <= 8 * |b|
    ensures RunValue(b, off, n + m) == RunValue(b, off, n) * Pow2(m) + RunValue(b, off + n, m)
    ensures RunValue(b, off + n, m) < Pow2(m)
    decreases m
  {
    if m > 0 {
      RunJoin(b, off, n, m - 1);
      Doubled(RunValue(b, off, n), Pow2(m - 1));
    }
  }

  /** Eight bits at a byte boundary are that byte. */
  lemma ByteRun(b: Bytes, i: nat)
    requires i < |b|
    ensures 8 * i + 8 <= 8 * |b| && RunValue(b, 8 * i, 8) == b[i]
  {
    hide RunValue, Bit, Shl;
    Powers();
    forall k: nat ensures Bit(RunValue(b, 8 * i, 8), k) == Bit(b[i], k) {
      RunBit(b, 8 * i, 8, k);
      if k < 8 {
        var x := 8 * i + 7 - k;
        assert x / 8 == i && x % 8 == 7 - k;
      } else {
        NoHighBit(b[i], 8, k);
      }
    }
    SameBits(RunValue(b, 8 * i, 8), b[i]);
  }

  lemma {:induction false} RunOfSlice(b: Bytes, o: nat, m: nat, n: nat)
    requires o + m <= |b| && n <= 8 * m
    ensures RunValue(b[o..o + m], 0, n) == RunValue(b, 8 * o, n)
    decreases n
  {
    hide Bit;
    if n > 0 {
      RunOfSlice(b, o, m, n - 1);
      var x := n - 1;
      assert (8 * o + x) / 8 == o + x / 8 && (8 * o + x) % 8 == x % 8;
    }
  }

  /** An integer is the value of its bytes as one run of bits, the most significant first. */
  lemma {:induction false} BigEndianRun(b: Bytes)
    ensures BigEndian.Decode(b) == RunValue(b, 0, 8 * |b|)
  {
    if b != [] {
      var n := |b| - 1;
      BigEndianRun(b[..n]);
      RunOfSlice(b, 0, n, 8 * n);
      assert b[0..n] == b[..n];
      RunJoin(b, 0, 8 * n, 8);
      ByteRun(b, n);
      Powers2();
    }
  }

  /** The integer in the m bytes from o on. */
  lemma IntegerAt(b: Bytes, o: nat, m: nat)
    requires o + m <= |b|
    ensures BigEndian.Decode(b[o..o + m]) == RunValue(b, 8 * o, 8 * m)
  {
    BigEndianRun(b[o..o + m]);
    RunOfSlice(b, o, m, 8 * m);
  }

  /** Two bytes: the first counts 256 times. */
  lemma TwoBytes(b: Bytes, o: nat)
    requires o + 2 <= |b|
    ensures RunValue(b, 8 * o, 16) == 256 * (b[o] as int) + b[o + 1]
  {
    hide RunValue;
    RunJoin(b, 8 * o, 8, 8);
    ByteRun(b, o);
    ByteRun(b, o + 1);
    Powers2();
  }

  lemma FourBytes(b: Bytes, o: nat)
    requires o + 4 <= |b|
    ensures RunValue(b, 8 * o, 32) ==
      0x100_0000 * (b[o] as int) + 0x1_0000 * (b[o + 1] as int) + 256 * (b[o + 2] as int) + b[o + 3]
  {
    hide RunValue;
    RunJoin(b, 8 * o, 16, 16);
    TwoBytes(b, o);
    TwoBytes(b, o + 2);
    Powers2();
  }

  /** Signed integers: the remainder modulo 2^64. */
  lemma TwosComplement(k: int)
    requires -0x8000_0000_0000_0000 <= k < 0x8000_0000_0000_0000
    ensures BigEndian.ToUnsigned(k) == k % 0x1_0000_0000_0000_0000
  {
  }

  // ---- slots, tuple headers and slotted pages ----

  /** The 4-byte slot: 15 bits, 15 bits, 2 bits. */
  lemma SlotBytes(e: Bytes)
    requires |e| == 4
    ensures SlotEntry.SlotOf(e).offset == 128 * (e[0] as int) + e[1] / 2
    ensures SlotEntry.SlotOf(e).length == 16384 * (e[1] as int % 2) + 64 * (e[2] as int) + e[3] / 4
    ensures SlotEntry.SlotOf(e).flag == e[3] % 4
  {
    hide RunValue;
    Powers2();
    ByteRun(e, 0);
    ByteRun(e, 1);
    ByteRun(e, 2);
    ByteRun(e, 3);
    RunJoin(e, 0, 8, 7);
    RunJoin(e, 8, 7, 1);
    RunJoin(e, 15, 1, 14);
    RunJoin(e, 16, 8, 6);
    RunJoin(e, 24, 6, 2);
  }

  /** The 12-byte tuple header: two transaction ids, 6 bits of flags, 10 bits of column count, the data offset. */
  lemma HeaderBytes(h: Bytes)
    requires |h| == 12
    ensures TupleHeader.HeaderOf(h).xmin == RunValue(h, 0, 32) && TupleHeader.HeaderOf(h).xmax == RunValue(h, 32, 32)
    ensures TupleHeader.HeaderOf(h).flags == h[8] / 4 && TupleHeader.HeaderOf(h).hoff == h[10]
    ensures TupleHeader.HeaderOf(h).columns == 256 * (h[8] as int % 4) + h[9]
    ensures TupleHeader.HeaderOf(h).HasNull() <==> h[8] / 4 % 2 == 1
  {
    hide RunValue, BigEndian.Decode;
    Powers2();
    IntegerAt(h, 0, 4);
    IntegerAt(h, 4, 4);
    ByteRun(h, 8);
    ByteRun(h, 9);
    RunJoin(h, 64, 6, 2);
    RunJoin(h, 70, 2, 8);
  }

  /** The page header: where the data starts at byte 12, where the directory ends at byte 14; slots from byte 24 on. */
  lemma SlottedPageBytes(b: Bytes)
    requires |b| == 8192
    ensures SlottedPage.Lower(b) == 256 * (b[12] as int) + b[13] && SlottedPage.Upper(b) == 256 * (b[14] as int) + b[15]
    ensures SlottedPage.Formatted(b) ==> 24 + 4 * |SlottedPage.Tuples(b)| == SlottedPage.Upper(b)
    ensures forall i :: 0 <= i < |SlottedPage.Tuples(b)| ==>
      SlottedPage.SlotAt(b, i) == SlotEntry.SlotOf(b[24 + 4 * i..28 + 4 * i])
  {
    hide RunValue, BigEndian.Decode, SlotEntry.SlotOf, SlottedPage.Tiled;
    IntegerAt(b, 12, 2);
    IntegerAt(b, 14, 2);
    TwoBytes(b, 12);
    TwoBytes(b, 14);
  }

  // ---- the index ----

  /** A node: kind at byte 0, key count at 2, next leaf at 4, keys from 8 on, then children or TIDs. */
  lemma NodeBytes(b: Bytes)
    requires |b| == 8192
    ensures IndexNode.IsLeaf(b) <==> b[0] == 1
    ensures IndexNode.KeyCount(b) == 256 * (b[2] as int) + b[3] && IndexNode.NextLeaf(b) == RunValue(b, 32, 32)
    ensures forall i: nat :: 8 + 8 * i + 8 <= 8192 ==>
      IndexNode.KeyAt(b, i) % 0x1_0000_0000_0000_0000 == RunValue(b, 64 + 64 * i, 64)
    ensures forall i: nat :: i <= BRANCH_CAP ==>
      IndexNode.ChildAt(b, i) == RunValue(b, 64 + 64 * BRANCH_CAP + 32 * i, 32)
    ensures forall i: nat :: i < LEAF_CAP ==>
      var at := 64 + 64 * LEAF_CAP + 48 * i;
      IndexNode.TidAt(b, i).page == RunValue(b, at, 32) && IndexNode.TidAt(b, i).slot == RunValue(b, at + 32, 16)
  {
    hide RunValue, BigEndian.Decode;
    IntegerAt(b, 2, 2);
    TwoBytes(b, 2);
    IntegerAt(b, 4, 4);
    forall i: nat | 8 + 8 * i + 8 <= 8192
      ensures IndexNode.KeyAt(b, i) % 0x1_0000_0000_0000_0000 == RunValue(b, 64 + 64 * i, 64)
    {
      IntegerAt(b, 8 + 8 * i, 8);
    }
    forall i: nat | i <= BRANCH_CAP ensures IndexNode.ChildAt(b, i) == RunValue(b, 64 + 64 * BRANCH_CAP + 32 * i, 32) {
      IntegerAt(b, 8 + 8 * BRANCH_CAP + 4 * i, 4);
    }
    forall i: nat | i < LEAF_CAP
      ensures var at := 64 + 64 * LEAF_CAP + 48 * i;
        IndexNode.TidAt(b, i).page == RunValue(b, at, 32) && IndexNode.TidAt(b, i).slot == RunValue(b, at + 32, 16)
    {
      IntegerAt(b, 8 + 8 * LEAF_CAP + 6 * i, 4);
      IntegerAt(b, 8 + 8 * LEAF_CAP + 6 * i + 4, 2);
    }
  }

  /** What a page means as a node: as many entries, or keys and one child more, as it has room for. */
  lemma NodeFields(b: Bytes)
    requires |b| == 8192
    ensures var n := IndexNode.KeyCount(b);
      match IndexNode.NodeOf(b)
      case LeafNode(es, next) =>
        && IndexNode.IsLeaf(b) && |es| == n <= LEAF_CAP && next == IndexNode.NextLeaf(b)
        && forall i :: 0 <= i < n ==> es[i] == Entry(IndexNode.KeyAt(b, i), IndexNode.TidAt(b, i))
      case BranchNode(ks, cs) =>
        && !IndexNode.IsLeaf(b) && |ks| == n <= BRANCH_CAP && |cs| == n + 1
        && (forall i :: 0 <= i < n ==> ks[i] == IndexNode.KeyAt(b, i))
        && (forall i :: 0 <= i <= n ==> cs[i] == IndexNode.ChildAt(b, i))
      case NotANode => n > if IndexNode.IsLeaf(b) then LEAF_CAP else BRANCH_CAP
  {
    hide IndexNode.KeyAt, IndexNode.TidAt, IndexNode.ChildAt, IndexNode.KeyCount;
  }

  /** The meta page of an index: the letters nbtr, then the page of the root. */
  lemma MetaBytes(f: File, t: Tree, h: nat)
    requires BTree.IndexOk(f, t, h)
    ensures |f| > 0 && |f[0]| == 8192 && f[0][..4] == [0x6E, 0x62, 0x74, 0x72] && RunValue(f[0], 32, 32) == t.pid
  {
    hide RunValue, BigEndian.Decode, BTree.OnPages;
    BTree.IndexFacts(f, t, h);
    BTree.MagicBytes(f[0]);
    IntegerAt(f[0], 4, 4);
  }

  // ---- records ----

  /** The data of a column: eight bytes, or a length of two bytes and the text. */
  lemma ColumnBytes(v: Record.Value)
    ensures var b := Record.ColumnData(v);
      match v
      case Int(i) => |b| == 8 && RunValue(b, 0, 64) == i % 0x1_0000_0000_0000_0000
      case Text(t) => |t| <= 65535 ==> |b| == 2 + |t| && b[2..] == t && 256 * (b[0] as int) + b[1] == |t|
      case _ => b == []
  {
    hide RunValue, BigEndian.Decode, BigEndian.Encode, BigEndian.Pow256;
    var b := Record.ColumnData(v);
    BigEndian.Widths();
    match v
    case Int(i) =>
      BigEndianRun(b);
      BigEndian.DecodeEncode(BigEndian.ToUnsigned(i), 8);
    case Text(t) =>
      if |t| <= 65535 {
        BigEndian.DecodeEncode(|t|, 2);
        assert b[0..2] == BigEndian.Encode(|t|, 2);
        IntegerAt(b, 0, 2);
        TwoBytes(b, 0);
      }
    case _ =>
  }

  /**
    * The head of an encoded row: no transactions, the flag for NULLs, the column count, the data offset and a zero. The
    * data of the columns follows at the offset.
    */
  lemma EncodedHead(row: Record.Row, b: Bytes, some: bool)
    requires Record.Encodes(row, b) && |row| < 1024
    requires some <==> exists i :: 0 <= i < |row| && row[i] == Record.Null
    ensures var hoff := 12 + if some then (|row| + 7) / 8 else 0;
      |b| >= hoff && b[10] == hoff && b[11] == 0 && b[hoff..] == Record.RowData(row)
    ensures b[..8] == [0, 0, 0, 0, 0, 0, 0, 0]
    ensures b[8] == (if some then 4 else 0) + |row| / 256 && b[9] == |row| % 256
  {
    hide RunValue, Record.RowData, TupleHeader.HeaderOf, Record.Encodes;
    SomeIs(row, some);
    HeadFields(row, b, some);
    var h := b[..12];
    HeaderBytes(h);
    ZeroBytes(h, 0);
    ZeroBytes(h, 4);
    Unpack(h[8], h[9], if some then 1 else 0, |row|);
    assert forall i :: 0 <= i < 8 ==> b[i] == h[i];
  }

  lemma HeadFields(row: Record.Row, b: Bytes, some: bool)
    requires Record.Encodes(row, b) && |row| < 1024 && some == Record.SomeNull(row)
    ensures var hoff := 12 + if some then (|row| + 7) / 8 else 0;
      && hoff <= |b| && b[11] == 0 && b[hoff..] == Record.RowData(row)
      && TupleHeader.HeaderOf(b[..12]) == TupleHeader.Header(0, 0, if some then 1 else 0, |row|, hoff)
  {
    hide Record.NullBit, Record.RowData, TupleHeader.HeaderOf, Record.SomeNull, Record.BitmapSize;
    Small(|row|, some);
  }

  lemma Small(n: nat, some: bool)
    requires n < 1024
    ensures Record.BitmapSize(n, some) == if some then (n + 7) / 8 else 0
    ensures n % 0x1_0000 == n && (12 + Record.BitmapSize(n, some)) % 256 == 12 + Record.BitmapSize(n, some)
  {
  }

  lemma SomeIs(row: Record.Row, some: bool)
    requires some <==> exists i :: 0 <= i < |row| && row[i] == Record.Null
    ensures some == Record.SomeNull(row)
  {
  }

  lemma Unpack(x: byte, y: byte, flags: nat, n: nat)
    requires x / 4 == flags && 256 * (x as int % 4) + y == n
    ensures x == 4 * flags + n / 256 && y == n % 256
  {
  }

  /** The null bitmap of an encoded row: bit k of its byte j, the least significant being 0, is for column 8 j + k. */
  lemma EncodedBitmap(row: Record.Row, b: Bytes, j: nat, k: nat)
    requires Record.Encodes(row, b) && j < (|row| + 7) / 8 && k < 8
    requires exists i :: 0 <= i < |row| && row[i] == Record.Null
    ensures |b| >= 12 + (|row| + 7) / 8
    ensures RunValue(b, 8 * (12 + j) + 7 - k, 1) == 1 <==> 8 * j + k < |row| && row[8 * j + k] == Record.Null
  {
    hide RunValue, Record.NullBit, Record.RowData, TupleHeader.HeaderOf;
    assert Record.NullBit(b, 8 * j + k) <==> 8 * j + k < |row| && row[8 * j + k].Null?;
    NullBitPlace(b, j, k);
  }

  /**
    * Which bytes decode, and to what: flag and column count in bytes 8 and 9, the data offset in byte 10, a NULL
    * exactly where the bitmap has it, every value of its column's type, and the data of the columns at the offset.
    * Whether a column is nullable does not matter.
    */
  lemma DecodedBytes(s: Record.Schema, data: Bytes, row: Record.Row, flag: bool)
    requires |data| >= 12 && (flag <==> data[8] / 4 % 2 == 1)
    ensures var hoff := 12 + if flag then (|s| + 7) / 8 else 0;
      Record.Meaning(s, data) == Record.Success(row) <==>
        && 256 * (data[8] as int % 4) + data[9] == |s| == |row| && data[10] == hoff
        && hoff + |Record.RowData(row)| <= |data|
        && data[hoff..hoff + |Record.RowData(row)|] == Record.RowData(row)
        && forall i :: 0 <= i < |s| ==>
             && (row[i] == Record.Null <==> flag && Record.NullBit(data, i))
             && (row[i].Int? ==> s[i].typ == Record.IntType) && row[i] != Record.Other
             && (row[i].Text? ==> s[i].typ == Record.TextType && |row[i].bytes| <= 65535)
  {
    hide RunValue, Record.NullBit, Record.RowData, Record.Meaning, TupleHeader.HeaderOf, Record.ReadsAs;
    var h := data[..12];
    HeaderBytes(h);
    assert h[8] == data[8] && h[9] == data[9] && h[10] == data[10];
    Record.DecodesExactly(s, data, row);
    var hoff := 12 + Record.BitmapSize(|s|, flag);
    ReadsExactly(s, data, hoff, row, flag);
  }

  lemma ReadsExactly(s: Record.Schema, data: Bytes, hoff: nat, row: Record.Row, flag: bool)
    ensures Record.ReadsAs(s, Record.Nulls(|s|, data, flag), data, hoff, row) <==>
      && |s| == |row| && hoff + |Record.RowData(row)| <= |data|
      && data[hoff..hoff + |Record.RowData(row)|] == Record.RowData(row)
      && forall i :: 0 <= i < |s| ==>
           && (row[i] == Record.Null <==> flag && Record.NullBit(data, i))
           && (row[i].Int? ==> s[i].typ == Record.IntType) && row[i] != Record.Other
           && (row[i].Text? ==> s[i].typ == Record.TextType && |row[i].bytes| <= 65535)
  {
    hide Record.NullBit, Record.RowData;
    var nulls := Record.Nulls(|s|, data, flag);
    assert forall i :: 0 <= i < |s| ==> nulls[i] == (flag && Record.NullBit(data, i));
  }

  /** Where the bitmap has its bit for column 8 j + k. */
  lemma NullBitPlace(b: Bytes, j: nat, k: nat)
    requires 12 + j < |b| && k < 8
    ensures Record.NullBit(b, 8 * j + k) <==> RunValue(b, 8 * (12 + j) + 7 - k, 1) == 1
  {
    hide RunValue, Bit;
    var i := 8 * j + k;
    assert i / 8 == j && i % 8 == k;
    OneBit(b, 12 + j, k);
  }

  lemma OneBit(b: Bytes, j: nat, k: nat)
    requires j < |b| && k < 8
    ensures RunValue(b, 8 * j + 7 - k, 1) == 1 <==> Bit(b[j], k)
  {
    hide Bit;
    var x := 8 * j + 7 - k;
    assert x / 8 == j && x % 8 == 7 - k;
    assert RunValue(b, x, 1) == 2 * RunValue(b, x, 0) + if BitAt(b, x) then 1 else 0;
  }

  lemma ZeroBytes(h: Bytes, o: nat)
    requires o + 4 <= |h| && RunValue(h, 8 * o, 32) == 0
    ensures forall i :: o <= i < o + 4 ==> h[i] == 0
  {
    FourBytes(h, o);
  }
}
