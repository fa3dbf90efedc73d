/** Rows to tuple bytes and back: header, optional null bitmap, then the non-null columns in order. */
module Record {
  import opened Pages
  import opened Sequences
  import opened BigEndian
  import opened Bits
  import opened TupleHeader

  datatype ColumnType = IntType | TextType | UnknownType(code: nat)

  datatype Column = Column(name: string, typ: ColumnType, nullable: bool)

  type Schema = seq<Column>

  type int64 = k: int | -TWO_63 <= k < TWO_63

  /** A value of a row. Text is a byte string; `Other` is a value of any further type. */
  datatype Value = Null | Int(i: int64) | Text(bytes: Bytes) | Other

  type Row = seq<Value>

  datatype Result<T> = Success(value: T) | Failure

  // ---- what an encoding is ----

  /** The value v can be stored in a column of c's type. */
  ghost predicate Typed(c: Column, v: Value) {
    match v
    case Null => true
    case Int(_) => c.typ.IntType?
    case Text(t) => c.typ.TextType? && |t| <= 0xFFFF
    case Other => false
  }

  /** What Encode demands of a single value. Decode does not look at nullability. */
  ghost predicate Fits(c: Column, v: Value) {
    Typed(c, v) && (v.Null? ==> c.nullable)
  }

  /** What Encode demands of a row: the column count is checked after its conversion to 16 bits. */
  ghost predicate Acceptable(s: Schema, row: Row) {
    && |row| == |s| && |s| % 0x1_0000 < 1024
    && forall i :: 0 <= i < |s| ==> Fits(s[i], row[i])
  }

  function ColumnData(v: Value): (b: Bytes) {
    match v
    case Null => []
    case Int(i) => BigEndian.Encode(ToUnsigned(i), 8)
    case Text(t) => BigEndian.Encode(|t|, 2) + t
    case Other => []
  }

  function RowData(row: Row): (b: Bytes) {
    if row == [] then [] else ColumnData(row[0]) + RowData(row[1..])
  }

  function BitmapSize(n: nat, hasNull: bool): nat {
    if hasNull then (n + 7) / 8 else 0
  }

  /** As few bytes as have a bit for each column. */
  lemma BitmapBounds(n: nat)
    ensures 8 * BitmapSize(n, true) - 8 < n <= 8 * BitmapSize(n, true) && BitmapSize(n, false) == 0
  {
  }

  ghost predicate SomeNull(row: Row) {
    exists i :: 0 <= i < |row| && row[i].Null?
  }

  /**
    * b encodes the row: header fields, null bitmap, column data. The transaction ids, the last byte of the header
    * and the spare bits of the bitmap are zero.
    */
  ghost predicate Encodes(row: Row, b: Bytes) {
    var n := |row|;
    var hoff := TupleHeader.SIZE + BitmapSize(n, SomeNull(row));
    && |b| == hoff + |RowData(row)|
    && HeaderOf(b[..TupleHeader.SIZE]) == Header(0, 0, if SomeNull(row) then HAS_NULL else 0, n % 0x1_0000, hoff % 256)
    && b[11] == 0
    && (SomeNull(row) ==> forall i :: 0 <= i < 8 * BitmapSize(n, true) ==> (NullBit(b, i) <==> i < n && row[i].Null?))
    && b[hoff..] == RowData(row)
  }

  /** Bit i of the null bitmap. */
  ghost predicate NullBit(b: Bytes, i: nat) {
    TupleHeader.SIZE + i / 8 < |b| && Bit(b[TupleHeader.SIZE + i / 8], i % 8)
  }

  // ---- decoding, as a function ----

  function Prepend(v: Value, r: Result<Row>): Result<Row> {
    match r
    case Success(row) => Success([v] + row)
    case Failure => Failure
  }

  /** Reads the columns from position pos on; nulls[i] says whether column i is NULL. */
  ghost function Parse(s: Schema, nulls: seq<bool>, data: Bytes, pos: nat): Result<Row>
    requires |nulls| == |s|
  {
    if s == [] then Success([])
    else if nulls[0] then Prepend(Null, Parse(s[1..], nulls[1..], data, pos))
    else
      match s[0].typ
      case IntType =>
        if pos + 8 > |data| then Failure
        else Prepend(IntAt(data, pos), Parse(s[1..], nulls[1..], data, pos + 8))
      case TextType =>
        if pos + 2 > |data| then Failure
        else
          var n := BigEndian.Decode(data[pos..pos + 2]);
          if pos + 2 + n > |data| then Failure
          else Prepend(Text(data[pos + 2..pos + 2 + n]), Parse(s[1..], nulls[1..], data, pos + 2 + n))
      case UnknownType(_) => Failure
  }

  function IntAt(data: Bytes, pos: nat): Value
    requires pos + 8 <= |data|
  {
    Widths();
    Int(ToSigned(BigEndian.Decode(data[pos..pos + 8])))
  }

  ghost function Nulls(n: nat, data: Bytes, hasNull: bool): seq<bool> {
    seq(n, i => hasNull && i >= 0 && NullBit(data, i))
  }

  /** The row that tuple bytes stand for under a schema, or failure. */
  ghost function Meaning(s: Schema, data: Bytes): Result<Row> {
    if |data| < TupleHeader.SIZE then Failure
    else
      var h := HeaderOf(data[..TupleHeader.SIZE]);
      var hoff := TupleHeader.SIZE + BitmapSize(|s|, h.HasNull());
      if h.columns != |s| || h.hoff != hoff || |data| < hoff then Failure
      else Parse(s, Nulls(|s|, data, h.HasNull()), data, hoff)
  }

  /** The bytes from pos on start with the column data of the row, whose NULLs are as given. */
  ghost predicate ReadsAs(s: Schema, nulls: seq<bool>, data: Bytes, pos: nat, row: Row) {
    && |row| == |s| == |nulls| && (forall i :: 0 <= i < |s| ==> Typed(s[i], row[i]) && nulls[i] == row[i].Null?)
    && pos + |RowData(row)| <= |data| && data[pos..pos + |RowData(row)|] == RowData(row)
  }

  // ---- the round trip ----

  /** Column data followed by anything parses back to the row. */
  lemma {:induction false} ParseData(s: Schema, row: Row, nulls: seq<bool>, data: Bytes, pos: nat)
    requires ReadsAs(s, nulls, data, pos, row)
    ensures |nulls| == |s| && Parse(s, nulls, data, pos) == Success(row)
    decreases |row|
  {
    hide Parse, ColumnData, Typed;
    if s == [] {
      ParseNone(data, pos);
    } else {
      var c := ColumnData(row[0]);
      var rest := RowData(row[1..]);
      HeadAndRest(data, pos, c, rest);
      ParseFirst(s, row, nulls, data, pos);
      ParseData(s[1..], row[1..], nulls[1..], data, pos + |c|);
      assert row == [row[0]] + row[1..];
    }
  }

  lemma ParseNone(data: Bytes, pos: nat)
    ensures Parse([], [], data, pos) == Success([])
  {
  }

  lemma HeadAndRest(data: Bytes, pos: nat, c: Bytes, rest: Bytes)
    requires pos + |c| + |rest| <= |data| && data[pos..pos + |c| + |rest|] == c + rest
    ensures data[pos..pos + |c|] == c && data[pos + |c|..pos + |c| + |rest|] == rest
  {
    var d := data[pos..pos + |c| + |rest|];
    assert d[..|c|] == data[pos..pos + |c|] && d[|c|..] == data[pos + |c|..pos + |c| + |rest|];
  }

  lemma IntHead(i: int64, data: Bytes, pos: nat)
    requires pos + 8 <= |data| && data[pos..pos + 8] == BigEndian.Encode(ToUnsigned(i), 8)
    ensures IntAt(data, pos) == Int(i)
  {
    hide BigEndian.Encode, BigEndian.Decode, Pow256;
    Widths();
    DecodeEncode(ToUnsigned(i), 8);
    SignedRoundTrip(i);
  }

  lemma TextHead(t: Bytes, data: Bytes, pos: nat)
    requires |t| <= 0xFFFF && pos + 2 + |t| <= |data| && data[pos..pos + 2 + |t|] == BigEndian.Encode(|t|, 2) + t
    ensures BigEndian.Decode(data[pos..pos + 2]) == |t| && data[pos + 2..pos + 2 + |t|] == t
  {
    hide BigEndian.Encode, BigEndian.Decode, Pow256;
    Widths();
    HeadAndRest(data, pos, BigEndian.Encode(|t|, 2), t);
    DecodeEncode(|t|, 2);
  }

  /** Parsing the first column leaves the rest to be parsed where its data ends. */
  lemma ParseFirst(s: Schema, row: Row, nulls: seq<bool>, data: Bytes, pos: nat)
    requires |row| == |s| == |nulls| && s != [] && Typed(s[0], row[0]) && nulls[0] == row[0].Null?
    requires pos + |ColumnData(row[0])| <= |data| && data[pos..pos + |ColumnData(row[0])|] == ColumnData(row[0])
    ensures Parse(s, nulls, data, pos) == Prepend(row[0], Parse(s[1..], nulls[1..], data, pos + |ColumnData(row[0])|))
  {
    hide BigEndian.Encode, BigEndian.Decode, IntAt;
    match row[0]
    case Int(i) => IntHead(i, data, pos);
    case Text(t) => TextHead(t, data, pos);
    case _ =>
  }

  /** A column whose data is cut off does not parse. */
  lemma ParseFirstCut(s: Schema, row: Row, nulls: seq<bool>, data: Bytes, pos: nat)
    requires |row| == |s| == |nulls| && s != [] && Typed(s[0], row[0]) && nulls[0] == row[0].Null?
    requires pos <= |data| < pos + |ColumnData(row[0])| && data[pos..] == ColumnData(row[0])[..|data| - pos]
    ensures Parse(s, nulls, data, pos) == Failure
  {
    match row[0]
    case Text(t) =>
      if pos + 2 <= |data| {
        Widths();
        DecodeEncode(|t|, 2);
        assert data[pos..pos + 2] == data[pos..][..2] == BigEndian.Encode(|t|, 2);
      }
    case _ =>
  }

  /** Column data cut short anywhere does not parse. */
  lemma {:induction false} ParseCut(s: Schema, row: Row, nulls: seq<bool>, data: Bytes, pos: nat)
    requires |row| == |s| == |nulls| && forall i :: 0 <= i < |s| ==> Typed(s[i], row[i]) && nulls[i] == row[i].Null?
    requires pos <= |data| < pos + |RowData(row)| && data[pos..] == RowData(row)[..|data| - pos]
    ensures Parse(s, nulls, data, pos) == Failure
    decreases |row|
  {
    hide Parse, ColumnData;
    var c, rest := ColumnData(row[0]), RowData(row[1..]);
    if |data| < pos + |c| {
      assert (c + rest)[..|data| - pos] == c[..|data| - pos];
      ParseFirstCut(s, row, nulls, data, pos);
    } else {
      CutInRest(data, pos, c, rest);
      ParseFirst(s, row, nulls, data, pos);
      ParseCut(s[1..], row[1..], nulls[1..], data, pos + |c|);
    }
  }

  lemma CutInRest(data: Bytes, pos: nat, c: Bytes, rest: Bytes)
    requires pos + |c| <= |data| <= pos + |c| + |rest| && data[pos..] == (c + rest)[..|data| - pos]
    ensures data[pos..pos + |c|] == c && data[pos + |c|..] == rest[..|data| - pos - |c|]
  {
    var d := data[pos..];
    assert data[pos..pos + |c|] == d[..|c|] == c;
    assert data[pos + |c|..] == d[|c|..] == rest[..|data| - pos - |c|];
  }

  /** The null bits depend on the head of the tuple alone. */
  lemma SameNulls(row: Row, b: Bytes, data: Bytes)
    requires var hoff := TupleHeader.SIZE + BitmapSize(|row|, true);
      hoff <= |b| && hoff <= |data| && data[..hoff] == b[..hoff]
    requires forall i :: 0 <= i < |row| ==> (NullBit(b, i) <==> row[i].Null?)
    ensures forall i :: 0 <= i < |row| ==> Nulls(|row|, data, true)[i] == row[i].Null?
  {
    hide Bit;
    forall i | 0 <= i < |row| ensures Nulls(|row|, data, true)[i] == row[i].Null? {
      var hoff, j := TupleHeader.SIZE + BitmapSize(|row|, true), TupleHeader.SIZE + i / 8;
      assert data[j] == data[..hoff][j] && b[j] == b[..hoff][j];
      assert NullBit(data, i) == NullBit(b, i);
    }
  }

  /** The header and the null bitmap of an encoding are read the same whatever follows them. */
  lemma SameHead(s: Schema, row: Row, b: Bytes, data: Bytes)
    requires Acceptable(s, row) && |s| < 0x1_0000 && Encodes(row, b)
    requires var hoff := TupleHeader.SIZE + BitmapSize(|s|, SomeNull(row)); |data| >= hoff && data[..hoff] == b[..hoff]
    ensures var hoff := TupleHeader.SIZE + BitmapSize(|s|, SomeNull(row));
      && |Nulls(|s|, data, SomeNull(row))| == |s|
      && Meaning(s, data) == Parse(s, Nulls(|s|, data, SomeNull(row)), data, hoff)
      && forall i :: 0 <= i < |s| ==> Nulls(|s|, data, SomeNull(row))[i] == row[i].Null?
  {
    hide Parse, RowData, HeaderOf, NullBit;
    var hoff := TupleHeader.SIZE + BitmapSize(|s|, SomeNull(row));
    assert data[..TupleHeader.SIZE] == data[..hoff][..TupleHeader.SIZE] == b[..TupleHeader.SIZE];
    if SomeNull(row) { SameNulls(row, b, data); }
  }

  lemma CutTail(b: Bytes, m: nat, h: nat)
    requires h <= m <= |b|
    ensures b[..m][..h] == b[..h] && b[..m][h..] == b[h..][..m - h]
  {
  }

  /** Decoding an encoding followed by anything gives the row back. */
  lemma RoundTrip(s: Schema, row: Row, b: Bytes, trailing: Bytes)
    requires Acceptable(s, row) && |s| < 0x1_0000 && Encodes(row, b)
    ensures Meaning(s, b + trailing) == Success(row)
  {
    hide Parse, Meaning;
    var data := b + trailing;
    var hoff := TupleHeader.SIZE + BitmapSize(|s|, SomeNull(row));
    assert data[..hoff] == b[..hoff];
    SameHead(s, row, b, data);
    assert data[hoff..hoff + |RowData(row)|] == b[hoff..];
    ParseData(s, row, Nulls(|s|, data, SomeNull(row)), data, hoff);
  }

  /** Cut off inside the column data, an encoding does not decode. */
  lemma CutColumns(s: Schema, row: Row, b: Bytes, m: nat)
    requires Acceptable(s, row) && |s| < 0x1_0000 && Encodes(row, b)
    requires TupleHeader.SIZE + BitmapSize(|s|, SomeNull(row)) <= m < |b|
    ensures Meaning(s, b[..m]) == Failure
  {
    hide Parse, Meaning, HeaderOf, RowData, NullBit, Typed;
    var hoff := TupleHeader.SIZE + BitmapSize(|s|, SomeNull(row));
    CutTail(b, m, hoff);
    SameHead(s, row, b, b[..m]);
    ParseCut(s, row, Nulls(|s|, b[..m], SomeNull(row)), b[..m], hoff);
  }

  /** Decoding a strict prefix of an encoding fails. */
  lemma PrefixFails(s: Schema, row: Row, b: Bytes, m: nat)
    requires Acceptable(s, row) && |s| < 0x1_0000 && Encodes(row, b) && m < |b|
    ensures Meaning(s, b[..m]) == Failure
  {
    var hoff := TupleHeader.SIZE + BitmapSize(|s|, SomeNull(row));
    var data := b[..m];
    if m >= hoff {
      CutColumns(s, row, b, m);
    } else if m >= TupleHeader.SIZE {
      hide Parse, HeaderOf;
      assert data[..TupleHeader.SIZE] == b[..TupleHeader.SIZE];
      assert hoff < 256;
    }
  }

  /** Under one schema no encoding is a prefix of another row's encoding. */
  lemma PrefixFree(s: Schema, r1: Row, b1: Bytes, r2: Row, b2: Bytes)
    requires |s| < 0x1_0000 && Acceptable(s, r1) && Encodes(r1, b1) && Acceptable(s, r2) && Encodes(r2, b2)
    requires b1 <= b2
    ensures r1 == r2 && b1 == b2
  {
    hide Meaning, Encodes, Acceptable;
    var trailing := b2[|b1|..];
    assert b2 == b1 + trailing && b2 + [] == b2;
    RoundTrip(s, r1, b1, trailing);
    RoundTrip(s, r2, b2, []);
    if |b1| < |b2| {
      PrefixFails(s, r2, b2, |b1|);
      assert b2[..|b1|] == b1 && b1 + [] == b1;
      RoundTrip(s, r1, b1, []);
    }
  }

  /**
    * The column count is cut to 16 bits before it is checked, so a schema of 65536 or more columns
    * can be accepted; what Encode then writes is never decoded. That is the only way it fails.
    */
  lemma RoundTripExactly(s: Schema, row: Row, b: Bytes)
    requires Acceptable(s, row) && Encodes(row, b)
    ensures Meaning(s, b) == (if |s| < 0x1_0000 then Success(row) else Failure)
  {
    if |s| < 0x1_0000 {
      RoundTrip(s, row, b, []);
      assert b + [] == b;
    } else {
      hide Parse, HeaderOf;
      assert |s| % 0x1_0000 != |s|;
    }
  }

  /** A row of 65536 NULLs is accepted and lost. */
  lemma WideRowIsLost(b: Bytes)
    ensures var s := seq(0x1_0000, _ => Column("c", IntType, true));
      var row := seq(0x1_0000, _ => Null);
      Acceptable(s, row) && (Encodes(row, b) ==> Meaning(s, b) == Failure)
  {
    hide Encodes, Meaning;
    var s := seq(0x1_0000, _ => Column("c", IntType, true));
    var row := seq(0x1_0000, _ => Null);
    if Encodes(row, b) { RoundTripExactly(s, row, b); }
  }

  /** A row has one encoding. */
  lemma OneEncoding(row: Row, b: Bytes, b': Bytes)
    requires Encodes(row, b) && Encodes(row, b')
    ensures b == b'
  {
    hide RowData, HeaderOf, NullBit;
    var hoff := TupleHeader.SIZE + BitmapSize(|row|, SomeNull(row));
    assert b[..TupleHeader.SIZE][11] == b[11] && b'[..TupleHeader.SIZE][11] == b'[11];
    HeaderDetermined(b[..TupleHeader.SIZE], b'[..TupleHeader.SIZE]);
    forall i | 0 <= i < hoff ensures b[i] == b'[i] {
      if i < TupleHeader.SIZE {
        assert b[i] == b[..TupleHeader.SIZE][i] && b'[i] == b'[..TupleHeader.SIZE][i];
      } else {
        SameBitmapByte(row, b, b', i);
      }
    }
    assert b[..hoff] == b'[..hoff];
    assert b == b[..hoff] + b[hoff..] && b' == b'[..hoff] + b'[hoff..];
  }

  lemma SameBitmapByte(row: Row, b: Bytes, b': Bytes, i: nat)
    requires TupleHeader.SIZE <= i < TupleHeader.SIZE + BitmapSize(|row|, true) && i < |b| && i < |b'|
    requires forall j :: 0 <= j < 8 * BitmapSize(|row|, true) ==> NullBit(b, j) == NullBit(b', j)
    ensures b[i] == b'[i]
  {
    hide Bit;
    forall k | 0 <= k < 8 ensures Bit(b[i], k) == Bit(b'[i], k) {
      var j := 8 * (i - TupleHeader.SIZE) + k;
      assert j / 8 == i - TupleHeader.SIZE && j % 8 == k;
      assert NullBit(b, j) == NullBit(b', j);
    }
    SameByte(b[i], b'[i]);
  }

  // ---- what decodes ----

  lemma IntBack(data: Bytes, pos: nat)
    requires pos + 8 <= |data|
    ensures ColumnData(IntAt(data, pos)) == data[pos..pos + 8]
  {
    hide BigEndian.Decode, BigEndian.Encode, Pow256;
    Widths();
    EncodeDecode(data[pos..pos + 8]);
  }

  lemma TextBack(data: Bytes, pos: nat, n: nat)
    requires pos + 2 + n <= |data| && n == BigEndian.Decode(data[pos..pos + 2])
    ensures n <= 0xFFFF && ColumnData(Text(data[pos + 2..pos + 2 + n])) == data[pos..pos + 2 + n]
  {
    hide BigEndian.Decode, BigEndian.Encode, Pow256;
    Widths();
    EncodeDecode(data[pos..pos + 2]);
    JoinSlices(data, pos, pos + 2, pos + 2 + n);
  }

  /** What one column parsed to is what its bytes encode. */
  lemma HeadBack(s: Schema, nulls: seq<bool>, data: Bytes, pos: nat) returns (v: Value)
    requires s != [] && |nulls| == |s| && pos <= |data| && Parse(s, nulls, data, pos).Success?
    ensures HeadReads(s, nulls, data, pos, v)
  {
    hide ColumnData, IntAt, BigEndian.Decode;
    v := Null;
    if nulls[0] {
      NullBack(data, pos);
    } else {
      match s[0].typ
      case IntType =>
        v := IntAt(data, pos);
        IntBack(data, pos);
        IsInt(data, pos);
      case TextType =>
        var n := BigEndian.Decode(data[pos..pos + 2]);
        v := Text(data[pos + 2..pos + 2 + n]);
        TextBack(data, pos, n);
    }
  }

  lemma NullBack(data: Bytes, pos: nat)
    requires pos <= |data|
    ensures ColumnData(Null) == [] == data[pos..pos]
  {
  }

  lemma IsInt(data: Bytes, pos: nat)
    requires pos + 8 <= |data|
    ensures IntAt(data, pos).Int?
  {
  }

  lemma JoinSlices(b: Bytes, x: nat, y: nat, z: nat)
    requires x <= y <= z <= |b|
    ensures b[x..y] + b[y..z] == b[x..z]
  {
  }

  ghost predicate HeadReads(s: Schema, nulls: seq<bool>, data: Bytes, pos: nat, v: Value)
    requires s != [] && |nulls| == |s|
  {
    && Typed(s[0], v) && nulls[0] == v.Null?
    && pos + |ColumnData(v)| <= |data| && data[pos..pos + |ColumnData(v)|] == ColumnData(v)
    && Parse(s, nulls, data, pos) == Prepend(v, Parse(s[1..], nulls[1..], data, pos + |ColumnData(v)|))
  }

  /** A row that parses is the one whose column data is there. */
  lemma {:induction false} ParseBack(s: Schema, nulls: seq<bool>, data: Bytes, pos: nat, row: Row)
    requires |nulls| == |s| && pos <= |data| && Parse(s, nulls, data, pos) == Success(row)
    ensures ReadsAs(s, nulls, data, pos, row)
    decreases |s|
  {
    hide Parse, ReadsAs;
    if s == [] {
      ParseNone(data, pos);
      ReadsNone(data, pos);
    } else {
      var v := HeadBack(s, nulls, data, pos);
      var next := pos + |ColumnData(v)|;
      var rest := Parse(s[1..], nulls[1..], data, next).value;
      ParseBack(s[1..], nulls[1..], data, next, rest);
      ReadsMore(s, nulls, data, pos, v, rest);
    }
  }

  lemma ReadsNone(data: Bytes, pos: nat)
    requires pos <= |data|
    ensures ReadsAs([], [], data, pos, [])
  {
  }

  lemma ReadsMore(s: Schema, nulls: seq<bool>, data: Bytes, pos: nat, v: Value, rest: Row)
    requires s != [] && |nulls| == |s| && HeadReads(s, nulls, data, pos, v)
    requires ReadsAs(s[1..], nulls[1..], data, pos + |ColumnData(v)|, rest)
    ensures ReadsAs(s, nulls, data, pos, [v] + rest)
  {
    hide ColumnData, Typed, Parse;
    var row, next := [v] + rest, pos + |ColumnData(v)|;
    assert row[1..] == rest;
    JoinSlices(data, pos, next, next + |RowData(rest)|);
    forall i | 0 <= i < |s| ensures Typed(s[i], row[i]) && nulls[i] == row[i].Null? {
      if i > 0 { assert s[1..][i - 1] == s[i] && nulls[1..][i - 1] == nulls[i]; }
    }
  }

  /** Exactly when bytes decode, and to what: a consistent header, then the row's column data. */
  lemma DecodesExactly(s: Schema, data: Bytes, row: Row)
    ensures Meaning(s, data) == Success(row) <==>
      && |data| >= TupleHeader.SIZE
      && var h := HeaderOf(data[..TupleHeader.SIZE]); var hoff := TupleHeader.SIZE + BitmapSize(|s|, h.HasNull());
      && h.columns == |s| && h.hoff == hoff <= |data|
      && ReadsAs(s, Nulls(|s|, data, h.HasNull()), data, hoff, row)
  {
    hide Parse, HeaderOf, ReadsAs, Header.HasNull;
    if |data| >= TupleHeader.SIZE {
      var h := HeaderOf(data[..TupleHeader.SIZE]);
      var hoff := TupleHeader.SIZE + BitmapSize(|s|, h.HasNull());
      var nulls := Nulls(|s|, data, h.HasNull());
      if ReadsAs(s, nulls, data, hoff, row) { ParseData(s, row, nulls, data, hoff); }
      if hoff <= |data| && Parse(s, nulls, data, hoff) == Success(row) { ParseBack(s, nulls, data, hoff, row); }
    }
  }

  // ---- the code: Encode ----

  lemma {:induction false} RowDataSplit(a: Row, b: Row)
    ensures RowData(a + b) == RowData(a) + RowData(b)
  {
    hide ColumnData;
    if a == [] {
      assert a + b == b;
    } else {
      RowDataSplit(a[1..], b);
      assert (a + b)[0] == a[0] && (a + b)[1..] == a[1..] + b;
      Assoc(ColumnData(a[0]), RowData(a[1..]), RowData(b));
    }
  }

  lemma NoData(row: Row)
    ensures RowData(row[..0]) == []
  {
  }

  lemma RowDataStep(row: Row, i: nat)
    requires i < |row|
    ensures RowData(row[..i + 1]) == RowData(row[..i]) + ColumnData(row[i])
    ensures |RowData(row)| >= |RowData(row[..i + 1])|
  {
    hide ColumnData;
    assert row[..i + 1] == row[..i] + [row[i]] && row == row[..i + 1] + row[i + 1..];
    RowDataSplit(row[..i], [row[i]]);
    RowDataSplit(row[..i + 1], row[i + 1..]);
    assert [row[i]][1..] == [];
  }

  /** Checks every value against its column and sizes the column data. */
  method Validate(s: Schema, row: Row) returns (ok: bool, hasNull: bool, dataLen: nat)
    requires |row| == |s|
    ensures ok <==> forall i :: 0 <= i < |s| ==> Fits(s[i], row[i])
    ensures !ok <==>
      exists i :: 0 <= i < |s| && (
        || (row[i] == Null && !s[i].nullable) || (row[i].Int? && s[i].typ != IntType)
        || (row[i].Text? && (s[i].typ != TextType || |row[i].bytes| > 65535)) || row[i] == Other)
    ensures ok ==> hasNull == SomeNull(row) && dataLen == |RowData(row)|
  {
    hide RowData;
    ok, hasNull, dataLen := true, false, 0;
    NoData(row);
    for i := 0 to |s|
      invariant ok && forall j :: 0 <= j < i ==> Fits(s[j], row[j])
      invariant hasNull <==> exists j :: 0 <= j < i && row[j].Null?
      invariant dataLen == |RowData(row[..i])|
    {
      RowDataStep(row, i);
      var v := row[i];
      if v.Null? {
        if !s[i].nullable { ok := false; return; }
        hasNull := true;
      } else {
        match s[i].typ
        case IntType =>
          if !v.Int? { ok := false; return; }
          dataLen := dataLen + 8;
        case TextType =>
          if !v.Text? { ok := false; return; }
          if |v.bytes| > 0xFFFF { ok := false; return; }
          dataLen := dataLen + 2 + |v.bytes|;
        case UnknownType(_) =>
          ok := false;
          return;
      }
    }
    assert row[..|s|] == row;
  }

  /** A row is refused for its length, for too many columns in 16 bits, or for a value its column does not take. */
  method Encode(s: Schema, row: Row) returns (res: Result<Bytes>)
    ensures res.Success? <==> Acceptable(s, row)
    ensures res.Failure? <==>
      || |row| != |s| || |s| % 0x1_0000 >= 1024
      || (exists i :: 0 <= i < |s| && (
            || (row[i] == Null && !s[i].nullable) || (row[i].Int? && s[i].typ != IntType)
            || (row[i].Text? && (s[i].typ != TextType || |row[i].bytes| > 65535)) || row[i] == Other))
    ensures res.Success? ==> Encodes(row, res.value)
  {
    hide RowData, HeaderOf, NullBit;
    if |row| != |s| { return Failure; }
    var ok, hasNull, dataLen := Validate(s, row);
    if !ok { return Failure; }
    var hoff := TupleHeader.SIZE + BitmapSize(|s|, hasNull);
    var buf := new byte[hoff + dataLen](_ => 0);
    ZeroHeader(buf[..TupleHeader.SIZE]);
    ok := SetColumnCount(buf, |s| % 0x1_0000);
    if !ok { return Failure; }
    SetHoff(buf, hoff % 256);
    if hasNull { ok := SetFlags(buf, HAS_NULL); }
    assert forall i :: TupleHeader.SIZE <= i < hoff ==> buf[i] == buf[TupleHeader.SIZE..][i - TupleHeader.SIZE] == 0;
    ghost var head := buf[..TupleHeader.SIZE];
    WriteBitmap(buf, row, hoff);
    ghost var body := buf[..hoff];
    WriteColumns(buf, s, row, hoff);
    assert buf[..][..TupleHeader.SIZE] == body[..TupleHeader.SIZE] == head;
    assert buf[..][11] == head[11] == 0;
    if hasNull { SameNullBits(body, buf[..], |row|); }
    res := Success(buf[..]);
  }

  lemma {:induction false} ZeroRun(b: Bytes, off: nat, n: nat)
    requires off + n <= 8 * |b| && forall i :: 0 <= i < |b| ==> b[i] == 0
    ensures RunValue(b, off, n) == 0
    decreases n
  {
    if n > 0 {
      ZeroRun(b, off, n - 1);
      ZeroBit(7 - (off + n - 1) % 8);
    }
  }

  lemma ZeroHeader(h: Bytes)
    requires |h| == TupleHeader.SIZE && forall i :: 0 <= i < |h| ==> h[i] == 0
    ensures HeaderOf(h) == Header(0, 0, 0, 0, 0)
  {
    ZeroDecode(h[0..4]);
    ZeroDecode(h[4..8]);
    ZeroRun(h, FLAGS_POS, 6);
    ZeroRun(h, COLUMNS_POS, 10);
  }

  /** Two tuples that agree up to the end of the bitmap have the same null bits. */
  lemma SameNullBits(b: Bytes, b': Bytes, n: nat)
    requires TupleHeader.SIZE + BitmapSize(n, true) == |b| <= |b'| && b'[..|b|] == b
    ensures forall i :: 0 <= i < 8 * BitmapSize(n, true) ==> NullBit(b', i) == NullBit(b, i)
  {
    hide Bit;
    forall i | 0 <= i < 8 * BitmapSize(n, true) ensures NullBit(b', i) == NullBit(b, i) {
      var j := TupleHeader.SIZE + i / 8;
      assert b'[j] == b'[..|b|][j];
    }
  }

  /** y is x with bit k set. */
  ghost predicate SetsBit(x: byte, y: byte, k: nat) {
    forall j :: 0 <= j < 8 ==> (Bit(y, j) <==> Bit(x, j) || j == k)
  }

  /** Bit k of byte x set to one. */
  lemma SetOneBit(x: byte, k: nat)
    requires k < 8
    ensures Or(x, Shl(1, k)) < 256 && SetsBit(x, Or(x, Shl(1, k)), k)
  {
    var y := Or(x, Shl(1, k));
    Powers();
    forall j: nat ensures Bit(y, j) <==> Bit(x, j) || j == k {
      OrBit(x, Shl(1, k), j);
      ShlBit(1, k, j);
      if j > k { ZeroBit(j - k - 1); }
    }
    forall j: nat | j >= 8 ensures !Bit(y, j) { NoHighBit(x, 8, j); }
    OnlyLowBits(y, 8);
  }

  method WriteBitmap(buf: array<byte>, row: Row, hoff: nat)
    requires hoff == TupleHeader.SIZE + BitmapSize(|row|, SomeNull(row)) && hoff <= buf.Length
    requires forall i :: TupleHeader.SIZE <= i < hoff ==> buf[i] == 0
    modifies buf
    ensures buf[..TupleHeader.SIZE] == old(buf[..TupleHeader.SIZE])
    ensures SomeNull(row) ==>
      forall i :: 0 <= i < 8 * BitmapSize(|row|, true) ==> (NullBit(buf[..hoff], i) <==> i < |row| && row[i].Null?)
  {
    hide Bit, SetsBit, Or, Shl;
    forall k: nat ensures !Bit(0, k) { ZeroBit(k); }
    for i := 0 to |row|
      invariant buf[..TupleHeader.SIZE] == old(buf[..TupleHeader.SIZE])
      invariant SomeNull(row) ==>
        forall j :: 0 <= j < 8 * BitmapSize(|row|, true) ==> (NullBit(buf[..hoff], j) <==> j < i && row[j].Null?)
    {
      if row[i].Null? {
        ghost var was := buf[..hoff];
        var at := TupleHeader.SIZE + i / 8;
        SetOneBit(buf[at], i % 8);
        buf[at] := Or(buf[at], Shl(1, i % 8));
        BitmapStep(was, buf[..hoff], |row|, i, at);
      }
    }
  }

  lemma BitmapStep(b: Bytes, b': Bytes, n: nat, i: nat, at: nat)
    requires i < n && |b| == |b'| == TupleHeader.SIZE + BitmapSize(n, true) && at == TupleHeader.SIZE + i / 8
    requires (forall j :: 0 <= j < |b| && j != at ==> b'[j] == b[j]) && SetsBit(b[at], b'[at], i % 8)
    ensures forall j :: 0 <= j < 8 * BitmapSize(n, true) ==> (NullBit(b', j) <==> NullBit(b, j) || j == i)
  {
    hide SetsBit, Bit;
    forall j | 0 <= j < 8 * BitmapSize(n, true) ensures NullBit(b', j) <==> NullBit(b, j) || j == i {
      if j / 8 == i / 8 {
        BitOf(b[at], b'[at], i % 8, j % 8);
        assert j % 8 == i % 8 <==> j == i by { assert j == 8 * (i / 8) + j % 8 && i == 8 * (i / 8) + i % 8; }
      } else {
        assert b'[TupleHeader.SIZE + j / 8] == b[TupleHeader.SIZE + j / 8];
      }
    }
  }

  lemma BitOf(x: byte, y: byte, k: nat, j: nat)
    requires SetsBit(x, y, k) && j < 8
    ensures Bit(y, j) <==> Bit(x, j) || j == k
  {
  }

  method WriteColumns(buf: array<byte>, s: Schema, row: Row, hoff: nat)
    requires |row| == |s| && forall i :: 0 <= i < |s| ==> Fits(s[i], row[i])
    requires buf.Length == hoff + |RowData(row)|
    modifies buf
    ensures buf[..hoff] == old(buf[..hoff]) && buf[hoff..] == RowData(row)
  {
    hide RowData;
    var pos := hoff;
    NoData(row);
    for i := 0 to |s|
      invariant pos == hoff + |RowData(row[..i])| <= buf.Length
      invariant buf[..hoff] == old(buf[..hoff]) && buf[hoff..pos] == RowData(row[..i])
    {
      RowDataStep(row, i);
      var v := row[i];
      if !v.Null? {
        pos := WriteColumn(buf, s[i], v, hoff, pos);
      }
    }
    assert row[..|s|] == row;
  }

  /** Appends one non-null column at pos. */
  method WriteColumn(buf: array<byte>, c: Column, v: Value, hoff: nat, pos: nat) returns (next: nat)
    requires Fits(c, v) && !v.Null? && hoff <= pos && pos + |ColumnData(v)| <= buf.Length
    modifies buf
    ensures next == pos + |ColumnData(v)|
    ensures buf[..hoff] == old(buf[..hoff]) && buf[hoff..next] == old(buf[hoff..pos]) + ColumnData(v)
  {
    hide Splice, BigEndian.Encode;
    ghost var was := buf[..];
    SpliceAppends(was, hoff, pos, ColumnData(v));
    match c.typ
    case IntType =>
      BigEndian.Write(buf, pos, 8, ToUnsigned(v.i));
      next := pos + 8;
    case TextType =>
      var str := v.bytes;
      BigEndian.Write(buf, pos, 2, |str|);
      next := pos + 2;
      SpliceTwice(was, pos, BigEndian.Encode(|str|, 2), str);
      BigEndian.Copy(buf, next, str);
      next := next + |str|;
  }

  // ---- the code: Decode ----

  function After(done: Row, r: Result<Row>): Result<Row> {
    match r
    case Success(rest) => Success(done + rest)
    case Failure => Failure
  }

  lemma AfterPrepend(done: Row, v: Value, r: Result<Row>)
    ensures After(done, Prepend(v, r)) == After(done + [v], r)
  {
    match r
    case Success(rest) => assert done + ([v] + rest) == done + [v] + rest;
    case Failure =>
  }

  lemma AfterNone(r: Result<Row>, done: Row)
    ensures After([], r) == r && After(done, Success([])) == Success(done)
  {
    assert done + [] == done;
    match r
    case Success(rest) => assert [] + rest == rest;
    case Failure =>
  }

  method Decode(s: Schema, data: Bytes) returns (res: Result<Row>)
    ensures res == Meaning(s, data)
  {
    hide Parse, HeaderOf, NullBit;
    if |data| < TupleHeader.SIZE { return Failure; }
    var h := data[..TupleHeader.SIZE];
    var columns := ColumnCount(h);
    if columns != |s| { return Failure; }
    var hasNull := TupleHeader.HasNull(h);
    var hoff := TupleHeader.SIZE + BitmapSize(|s|, hasNull);
    var stored := Hoff(h);
    if stored != hoff { return Failure; }
    if |data| < hoff { return Failure; }
    res := ReadColumns(s, data, hasNull, hoff);
  }

  method ReadColumns(s: Schema, data: Bytes, hasNull: bool, hoff: nat) returns (res: Result<Row>)
    requires hoff == TupleHeader.SIZE + BitmapSize(|s|, hasNull) <= |data|
    ensures res == Parse(s, Nulls(|s|, data, hasNull), data, hoff)
  {
    hide Bit, And, Shl;
    ghost var nulls := Nulls(|s|, data, hasNull);
    var row: Row := [];
    var pos := hoff;
    assert s[0..] == s && nulls[0..] == nulls;
    AfterNone(Parse(s, nulls, data, hoff), []);
    for i := 0 to |s|
      invariant Parse(s, nulls, data, hoff) == After(row, Parse(s[i..], nulls[i..], data, pos))
    {
      var isNull := false;
      if hasNull {
        TestBit(data[TupleHeader.SIZE + i / 8], i % 8);
        isNull := And(data[TupleHeader.SIZE + i / 8], Shl(1, i % 8)) != 0;
      }
      assert s[i..][1..] == s[i + 1..] && nulls[i..][1..] == nulls[i + 1..];
      var ok, v, next := ReadColumn(s[i..], nulls[i..], data, pos, isNull);
      if !ok { return Failure; }
      AfterPrepend(row, v, Parse(s[i + 1..], nulls[i + 1..], data, next));
      row, pos := row + [v], next;
    }
    AfterNone(Failure, row);
    res := Success(row);
  }

  /** Reads the first of the remaining columns at pos. */
  method ReadColumn(s: Schema, ghost nulls: seq<bool>, data: Bytes, pos: nat, isNull: bool)
    returns (ok: bool, v: Value, next: nat)
    requires s != [] && |nulls| == |s| && nulls[0] == isNull
    ensures Parse(s, nulls, data, pos) ==
      if ok then Prepend(v, Parse(s[1..], nulls[1..], data, next)) else Failure
  {
    ok, v, next := true, Null, pos;
    if isNull { return; }
    match s[0].typ
    case IntType =>
      if pos + 8 > |data| { ok := false; return; }
      v, next := IntAt(data, pos), pos + 8;
    case TextType =>
      if pos + 2 > |data| { ok := false; return; }
      var n := BigEndian.Decode(data[pos..pos + 2]);
      next := pos + 2;
      if next + n > |data| { ok := false; return; }
      v, next := Text(data[next..next + n]), next + n;
    case UnknownType(_) =>
      ok := false;
  }
}
