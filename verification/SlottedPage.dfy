/**
  * The slotted page: a slot directory that grows up from the header and tuple data that grows down
  * from the end of the page. `upper` ends the directory and `lower` starts the data.
  */
module SlottedPage {
  import opened Pages
  import opened BigEndian
  import opened SlotEntry

  const HEADER_SIZE := 24
  const LOWER_POS := 12
  const UPPER_POS := 14
  const PAGESIZE_POS := 18

  function U16(b: Bytes, pos: nat): (v: nat)
    requires pos + 2 <= |b|
    ensures v < 0x1_0000
  {
    Widths();
    BigEndian.Decode(b[pos..pos + 2])
  }

  function Lower(b: Bytes): nat
    requires |b| == PAGE_SIZE
  {
    U16(b, LOWER_POS)
  }

  function Upper(b: Bytes): nat
    requires |b| == PAGE_SIZE
  {
    U16(b, UPPER_POS)
  }

  /** The number of slots: the directory runs from the header to `upper`. */
  ghost function Count(b: Bytes): (n: nat)
    requires |b| == PAGE_SIZE
    ensures HEADER_SIZE + 4 * n <= |b|
  {
    if HEADER_SIZE <= Upper(b) <= |b| then (Upper(b) - HEADER_SIZE) / 4 else 0
  }

  ghost function SlotAt(b: Bytes, i: nat): Slot
    requires HEADER_SIZE + 4 * i + 4 <= |b|
  {
    SlotOf(b[HEADER_SIZE + 4 * i..HEADER_SIZE + 4 * i + 4])
  }

  /** The first n entries of the directory. */
  ghost function Slots(b: Bytes, n: nat): (s: seq<Slot>)
    requires HEADER_SIZE + 4 * n <= |b|
    ensures |s| == n && forall i :: 0 <= i < n ==> s[i] == SlotAt(b, i)
  {
    seq(n, i requires 0 <= i < n => SlotAt(b, i))
  }

  /** Where the tuple of slot i ends: where the one before it starts, or the end of the page. */
  function EndOf(slots: seq<Slot>, i: nat): nat
    requires i <= |slots|
  {
    if i == 0 then PAGE_SIZE else slots[i - 1].offset
  }

  /** The tuple of slot i runs up to that end. */
  ghost predicate Abuts(slots: seq<Slot>, i: nat)
    requires i < |slots|
  {
    slots[i].offset + slots[i].length == EndOf(slots, i)
  }

  /** The slots' tuples lie one against the next, from the end of the page down to `lower`. */
  ghost predicate Tiled(slots: seq<Slot>, lower: nat) {
    (forall i :: 0 <= i < |slots| ==> Abuts(slots, i)) && lower == EndOf(slots, |slots|)
  }

  /** A page in the slotted format. */
  ghost predicate Formatted(b: Bytes) {
    && |b| == PAGE_SIZE && Upper(b) == HEADER_SIZE + 4 * Count(b) <= Lower(b) <= PAGE_SIZE
    && Tiled(Slots(b, Count(b)), Lower(b))
  }

  function Cut(b: Bytes, offset: nat, length: nat): (t: Bytes)
    ensures offset + length <= |b| ==> |t| == length
  {
    if offset + length <= |b| then b[offset..offset + length] else []
  }

  /** The tuple that slot i points at. */
  ghost function TupleAt(b: Bytes, i: nat): Bytes
    requires HEADER_SIZE + 4 * i + 4 <= |b|
  {
    Cut(b, SlotAt(b, i).offset, SlotAt(b, i).length)
  }

  /** The tuples of the page, in slot order. */
  ghost function Tuples(b: Bytes): (t: seq<Bytes>)
    requires |b| == PAGE_SIZE
    ensures |t| == Count(b) && forall i :: 0 <= i < |t| ==> t[i] == TupleAt(b, i)
  {
    seq(Count(b), i requires 0 <= i < Count(b) => TupleAt(b, i))
  }

  function Free(b: Bytes): int
    requires |b| == PAGE_SIZE
  {
    Lower(b) - Upper(b)
  }

  // ---- tiling ----

  /** Tuple ends never rise with the slot number. */
  lemma {:induction false} EndsFall(slots: seq<Slot>, lower: nat, i: nat, j: nat)
    requires Tiled(slots, lower) && i <= j <= |slots|
    ensures EndOf(slots, j) <= EndOf(slots, i)
    decreases j
  {
    if i < j {
      EndsFall(slots, lower, i, j - 1);
      assert Abuts(slots, j - 1);
    }
  }

  lemma InDataArea(b: Bytes, i: nat)
    requires Formatted(b) && i < Count(b)
    ensures Lower(b) <= SlotAt(b, i).offset && SlotAt(b, i).offset + SlotAt(b, i).length <= PAGE_SIZE
  {
    hide Upper, Lower, SlotAt, Count;
    var s := Slots(b, Count(b));
    assert Abuts(s, i);
    EndsFall(s, Lower(b), i + 1, |s|);
    EndsFall(s, Lower(b), 0, i);
  }

  /** No two tuples share a byte, and every tuple is inside the data area. */
  lemma NoOverlap(b: Bytes, i: nat, j: nat)
    requires Formatted(b) && i < j < Count(b)
    ensures Upper(b) <= Lower(b) <= SlotAt(b, j).offset
    ensures SlotAt(b, j).offset + SlotAt(b, j).length <= SlotAt(b, i).offset
    ensures SlotAt(b, i).offset + SlotAt(b, i).length <= PAGE_SIZE
  {
    hide Upper, Lower, SlotAt, Count;
    var s := Slots(b, Count(b));
    InDataArea(b, i);
    InDataArea(b, j);
    assert Abuts(s, j);
    EndsFall(s, Lower(b), i + 1, j);
  }

  function Stack(ts: seq<Bytes>): (b: Bytes) {
    if ts == [] then [] else ts[|ts| - 1] + Stack(ts[..|ts| - 1])
  }

  function Total(ts: seq<Bytes>): nat {
    if ts == [] then 0 else |ts[|ts| - 1]| + Total(ts[..|ts| - 1])
  }

  lemma StackMore(ts: seq<Bytes>, m: nat)
    requires m < |ts|
    ensures Stack(ts[..m + 1]) == ts[m] + Stack(ts[..m]) && Total(ts[..m + 1]) == |ts[m]| + Total(ts[..m])
  {
    assert ts[..m + 1][..m] == ts[..m];
  }

  /** The first m tuples, stacked, are the page from the last of them on. */
  lemma {:induction false} StackIsTail(b: Bytes, m: nat)
    requires Formatted(b) && m <= Count(b)
    ensures var e := EndOf(Slots(b, Count(b)), m);
      e <= PAGE_SIZE && b[e..] == Stack(Tuples(b)[..m]) && PAGE_SIZE - e == Total(Tuples(b)[..m])
    decreases m
  {
    hide Upper, Lower, SlotAt, Count;
    if m > 0 {
      StackIsTail(b, m - 1);
      StackMore(Tuples(b), m - 1);
      InDataArea(b, m - 1);
      var s := Slots(b, Count(b));
      assert Abuts(s, m - 1);
      JoinTail(b, EndOf(s, m), EndOf(s, m - 1));
    }
  }

  lemma JoinTail(b: Bytes, x: nat, y: nat)
    requires x <= y <= |b|
    ensures b[x..] == b[x..y] + b[y..]
  {
  }

  /**
    * The tuples fill the data area exactly, the newest first, and header, slots, free space and tuple
    * bytes together are the page.
    */
  lemma Tiling(b: Bytes)
    requires Formatted(b)
    ensures b[Lower(b)..] == Stack(Tuples(b))
    ensures HEADER_SIZE + 4 * |Tuples(b)| + Free(b) + Total(Tuples(b)) == PAGE_SIZE
  {
    hide Upper, Lower, SlotAt, Count, TupleAt;
    StackIsTail(b, Count(b));
    assert Tuples(b)[..Count(b)] == Tuples(b);
  }

  // ---- insertion ----

  /** What an insertion leaves, field by field. */
  ghost predicate Inserted(b: Bytes, b': Bytes, data: Bytes) {
    && |b| == PAGE_SIZE == |b'| && HEADER_SIZE <= Upper(b) <= Lower(b) - |data| - 4 && Lower(b) <= PAGE_SIZE
    && var up, lo, at := Upper(b), Lower(b), Lower(b) - |data|;
    && Upper(b') == up + 4 && Lower(b') == at
    && b'[HEADER_SIZE..up] == b[HEADER_SIZE..up]
    && SlotOf(b'[up..up + 4]).offset == at && SlotOf(b'[up..up + 4]).length == |data|
    && b'[at..lo] == data && b'[lo..PAGE_SIZE] == b[lo..PAGE_SIZE]
    && SlotOf(b'[up..up + 4]).flag == SlotOf(b[up..up + 4]).flag && SameElsewhere(b, b', up, at, lo)
  }

  /** Nothing but the two boundaries, the slot at `up` and the bytes from `at` to `lo` differs. */
  ghost predicate SameElsewhere(b: Bytes, b': Bytes, up: nat, at: nat, lo: nat) {
    && |b| == |b'|
    && forall i :: 0 <= i < |b| && (i < 12 || 16 <= i < up || up + 4 <= i < at || lo <= i) ==> b'[i] == b[i]
  }

  lemma SameSlots(b: Bytes, b': Bytes, n: nat)
    requires |b'| == |b| && HEADER_SIZE + 4 * n <= |b|
    requires b'[HEADER_SIZE..HEADER_SIZE + 4 * n] == b[HEADER_SIZE..HEADER_SIZE + 4 * n]
    ensures Slots(b', n) == Slots(b, n)
  {
    hide SlotOf;
    forall i | 0 <= i < n ensures SlotAt(b', i) == SlotAt(b, i) {
      SameInside(b, b', HEADER_SIZE, HEADER_SIZE + 4 * n, HEADER_SIZE + 4 * i, 4);
    }
  }

  lemma SameInside(b: Bytes, b': Bytes, from: nat, to: nat, o: nat, n: nat)
    requires from <= o && o + n <= to <= |b| && to <= |b'| && b'[from..to] == b[from..to]
    ensures b'[o..o + n] == b[o..o + n]
  {
    forall k | o <= k < o + n ensures b'[k] == b[k] {
      assert b'[k] == b'[from..to][k - from] && b[k] == b[from..to][k - from];
    }
  }

  lemma TiledMore(slots: seq<Slot>, s: Slot, lower: nat)
    requires Tiled(slots, lower) && s.offset + s.length == lower
    ensures Tiled(slots + [s], s.offset)
  {
    var slots' := slots + [s];
    forall i | 0 <= i < |slots'| ensures Abuts(slots', i) {
      assert EndOf(slots', i) == EndOf(slots, i);
      if i < |slots| { assert Abuts(slots, i); }
    }
  }

  lemma InsertedHolds(b: Bytes, b': Bytes, data: Bytes)
    requires Formatted(b) && Inserted(b, b', data)
    ensures Formatted(b') && Count(b') == Count(b) + 1
    ensures Slots(b', Count(b)) == Slots(b, Count(b))
    ensures SlotAt(b', Count(b)).offset == Lower(b) - |data| && SlotAt(b', Count(b)).length == |data|
  {
    hide Upper, Lower, SlotOf, Tiled;
    var n := Count(b);
    SameSlots(b, b', n);
    TiledMore(Slots(b, n), SlotAt(b', n), Lower(b));
    assert Slots(b', n + 1) == Slots(b', n) + [SlotAt(b', n)];
  }

  /** An insertion appends one tuple: the others keep their bytes. */
  lemma InsertedTuples(b: Bytes, b': Bytes, data: Bytes)
    requires Formatted(b) && Inserted(b, b', data)
    ensures Formatted(b') && Tuples(b') == Tuples(b) + [data]
  {
    hide Upper, Lower, SlotAt, SlotOf, Tiled, Count;
    InsertedHolds(b, b', data);
    var n := Count(b);
    forall i | 0 <= i < n ensures Tuples(b')[i] == Tuples(b)[i] {
      InDataArea(b, i);
      assert Slots(b', n)[i] == Slots(b, n)[i];
      SameInside(b, b', Lower(b), PAGE_SIZE, SlotAt(b, i).offset, SlotAt(b, i).length);
    }
    assert TupleAt(b', n) == data;
  }

  // ---- the code ----

  /** Formats the frame as an empty page. */
  method Init(a: array<byte>)
    requires a.Length == PAGE_SIZE
    modifies a
    ensures Formatted(a[..]) && Tuples(a[..]) == [] && Free(a[..]) == 8168
    ensures a[12..20] == [0x20, 0, 0, 24, 0, 0, 0x20, 0]
    ensures forall i :: 0 <= i < 12 || 20 <= i < PAGE_SIZE ==> a[i] == 0
  {
    hide U16;
    forall i | 0 <= i < PAGE_SIZE { a[i] := 0; }
    PutU16(a, UPPER_POS, HEADER_SIZE);
    PutU16(a, LOWER_POS, PAGE_SIZE);
    PutU16(a, PAGESIZE_POS, PAGE_SIZE);
  }

  method PutU16(a: array<byte>, pos: nat, v: nat)
    requires pos + 2 <= HEADER_SIZE <= a.Length && v < 0x1_0000
    modifies a
    ensures U16(a[..], pos) == v && a[pos] == v / 256 && a[pos + 1] == v % 256
    ensures forall i :: 0 <= i < a.Length && i != pos && i != pos + 1 ==> a[i] == old(a[i])
    ensures forall o :: 0 <= o && o + 2 <= a.Length && (o + 2 <= pos || pos + 2 <= o) ==>
      U16(a[..], o) == U16(old(a[..]), o)
    ensures a[HEADER_SIZE..] == old(a[HEADER_SIZE..])
  {
    hide BigEndian.Encode, BigEndian.Decode;
    ghost var b := a[..];
    Widths();
    DecodeEncode(v, 2);
    BigEndian.Write(a, pos, 2, v);
    SpliceInside(b, pos, BigEndian.Encode(v, 2));
    TwoDigits(v);
    assert a[..][pos] == a[..][pos..pos + 2][0] && a[..][pos + 1] == a[..][pos..pos + 2][1];
    forall o | 0 <= o && o + 2 <= a.Length && (o + 2 <= pos || pos + 2 <= o) ensures U16(a[..], o) == U16(b, o) {
      SpliceOutside(b, pos, BigEndian.Encode(v, 2), o, 2);
    }
  }

  lemma TwoDigits(v: nat)
    requires v < 0x1_0000
    ensures BigEndian.Encode(v, 2) == [v / 256, v % 256]
  {
    assert BigEndian.Encode(v / 256, 1) == [v / 256];
  }

  /** The number of slots, computed in 16 bits: on a page whose directory ends inside the header it underflows. */
  method SlotCount(a: array<byte>) returns (n: nat)
    requires a.Length == PAGE_SIZE
    ensures Formatted(a[..]) ==> n == |Tuples(a[..])|
    ensures HEADER_SIZE <= Upper(a[..]) <= PAGE_SIZE ==> n == Count(a[..])
    ensures Upper(a[..]) < HEADER_SIZE ==> 16378 <= n < 0x1_0000 && n > PAGE_SIZE / SlotEntry.SIZE
  {
    hide SlotOf, U16, Tiled;
    SlotNumber(Upper(a[..]));
    n := (Upper(a[..]) - HEADER_SIZE) % 0x1_0000 / SlotEntry.SIZE;
  }

  lemma SlotNumber(upper: nat)
    requires upper < 0x1_0000
    ensures var n := (upper - HEADER_SIZE) % 0x1_0000 / SlotEntry.SIZE;
      if upper < HEADER_SIZE then 16378 <= n < 16384 else n == (upper - HEADER_SIZE) / 4
  {
  }

  /** The bytes between the two boundaries, in 16 bits: boundaries that have crossed give too many. */
  method FreeSpace(a: array<byte>) returns (n: nat)
    requires a.Length == PAGE_SIZE
    ensures n == if Upper(a[..]) <= Lower(a[..]) then Free(a[..]) else Free(a[..]) + 0x1_0000
    ensures Formatted(a[..]) ==> n == Free(a[..])
  {
    hide SlotOf;
    n := (Lower(a[..]) - Upper(a[..])) % 0x1_0000;
  }

  /** A zeroed page is not formatted: its count underflows. */
  lemma ZeroPageUnformatted()
    ensures Upper(ZeroPage()) == 0 && !Formatted(ZeroPage())
  {
    ZeroDecode(ZeroPage()[UPPER_POS..UPPER_POS + 2]);
  }

  /** Stores a tuple and a slot for it, or leaves the page alone when they do not fit. */
  method InsertTuple(a: array<byte>, data: Bytes) returns (ok: bool, slot: nat)
    requires a.Length == PAGE_SIZE && Formatted(a[..])
    modifies a
    ensures Formatted(a[..])
    ensures ok <==> |data| + 4 <= old(Free(a[..]))
    ensures !ok ==> a[..] == old(a[..])
    ensures ok ==> slot == |old(Tuples(a[..]))| && Tuples(a[..]) == old(Tuples(a[..])) + [data]
    ensures ok ==> Free(a[..]) == old(Free(a[..])) - |data| - 4
    ensures ok ==> Inserted(old(a[..]), a[..], data)
    ensures forall i :: 0 <= i < old(Count(a[..])) ==> SlotAt(a[..], i) == old(SlotAt(a[..], i))
  {
    hide Upper, Lower, SlotOf, Tiled, Cut;
    ghost var b := a[..];
    var free := FreeSpace(a);
    if |data| + SlotEntry.SIZE > free { return false, 0; }
    slot := SlotCount(a);
    Place(a, data, slot);
    InsertedTuples(b, a[..], data);
    InsertedHolds(b, a[..], data);
    ok := true;
  }

  /** The bytes that slot i points at. The source panics when there is no slot i. */
  method LocateTuple(a: array<byte>, i: nat) returns (t: Bytes)
    requires a.Length == PAGE_SIZE && Formatted(a[..]) && i < Count(a[..])
    ensures t == Tuples(a[..])[i]
  {
    hide SlotOf;
    var at := HEADER_SIZE + i * SlotEntry.SIZE;
    assert a[..][at..at + 4] == a[at..at + 4];
    InDataArea(a[..], i);
    var offset := Offset(a[at..at + 4]);
    var length := Length(a[at..at + 4]);
    t := a[offset..offset + length];
  }

  /** The writes of an insertion: the slot, the bytes, then the two boundaries. */
  method Place(a: array<byte>, data: Bytes, slot: nat)
    requires a.Length == PAGE_SIZE && HEADER_SIZE <= Upper(a[..]) <= Lower(a[..]) <= PAGE_SIZE
    requires Upper(a[..]) == HEADER_SIZE + 4 * slot && |data| + 4 <= Free(a[..])
    modifies a
    ensures Inserted(old(a[..]), a[..], data)
  {
    hide SlotOf, U16, Splice, SameElsewhere, Inserted;
    ghost var b := a[..];
    NoWrap(Lower(b), Upper(b), |data|, slot);
    var dataLen := |data| % 0x1_0000;
    var offset := (Lower(a[..]) - dataLen) % 0x1_0000;
    var at := (HEADER_SIZE + slot * SlotEntry.SIZE) % 0x1_0000;
    var ok := SetOffset(a, at, offset);
    ok := SetLength(a, at, dataLen);
    ghost var c := a[..];
    Copy(a, offset, data);
    ghost var d := a[..];
    SameBounds(b, c, d, at, offset, data);
    PutU16(a, UPPER_POS, (Upper(a[..]) + SlotEntry.SIZE) % 0x1_0000);
    PutU16(a, LOWER_POS, offset);
    Placed(b, c, d, a[..], at, offset, data);
  }

  /** The 16-bit arithmetic of an insertion does not wrap around. */
  lemma NoWrap(lower: nat, upper: nat, n: nat, slot: nat)
    requires upper == HEADER_SIZE + 4 * slot && n + 4 <= lower - upper && lower <= PAGE_SIZE
    ensures n % 0x1_0000 == n && (lower - n) % 0x1_0000 == lower - n
    ensures (HEADER_SIZE + slot * SlotEntry.SIZE) % 0x1_0000 == upper
    ensures (upper + SlotEntry.SIZE) % 0x1_0000 == upper + 4
  {
  }

  /** Neither the slot nor the tuple is written over the header. */
  lemma SameBounds(b: Bytes, c: Bytes, d: Bytes, at: nat, offset: nat, data: Bytes)
    requires |b| == |c| == PAGE_SIZE && HEADER_SIZE <= at && at + 4 <= offset && offset + |data| <= PAGE_SIZE
    requires c[..at] == b[..at] && d == Splice(c, offset, data)
    ensures Upper(d) == Upper(b) && Lower(d) == Lower(b)
  {
    hide BigEndian.Decode;
    SpliceOutside(c, offset, data, UPPER_POS, 2);
    SpliceOutside(c, offset, data, LOWER_POS, 2);
    SameInside(b, c, 0, at, UPPER_POS, 2);
    SameInside(b, c, 0, at, LOWER_POS, 2);
  }

  lemma Placed(b: Bytes, c: Bytes, d: Bytes, e: Bytes, at: nat, offset: nat, data: Bytes)
    requires |b| == |c| == |e| == PAGE_SIZE && at == Upper(b) && HEADER_SIZE <= at && at + 4 <= offset
    requires offset + |data| == Lower(b) <= PAGE_SIZE
    requires c[..at] == b[..at] && c[at + 4..] == b[at + 4..]
    requires SlotOf(c[at..at + 4]).offset == offset && SlotOf(c[at..at + 4]).length == |data|
    requires SlotOf(c[at..at + 4]).flag == SlotOf(b[at..at + 4]).flag
    requires d == Splice(c, offset, data)
    requires e[HEADER_SIZE..] == d[HEADER_SIZE..] && Upper(e) == at + 4 && Lower(e) == offset
    requires forall i :: 0 <= i < 12 || 16 <= i < HEADER_SIZE ==> e[i] == d[i]
    ensures Inserted(b, e, data)
  {
    hide Upper, Lower, SlotOf, Splice;
    var lo := Lower(b);
    SpliceOutside(c, offset, data, HEADER_SIZE, at - HEADER_SIZE);
    SpliceOutside(c, offset, data, at, 4);
    SpliceOutside(c, offset, data, lo, PAGE_SIZE - lo);
    SpliceInside(c, offset, data);
    SameInside(d, e, HEADER_SIZE, PAGE_SIZE, HEADER_SIZE, at - HEADER_SIZE);
    SameInside(d, e, HEADER_SIZE, PAGE_SIZE, at, 4);
    SameInside(d, e, HEADER_SIZE, PAGE_SIZE, offset, |data|);
    SameInside(d, e, HEADER_SIZE, PAGE_SIZE, lo, PAGE_SIZE - lo);
    SameInside(b, c, 0, at, HEADER_SIZE, at - HEADER_SIZE);
    SameInside(b, c, at + 4, PAGE_SIZE, lo, PAGE_SIZE - lo);
    ElsewhereSame(b, c, d, e, at, offset, lo, data);
  }

  lemma ElsewhereSame(b: Bytes, c: Bytes, d: Bytes, e: Bytes, at: nat, offset: nat, lo: nat, data: Bytes)
    requires |b| == |c| == |e| == PAGE_SIZE && HEADER_SIZE <= at && at + 4 <= offset
    requires offset + |data| == lo <= PAGE_SIZE
    requires c[..at] == b[..at] && c[at + 4..] == b[at + 4..] && d == Splice(c, offset, data)
    requires e[HEADER_SIZE..] == d[HEADER_SIZE..] && forall i :: 0 <= i < 12 || 16 <= i < HEADER_SIZE ==> e[i] == d[i]
    ensures SameElsewhere(b, e, at, offset, lo)
  {
    forall i | 0 <= i < PAGE_SIZE && (i < 12 || 16 <= i < at || at + 4 <= i < offset || lo <= i) ensures e[i] == b[i] {
      if i >= HEADER_SIZE { assert e[i] == e[HEADER_SIZE..][i - HEADER_SIZE] == d[HEADER_SIZE..][i - HEADER_SIZE]; }
      assert e[i] == d[i] == c[i];
      if i < at {
        assert c[i] == c[..at][i] == b[..at][i];
      } else {
        assert c[i] == c[at + 4..][i - at - 4] == b[at + 4..][i - at - 4];
      }
    }
  }
}
