/** B+Tree nodes as bytes: the page layout, and the in-place operations on it. */
module IndexNode {
  import opened Pages
  import opened BigEndian
  import opened Scanning
  import opened IndexTree
  import opened PagedTree

  // Header: kind at 0, key count at 2, next leaf at 4. The key array starts at 8; the second
  // array, children or TIDs, starts where a full key array ends.
  const HEADER := 8
  const CHILD_AREA := HEADER + 8 * BRANCH_CAP
  const TID_AREA := HEADER + 8 * LEAF_CAP

  function Field(b: Bytes, off: nat, n: nat): (v: nat)
    requires off + n <= |b|
    ensures v < Pow256(n)
  {
    Decode(b[off..off + n])
  }

  predicate IsLeaf(b: Bytes)
    requires |b| == PAGE_SIZE
  {
    b[0] == 1
  }

  function KeyCount(b: Bytes): (n: nat)
    requires |b| == PAGE_SIZE
  {
    Field(b, 2, 2)
  }

  function NextLeaf(b: Bytes): (p: nat)
    requires |b| == PAGE_SIZE
  {
    Field(b, 4, 4)
  }

  function KeyAt(b: Bytes, i: nat): (k: Key)
    requires |b| == PAGE_SIZE && HEADER + 8 * i + 8 <= PAGE_SIZE
  {
    Widths();
    ToSigned(Field(b, HEADER + 8 * i, 8))
  }

  function ChildAt(b: Bytes, i: nat): (p: nat)
    requires |b| == PAGE_SIZE && i <= BRANCH_CAP
  {
    Field(b, CHILD_AREA + 4 * i, 4)
  }

  function TidAt(b: Bytes, i: nat): (t: TID)
    requires |b| == PAGE_SIZE && i < LEAF_CAP
  {
    Widths();
    TID(Field(b, TID_AREA + 6 * i, 4), Field(b, TID_AREA + 6 * i + 4, 2))
  }

  function EntryAt(b: Bytes, i: nat): (e: Entry)
    requires |b| == PAGE_SIZE && i < LEAF_CAP
  {
    Entry(KeyAt(b, i), TidAt(b, i))
  }

  /** What a page means. */
  function NodeOf(b: Bytes): (n: Node)
    requires |b| == PAGE_SIZE
  {
    var cnt := KeyCount(b);
    if IsLeaf(b) then
      if cnt <= LEAF_CAP then
        LeafNode(seq(cnt, i requires 0 <= i < cnt => EntryAt(b, i)), NextLeaf(b))
      else NotANode
    else if cnt <= BRANCH_CAP then
      BranchNode(seq(cnt, i requires 0 <= i < cnt => KeyAt(b, i)),
                 seq(cnt + 1, i requires 0 <= i <= cnt => ChildAt(b, i)))
    else NotANode
  }

  // ---- what a write to one field leaves alone ----

  ghost predicate SameHeader(b: Bytes, b': Bytes) {
    |b| == |b'| == PAGE_SIZE && b[..HEADER] == b'[..HEADER]
  }

  lemma HeaderFields(b: Bytes, b': Bytes)
    requires SameHeader(b, b')
    ensures IsLeaf(b') == IsLeaf(b) && KeyCount(b') == KeyCount(b) && NextLeaf(b') == NextLeaf(b)
  {
    assert b[2..4] == b[..HEADER][2..4] && b[4..8] == b[..HEADER][4..8];
    assert b'[2..4] == b'[..HEADER][2..4] && b'[4..8] == b'[..HEADER][4..8];
    assert b[0] == b[..HEADER][0] && b'[0] == b'[..HEADER][0];
  }

  ghost predicate SameKeys(b: Bytes, b': Bytes, i: int) {
    && |b| == |b'| == PAGE_SIZE
    && forall x: nat :: HEADER + 8 * x + 8 <= PAGE_SIZE && x != i ==> KeyAt(b', x) == KeyAt(b, x)
  }

  ghost predicate SameTids(b: Bytes, b': Bytes, i: int) {
    |b| == |b'| == PAGE_SIZE && forall x: nat :: x < LEAF_CAP && x != i ==> TidAt(b', x) == TidAt(b, x)
  }

  ghost predicate SameChildren(b: Bytes, b': Bytes, i: int) {
    |b| == |b'| == PAGE_SIZE && forall x: nat :: x <= BRANCH_CAP && x != i ==> ChildAt(b', x) == ChildAt(b, x)
  }

  /** Writing key i touches no other key, and neither second array while i is below capacity. */
  lemma KeyWrite(b: Bytes, i: nat, k: Key)
    requires |b| == PAGE_SIZE && HEADER + 8 * i + 8 <= PAGE_SIZE
    ensures var b' := Splice(b, HEADER + 8 * i, Encode(ToUnsigned(k), 8));
      && SameHeader(b, b') && KeyAt(b', i) == k && SameKeys(b, b', i)
      && (i < LEAF_CAP ==> SameTids(b, b', -1)) && (i < BRANCH_CAP ==> SameChildren(b, b', -1))
  {
    hide Splice, Encode, Decode, Pow256;
    var w := Encode(ToUnsigned(k), 8);
    var off := HEADER + 8 * i;
    var b' := Splice(b, off, w);
    Widths();
    SpliceInside(b, off, w);
    DecodeEncode(ToUnsigned(k), 8);
    SignedRoundTrip(k);
    SpliceOutside(b, off, w, 0, HEADER);
    assert b[0..HEADER] == b[..HEADER] && b'[0..HEADER] == b'[..HEADER];
    forall x: nat | HEADER + 8 * x + 8 <= PAGE_SIZE && x != i ensures KeyAt(b', x) == KeyAt(b, x) {
      SpliceOutside(b, off, w, HEADER + 8 * x, 8);
    }
    if i < LEAF_CAP { TidsAfterKey(b, i, w); }
    if i < BRANCH_CAP { ChildrenAfterKey(b, i, w); }
  }

  lemma TidsAfterKey(b: Bytes, i: nat, w: Bytes)
    requires |b| == PAGE_SIZE && i < LEAF_CAP && |w| == 8
    ensures SameTids(b, Splice(b, HEADER + 8 * i, w), -1)
  {
    hide Splice, Decode;
    var off := HEADER + 8 * i;
    forall x: nat | x < LEAF_CAP ensures TidAt(Splice(b, off, w), x) == TidAt(b, x) {
      SpliceOutside(b, off, w, TID_AREA + 6 * x, 4);
      SpliceOutside(b, off, w, TID_AREA + 6 * x + 4, 2);
    }
  }

  lemma ChildrenAfterKey(b: Bytes, i: nat, w: Bytes)
    requires |b| == PAGE_SIZE && i < BRANCH_CAP && |w| == 8
    ensures SameChildren(b, Splice(b, HEADER + 8 * i, w), -1)
  {
    hide Splice, Decode;
    var off := HEADER + 8 * i;
    forall x: nat | x <= BRANCH_CAP ensures ChildAt(Splice(b, off, w), x) == ChildAt(b, x) {
      SpliceOutside(b, off, w, CHILD_AREA + 4 * x, 4);
    }
  }

  lemma TidWrite(b: Bytes, i: nat, t: TID)
    requires |b| == PAGE_SIZE && i < LEAF_CAP
    ensures var b' := Splice(Splice(b, TID_AREA + 6 * i, Encode(t.page, 4)), TID_AREA + 6 * i + 4, Encode(t.slot, 2));
      && SameHeader(b, b') && TidAt(b', i) == t && SameTids(b, b', i)
      && (forall x: nat :: x < LEAF_CAP ==> KeyAt(b', x) == KeyAt(b, x))
  {
    hide Splice, Encode, Decode, Pow256;
    var off := TID_AREA + 6 * i;
    var w, v := Encode(t.page, 4), Encode(t.slot, 2);
    var b1 := Splice(b, off, w);
    var b' := Splice(b1, off + 4, v);
    Widths();
    DecodeEncode(t.page, 4);
    DecodeEncode(t.slot, 2);
    SpliceInside(b, off, w);
    SpliceInside(b1, off + 4, v);
    SpliceOutside(b1, off + 4, v, off, 4);
    TwoSplices(b, off, w, v, 0, HEADER);
    assert b[0..HEADER] == b[..HEADER] && b'[0..HEADER] == b'[..HEADER];
    forall x: nat | x < LEAF_CAP ensures KeyAt(b', x) == KeyAt(b, x) {
      TwoSplices(b, off, w, v, HEADER + 8 * x, 8);
    }
    forall x: nat | x < LEAF_CAP && x != i ensures TidAt(b', x) == TidAt(b, x) {
      TwoSplices(b, off, w, v, TID_AREA + 6 * x, 4);
      TwoSplices(b, off, w, v, TID_AREA + 6 * x + 4, 2);
    }
  }

  lemma TwoSplices(b: Bytes, off: nat, w: Bytes, v: Bytes, o: nat, n: nat)
    requires off + |w| + |v| <= |b| && o + n <= |b| && (o + n <= off || off + |w| + |v| <= o)
    ensures Splice(Splice(b, off, w), off + |w|, v)[o..o + n] == b[o..o + n]
  {
    SpliceOutside(b, off, w, o, n);
    SpliceOutside(Splice(b, off, w), off + |w|, v, o, n);
  }

  lemma ChildWrite(b: Bytes, i: nat, p: u32)
    requires |b| == PAGE_SIZE && i <= BRANCH_CAP
    ensures var b' := Splice(b, CHILD_AREA + 4 * i, Encode(p, 4));
      && SameHeader(b, b') && ChildAt(b', i) == p && SameChildren(b, b', i)
      && (forall x: nat :: x < BRANCH_CAP ==> KeyAt(b', x) == KeyAt(b, x))
  {
    hide Splice, Encode, Decode, Pow256;
    var off := CHILD_AREA + 4 * i;
    var w := Encode(p, 4);
    var b' := Splice(b, off, w);
    Widths();
    DecodeEncode(p, 4);
    SpliceInside(b, off, w);
    SpliceOutside(b, off, w, 0, HEADER);
    assert b[0..HEADER] == b[..HEADER] && b'[0..HEADER] == b'[..HEADER];
    forall x: nat | x < BRANCH_CAP ensures KeyAt(b', x) == KeyAt(b, x) {
      SpliceOutside(b, off, w, HEADER + 8 * x, 8);
    }
    forall x: nat | x <= BRANCH_CAP && x != i ensures ChildAt(b', x) == ChildAt(b, x) {
      SpliceOutside(b, off, w, CHILD_AREA + 4 * x, 4);
    }
  }

  lemma HeaderWrite(b: Bytes, off: nat, w: Bytes)
    requires |b| == PAGE_SIZE && off + |w| <= HEADER
    ensures var b' := Splice(b, off, w);
      SameKeys(b, b', -1) && SameTids(b, b', -1) && SameChildren(b, b', -1)
  {
    var b' := Splice(b, off, w);
    Widths();
    forall x: nat | HEADER + 8 * x + 8 <= PAGE_SIZE ensures KeyAt(b', x) == KeyAt(b, x) {
      SpliceOutside(b, off, w, HEADER + 8 * x, 8);
    }
    forall x: nat | x < LEAF_CAP ensures TidAt(b', x) == TidAt(b, x) {
      SpliceOutside(b, off, w, TID_AREA + 6 * x, 4);
      SpliceOutside(b, off, w, TID_AREA + 6 * x + 4, 2);
    }
    forall x: nat | x <= BRANCH_CAP ensures ChildAt(b', x) == ChildAt(b, x) {
      SpliceOutside(b, off, w, CHILD_AREA + 4 * x, 4);
    }
  }

  lemma CountWrite(b: Bytes, n: u16)
    requires |b| == PAGE_SIZE
    ensures var b' := Splice(b, 2, Encode(n, 2));
      KeyCount(b') == n && IsLeaf(b') == IsLeaf(b) && NextLeaf(b') == NextLeaf(b)
  {
    Widths();
    DecodeEncode(n, 2);
    SpliceInside(b, 2, Encode(n, 2));
    SpliceOutside(b, 2, Encode(n, 2), 4, 4);
  }

  lemma NextWrite(b: Bytes, p: u32)
    requires |b| == PAGE_SIZE
    ensures var b' := Splice(b, 4, Encode(p, 4));
      NextLeaf(b') == p && IsLeaf(b') == IsLeaf(b) && KeyCount(b') == KeyCount(b)
  {
    Widths();
    DecodeEncode(p, 4);
    SpliceInside(b, 4, Encode(p, 4));
    SpliceOutside(b, 4, Encode(p, 4), 2, 2);
  }

  // ---- in-place operations ----

  /** Writes entry i of a leaf: the key, then the TID. */
  method SetEntry(n: array<byte>, i: nat, e: Entry)
    requires n.Length == PAGE_SIZE && i < LEAF_CAP
    modifies n
    ensures SameHeader(old(n[..]), n[..])
    ensures forall x: nat :: x < LEAF_CAP ==> EntryAt(n[..], x) == if x == i then e else EntryAt(old(n[..]), x)
  {
    hide KeyAt, TidAt, ChildAt, Splice, Encode, SameChildren;
    KeyWrite(n[..], i, e.key);
    Write(n, HEADER + 8 * i, 8, ToUnsigned(e.key));
    TidWrite(n[..], i, e.tid);
    Write(n, TID_AREA + 6 * i, 4, e.tid.page);
    Write(n, TID_AREA + 6 * i + 4, 2, e.tid.slot);
  }

  method SetKeyAt(n: array<byte>, i: nat, k: Key)
    requires n.Length == PAGE_SIZE && i < BRANCH_CAP
    modifies n
    ensures SameHeader(old(n[..]), n[..]) && SameChildren(old(n[..]), n[..], -1)
    ensures forall x: nat :: x < BRANCH_CAP ==> KeyAt(n[..], x) == if x == i then k else KeyAt(old(n[..]), x)
  {
    hide KeyAt, ChildAt, TidAt;
    KeyWrite(n[..], i, k);
    Write(n, HEADER + 8 * i, 8, ToUnsigned(k));
  }

  method SetChildAt(n: array<byte>, i: nat, p: u32)
    requires n.Length == PAGE_SIZE && i <= BRANCH_CAP
    modifies n
    ensures SameHeader(old(n[..]), n[..])
    ensures forall x: nat :: x <= BRANCH_CAP ==> ChildAt(n[..], x) == if x == i then p else ChildAt(old(n[..]), x)
    ensures forall x: nat :: x < BRANCH_CAP ==> KeyAt(n[..], x) == KeyAt(old(n[..]), x)
  {
    hide KeyAt, ChildAt, TidAt;
    ChildWrite(n[..], i, p);
    Write(n, CHILD_AREA + 4 * i, 4, p);
  }

  method SetKeyCount(n: array<byte>, cnt: u16)
    requires n.Length == PAGE_SIZE
    modifies n
    ensures KeyCount(n[..]) == cnt && IsLeaf(n[..]) == IsLeaf(old(n[..])) && NextLeaf(n[..]) == NextLeaf(old(n[..]))
    ensures SameKeys(old(n[..]), n[..], -1) && SameTids(old(n[..]), n[..], -1) && SameChildren(old(n[..]), n[..], -1)
  {
    HeaderWrite(n[..], 2, Encode(cnt, 2));
    CountWrite(n[..], cnt);
    Write(n, 2, 2, cnt);
  }

  method SetNextLeaf(n: array<byte>, p: u32)
    requires n.Length == PAGE_SIZE
    modifies n
    ensures NextLeaf(n[..]) == p && IsLeaf(n[..]) == IsLeaf(old(n[..])) && KeyCount(n[..]) == KeyCount(old(n[..]))
    ensures SameKeys(old(n[..]), n[..], -1) && SameTids(old(n[..]), n[..], -1) && SameChildren(old(n[..]), n[..], -1)
  {
    HeaderWrite(n[..], 4, Encode(p, 4));
    NextWrite(n[..], p);
    Write(n, 4, 4, p);
  }

  // ---- whole nodes ----

  ghost function NodeKeys(n: Node): seq<Key> {
    match n
    case LeafNode(es, _) => KeysOf(es)
    case BranchNode(ks, _) => ks
    case NotANode => []
  }

  lemma LeafIs(b: Bytes, es: seq<Entry>, next: nat)
    requires |b| == PAGE_SIZE && |es| <= LEAF_CAP
    requires IsLeaf(b) && KeyCount(b) == |es| && NextLeaf(b) == next
    requires forall x :: 0 <= x < |es| ==> EntryAt(b, x) == es[x]
    ensures NodeOf(b) == LeafNode(es, next)
  {
  }

  lemma BranchIs(b: Bytes, ks: seq<Key>, cs: seq<nat>)
    requires |b| == PAGE_SIZE && |ks| <= BRANCH_CAP && |cs| == |ks| + 1
    requires !IsLeaf(b) && KeyCount(b) == |ks|
    requires forall x :: 0 <= x < |ks| ==> KeyAt(b, x) == ks[x]
    requires forall x :: 0 <= x < |cs| ==> ChildAt(b, x) == cs[x]
    ensures NodeOf(b) == BranchNode(ks, cs)
  {
  }

  /** Formats a frame as an empty node, erasing whatever it held. */
  method Init(n: array<byte>, leaf: bool)
    requires n.Length == PAGE_SIZE
    modifies n
    ensures IsLeaf(n[..]) == leaf && KeyCount(n[..]) == 0 && NextLeaf(n[..]) == 0
    ensures NodeOf(n[..]) == if leaf then LeafNode([], 0) else BranchNode([], [0])
    ensures forall i :: 0 < i < n.Length ==> n[i] == 0
  {
    forall i | 0 <= i < n.Length {
      n[i] := 0;
    }
    n[0] := if leaf then 1 else 0;
    ZeroField(n[..], 2, 2);
    ZeroField(n[..], 4, 4);
    if leaf {
      LeafIs(n[..], [], 0);
    } else {
      ZeroField(n[..], CHILD_AREA, 4);
      BranchIs(n[..], [], [0]);
    }
  }

  lemma {:induction false} ZeroField(b: Bytes, off: nat, n: nat)
    requires off + n <= |b| && forall i :: off <= i < off + n ==> b[i] == 0
    ensures Field(b, off, n) == 0
  {
    ZeroDecode(b[off..off + n]);
  }

  lemma KeysStored(b: Bytes)
    requires |b| == PAGE_SIZE && !NodeOf(b).NotANode?
    ensures var ks := NodeKeys(NodeOf(b));
      && |ks| == KeyCount(b) && HEADER + 8 * |ks| <= PAGE_SIZE
      && forall x :: 0 <= x < |ks| ==> KeyAt(b, x) == ks[x]
  {
  }

  /** Binary search for the first key not below k. The indices are 16-bit. */
  method Search(n: array<byte>, k: Key) returns (idx: nat, found: bool)
    requires n.Length == PAGE_SIZE && !NodeOf(n[..]).NotANode? && Sorted(NodeKeys(NodeOf(n[..])))
    ensures idx == LowerBound(NodeKeys(NodeOf(n[..])), k)
    ensures found <==> idx < |NodeKeys(NodeOf(n[..]))| && NodeKeys(NodeOf(n[..]))[idx] == k
  {
    hide NodeOf, NodeKeys, KeyAt, KeyCount;
    ghost var ks := NodeKeys(NodeOf(n[..]));
    KeysStored(n[..]);
    var cnt := KeyCount(n[..]);
    var lo, hi: nat := 0, cnt;
    while lo < hi
      invariant lo <= hi <= cnt
      invariant forall x :: 0 <= x < lo ==> ks[x] < k
      invariant forall x :: hi <= x < cnt ==> ks[x] >= k
    {
      assert lo + hi < 0x1_0000;
      var mid := (lo + hi) % 0x1_0000 / 2;
      assert lo <= mid < hi <= |ks|;
      if KeyAt(n[..], mid) < k {
        lo := mid + 1;
      } else {
        hi := mid;
      }
    }
    LowerBoundIs(ks, k, lo);
    return lo, lo < cnt && KeyAt(n[..], lo) == k;
  }

  /** The child to descend into: equal keys go right. */
  method DescentIndex(n: array<byte>, k: Key) returns (i: nat)
    requires n.Length == PAGE_SIZE && NodeOf(n[..]).BranchNode? && Sorted(NodeOf(n[..]).keys)
    ensures i == ChildIndex(NodeOf(n[..]).keys, k)
  {
    var idx, found := Search(n, k);
    return if found then idx + 1 else idx;
  }

  /** Point lookup in a leaf. */
  method LookUp(n: array<byte>, k: Key) returns (found: bool, tid: TID)
    requires n.Length == PAGE_SIZE && NodeOf(n[..]).LeafNode? && InOrder(NodeOf(n[..]).entries)
    ensures found <==> Has(NodeOf(n[..]).entries, k)
    ensures found ==> Entry(k, tid) in NodeOf(n[..]).entries
  {
    hide NodeOf, LowerBound, TidAt, KeyAt, KeyCount;
    EntriesStored(n[..]);
    ghost var es := NodeOf(n[..]).entries;
    tid := TID(0, 0);
    var idx;
    idx, found := Search(n, k);
    if found {
      tid := TidAt(n[..], idx);
      assert es[idx] == Entry(k, tid);
    } else if idx < |es| {
      assert forall i :: idx < i < |es| ==> es[idx].key < es[i].key;
    }
  }

  /** The child to descend into: its position and its page. */
  method Route(n: array<byte>, k: Key) returns (i: nat, child: nat)
    requires n.Length == PAGE_SIZE && NodeOf(n[..]).BranchNode? && Sorted(NodeOf(n[..]).keys)
    ensures var node := NodeOf(n[..]);
      i == ChildIndex(node.keys, k) && |node.children| == |node.keys| + 1 && child == node.children[i]
  {
    BranchStored(n[..]);
    hide NodeOf;
    i := DescentIndex(n, k);
    child := ChildAt(n[..], i);
  }

  predicate Full(b: Bytes)
    requires |b| == PAGE_SIZE
  {
    KeyCount(b) >= if IsLeaf(b) then LEAF_CAP else BRANCH_CAP
  }

  /** Inserts an entry into a leaf with room, shifting the tails of both arrays right. */
  method InsertLeafAt(n: array<byte>, i: nat, e: Entry)
    requires n.Length == PAGE_SIZE && NodeOf(n[..]).LeafNode? && i <= |NodeOf(n[..]).entries| < LEAF_CAP
    modifies n
    ensures NodeOf(n[..]) == LeafNode(InsertAt(NodeOf(old(n[..])).entries, i, e), NodeOf(old(n[..])).next)
  {
    hide EntryAt, NodeOf;
    ghost var b, es := n[..], NodeOf(n[..]).entries;
    EntriesStored(b);
    var cnt := KeyCount(n[..]);
    ShiftEntries(n, i, cnt);
    SetEntry(n, i, e);
    HeaderFields(b, n[..]);
    ghost var b1 := n[..];
    SetKeyCount(n, cnt + 1);
    SameEntries(b1, n[..]);
    LeafIs(n[..], InsertAt(es, i, e), NextLeaf(b));
  }

  method ShiftEntries(n: array<byte>, i: nat, cnt: nat)
    requires n.Length == PAGE_SIZE && i <= cnt < LEAF_CAP
    modifies n
    ensures SameHeader(old(n[..]), n[..])
    ensures forall x: nat :: x < LEAF_CAP ==>
      EntryAt(n[..], x) == EntryAt(old(n[..]), if i < x <= cnt then x - 1 else x)
  {
    hide EntryAt;
    var j := cnt;
    while j > i
      invariant i <= j <= cnt
      invariant SameHeader(old(n[..]), n[..])
      invariant forall x: nat :: x < LEAF_CAP ==>
        EntryAt(n[..], x) == EntryAt(old(n[..]), if j < x <= cnt then x - 1 else x)
    {
      SetEntry(n, j, EntryAt(n[..], j - 1));
      j := j - 1;
    }
  }

  lemma EntriesStored(b: Bytes)
    requires |b| == PAGE_SIZE && NodeOf(b).LeafNode?
    ensures var es := NodeOf(b).entries;
      && IsLeaf(b) && |es| == KeyCount(b) <= LEAF_CAP && NodeOf(b).next == NextLeaf(b)
      && forall x :: 0 <= x < |es| ==> EntryAt(b, x) == es[x]
  {
  }

  lemma SameEntries(b: Bytes, b': Bytes)
    requires SameKeys(b, b', -1) && SameTids(b, b', -1)
    ensures forall x: nat :: x < LEAF_CAP ==> EntryAt(b', x) == EntryAt(b, x)
  {
  }

  lemma BranchStored(b: Bytes)
    requires |b| == PAGE_SIZE && NodeOf(b).BranchNode?
    ensures var ks, cs := NodeOf(b).keys, NodeOf(b).children;
      && !IsLeaf(b) && |ks| == KeyCount(b) <= BRANCH_CAP && |cs| == |ks| + 1
      && (forall x :: 0 <= x < |ks| ==> KeyAt(b, x) == ks[x])
      && (forall x :: 0 <= x < |cs| ==> ChildAt(b, x) == cs[x] < 0x1_0000_0000)
  {
    Widths();
  }

  /** Inserts a separator and the child to its right into an internal node with room. */
  method InsertBranchAt(n: array<byte>, i: nat, k: Key, right: u32)
    requires n.Length == PAGE_SIZE && NodeOf(n[..]).BranchNode? && i <= |NodeOf(n[..]).keys| < BRANCH_CAP
    modifies n
    ensures var was := NodeOf(old(n[..]));
      NodeOf(n[..]) == BranchNode(InsertAt(was.keys, i, k), InsertAt(was.children, i + 1, right))
  {
    hide KeyAt, ChildAt, NodeOf;
    ghost var b, node := n[..], NodeOf(n[..]);
    BranchStored(b);
    var cnt := KeyCount(n[..]);
    InsertKeyAt(n, i, k, node.keys);
    HeaderFields(b, n[..]);
    InsertChildAt(n, i + 1, right, node.children);
    HeaderFields(b, n[..]);
    SetKeyCount(n, cnt + 1);
    BranchIs(n[..], InsertAt(node.keys, i, k), InsertAt(node.children, i + 1, right));
  }

  method InsertKeyAt(n: array<byte>, i: nat, k: Key, ghost ks: seq<Key>)
    requires n.Length == PAGE_SIZE && i <= |ks| == KeyCount(n[..]) < BRANCH_CAP
    requires forall x :: 0 <= x < |ks| ==> KeyAt(n[..], x) == ks[x]
    modifies n
    ensures SameHeader(old(n[..]), n[..]) && SameChildren(old(n[..]), n[..], -1)
    ensures forall x :: 0 <= x <= |ks| ==> KeyAt(n[..], x) == InsertAt(ks, i, k)[x]
  {
    hide KeyAt, ChildAt;
    ShiftKeys(n, i, KeyCount(n[..]));
    SetKeyAt(n, i, k);
  }

  method InsertChildAt(n: array<byte>, i: nat, p: u32, ghost cs: seq<nat>)
    requires n.Length == PAGE_SIZE && i <= |cs| == KeyCount(n[..]) + 1 <= BRANCH_CAP
    requires forall x :: 0 <= x < |cs| ==> ChildAt(n[..], x) == cs[x]
    modifies n
    ensures SameHeader(old(n[..]), n[..])
    ensures forall x: nat :: x < BRANCH_CAP ==> KeyAt(n[..], x) == KeyAt(old(n[..]), x)
    ensures forall x :: 0 <= x <= |cs| ==> ChildAt(n[..], x) == InsertAt(cs, i, p)[x]
  {
    hide KeyAt, ChildAt;
    ShiftChildren(n, i, KeyCount(n[..]) + 1);
    SetChildAt(n, i, p);
  }

  /** Shifts the keys from i right by one. */
  method ShiftKeys(n: array<byte>, i: nat, cnt: nat)
    requires n.Length == PAGE_SIZE && i <= cnt < BRANCH_CAP
    modifies n
    ensures SameHeader(old(n[..]), n[..]) && SameChildren(old(n[..]), n[..], -1)
    ensures forall x: nat :: x < BRANCH_CAP ==> KeyAt(n[..], x) == KeyAt(old(n[..]), if i < x <= cnt then x - 1 else x)
  {
    hide KeyAt, ChildAt;
    var j := cnt;
    while j > i
      invariant i <= j <= cnt
      invariant SameHeader(old(n[..]), n[..]) && SameChildren(old(n[..]), n[..], -1)
      invariant forall x: nat :: x < BRANCH_CAP ==>
        KeyAt(n[..], x) == KeyAt(old(n[..]), if j < x <= cnt then x - 1 else x)
    {
      SetKeyAt(n, j, KeyAt(n[..], j - 1));
      j := j - 1;
    }
  }

  /** Shifts the children from i right by one. */
  method ShiftChildren(n: array<byte>, i: nat, cnt: nat)
    requires n.Length == PAGE_SIZE && i <= cnt <= BRANCH_CAP
    modifies n
    ensures SameHeader(old(n[..]), n[..])
    ensures forall x: nat :: x < BRANCH_CAP ==> KeyAt(n[..], x) == KeyAt(old(n[..]), x)
    ensures forall x: nat :: x <= BRANCH_CAP ==>
      ChildAt(n[..], x) == ChildAt(old(n[..]), if i < x <= cnt then x - 1 else x)
  {
    hide KeyAt, ChildAt;
    var j := cnt;
    while j > i
      invariant i <= j <= cnt
      invariant SameHeader(old(n[..]), n[..])
      invariant forall x: nat :: x < BRANCH_CAP ==> KeyAt(n[..], x) == KeyAt(old(n[..]), x)
      invariant forall x: nat :: x <= BRANCH_CAP ==>
        ChildAt(n[..], x) == ChildAt(old(n[..]), if j < x <= cnt then x - 1 else x)
    {
      ChildRange(n[..], j - 1);
      SetChildAt(n, j, ChildAt(n[..], j - 1));
      j := j - 1;
    }
  }

  lemma ChildRange(b: Bytes, i: nat)
    requires |b| == PAGE_SIZE && i <= BRANCH_CAP
    ensures ChildAt(b, i) < 0x1_0000_0000
  {
    Widths();
  }

  /** Moves the upper half of a leaf's entries into `right`, an empty leaf. */
  method SplitLeafNode(n: array<byte>, right: array<byte>)
    requires n.Length == right.Length == PAGE_SIZE && n != right
    requires NodeOf(n[..]).LeafNode? && IsLeaf(right[..]) && NextLeaf(right[..]) == 0
    modifies n, right
    ensures var es, m := NodeOf(old(n[..])).entries, |NodeOf(old(n[..])).entries| / 2;
      && NodeOf(n[..]) == LeafNode(es[..m], NodeOf(old(n[..])).next)
      && NodeOf(right[..]) == LeafNode(es[m..], 0)
  {
    hide EntryAt, NodeOf;
    ghost var b, es := n[..], NodeOf(n[..]).entries;
    EntriesStored(b);
    var cnt := KeyCount(n[..]);
    var mid := cnt / 2;
    CopyEntries(n, right, mid, cnt);
    HeaderFields(old(right[..]), right[..]);
    ghost var r := right[..];
    SetKeyCount(right, cnt - mid);
    SameEntries(r, right[..]);
    LeafIs(right[..], es[mid..], 0);
    SetKeyCount(n, mid);
    SameEntries(b, n[..]);
    LeafIs(n[..], es[..mid], NextLeaf(b));
  }

  method CopyEntries(n: array<byte>, right: array<byte>, mid: nat, cnt: nat)
    requires n.Length == right.Length == PAGE_SIZE && n != right && mid <= cnt <= LEAF_CAP
    modifies right
    ensures SameHeader(old(right[..]), right[..])
    ensures forall x: nat :: x < cnt - mid ==> EntryAt(right[..], x) == EntryAt(n[..], mid + x)
  {
    hide EntryAt;
    for j := mid to cnt
      invariant SameHeader(old(right[..]), right[..])
      invariant forall x: nat :: x < j - mid ==> EntryAt(right[..], x) == EntryAt(n[..], mid + x)
    {
      SetEntry(right, j - mid, EntryAt(n[..], j));
    }
  }

  /**
    * Moves the keys and children right of the middle key into `right`, an empty internal node; returns the middle
    * key.
    */
  method SplitBranchNode(n: array<byte>, right: array<byte>) returns (up: Key)
    requires n.Length == right.Length == PAGE_SIZE && n != right
    requires NodeOf(n[..]).BranchNode? && |NodeOf(n[..]).keys| > 0 && !IsLeaf(right[..])
    modifies n, right
    ensures var ks, cs, m := NodeOf(old(n[..])).keys, NodeOf(old(n[..])).children, |NodeOf(old(n[..])).keys| / 2;
      && up == ks[m]
      && NodeOf(n[..]) == BranchNode(ks[..m], cs[..m + 1])
      && NodeOf(right[..]) == BranchNode(ks[m + 1..], cs[m + 1..])
  {
    hide KeyAt, ChildAt, NodeOf;
    ghost var b, ks, cs := n[..], NodeOf(n[..]).keys, NodeOf(n[..]).children;
    BranchStored(b);
    var cnt := KeyCount(n[..]);
    var mid := cnt / 2;
    up := KeyAt(n[..], mid);
    CopyKeys(n, right, mid + 1, cnt);
    ghost var r := right[..];
    CopyChildren(n, right, mid + 1, cnt);
    HeaderFields(old(right[..]), r);
    HeaderFields(r, right[..]);
    SetKeyCount(right, cnt - mid - 1);
    BranchIs(right[..], ks[mid + 1..], cs[mid + 1..]);
    SetKeyCount(n, mid);
    BranchIs(n[..], ks[..mid], cs[..mid + 1]);
  }

  method CopyKeys(n: array<byte>, right: array<byte>, from: nat, cnt: nat)
    requires n.Length == right.Length == PAGE_SIZE && n != right && 1 <= from <= cnt <= BRANCH_CAP
    modifies right
    ensures SameHeader(old(right[..]), right[..])
    ensures forall x: nat :: x < cnt - from ==> KeyAt(right[..], x) == KeyAt(n[..], from + x)
  {
    hide KeyAt, ChildAt;
    for j := from to cnt
      invariant SameHeader(old(right[..]), right[..])
      invariant forall x: nat :: x < j - from ==> KeyAt(right[..], x) == KeyAt(n[..], from + x)
    {
      SetKeyAt(right, j - from, KeyAt(n[..], j));
    }
  }

  method CopyChildren(n: array<byte>, right: array<byte>, from: nat, cnt: nat)
    requires n.Length == right.Length == PAGE_SIZE && n != right && 1 <= from <= cnt <= BRANCH_CAP
    modifies right
    ensures SameHeader(old(right[..]), right[..])
    ensures forall x: nat :: x < BRANCH_CAP ==> KeyAt(right[..], x) == KeyAt(old(right[..]), x)
    ensures forall x: nat :: x <= cnt - from ==> ChildAt(right[..], x) == ChildAt(n[..], from + x)
  {
    hide KeyAt, ChildAt;
    for j := from to cnt + 1
      invariant SameHeader(old(right[..]), right[..])
      invariant forall x: nat :: x < BRANCH_CAP ==> KeyAt(right[..], x) == KeyAt(old(right[..]), x)
      invariant forall x: nat :: x < j - from ==> ChildAt(right[..], x) == ChildAt(n[..], from + x)
    {
      ChildRange(n[..], j);
      SetChildAt(right, j - from, ChildAt(n[..], j));
    }
  }

  /** Formats a frame as a root over two children. */
  method InitRoot(n: array<byte>, k: Key, left: u32, right: u32)
    requires n.Length == PAGE_SIZE
    modifies n
    ensures NodeOf(n[..]) == BranchNode([k], [left, right])
  {
    hide KeyAt, ChildAt, NodeOf;
    Init(n, false);
    ghost var b := n[..];
    SetKeyAt(n, 0, k);
    HeaderFields(b, n[..]);
    ghost var b1 := n[..];
    SetChildAt(n, 0, left);
    HeaderFields(b1, n[..]);
    ghost var b2 := n[..];
    SetChildAt(n, 1, right);
    HeaderFields(b2, n[..]);
    SetKeyCount(n, 1);
    BranchIs(n[..], [k], [left, right]);
  }

  /** Splits a full leaf into itself and `right`, a frame just allocated for page rpid, and links the two. */
  method DivideLeaf(n: array<byte>, right: array<byte>, rpid: u32) returns (sep: Key)
    requires n.Length == right.Length == PAGE_SIZE && n != right
    requires NodeOf(n[..]).LeafNode? && NodeOf(n[..]).entries != []
    modifies n, right
    ensures var es, next := NodeOf(old(n[..])).entries, NodeOf(old(n[..])).next;
      var m := |es| / 2;
      && sep == es[m].key
      && NodeOf(n[..]) == LeafNode(es[..m], rpid)
      && NodeOf(right[..]) == LeafNode(es[m..], next)
  {
    hide NodeOf;
    Init(right, true);
    SplitLeafNode(n, right);
    NextRange(n[..]);
    Relink(right, NextLeaf(n[..]));
    Relink(n, rpid);
    EntriesStored(right[..]);
    sep := KeyAt(right[..], 0);
  }

  lemma NextRange(b: Bytes)
    requires |b| == PAGE_SIZE && NodeOf(b).LeafNode?
    ensures NodeOf(b).next == NextLeaf(b) < 0x1_0000_0000
  {
    Widths();
  }

  /** Points a leaf at its right neighbour. */
  method Relink(n: array<byte>, p: u32)
    requires n.Length == PAGE_SIZE && NodeOf(n[..]).LeafNode?
    modifies n
    ensures NodeOf(n[..]) == LeafNode(NodeOf(old(n[..])).entries, p)
  {
    hide EntryAt, NodeOf;
    EntriesStored(n[..]);
    ghost var b := n[..];
    SetNextLeaf(n, p);
    SameEntries(b, n[..]);
    LeafIs(n[..], NodeOf(b).entries, p);
  }

  /** Splits a full internal node into itself and `right`. */
  method DivideBranch(n: array<byte>, right: array<byte>) returns (sep: Key)
    requires n.Length == right.Length == PAGE_SIZE && n != right
    requires NodeOf(n[..]).BranchNode? && NodeOf(n[..]).keys != []
    modifies n, right
    ensures var ks, cs := NodeOf(old(n[..])).keys, NodeOf(old(n[..])).children;
      var m := |ks| / 2;
      && |cs| == |ks| + 1 && sep == ks[m]
      && NodeOf(n[..]) == BranchNode(ks[..m], cs[..m + 1])
      && NodeOf(right[..]) == BranchNode(ks[m + 1..], cs[m + 1..])
  {
    hide NodeOf;
    BranchStored(n[..]);
    Init(right, false);
    sep := SplitBranchNode(n, right);
  }

  /** Feeds the entries of a leaf from position i on to fn, while their key is at most hi. */
  method ScanLeaf(n: array<byte>, i: nat, hi: Key, fn: Callback<Entry>, calls: seq<Entry>)
    returns (calls': seq<Entry>, done: bool, stopped: bool)
    requires n.Length == PAGE_SIZE && NodeOf(n[..]).LeafNode? && i <= |NodeOf(n[..]).entries|
    requires Accepted(fn, calls, |calls|)
    ensures var es := NodeOf(n[..]).entries[i..];
      var full := calls + UpToKey(es, hi);
      if stopped then CutShort(fn, calls', full)
      else calls' == full && Accepted(fn, calls', |calls'|) && (done <==> UpToKey(es, hi) != es)
  {
    hide NodeOf, EntryAt, Accepted, UpToKey, CutShort;
    EntriesStored(n[..]);
    ghost var es := NodeOf(n[..]).entries;
    ghost var full := calls + UpToKey(es[i..], hi);
    calls', stopped, done := calls, false, false;
    var j := i;
    while j < KeyCount(n[..])
      invariant i <= j <= |es|
      invariant Accepted(fn, calls', |calls'|)
      invariant full == calls' + UpToKey(es[j..], hi)
      invariant UpToKey(es[i..], hi) == es[i..] <==> UpToKey(es[j..], hi) == es[j..]
    {
      UpToKeyStep(es, j, hi);
      var e := EntryAt(n[..], j);
      if e.key > hi {
        done := true;
        return;
      }
      stopped := !fn(calls', e);
      CallStep(fn, calls', e, UpToKey(es[j + 1..], hi), full);
      calls' := calls' + [e];
      if stopped {
        return;
      }
      j := j + 1;
    }
    UpToKeyNone(hi);
  }

  lemma UpToKeyNone(hi: Key)
    ensures UpToKey([], hi) == []
  {
  }

  lemma UpToKeyStep(es: seq<Entry>, j: nat, hi: Key)
    requires j < |es|
    ensures UpToKey(es[j..], hi) == if es[j].key > hi then [] else [es[j]] + UpToKey(es[j + 1..], hi)
    ensures es[j].key > hi ==> UpToKey(es[j..], hi) != es[j..]
    ensures es[j].key <= hi ==> (UpToKey(es[j..], hi) == es[j..] <==> UpToKey(es[j + 1..], hi) == es[j + 1..])
  {
    assert es[j..][1..] == es[j + 1..];
    assert es[j..] == [es[j]] + es[j + 1..];
  }
}
