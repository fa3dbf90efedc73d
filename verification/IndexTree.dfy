/**
  * The B+Tree as a mathematical object: a tree whose nodes know the page they live on, the
  * insertion algorithm on it, and what insertion keeps.
  */
module IndexTree {
  import opened Pages
  import opened Sequences

  const MIN_KEY := -0x8000_0000_0000_0000
  const MAX_KEY := 0x7FFF_FFFF_FFFF_FFFF

  type Key = k: int | MIN_KEY <= k <= MAX_KEY

  datatype Entry = Entry(key: Key, tid: TID)

  // The key capacities of the two node kinds. They are arbitrary: every result below holds for
  // all capacities that fit a page. The engine runs with 584 and 681.
  type LeafCapacity = c: int | 2 <= c && 8 + 14 * c <= 8192 witness 584
  type BranchCapacity = c: int | 3 <= c && 8 + 8 * c + 4 * (c + 1) <= 8192 witness 681
  const LEAF_CAP: LeafCapacity
  const BRANCH_CAP: BranchCapacity

  datatype Tree =
    | Leaf(pid: nat, entries: seq<Entry>)
    | Branch(pid: nat, keys: seq<Key>, kids: seq<Tree>)

  function KeysOf(es: seq<Entry>): (ks: seq<Key>)
    ensures |ks| == |es| && forall i :: 0 <= i < |es| ==> ks[i] == es[i].key
  {
    seq(|es|, i requires 0 <= i < |es| => es[i].key)
  }

  ghost predicate Sorted(ks: seq<Key>) {
    forall i, j :: 0 <= i < j < |ks| ==> ks[i] < ks[j]
  }

  /** All keys lie in [lo, hi). */
  ghost predicate Within(ks: seq<Key>, lo: int, hi: int) {
    forall i :: 0 <= i < |ks| ==> lo <= ks[i] < hi
  }

  function InsertAt<T>(s: seq<T>, i: nat, x: T): (r: seq<T>)
    requires i <= |s|
    ensures |r| == |s| + 1
    ensures forall j :: 0 <= j < |r| ==> r[j] == if j < i then s[j] else if j == i then x else s[j - 1]
  {
    s[..i] + [x] + s[i..]
  }

  /** The first position whose key is not below k. */
  function LowerBound(ks: seq<Key>, k: Key): (i: nat)
    ensures i <= |ks|
    ensures forall j :: 0 <= j < i ==> ks[j] < k
    ensures i < |ks| ==> ks[i] >= k
  {
    if ks == [] || ks[0] >= k then 0 else 1 + LowerBound(ks[1..], k)
  }

  /** The child to follow for k: the number of separators that are at most k. */
  function ChildIndex(ks: seq<Key>, k: Key): (i: nat)
    ensures i <= |ks|
  {
    var i := LowerBound(ks, k);
    if i < |ks| && ks[i] == k then i + 1 else i
  }

  lemma ChildBand(ks: seq<Key>, k: Key)
    requires Sorted(ks)
    ensures var i := ChildIndex(ks, k);
      && (forall j :: 0 <= j < i ==> ks[j] <= k)
      && (forall j :: i <= j < |ks| ==> k < ks[j])
  {
  }

  // ---- the specification: a finite map, kept as a sequence of entries in key order ----

  ghost predicate InOrder(es: seq<Entry>) {
    forall i, j :: 0 <= i < j < |es| ==> es[i].key < es[j].key
  }

  ghost predicate Has(es: seq<Entry>, k: Key) {
    exists i :: 0 <= i < |es| && es[i].key == k
  }

  function Put(es: seq<Entry>, e: Entry): (r: seq<Entry>) {
    InsertAt(es, LowerBound(KeysOf(es), e.key), e)
  }

  ghost function MapOf(es: seq<Entry>): (m: map<Key, TID>)
    requires InOrder(es)
    ensures forall k :: k in m ==> Entry(k, m[k]) in es
    ensures forall e :: e in es ==> e.key in m && m[e.key] == e.tid
  {
    map i | 0 <= i < |es| :: es[i].key := es[i].tid
  }

  lemma PutKeepsOrder(es: seq<Entry>, e: Entry)
    requires InOrder(es) && !Has(es, e.key)
    ensures InOrder(Put(es, e))
  {
  }

  /** Putting an entry in its place adds exactly that binding to the map. */
  lemma PutAddsBinding(es: seq<Entry>, e: Entry)
    requires InOrder(es) && !Has(es, e.key)
    ensures InOrder(Put(es, e)) && MapOf(Put(es, e)) == MapOf(es)[e.key := e.tid]
  {
    hide MapOf, InOrder, Put, Has;
    PutKeepsOrder(es, e);
    PutMembers(es, e);
    var m, m' := MapOf(es)[e.key := e.tid], MapOf(Put(es, e));
    assert forall k :: k in m ==> Entry(k, m[k]) in Put(es, e);
    assert forall k :: k in m' ==> Entry(k, m'[k]) == e || Entry(k, m'[k]) in es;
  }

  lemma PutMembers(es: seq<Entry>, e: Entry)
    ensures forall x :: x in Put(es, e) <==> x == e || x in es
    ensures !Has(es, e.key) ==> forall x :: x in es ==> x.key != e.key
  {
    var i := LowerBound(KeysOf(es), e.key);
    var r := Put(es, e);
    assert r[i] == e;
    forall j | 0 <= j < |es| ensures es[j] in r {
      assert r[if j < i then j else j + 1] == es[j];
    }
  }

  // ---- trees ----

  function Entries(t: Tree): seq<Entry>
    decreases t
  {
    match t
    case Leaf(_, es) => es
    case Branch(_, _, kids) => Flat(kids)
  }

  /** The entries of a row of subtrees, left to right. */
  function Flat(ts: seq<Tree>): seq<Entry>
    decreases ts
  {
    if ts == [] then [] else Entries(ts[0]) + Flat(ts[1..])
  }

  /** One more child than separators, everywhere. */
  ghost predicate Formed(t: Tree) {
    t.Branch? ==> |t.kids| == |t.keys| + 1 && forall i :: 0 <= i < |t.kids| ==> Formed(t.kids[i])
  }

  /** The band [Low, High) of keys that child i covers. */
  ghost function Low(ks: seq<Key>, i: nat, lo: int): int
    requires i <= |ks|
  {
    if i == 0 then lo else ks[i - 1]
  }

  ghost function High(ks: seq<Key>, i: nat, hi: int): int
    requires i <= |ks|
  {
    if i == |ks| then hi else ks[i]
  }

  /**
    * The tree invariant for a subtree of h levels with keys in [lo, hi): keys in strict order,
    * every child inside its separator band, all leaves at one depth, every node below capacity,
    * and every node but the root at least half full.
    */
  ghost predicate Good(t: Tree, h: nat, lo: int, hi: int, root: bool)
    ensures Good(t, h, lo, hi, root) ==> Formed(t)
    decreases h, 0
  {
    match t
    case Leaf(_, es) =>
      && h == 1 && InOrder(es) && Within(KeysOf(es), lo, hi)
      && |es| < LEAF_CAP && (root || |es| >= LEAF_CAP / 2)
    case Branch(_, ks, kids) =>
      && h > 1 && |ks| < BRANCH_CAP && |ks| >= (if root then 1 else (BRANCH_CAP - 1) / 2)
      && GoodKids(ks, kids, h - 1, lo, hi)
  }

  ghost predicate GoodKids(ks: seq<Key>, kids: seq<Tree>, h: nat, lo: int, hi: int)
    ensures GoodKids(ks, kids, h, lo, hi) ==> forall i :: 0 <= i < |kids| ==> Formed(kids[i])
    decreases h, 1
  {
    && |kids| == |ks| + 1 && lo <= hi && Sorted(ks) && Within(ks, lo, hi)
    && forall i :: 0 <= i < |kids| ==> Good(kids[i], h, Low(ks, i, lo), High(ks, i, hi), false)
  }

  // ---- insertion ----

  /** `next` is the first page id not yet allocated. */
  datatype Outcome =
    | Duplicate
    | One(tree: Tree, next: nat)
    | Two(left: Tree, sep: Key, right: Tree, next: nat)

  function TreeInsert(t: Tree, e: Entry, next: nat): (o: Outcome)
    requires Formed(t)
    decreases t
  {
    match t
    case Leaf(pid, es) =>
      var i := LowerBound(KeysOf(es), e.key);
      if i < |es| && es[i].key == e.key then Duplicate
      else SplitLeaf(pid, InsertAt(es, i, e), next)
    case Branch(pid, ks, kids) =>
      var i := ChildIndex(ks, e.key);
      match TreeInsert(kids[i], e, next)
      case Duplicate => Duplicate
      case One(kid, n) => One(Branch(pid, ks, kids[i := kid]), n)
      case Two(l, sep, r, n) =>
        SplitBranch(pid, InsertAt(ks, i, sep), InsertAt(kids[i := l], i + 1, r), n)
  }

  /** Copy-up: a full leaf keeps its lower half; the first key of the new right leaf separates them. */
  function SplitLeaf(pid: nat, es: seq<Entry>, next: nat): Outcome {
    var m := |es| / 2;
    if |es| < LEAF_CAP then One(Leaf(pid, es), next)
    else Two(Leaf(pid, es[..m]), es[m].key, Leaf(next, es[m..]), next + 1)
  }

  /** Push-up: a full internal node gives its middle key to the parent and keeps what is left of it. */
  function SplitBranch(pid: nat, ks: seq<Key>, kids: seq<Tree>, next: nat): Outcome
    requires |kids| == |ks| + 1
  {
    var m := |ks| / 2;
    if |ks| < BRANCH_CAP then One(Branch(pid, ks, kids), next)
    else Two(Branch(pid, ks[..m], kids[..m + 1]), ks[m], Branch(next, ks[m + 1..], kids[m + 1..]), next + 1)
  }

  // ---- insertion keeps the invariant ----

  ghost predicate GoodOutcome(o: Outcome, h: nat, lo: int, hi: int, root: bool) {
    match o
    case Duplicate => true
    case One(t, _) => Good(t, h, lo, hi, root)
    case Two(l, sep, r, _) => lo < sep < hi && Good(l, h, lo, sep, false) && Good(r, h, sep, hi, false)
  }

  lemma {:induction false} InsertGood(t: Tree, e: Entry, next: nat, h: nat, lo: int, hi: int, root: bool)
    requires Good(t, h, lo, hi, root) && lo <= e.key < hi
    ensures GoodOutcome(TreeInsert(t, e, next), h, lo, hi, root)
    decreases h
  {
    match t
    case Leaf(pid, es) =>
      InsertLeafGood(pid, es, e, next, lo, hi, root);
    case Branch(pid, ks, kids) =>
      var i := ChildIndex(ks, e.key);
      ChildBand(ks, e.key);
      InsertGood(kids[i], e, next, h - 1, Low(ks, i, lo), High(ks, i, hi), false);
      match TreeInsert(kids[i], e, next)
      case Duplicate =>
      case One(kid, n) =>
        ReplaceKid(ks, kids, h - 1, lo, hi, i, kid);
      case Two(l, sep, r, n) =>
        AbsorbSplit(ks, kids, h - 1, lo, hi, i, l, sep, r);
        SplitBranchGood(pid, InsertAt(ks, i, sep), InsertAt(kids[i := l], i + 1, r), n, h, lo, hi, root);
  }

  lemma InsertLeafGood(pid: nat, es: seq<Entry>, e: Entry, next: nat, lo: int, hi: int, root: bool)
    requires Good(Leaf(pid, es), 1, lo, hi, root) && lo <= e.key < hi
    ensures GoodOutcome(TreeInsert(Leaf(pid, es), e, next), 1, lo, hi, root)
  {
    hide InOrder, Within, LowerBound, InsertAt, SplitLeaf;
    var i := LowerBound(KeysOf(es), e.key);
    if !(i < |es| && es[i].key == e.key) {
      InsertInBand(es, e, lo, hi);
      SplitLeafGood(pid, InsertAt(es, i, e), next, lo, hi, root);
    }
  }

  lemma InsertInBand(es: seq<Entry>, e: Entry, lo: int, hi: int)
    requires InOrder(es) && Within(KeysOf(es), lo, hi) && lo <= e.key < hi
    requires var i := LowerBound(KeysOf(es), e.key); i < |es| ==> es[i].key != e.key
    ensures InOrder(Put(es, e)) && Within(KeysOf(Put(es, e)), lo, hi)
  {
    PutKeepsOrder(es, e);
    var i, r := LowerBound(KeysOf(es), e.key), Put(es, e);
    forall j | 0 <= j < |r| ensures lo <= KeysOf(r)[j] < hi {
      if j < i { assert KeysOf(es)[j] == r[j].key; } else if j > i { assert KeysOf(es)[j - 1] == r[j].key; }
    }
  }

  lemma SplitLeafGood(pid: nat, es: seq<Entry>, next: nat, lo: int, hi: int, root: bool)
    requires InOrder(es) && Within(KeysOf(es), lo, hi) && |es| <= LEAF_CAP && (root || |es| >= LEAF_CAP / 2) && es != []
    ensures GoodOutcome(SplitLeaf(pid, es, next), 1, lo, hi, root)
  {
    assert KeysOf(es)[|es| / 2] == es[|es| / 2].key;
    assert lo <= KeysOf(es)[0] == es[0].key;
  }

  lemma SplitBranchGood(pid: nat, ks: seq<Key>, kids: seq<Tree>, next: nat, h: nat, lo: int, hi: int, root: bool)
    requires h > 1 && GoodKids(ks, kids, h - 1, lo, hi)
    requires |ks| <= BRANCH_CAP && |ks| >= (if root then 1 else (BRANCH_CAP - 1) / 2)
    ensures GoodOutcome(SplitBranch(pid, ks, kids, next), h, lo, hi, root)
  {
    if |ks| == BRANCH_CAP {
      CutKids(ks, kids, h - 1, lo, hi, |ks| / 2);
      assert lo <= ks[0] < ks[|ks| / 2] < hi;
    }
  }

  lemma ReplaceKid(ks: seq<Key>, kids: seq<Tree>, h: nat, lo: int, hi: int, i: nat, kid: Tree)
    requires GoodKids(ks, kids, h, lo, hi) && i < |kids|
    requires Good(kid, h, Low(ks, i, lo), High(ks, i, hi), false)
    ensures GoodKids(ks, kids[i := kid], h, lo, hi)
  {
  }

  lemma AbsorbSplit(ks: seq<Key>, kids: seq<Tree>, h: nat, lo: int, hi: int, i: nat, l: Tree, sep: Key, r: Tree)
    requires GoodKids(ks, kids, h, lo, hi) && i < |kids|
    requires Low(ks, i, lo) < sep < High(ks, i, hi)
    requires Good(l, h, Low(ks, i, lo), sep, false) && Good(r, h, sep, High(ks, i, hi), false)
    ensures GoodKids(InsertAt(ks, i, sep), InsertAt(kids[i := l], i + 1, r), h, lo, hi)
  {
    hide Good;
    var ks', kids' := InsertAt(ks, i, sep), InsertAt(kids[i := l], i + 1, r);
    InsertSeparator(ks, i, sep, lo, hi);
    hide Sorted, Within, InsertAt;
    forall j | 0 <= j < |kids'| ensures Good(kids'[j], h, Low(ks', j, lo), High(ks', j, hi), false) {
      if j < i {
        assert kids'[j] == kids[j];
      } else if j > i + 1 {
        assert kids'[j] == kids[j - 1];
      }
    }
  }

  lemma InsertSeparator(ks: seq<Key>, i: nat, sep: Key, lo: int, hi: int)
    requires i <= |ks| && Sorted(ks) && Within(ks, lo, hi) && lo <= hi
    requires Low(ks, i, lo) < sep < High(ks, i, hi)
    ensures Sorted(InsertAt(ks, i, sep)) && Within(InsertAt(ks, i, sep), lo, hi)
  {
  }

  lemma CutKids(ks: seq<Key>, kids: seq<Tree>, h: nat, lo: int, hi: int, m: nat)
    requires GoodKids(ks, kids, h, lo, hi) && m < |ks|
    ensures GoodKids(ks[..m], kids[..m + 1], h, lo, ks[m])
    ensures GoodKids(ks[m + 1..], kids[m + 1..], h, ks[m], hi)
  {
  }

  // ---- insertion puts exactly one entry in its place ----

  /** The subtrees an insertion leaves behind. */
  ghost function Parts(o: Outcome): seq<Tree> {
    match o
    case Duplicate => []
    case One(t, _) => [t]
    case Two(l, _, r, _) => [l, r]
  }

  /** The row of children once child i has been replaced by the outcome of an insertion into it. */
  ghost function NewRow(kids: seq<Tree>, i: nat, o: Outcome): seq<Tree>
    requires i < |kids|
  {
    kids[..i] + Parts(o) + kids[i + 1..]
  }

  lemma NewRowIs(kids: seq<Tree>, i: nat, o: Outcome)
    requires i < |kids|
    ensures o.One? ==> kids[i := o.tree] == NewRow(kids, i, o)
    ensures o.Two? ==> InsertAt(kids[i := o.left], i + 1, o.right) == NewRow(kids, i, o)
  {
  }

  lemma {:induction false} FlatAppend(a: seq<Tree>, b: seq<Tree>)
    ensures Flat(a + b) == Flat(a) + Flat(b)
  {
    if a == [] {
      assert a + b == b;
    } else {
      FlatAppend(a[1..], b);
      assert (a + b)[0] == a[0] && (a + b)[1..] == a[1..] + b;
      Assoc(Entries(a[0]), Flat(a[1..]), Flat(b));
    }
  }

  lemma FlatOne(t: Tree)
    ensures Flat([t]) == Entries(t)
  {
  }

  lemma FlatTwo(l: Tree, r: Tree)
    ensures Flat([l, r]) == Entries(l) + Entries(r)
  {
    assert [l, r] == [l] + [r];
    FlatAppend([l], [r]);
    FlatOne(l);
    FlatOne(r);
  }

  /** A row of subtrees, seen around child i. */
  lemma FlatAround(ts: seq<Tree>, i: nat)
    requires i < |ts|
    ensures Flat(ts) == Flat(ts[..i]) + Entries(ts[i]) + Flat(ts[i + 1..])
  {
    hide Flat, Entries;
    Around(ts, i);
    FlatAppend(ts[..i] + [ts[i]], ts[i + 1..]);
    FlatAppend(ts[..i], [ts[i]]);
    FlatOne(ts[i]);
  }

  lemma FlatReplaced(ts: seq<Tree>, i: nat, o: Outcome)
    requires i < |ts|
    ensures Flat(NewRow(ts, i, o)) == Flat(ts[..i]) + Flat(Parts(o)) + Flat(ts[i + 1..])
  {
    FlatAppend(ts[..i] + Parts(o), ts[i + 1..]);
    FlatAppend(ts[..i], Parts(o));
  }

  /** All keys of the entries lie in [lo, hi). */
  ghost predicate InBand(es: seq<Entry>, lo: int, hi: int) {
    forall i :: 0 <= i < |es| ==> lo <= es[i].key < hi
  }

  lemma {:induction false} EntriesSorted(t: Tree, h: nat, lo: int, hi: int, root: bool)
    requires Good(t, h, lo, hi, root)
    ensures InOrder(Entries(t)) && InBand(Entries(t), lo, hi)
    decreases h, 0
  {
    match t
    case Leaf(_, es) =>
      assert forall i :: 0 <= i < |es| ==> es[i].key == KeysOf(es)[i];
    case Branch(_, ks, kids) =>
      KidsSorted(ks, kids, h - 1, lo, hi, |kids|);
      assert kids[..|kids|] == kids;
  }

  /** The entries of the first n children are in order, below the next separator. */
  lemma {:induction false} KidsSorted(ks: seq<Key>, kids: seq<Tree>, h: nat, lo: int, hi: int, n: nat)
    requires GoodKids(ks, kids, h, lo, hi) && n <= |kids|
    ensures InOrder(Flat(kids[..n])) && InBand(Flat(kids[..n]), lo, if n == 0 then lo else High(ks, n - 1, hi))
    decreases h, 1, n
  {
    if n > 0 {
      KidsSorted(ks, kids, h, lo, hi, n - 1);
      EntriesSorted(kids[n - 1], h, Low(ks, n - 1, lo), High(ks, n - 1, hi), false);
      assert kids[..n] == kids[..n - 1] + [kids[n - 1]];
      FlatAppend(kids[..n - 1], [kids[n - 1]]);
      FlatOne(kids[n - 1]);
      JoinSorted(Flat(kids[..n - 1]), Entries(kids[n - 1]), lo, Low(ks, n - 1, lo), High(ks, n - 1, hi));
    }
  }

  lemma JoinSorted(a: seq<Entry>, b: seq<Entry>, lo: int, mid: int, hi: int)
    requires InOrder(a) && InBand(a, lo, mid) && InOrder(b) && InBand(b, mid, hi) && lo <= mid <= hi
    ensures InOrder(a + b) && InBand(a + b, lo, hi)
  {
  }

  /** Putting into the middle of a row: neighbours on either side are out of reach of the key. */
  lemma PutAround(a: seq<Entry>, m: seq<Entry>, b: seq<Entry>, e: Entry)
    requires (forall i :: 0 <= i < |a| ==> a[i].key < e.key) && (forall i :: 0 <= i < |b| ==> e.key < b[i].key)
    ensures Put(a + m + b, e) == a + Put(m, e) + b
    ensures Has(a + m + b, e.key) <==> Has(m, e.key)
  {
    hide LowerBound, Has, InsertAt;
    HasAround(a, m, b, e.key);
    LowerBoundAround(KeysOf(a), KeysOf(m), KeysOf(b), e.key);
    KeysAppend(a + m, b);
    KeysAppend(a, m);
    InsertAround(a, m, b, LowerBound(KeysOf(m), e.key), e);
  }

  lemma KeysAppend(a: seq<Entry>, b: seq<Entry>)
    ensures KeysOf(a + b) == KeysOf(a) + KeysOf(b)
  {
  }

  lemma InsertAround<T>(a: seq<T>, m: seq<T>, b: seq<T>, i: nat, x: T)
    requires i <= |m|
    ensures InsertAt(a + m + b, |a| + i, x) == a + InsertAt(m, i, x) + b
  {
  }

  lemma LowerBoundAround(a: seq<Key>, m: seq<Key>, b: seq<Key>, k: Key)
    requires (forall i :: 0 <= i < |a| ==> a[i] < k) && (forall i :: 0 <= i < |b| ==> k < b[i])
    ensures LowerBound(a + m + b, k) == |a| + LowerBound(m, k)
  {
    LowerBoundIs(a + m + b, k, |a| + LowerBound(m, k));
  }

  lemma LowerBoundIs(ks: seq<Key>, k: Key, i: nat)
    requires i <= |ks| && (forall j :: 0 <= j < i ==> ks[j] < k) && (i < |ks| ==> ks[i] >= k)
    ensures LowerBound(ks, k) == i
  {
  }

  lemma HasAround(a: seq<Entry>, m: seq<Entry>, b: seq<Entry>, k: Key)
    requires (forall i :: 0 <= i < |a| ==> a[i].key < k) && (forall i :: 0 <= i < |b| ==> k < b[i].key)
    ensures Has(a + m + b, k) <==> Has(m, k)
  {
    var row := a + m + b;
    forall j | 0 <= j < |m| ensures row[|a| + j] == m[j] {}
    if Has(m, k) {
      var j :| 0 <= j < |m| && m[j].key == k;
      assert row[|a| + j].key == k;
    }
  }

  /** The siblings of the child that covers k hold no key on the wrong side of k. */
  lemma SiblingsApart(ks: seq<Key>, kids: seq<Tree>, h: nat, lo: int, hi: int, k: Key)
    requires GoodKids(ks, kids, h, lo, hi) && lo <= k < hi
    ensures var i := ChildIndex(ks, k);
      && Low(ks, i, lo) <= k < High(ks, i, hi)
      && InBand(Flat(kids[..i]), lo, k + 1) && (forall j :: 0 <= j < |Flat(kids[..i])| ==> Flat(kids[..i])[j].key < k)
      && InBand(Flat(kids[i + 1..]), k + 1, hi)
  {
    var i := ChildIndex(ks, k);
    ChildBand(ks, k);
    KidsSorted(ks, kids, h, lo, hi, i);
    if i < |ks| {
      CutKids(ks, kids, h, lo, hi, i);
      KidsSorted(ks[i + 1..], kids[i + 1..], h, ks[i], hi, |kids[i + 1..]|);
      assert kids[i + 1..][..|kids[i + 1..]|] == kids[i + 1..];
    }
  }

  ghost predicate Inserted(o: Outcome, es: seq<Entry>, e: Entry) {
    if o.Duplicate? then Has(es, e.key) else !Has(es, e.key) && Flat(Parts(o)) == Put(es, e)
  }

  lemma {:induction false} InsertPuts(t: Tree, e: Entry, next: nat, h: nat, lo: int, hi: int, root: bool)
    requires Good(t, h, lo, hi, root) && lo <= e.key < hi
    ensures Inserted(TreeInsert(t, e, next), Entries(t), e)
    decreases h
  {
    match t
    case Leaf(pid, es) =>
      InsertLeafPuts(pid, es, e, next);
    case Branch(pid, ks, kids) =>
      SiblingsApart(ks, kids, h - 1, lo, hi, e.key);
      var i := ChildIndex(ks, e.key);
      InsertPuts(kids[i], e, next, h - 1, Low(ks, i, lo), High(ks, i, hi), false);
      FlatAround(kids, i);
      PutAround(Flat(kids[..i]), Entries(kids[i]), Flat(kids[i + 1..]), e);
      var o := TreeInsert(kids[i], e, next);
      if !o.Duplicate? {
        FlatReplaced(kids, i, o);
        NewRowIs(kids, i, o);
        if o.One? {
          FlatOne(Branch(pid, ks, NewRow(kids, i, o)));
        } else {
          SplitBranchEntries(pid, InsertAt(ks, i, o.sep), InsertAt(kids[i := o.left], i + 1, o.right), o.next);
        }
      }
  }

  lemma InsertLeafPuts(pid: nat, es: seq<Entry>, e: Entry, next: nat)
    requires InOrder(es)
    ensures Inserted(TreeInsert(Leaf(pid, es), e, next), es, e)
  {
    var i := LowerBound(KeysOf(es), e.key);
    if i < |es| && es[i].key == e.key {
    } else {
      assert forall j :: i <= j < |es| ==> es[i].key <= es[j].key;
      var es' := InsertAt(es, i, e);
      SplitLeafEntries(pid, es', next);
    }
  }

  lemma SplitLeafEntries(pid: nat, es: seq<Entry>, next: nat)
    ensures Flat(Parts(SplitLeaf(pid, es, next))) == es
  {
    if |es| < LEAF_CAP {
      FlatOne(Leaf(pid, es));
    } else {
      var m := |es| / 2;
      FlatTwo(Leaf(pid, es[..m]), Leaf(next, es[m..]));
      assert es[..m] + es[m..] == es;
    }
  }

  lemma SplitBranchEntries(pid: nat, ks: seq<Key>, kids: seq<Tree>, next: nat)
    requires |kids| == |ks| + 1
    ensures Flat(Parts(SplitBranch(pid, ks, kids, next))) == Flat(kids)
  {
    hide Flat;
    if |ks| < BRANCH_CAP {
      FlatOne(Branch(pid, ks, kids));
    } else {
      var m := |ks| / 2;
      FlatTwo(Branch(pid, ks[..m], kids[..m + 1]), Branch(next, ks[m + 1..], kids[m + 1..]));
      FlatAppend(kids[..m + 1], kids[m + 1..]);
      assert kids[..m + 1] + kids[m + 1..] == kids;
    }
  }

  /** A key is bound in a tree exactly as it is bound below the child that covers it. */
  lemma BelowChild(t: Tree, h: nat, lo: int, hi: int, root: bool, k: Key)
    requires Good(t, h, lo, hi, root) && t.Branch? && lo <= k < hi
    ensures var i := ChildIndex(t.keys, k);
      && Low(t.keys, i, lo) <= k < High(t.keys, i, hi)
      && Good(t.kids[i], h - 1, Low(t.keys, i, lo), High(t.keys, i, hi), false)
      && forall e: Entry :: e.key == k ==> (e in Entries(t) <==> e in Entries(t.kids[i]))
  {
    assert GoodKids(t.keys, t.kids, h - 1, lo, hi);
    SiblingsApart(t.keys, t.kids, h - 1, lo, hi, k);
    FlatAround(t.kids, ChildIndex(t.keys, k));
  }

  /** An insertion takes at most one new page per level, and one fewer when the root does not split. */
  lemma {:induction false} InsertGrowth(t: Tree, e: Entry, next: nat, h: nat, lo: int, hi: int, root: bool)
    requires Good(t, h, lo, hi, root)
    ensures var o := TreeInsert(t, e, next);
      !o.Duplicate? ==> next <= o.next <= next + h - (if o.One? then 1 else 0)
    decreases h
  {
    if t.Branch? {
      assert GoodKids(t.keys, t.kids, h - 1, lo, hi);
      var i := ChildIndex(t.keys, e.key);
      InsertGrowth(t.kids[i], e, next, h - 1, Low(t.keys, i, lo), High(t.keys, i, hi), false);
    }
  }

  // ---- what an insertion takes ----

  /** The pages of a descent for k. */
  ghost function Path(t: Tree, k: Key): set<nat>
    requires Formed(t)
    decreases t
  {
    {t.pid} + if t.Leaf? then {} else Path(t.kids[ChildIndex(t.keys, k)], k)
  }

  /** The leaf that covers k. */
  ghost function Covering(t: Tree, k: Key): (leaf: Tree)
    requires Formed(t)
    ensures leaf.Leaf?
    decreases t
  {
    if t.Leaf? then t else Covering(t.kids[ChildIndex(t.keys, k)], k)
  }

  /** Every node on the way to k is one key short of its capacity. */
  ghost predicate FullPath(t: Tree, k: Key)
    requires Formed(t)
    decreases t
  {
    if t.Leaf? then |t.entries| + 1 >= LEAF_CAP
    else |t.keys| + 1 >= BRANCH_CAP && FullPath(t.kids[ChildIndex(t.keys, k)], k)
  }

  /** How many nodes, from the leaf that covers k up, are one key short of their capacity. */
  ghost function Splits(t: Tree, k: Key): nat
    requires Formed(t)
    decreases t
  {
    (if FullPath(t, k) then 1 else 0) + if t.Leaf? then 0 else Splits(t.kids[ChildIndex(t.keys, k)], k)
  }

  /**
    * The pages an insertion of an unbound key adds: one for every node that splits. The root splits exactly when every
    * node on the way is full.
    */
  lemma {:induction false} InsertSplits(t: Tree, e: Entry, next: nat)
    requires Formed(t)
    ensures var o := TreeInsert(t, e, next);
      if o.Duplicate? then Has(Covering(t, e.key).entries, e.key)
      else o.next == next + Splits(t, e.key) && (o.Two? <==> FullPath(t, e.key))
    decreases t
  {
    if t.Branch? { InsertSplits(t.kids[ChildIndex(t.keys, e.key)], e, next); }
  }

  /** A key that the covering leaf has is a duplicate. */
  lemma {:induction false} CoveringDecides(t: Tree, e: Entry, next: nat, h: nat, lo: int, hi: int, root: bool)
    requires Good(t, h, lo, hi, root) && lo <= e.key < hi
    ensures TreeInsert(t, e, next).Duplicate? <==> Has(Covering(t, e.key).entries, e.key)
    decreases h
  {
    if t.Branch? {
      assert GoodKids(t.keys, t.kids, h - 1, lo, hi);
      ChildBand(t.keys, e.key);
      var i := ChildIndex(t.keys, e.key);
      CoveringDecides(t.kids[i], e, next, h - 1, Low(t.keys, i, lo), High(t.keys, i, hi), false);
    }
  }

  /** A node splits only if the one below it does, so a leaf with room means that none does. */
  lemma {:induction false} NoSplits(t: Tree, k: Key, h: nat, lo: int, hi: int, root: bool)
    requires Good(t, h, lo, hi, root)
    ensures Splits(t, k) > 0 <==> |Covering(t, k).entries| == LEAF_CAP - 1
    ensures FullPath(t, k) ==> |Covering(t, k).entries| == LEAF_CAP - 1
    ensures |Covering(t, k).entries| < LEAF_CAP
    ensures |Path(t, k)| <= h && Splits(t, k) <= h
    decreases h
  {
    if t.Branch? {
      assert GoodKids(t.keys, t.kids, h - 1, lo, hi);
      var i := ChildIndex(t.keys, k);
      NoSplits(t.kids[i], k, h - 1, Low(t.keys, i, lo), High(t.keys, i, hi), false);
    }
  }

  /** The whole tree after an insertion: a root that split gets a new root above it, on page `next`. */
  function Grown(o: Outcome): (t: Tree)
    requires !o.Duplicate?
  {
    match o
    case One(t, _) => t
    case Two(l, sep, r, n) => Branch(n, [sep], [l, r])
  }

  /** Insertion at the root keeps the invariant, grows by at most one level, and adds exactly the one entry. */
  lemma InsertAtRoot(t: Tree, h: nat, lo: int, hi: int, e: Entry, next: nat)
    requires Good(t, h, lo, hi, true) && lo <= e.key < hi
    ensures var o := TreeInsert(t, e, next);
      if o.Duplicate? then Has(Entries(t), e.key)
      else
        && Good(Grown(o), if o.One? then h else h + 1, lo, hi, true)
        && !Has(Entries(t), e.key) && Entries(Grown(o)) == Put(Entries(t), e)
  {
    InsertGood(t, e, next, h, lo, hi, true);
    InsertPuts(t, e, next, h, lo, hi, true);
    var o := TreeInsert(t, e, next);
    hide Good, TreeInsert, Put;
    if o.One? {
      FlatOne(o.tree);
    } else if o.Two? {
      RootOverTwo(o.left, o.sep, o.right, o.next, h, lo, hi);
    }
  }

  lemma RootOverTwo(l: Tree, sep: Key, r: Tree, n: nat, h: nat, lo: int, hi: int)
    requires Good(l, h, lo, sep, false) && Good(r, h, sep, hi, false) && lo < sep < hi
    ensures Good(Branch(n, [sep], [l, r]), h + 1, lo, hi, true)
  {
    assert h >= 1;
    assert GoodKids([sep], [l, r], h, lo, hi);
  }

  // ---- ranges ----

  /** The entries with lo <= key <= hi, in order. */
  function Range(es: seq<Entry>, lo: Key, hi: Key): (r: seq<Entry>) {
    if es == [] then []
    else (if lo <= es[0].key <= hi then [es[0]] else []) + Range(es[1..], lo, hi)
  }

  /** The range of a map: its bindings with keys from lo to hi, ascending. */
  lemma RangeOfMap(es: seq<Entry>, lo: Key, hi: Key)
    requires InOrder(es)
    ensures var r, m := Range(es, lo, hi), MapOf(es);
      && (forall i, j :: 0 <= i < j < |r| ==> r[i].key < r[j].key)
      && (forall e: Entry :: e in r <==> lo <= e.key <= hi && e.key in m && m[e.key] == e.tid)
  {
    hide MapOf;
    RangeMembers(es, lo, hi);
  }

  lemma {:induction false} RangeMembers(es: seq<Entry>, lo: Key, hi: Key)
    requires InOrder(es)
    ensures InOrder(Range(es, lo, hi)) && forall e :: e in Range(es, lo, hi) <==> e in es && lo <= e.key <= hi
  {
    if es != [] {
      RangeMembers(es[1..], lo, hi);
      assert es == [es[0]] + es[1..];
      assert forall e :: e in es[1..] ==> es[0].key < e.key;
    }
  }

  /** The leading entries with key <= hi. */
  function UpToKey(es: seq<Entry>, hi: Key): (r: seq<Entry>)
    ensures r <= es
  {
    if es == [] || es[0].key > hi then [] else [es[0]] + UpToKey(es[1..], hi)
  }

  lemma {:induction false} RangeAppend(a: seq<Entry>, b: seq<Entry>, lo: Key, hi: Key)
    ensures Range(a + b, lo, hi) == Range(a, lo, hi) + Range(b, lo, hi)
  {
    if a == [] {
      assert a + b == b;
    } else {
      RangeAppend(a[1..], b, lo, hi);
      assert (a + b)[0] == a[0] && (a + b)[1..] == a[1..] + b;
      Assoc(if lo <= a[0].key <= hi then [a[0]] else [], Range(a[1..], lo, hi), Range(b, lo, hi));
    }
  }

  lemma {:induction false} RangeBelow(es: seq<Entry>, lo: Key, hi: Key)
    requires forall i :: 0 <= i < |es| ==> es[i].key < lo
    ensures Range(es, lo, hi) == []
  {
    if es != [] { RangeBelow(es[1..], lo, hi); }
  }

  lemma {:induction false} RangeAbove(es: seq<Entry>, lo: Key, hi: Key)
    requires forall i :: 0 <= i < |es| ==> es[i].key > hi
    ensures Range(es, lo, hi) == []
  {
    if es != [] { RangeAbove(es[1..], lo, hi); }
  }

  /** From the first entry not below lo on, the range is a prefix. */
  lemma {:induction false} RangeIsPrefix(es: seq<Entry>, lo: Key, hi: Key)
    requires InOrder(es) && forall i :: 0 <= i < |es| ==> es[i].key >= lo
    ensures Range(es, lo, hi) == UpToKey(es, hi)
  {
    if es != [] {
      if es[0].key > hi {
        RangeAbove(es, lo, hi);
      } else {
        RangeIsPrefix(es[1..], lo, hi);
      }
    }
  }

  // ---- leaves ----

  /** The leaves of a tree, left to right. */
  ghost function Leaves(t: Tree): seq<Tree>
    decreases t
  {
    match t
    case Leaf(_, _) => [t]
    case Branch(_, _, kids) => RowLeaves(kids)
  }

  ghost function RowLeaves(ts: seq<Tree>): seq<Tree>
    decreases ts
  {
    if ts == [] then [] else Leaves(ts[0]) + RowLeaves(ts[1..])
  }

  lemma {:induction false} RowLeavesAppend(a: seq<Tree>, b: seq<Tree>)
    ensures RowLeaves(a + b) == RowLeaves(a) + RowLeaves(b)
  {
    if a == [] {
      assert a + b == b;
    } else {
      RowLeavesAppend(a[1..], b);
      assert (a + b)[0] == a[0] && (a + b)[1..] == a[1..] + b;
      Assoc(Leaves(a[0]), RowLeaves(a[1..]), RowLeaves(b));
    }
  }

  lemma RowLeavesAround(ts: seq<Tree>, i: nat)
    requires i < |ts|
    ensures RowLeaves(ts) == RowLeaves(ts[..i]) + Leaves(ts[i]) + RowLeaves(ts[i + 1..])
  {
    hide RowLeaves, Leaves;
    Around(ts, i);
    RowLeavesAppend(ts[..i] + [ts[i]], ts[i + 1..]);
    RowLeavesAppend(ts[..i], [ts[i]]);
    RowLeavesOne(ts[i]);
  }

  lemma RowLeavesOne(t: Tree)
    ensures RowLeaves([t]) == Leaves(t)
  {
  }

  /** The leaves hold all the entries. */
  lemma {:induction false} FlatLeaves(t: Tree)
    ensures Flat(Leaves(t)) == Entries(t)
    decreases t
  {
    match t
    case Leaf(_, _) => FlatOne(t);
    case Branch(_, _, kids) => FlatRowLeaves(kids);
  }

  lemma {:induction false} FlatRowLeaves(ts: seq<Tree>)
    ensures Flat(RowLeaves(ts)) == Flat(ts)
    decreases ts
  {
    if ts != [] {
      FlatLeaves(ts[0]);
      FlatRowLeaves(ts[1..]);
      FlatAppend(Leaves(ts[0]), RowLeaves(ts[1..]));
    }
  }

  lemma {:induction false} UpToKeyAppend(a: seq<Entry>, b: seq<Entry>, hi: Key)
    ensures UpToKey(a + b, hi) == if UpToKey(a, hi) == a then a + UpToKey(b, hi) else UpToKey(a, hi)
  {
    if a == [] {
      assert a + b == b;
    } else {
      assert (a + b)[0] == a[0] && (a + b)[1..] == a[1..] + b;
      if a[0].key <= hi {
        UpToKeyAppend(a[1..], b, hi);
        assert a == [a[0]] + a[1..];
        Assoc([a[0]], a[1..], UpToKey(b, hi));
      }
    }
  }

  /** Descending to the child that covers k: the leaves left behind hold only smaller keys, those ahead only larger. */
  lemma LeavesAroundChild(t: Tree, h: nat, lo: int, hi: int, root: bool, k: Key)
    requires Good(t, h, lo, hi, root) && t.Branch? && lo <= k < hi
    ensures var i := ChildIndex(t.keys, k);
      var a, b := RowLeaves(t.kids[..i]), RowLeaves(t.kids[i + 1..]);
      && Leaves(t) == a + Leaves(t.kids[i]) + b
      && AllBelow(Flat(a), k) && AllAbove(Flat(b), k)
  {
    assert GoodKids(t.keys, t.kids, h - 1, lo, hi);
    var i := ChildIndex(t.keys, k);
    SiblingsApart(t.keys, t.kids, h - 1, lo, hi, k);
    RowLeavesAround(t.kids, i);
    FlatRowLeaves(t.kids[..i]);
    FlatRowLeaves(t.kids[i + 1..]);
  }

  ghost predicate AllBelow(es: seq<Entry>, k: Key) {
    forall i :: 0 <= i < |es| ==> es[i].key < k
  }

  ghost predicate AllAbove(es: seq<Entry>, k: Key) {
    forall i :: 0 <= i < |es| ==> es[i].key > k
  }

  /** The range starts in the leaf that covers lo, at its first key not below lo. */
  lemma RangeStarts(t: Tree, pre: seq<Tree>, leaf: Tree, post: seq<Tree>, lo: Key, hi: Key)
    requires InOrder(Entries(t)) && Leaves(t) == pre + [leaf] + post && leaf.Leaf?
    requires AllBelow(Flat(pre), lo) && AllAbove(Flat(post), lo)
    ensures var i := LowerBound(KeysOf(leaf.entries), lo);
      Range(Entries(t), lo, hi) == UpToKey(leaf.entries[i..] + Flat(post), hi)
  {
    hide Flat, Range, UpToKey, LowerBound;
    var i := LowerBound(KeysOf(leaf.entries), lo);
    var a, m, b := Flat(pre), leaf.entries, Flat(post);
    FlatLeaves(t);
    FlatAppend(pre + [leaf], post);
    FlatAppend(pre, [leaf]);
    FlatOne(leaf);
    CutRow(a, m, b, i);
    var below, above := a + m[..i], m[i..] + b;
    assert Entries(t) == below + above;
    RangeAppend(below, above, lo, hi);
    assert AllBelow(below, lo) by { LowerBoundBelow(m, lo); }
    RangeBelow(below, lo, hi);
    AboveFrom(below, above, m, b, i, lo);
    RangeIsPrefix(above, lo, hi);
  }

  lemma CutRow<T>(a: seq<T>, m: seq<T>, b: seq<T>, i: nat)
    requires i <= |m|
    ensures a + m + b == (a + m[..i]) + (m[i..] + b)
  {
  }

  lemma LowerBoundBelow(es: seq<Entry>, k: Key)
    ensures AllBelow(es[..LowerBound(KeysOf(es), k)], k)
  {
    var i := LowerBound(KeysOf(es), k);
    assert forall j :: 0 <= j < i ==> es[j].key == KeysOf(es)[j];
  }

  lemma AboveFrom(below: seq<Entry>, above: seq<Entry>, m: seq<Entry>, b: seq<Entry>, i: nat, k: Key)
    requires InOrder(below + above) && i == LowerBound(KeysOf(m), k) && above == m[i..] + b && AllAbove(b, k)
    ensures InOrder(above) && forall j :: 0 <= j < |above| ==> above[j].key >= k
  {
    var all := below + above;
    assert forall j :: 0 <= j < |above| ==> above[j] == all[|below| + j];
    if i < |m| {
      assert above[0].key == KeysOf(m)[i] >= k;
      assert forall j :: 0 < j < |above| ==> above[0].key < above[j].key;
    }
  }

  // ---- how many entries a tree of h levels holds ----

  function Pow(b: nat, n: nat): (p: nat) {
    if n == 0 then 1 else b * Pow(b, n - 1)
  }

  const MIN_LEAF := LEAF_CAP / 2
  const MIN_FANOUT := (BRANCH_CAP - 1) / 2 + 1

  lemma MulMono(a: nat, x: nat, y: nat)
    requires x <= y
    ensures a * x <= a * y && x * a <= y * a
  {
  }

  lemma {:induction false} FlatAtLeast(ts: seq<Tree>, m: nat)
    requires forall i :: 0 <= i < |ts| ==> |Entries(ts[i])| >= m
    ensures |Flat(ts)| >= m * |ts|
  {
    if ts != [] {
      FlatAtLeast(ts[1..], m);
      assert m * |ts| == m + m * |ts[1..]|;
    }
  }

  lemma {:induction false} FlatAtMost(ts: seq<Tree>, m: nat)
    requires forall i :: 0 <= i < |ts| ==> |Entries(ts[i])| <= m
    ensures |Flat(ts)| <= m * |ts|
  {
    if ts != [] {
      FlatAtMost(ts[1..], m);
      assert m * |ts| == m + m * |ts[1..]|;
    }
  }

  lemma PowStep(a: nat, b: nat, n: nat)
    requires n > 0
    ensures a * Pow(b, n - 1) * b == a * Pow(b, n)
  {
    assert a * Pow(b, n - 1) * b == a * (Pow(b, n - 1) * b);
  }

  /** A subtree other than the root holds at least so many entries. */
  lemma {:induction false} AtLeast(t: Tree, h: nat, lo: int, hi: int)
    requires Good(t, h, lo, hi, false)
    ensures h >= 1 && |Entries(t)| >= MIN_LEAF * Pow(MIN_FANOUT, h - 1)
    decreases h, 0
  {
    if t.Branch? {
      KidsAtLeast(t.keys, t.kids, h - 1, lo, hi);
      var m := MIN_LEAF * Pow(MIN_FANOUT, h - 2);
      MulMono(m, MIN_FANOUT, |t.kids|);
      PowStep(MIN_LEAF, MIN_FANOUT, h - 1);
    } else {
      assert Pow(MIN_FANOUT, 0) == 1;
    }
  }

  lemma {:induction false} KidsAtLeast(ks: seq<Key>, kids: seq<Tree>, h: nat, lo: int, hi: int)
    requires GoodKids(ks, kids, h, lo, hi)
    ensures h >= 1 && |Flat(kids)| >= MIN_LEAF * Pow(MIN_FANOUT, h - 1) * |kids|
    decreases h, 1
  {
    forall i | 0 <= i < |kids| ensures h >= 1 && |Entries(kids[i])| >= MIN_LEAF * Pow(MIN_FANOUT, h - 1) {
      AtLeast(kids[i], h, Low(ks, i, lo), High(ks, i, hi));
    }
    assert h >= 1 by { assert Good(kids[0], h, Low(ks, 0, lo), High(ks, 0, hi), false); }
    FlatAtLeast(kids, MIN_LEAF * Pow(MIN_FANOUT, h - 1));
  }

  /** Any tree of h levels holds at most so many entries. */
  lemma {:induction false} AtMost(t: Tree, h: nat, lo: int, hi: int, root: bool)
    requires Good(t, h, lo, hi, root)
    ensures h >= 1 && |Entries(t)| <= (LEAF_CAP - 1) * Pow(BRANCH_CAP, h - 1)
    decreases h
  {
    if t.Branch? {
      assert GoodKids(t.keys, t.kids, h - 1, lo, hi);
      forall i | 0 <= i < |t.kids| ensures |Entries(t.kids[i])| <= (LEAF_CAP - 1) * Pow(BRANCH_CAP, h - 2) {
        AtMost(t.kids[i], h - 1, Low(t.keys, i, lo), High(t.keys, i, hi), false);
      }
      var m := (LEAF_CAP - 1) * Pow(BRANCH_CAP, h - 2);
      FlatAtMost(t.kids, m);
      MulMono(m, |t.kids|, BRANCH_CAP);
      PowStep(LEAF_CAP - 1, BRANCH_CAP, h - 1);
    } else {
      assert Pow(BRANCH_CAP, 0) == 1;
    }
  }

  /** A whole tree of two or more levels: its root has at least two children. */
  lemma RootAtLeast(t: Tree, h: nat, lo: int, hi: int)
    requires Good(t, h, lo, hi, true) && h >= 2
    ensures |Entries(t)| >= 2 * MIN_LEAF * Pow(MIN_FANOUT, h - 2)
  {
    hide Pow;
    KidsAtLeast(t.keys, t.kids, h - 1, lo, hi);
    MulMono(MIN_LEAF * Pow(MIN_FANOUT, h - 2), 2, |t.kids|);
    Twice(MIN_LEAF, Pow(MIN_FANOUT, h - 2));
  }

  lemma Twice(a: nat, b: nat)
    ensures 2 * a * b == a * b * 2
  {
  }

  /** With the engine's capacities, the height bounds the number of entries from both sides. */
  lemma EngineBounds(t: Tree, h: nat)
    requires LEAF_CAP == 584 && BRANCH_CAP == 681
    requires Good(t, h, MIN_KEY, MAX_KEY + 1, true)
    ensures h >= 1 && |Entries(t)| <= 583 * Pow(681, h - 1)
    ensures h >= 2 ==> |Entries(t)| >= 584 * Pow(341, h - 2)
  {
    AtMost(t, h, MIN_KEY, MAX_KEY + 1, true);
    if h >= 2 {
      RootAtLeast(t, h, MIN_KEY, MAX_KEY + 1);
    }
  }

  lemma {:induction false} PowMono(b: nat, m: nat, n: nat)
    requires b >= 1 && m <= n
    ensures 1 <= Pow(b, m) <= Pow(b, n)
    decreases n
  {
    if m < n {
      PowMono(b, m, n - 1);
      MulMono(Pow(b, n - 1), 1, b);
    } else if n > 0 {
      PowMono(b, n - 1, n - 1);
      MulMono(Pow(b, n - 1), 1, b);
    }
  }

  /** So many entries do not fill a tree of more than h levels. */
  ghost predicate LevelsSuffice(entries: nat, h: nat) {
    h >= 1 && entries < 2 * MIN_LEAF * Pow(MIN_FANOUT, h - 1)
  }

  lemma HeightBound(t: Tree, h: nat, lo: int, hi: int, levels: nat)
    requires Good(t, h, lo, hi, true) && LevelsSuffice(|Entries(t)|, levels)
    ensures h <= levels
  {
    if h > levels {
      RootAtLeast(t, h, lo, hi);
      PowMono(MIN_FANOUT, levels - 1, h - 2);
      MulMono(2 * MIN_LEAF, Pow(MIN_FANOUT, levels - 1), Pow(MIN_FANOUT, h - 2));
    }
  }

  lemma OrderSnoc(es: seq<Entry>, e: Entry)
    requires InOrder(es + [e])
    ensures InOrder(es) && !Has(es, e.key) && Put(es, e) == es + [e]
  {
    var all, i := es + [e], LowerBound(KeysOf(es), e.key);
    assert forall i :: 0 <= i < |es| ==> all[i] == es[i] && all[i].key < all[|es|].key;
    assert i == |es|;
  }

  lemma MapSnoc(es: seq<Entry>, e: Entry)
    requires InOrder(es + [e])
    ensures InOrder(es) && e.key !in MapOf(es) && MapOf(es + [e]) == MapOf(es)[e.key := e.tid]
  {
    hide MapOf, InOrder, Put;
    OrderSnoc(es, e);
    PutAddsBinding(es, e);
  }

  /** A map has as many bindings as its list of entries has entries. */
  lemma {:induction false} MapCount(es: seq<Entry>)
    requires InOrder(es)
    ensures |MapOf(es)| == |es|
  {
    if es == [] {
      assert MapOf(es) == map[];
    } else {
      hide MapOf, InOrder;
      var n := |es| - 1;
      assert es == es[..n] + [es[n]];
      MapSnoc(es[..n], es[n]);
      MapCount(es[..n]);
    }
  }
}
