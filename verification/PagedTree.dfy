/**
  * How a tree is laid out on pages: one node per page, children by page id, and the leaves
  * chained left to right through their next pointers.
  */
module PagedTree {
  import opened IndexTree
  import opened Counting
  import opened Sequences

  /** The content of one page, as the index reads it. `NotANode` is any other page. */
  datatype Node =
    | LeafNode(entries: seq<Entry>, next: nat)
    | BranchNode(keys: seq<Key>, children: seq<nat>)
    | NotANode

  type Store = seq<Node>

  // ---- which pages a tree uses ----

  ghost function Pids(t: Tree): set<nat>
    decreases t
  {
    match t
    case Leaf(p, _) => {p}
    case Branch(p, _, kids) => {p} + RowPids(kids)
  }

  ghost function RowPids(ts: seq<Tree>): set<nat>
    decreases ts
  {
    set i, p | 0 <= i < |ts| && p in Pids(ts[i]) :: p
  }

  /** No page is reached twice. */
  ghost predicate Distinct(t: Tree) {
    t.Branch? ==> t.pid !in RowPids(t.kids) && DistinctRow(t.kids)
  }

  ghost predicate DistinctRow(ts: seq<Tree>) {
    && (forall i :: 0 <= i < |ts| ==> Distinct(ts[i]))
    && (forall i, j :: 0 <= i < j < |ts| ==> Pids(ts[i]) !! Pids(ts[j]))
  }

  lemma RowPidsAppend(a: seq<Tree>, b: seq<Tree>)
    ensures RowPids(a + b) == RowPids(a) + RowPids(b)
  {
    forall p | p in RowPids(a) + RowPids(b) ensures p in RowPids(a + b) {
      if p in RowPids(a) {
        var i :| 0 <= i < |a| && p in Pids(a[i]);
        assert p in Pids((a + b)[i]);
      } else {
        var i :| 0 <= i < |b| && p in Pids(b[i]);
        assert p in Pids((a + b)[|a| + i]);
      }
    }
  }

  lemma DistinctAppend(a: seq<Tree>, b: seq<Tree>)
    ensures DistinctRow(a + b) <==> DistinctRow(a) && DistinctRow(b) && RowPids(a) !! RowPids(b)
  {
    var c := a + b;
    assert (forall i :: 0 <= i < |a| ==> c[i] == a[i]) && (forall i :: 0 <= i < |b| ==> b[i] == c[|a| + i]);
    if DistinctRow(c) {
      forall i, j | 0 <= i < |a| && 0 <= j < |b| ensures Pids(a[i]) !! Pids(b[j]) {
        assert Pids(c[i]) !! Pids(c[|a| + j]);
      }
    }
    if DistinctRow(a) && DistinctRow(b) && RowPids(a) !! RowPids(b) {
      forall i, j | 0 <= i < j < |c| ensures Pids(c[i]) !! Pids(c[j]) {
        if i < |a| <= j {
          assert Pids(c[i]) <= RowPids(a) && Pids(c[j]) == Pids(b[j - |a|]) <= RowPids(b);
        }
      }
    }
  }

  /** The outcome uses the pages of t and exactly the newly allocated ones, each once; t's root page stays. */
  ghost predicate PagesOf(o: Outcome, t: Tree, next: nat) {
    && !o.Duplicate? && next <= o.next
    && DistinctRow(Parts(o))
    && (forall p :: p in RowPids(Parts(o)) <==> p in Pids(t) || next <= p < o.next)
    && Parts(o)[0].pid == t.pid
    && (o.Two? ==> next < o.next && o.right.pid == o.next - 1)
  }

  lemma {:induction false} InsertPages(t: Tree, e: Entry, next: nat)
    requires Formed(t) && Distinct(t) && forall p :: p in Pids(t) ==> p < next
    ensures var o := TreeInsert(t, e, next); o.Duplicate? || PagesOf(o, t, next)
    decreases t
  {
    hide TreeInsert, Pids, RowPids, Distinct, DistinctRow, PagesOf;
    if t.Leaf? {
      InsertPagesLeaf(t, e, next);
    } else {
      var i := ChildIndex(t.keys, e.key);
      KidPages(t, i);
      InsertPages(t.kids[i], e, next);
      InsertPagesBranch(t, e, next, i, TreeInsert(t.kids[i], e, next));
    }
  }

  lemma InsertPagesLeaf(t: Tree, e: Entry, next: nat)
    requires t.Leaf? && Formed(t) && Distinct(t) && forall p :: p in Pids(t) ==> p < next
    ensures var o := TreeInsert(t, e, next); o.Duplicate? || PagesOf(o, t, next)
  {
    assert t.pid in Pids(t);
    SplitLeafPages(t.pid, InsertAt(t.entries, LowerBound(KeysOf(t.entries), e.key), e), next);
  }

  lemma InsertPagesBranch(t: Tree, e: Entry, next: nat, i: nat, o: Outcome)
    requires t.Branch? && Formed(t) && Distinct(t) && forall p :: p in Pids(t) ==> p < next
    requires i == ChildIndex(t.keys, e.key) && o == TreeInsert(t.kids[i], e, next)
    requires o.Duplicate? || PagesOf(o, t.kids[i], next)
    ensures var r := TreeInsert(t, e, next); r.Duplicate? || PagesOf(r, t, next)
  {
    hide TreeInsert, Pids, RowPids, Distinct, DistinctRow, NewRow, PagesOf, SplitBranch;
    if o.Duplicate? {
      InsertDuplicate(t, e, i, next);
    } else {
      InsertBelow(t, e, i, o, next);
      BranchPages(t, next);
      NewRowPages(t.pid, t.kids, i, o, next);
      NewRowLength(t.kids, i, o);
      if o.One? {
        OneBranchPages(t, t.keys, NewRow(t.kids, i, o), next, o.next);
      } else {
        SplitBranchPages(t, InsertAt(t.keys, i, o.sep), NewRow(t.kids, i, o), next, o.next);
      }
    }
  }

  lemma BranchPages(t: Tree, next: nat)
    requires t.Branch? && Distinct(t) && forall p :: p in Pids(t) ==> p < next
    ensures DistinctRow(t.kids) && t.pid !in RowPids(t.kids)
    ensures t.pid < next && forall p :: p in RowPids(t.kids) ==> p < next
  {
    hide RowPids, DistinctRow;
    assert Pids(t) == {t.pid} + RowPids(t.kids);
    assert t.pid in Pids(t);
    assert forall p :: p in RowPids(t.kids) ==> p in Pids(t);
  }

  lemma InsertDuplicate(t: Tree, e: Entry, i: nat, next: nat)
    requires t.Branch? && Formed(t) && i == ChildIndex(t.keys, e.key) && TreeInsert(t.kids[i], e, next).Duplicate?
    ensures TreeInsert(t, e, next).Duplicate?
  {
  }

  lemma NewRowLength(kids: seq<Tree>, i: nat, o: Outcome)
    requires i < |kids| && !o.Duplicate?
    ensures |NewRow(kids, i, o)| == |kids| + (if o.One? then 0 else 1)
  {
  }

  lemma KidPages(t: Tree, i: nat)
    requires t.Branch? && i < |t.kids| && Distinct(t)
    ensures Distinct(t.kids[i]) && Pids(t.kids[i]) <= Pids(t) && t.pid !in Pids(t.kids[i])
  {
  }

  lemma NewRowPages(pid: nat, kids: seq<Tree>, i: nat, o: Outcome, next: nat)
    requires i < |kids| && PagesOf(o, kids[i], next)
    requires DistinctRow(kids) && pid < next && pid !in RowPids(kids) && forall p :: p in RowPids(kids) ==> p < next
    ensures var row := NewRow(kids, i, o);
      && DistinctRow(row) && pid !in RowPids(row) && next <= o.next
      && (forall p :: p in RowPids(row) <==> p in RowPids(kids) || next <= p < o.next)
  {
    hide RowPids, DistinctRow;
    var a, b := kids[..i], kids[i + 1..];
    assert kids == a + ([kids[i]] + b);
    DistinctAppend(a, [kids[i]] + b);
    DistinctAppend([kids[i]], b);
    RowPidsAppend(a, [kids[i]] + b);
    RowPidsAppend([kids[i]], b);
    RowOne(kids[i]);
    DistinctAppend(a + Parts(o), b);
    DistinctAppend(a, Parts(o));
    RowPidsAppend(a + Parts(o), b);
    RowPidsAppend(a, Parts(o));
  }

  lemma RowOne(t: Tree)
    ensures RowPids([t]) == Pids(t) && (DistinctRow([t]) <==> Distinct(t))
  {
    assert [t][0] == t;
  }

  lemma RowTwo(l: Tree, r: Tree)
    ensures RowPids([l, r]) == Pids(l) + Pids(r)
    ensures DistinctRow([l, r]) <==> Distinct(l) && Distinct(r) && Pids(l) !! Pids(r)
  {
    assert [l, r] == [l] + [r];
    RowPidsAppend([l], [r]);
    DistinctAppend([l], [r]);
    RowOne(l);
    RowOne(r);
  }

  lemma SplitLeafPages(pid: nat, es: seq<Entry>, next: nat)
    requires pid < next
    ensures PagesOf(SplitLeaf(pid, es, next), Leaf(pid, es), next)
  {
    hide RowPids, DistinctRow;
    var o := SplitLeaf(pid, es, next);
    if o.One? { RowOne(o.tree); } else { RowTwo(o.left, o.right); }
  }

  lemma OneBranchPages(t: Tree, ks: seq<Key>, kids: seq<Tree>, next: nat, n: nat)
    requires t.Branch? && next <= n && DistinctRow(kids) && t.pid !in RowPids(kids)
    requires forall p :: p in RowPids(kids) <==> p in RowPids(t.kids) || next <= p < n
    ensures PagesOf(One(Branch(t.pid, ks, kids), n), t, next)
  {
    hide RowPids, DistinctRow;
    var t' := Branch(t.pid, ks, kids);
    RowOne(t');
    assert Pids(t') == {t.pid} + RowPids(kids);
    assert Pids(t) == {t.pid} + RowPids(t.kids);
  }

  lemma SplitBranchPages(t: Tree, ks: seq<Key>, kids: seq<Tree>, next: nat, n: nat)
    requires |kids| == |ks| + 1 && t.Branch? && next <= n && t.pid < next
    requires DistinctRow(kids) && t.pid !in RowPids(kids)
    requires forall p :: p in RowPids(kids) <==> p in RowPids(t.kids) || next <= p < n
    requires forall p :: p in Pids(t) ==> p < next
    ensures PagesOf(SplitBranch(t.pid, ks, kids, n), t, next)
  {
    hide RowPids, DistinctRow;
    var o := SplitBranch(t.pid, ks, kids, n);
    if |ks| < BRANCH_CAP {
      OneBranchPages(t, ks, kids, next, n);
    } else {
      var m := |ks| / 2;
      assert kids == kids[..m + 1] + kids[m + 1..];
      DistinctAppend(kids[..m + 1], kids[m + 1..]);
      RowPidsAppend(kids[..m + 1], kids[m + 1..]);
      RowTwo(o.left, o.right);
      assert Pids(t) == {t.pid} + RowPids(t.kids);
      assert forall p :: p in RowPids(kids) ==> p < n && p != t.pid;
      assert Pids(o.left) + Pids(o.right) == RowPids(kids) + {t.pid, n};
    }
  }

  // ---- representation ----

  /** The leftmost leaf's page. */
  ghost function First(t: Tree): nat
    requires Formed(t)
  {
    match t
    case Leaf(p, _) => p
    case Branch(_, _, kids) => First(kids[0])
  }

  ghost predicate FormedRow(ts: seq<Tree>) {
    forall i :: 0 <= i < |ts| ==> Formed(ts[i])
  }

  ghost function RowFirst(ts: seq<Tree>, next: nat): nat
    requires FormedRow(ts)
  {
    if ts == [] then next else First(ts[0])
  }

  function Roots(ts: seq<Tree>): (r: seq<nat>)
    ensures |r| == |ts| && forall i :: 0 <= i < |ts| ==> r[i] == ts[i].pid
  {
    seq(|ts|, i requires 0 <= i < |ts| => ts[i].pid)
  }

  /**
    * The store holds t. `next` is the page of the leaf to the right of t, 0 if there is none:
    * the rightmost leaf of every subtree points at the leftmost leaf of the next one.
    */
  ghost predicate Rep(t: Tree, s: Store, next: nat)
    requires Formed(t)
    decreases t
  {
    && t.pid < |s|
    && match t
       case Leaf(p, es) => s[p] == LeafNode(es, next)
       case Branch(p, ks, kids) => s[p] == BranchNode(ks, Roots(kids)) && RepRow(kids, s, next)
  }

  ghost predicate RepRow(ts: seq<Tree>, s: Store, next: nat)
    requires FormedRow(ts)
    decreases ts
  {
    forall i :: 0 <= i < |ts| ==> Rep(ts[i], s, RowFirst(ts[i + 1..], next))
  }

  lemma RepAppend(a: seq<Tree>, b: seq<Tree>, s: Store, next: nat)
    requires FormedRow(a) && FormedRow(b)
    ensures FormedRow(a + b)
    ensures RepRow(a + b, s, next) <==> RepRow(a, s, RowFirst(b, next)) && RepRow(b, s, next)
  {
    hide Rep, First, Formed;
    var c := a + b;
    forall i | 0 <= i < |a| ensures c[i] == a[i] && c[i + 1..] == a[i + 1..] + b {}
    forall i | 0 <= i < |b| ensures c[|a| + i] == b[i] && c[|a| + i + 1..] == b[i + 1..] {}
    assert forall i :: 0 <= i < |b| ==>
      Rep(b[i], s, RowFirst(b[i + 1..], next)) == Rep(c[|a| + i], s, RowFirst(c[|a| + i + 1..], next));
  }

  lemma RepOne(t: Tree, s: Store, next: nat)
    requires Formed(t)
    ensures FormedRow([t]) && (RepRow([t], s, next) <==> Rep(t, s, next)) && RowFirst([t], next) == First(t)
  {
    assert [t][0] == t && [t][1..] == [];
  }

  /** A tree does not notice changes to pages that are not its own. */
  lemma {:induction false} RepFrame(t: Tree, s: Store, s': Store, next: nat)
    requires Formed(t) && Rep(t, s, next) && |s| <= |s'|
    requires forall p :: p in Pids(t) && p < |s| ==> s'[p] == s[p]
    ensures Rep(t, s', next)
    decreases t
  {
    if t.Branch? {
      RepRowFrame(t.kids, s, s', next);
    } else {
      assert t.pid in Pids(t);
    }
  }

  lemma {:induction false} RepRowFrame(ts: seq<Tree>, s: Store, s': Store, next: nat)
    requires FormedRow(ts) && RepRow(ts, s, next) && |s| <= |s'|
    requires forall p :: p in RowPids(ts) && p < |s| ==> s'[p] == s[p]
    ensures RepRow(ts, s', next)
    decreases ts
  {
    forall i | 0 <= i < |ts| ensures Rep(ts[i], s', RowFirst(ts[i + 1..], next)) {
      RepFrame(ts[i], s, s', RowFirst(ts[i + 1..], next));
    }
  }

  lemma {:induction false} InsertFirst(t: Tree, e: Entry, n: nat, next: nat)
    requires Formed(t)
    ensures var o := TreeInsert(t, e, n);
      FormedRow(Parts(o)) && (!o.Duplicate? ==> RowFirst(Parts(o), next) == First(t))
    decreases t
  {
    hide TreeInsert, First, RowFirst;
    if t.Leaf? {
      InsertFirstLeaf(t, e, n, next);
    } else {
      var i := ChildIndex(t.keys, e.key);
      InsertFirst(t.kids[i], e, n, next);
      InsertFirstBranch(t, e, n, next, i, TreeInsert(t.kids[i], e, n));
    }
  }

  lemma InsertFirstLeaf(t: Tree, e: Entry, n: nat, next: nat)
    requires t.Leaf?
    ensures var o := TreeInsert(t, e, n);
      FormedRow(Parts(o)) && (!o.Duplicate? ==> RowFirst(Parts(o), next) == First(t))
  {
    hide LowerBound, KeysOf, InsertAt;
  }

  lemma InsertFirstBranch(t: Tree, e: Entry, n: nat, next: nat, i: nat, o: Outcome)
    requires t.Branch? && Formed(t) && i == ChildIndex(t.keys, e.key) && o == TreeInsert(t.kids[i], e, n)
    requires FormedRow(Parts(o)) && (!o.Duplicate? ==> RowFirst(Parts(o), next) == First(t.kids[i]))
    ensures var r := TreeInsert(t, e, n);
      FormedRow(Parts(r)) && (!r.Duplicate? ==> RowFirst(Parts(r), next) == First(t))
  {
    InsertBelow(t, e, i, o, n);
    hide TreeInsert, NewRow;
    if o.Duplicate? {
      InsertDuplicate(t, e, i, n);
    } else {
      NewRowFirst(t.kids, i, o, next);
      NewRowLength(t.kids, i, o);
      if o.One? {
        RepOne(Branch(t.pid, t.keys, NewRow(t.kids, i, o)), [], next);
      } else {
        SplitBranchFirst(t.pid, InsertAt(t.keys, i, o.sep), NewRow(t.kids, i, o), o.next, next);
      }
    }
  }

  lemma NewRowFirst(kids: seq<Tree>, i: nat, o: Outcome, next: nat)
    requires i < |kids| && FormedRow(kids) && !o.Duplicate? && FormedRow(Parts(o))
    requires RowFirst(Parts(o), next) == First(kids[i])
    ensures FormedRow(NewRow(kids, i, o)) && First(NewRow(kids, i, o)[0]) == First(kids[0])
  {
    hide Formed, First;
    var row := NewRow(kids, i, o);
    assert forall j :: 0 <= j < |row| ==>
      row[j] == if j < i then kids[j] else if j - i < |Parts(o)| then Parts(o)[j - i] else kids[j - |Parts(o)| + 1];
  }

  lemma SplitBranchFirst(pid: nat, ks: seq<Key>, kids: seq<Tree>, n: nat, next: nat)
    requires |kids| == |ks| + 1 && FormedRow(kids)
    ensures var o := SplitBranch(pid, ks, kids, n); FormedRow(Parts(o)) && RowFirst(Parts(o), next) == First(kids[0])
  {
  }

  // ---- one insertion, seen on the store ----

  /** Store s' carries the outcome o of an insertion into t: its parts are there, and no page outside t changed. */
  ghost predicate Carries(s': Store, o: Outcome, t: Tree, s: Store, next: nat) {
    && !o.Duplicate? && FormedRow(Parts(o)) && RepRow(Parts(o), s', next)
    && |s| <= |s'| == o.next
    && forall p :: 0 <= p < |s| && p !in Pids(t) ==> s'[p] == s[p]
  }

  lemma LeafAbsorbs(pid: nat, es: seq<Entry>, es': seq<Entry>, s: Store, next: nat)
    requires pid < |s| && |es'| < LEAF_CAP
    ensures Carries(s[pid := LeafNode(es', next)], SplitLeaf(pid, es', |s|), Leaf(pid, es), s, next)
  {
    RepOne(Leaf(pid, es'), s[pid := LeafNode(es', next)], next);
  }

  lemma LeafSplits(pid: nat, es: seq<Entry>, es': seq<Entry>, s: Store, s': Store, next: nat)
    requires pid < |s| && |es'| >= LEAF_CAP
    requires var m := |es'| / 2; s' == s[pid := LeafNode(es'[..m], |s|)] + [LeafNode(es'[m..], next)]
    ensures Carries(s', SplitLeaf(pid, es', |s|), Leaf(pid, es), s, next)
  {
    var o := SplitLeaf(pid, es', |s|);
    RepTwo(o.left, o.right, s', next);
  }

  lemma RepTwo(l: Tree, r: Tree, s: Store, next: nat)
    requires Formed(l) && Formed(r)
    ensures FormedRow([l, r]) && (RepRow([l, r], s, next) <==> Rep(l, s, First(r)) && Rep(r, s, next))
  {
    hide Rep, First, Formed, RepRow;
    assert [l, r] == [l] + [r];
    RepOne(l, s, First(r));
    RepOne(r, s, next);
    RepAppend([l], [r], s, next);
  }

  lemma RowApart(kids: seq<Tree>, i: nat)
    requires i < |kids| && DistinctRow(kids)
    ensures RowPids(kids[..i]) !! Pids(kids[i]) && RowPids(kids[i + 1..]) !! Pids(kids[i])
  {
    var a, b := kids[..i], kids[i + 1..];
    assert kids == a + ([kids[i]] + b);
    hide RowPids, DistinctRow;
    DistinctAppend(a, [kids[i]] + b);
    RowPidsAppend([kids[i]], b);
    DistinctAppend([kids[i]], b);
    RowOne(kids[i]);
  }

  /** The children of t once child i has been inserted into; the node of t itself is still as it was. */
  lemma {:induction false} KidCarried(t: Tree, i: nat, o: Outcome, s: Store, s': Store, next: nat)
    requires t.Branch? && Formed(t) && Distinct(t) && Rep(t, s, next) && i < |t.kids|
    requires FormedRow(t.kids[i + 1..]) && Carries(s', o, t.kids[i], s, RowFirst(t.kids[i + 1..], next))
    requires !o.Duplicate? && RowFirst(Parts(o), 0) == First(t.kids[i])
    ensures FormedRow(NewRow(t.kids, i, o)) && RepRow(NewRow(t.kids, i, o), s', next)
    ensures s'[t.pid] == s[t.pid] && forall p :: 0 <= p < |s| && p !in Pids(t) ==> s'[p] == s[p]
  {
    hide Rep, RepRow, First, Pids, RowPids, Distinct, DistinctRow, Formed;
    var a, k, b := t.kids[..i], t.kids[i], t.kids[i + 1..];
    KidPages(t, i);
    KidsOf(t, i, s, next);
    RepSides(a, k, b, Parts(o), s, s', next);
    assert a + Parts(o) + b == NewRow(t.kids, i, o);
  }

  /** A branch's children, around child i. */
  lemma KidsOf(t: Tree, i: nat, s: Store, next: nat)
    requires t.Branch? && Formed(t) && Distinct(t) && Rep(t, s, next) && i < |t.kids|
    ensures var a, k, b := t.kids[..i], t.kids[i], t.kids[i + 1..];
      && t.kids == a + ([k] + b) && FormedRow(a) && Formed(k) && FormedRow(b) && FormedRow(a + ([k] + b))
      && RepRow(a + ([k] + b), s, next) && t.pid < |s|
      && RowPids(a) !! Pids(k) && RowPids(b) !! Pids(k)
  {
    hide RepRow, First, Pids, RowPids, DistinctRow;
    RowApart(t.kids, i);
    assert t.kids == t.kids[..i] + ([t.kids[i]] + t.kids[i + 1..]);
  }

  lemma RepSides(a: seq<Tree>, k: Tree, b: seq<Tree>, parts: seq<Tree>, s: Store, s': Store, next: nat)
    requires FormedRow(a) && Formed(k) && FormedRow(b) && FormedRow(parts) && parts != [] && |s| <= |s'|
    requires FormedRow(a + ([k] + b)) && RepRow(a + ([k] + b), s, next)
    requires RepRow(parts, s', RowFirst(b, next)) && First(parts[0]) == First(k)
    requires forall p :: 0 <= p < |s| && p !in Pids(k) ==> s'[p] == s[p]
    requires RowPids(a) !! Pids(k) && RowPids(b) !! Pids(k)
    ensures FormedRow(a + parts + b) && RepRow(a + parts + b, s', next)
  {
    hide RepRow, Rep, First, Formed, FormedRow, Pids, RowPids, RowFirst;
    RepOne(k, s, RowFirst(b, next));
    FirstOfJoin([k], b, next);
    FirstOfJoin(parts, b, next);
    RepAppend([k], b, s, next);
    RepAppend(a, [k] + b, s, next);
    RepRowFrame(a, s, s', First(k));
    RepRowFrame(b, s, s', next);
    RepAppend(parts, b, s', next);
    RepAppend(a, parts + b, s', next);
    Assoc(a, parts, b);
  }

  lemma FirstOfJoin(a: seq<Tree>, b: seq<Tree>, next: nat)
    requires a != [] && FormedRow(a) && FormedRow(b)
    ensures FormedRow(a + b) && RowFirst(a + b, next) == First(a[0])
  {
    hide Formed, First;
  }

  lemma {:induction false} RepBound(t: Tree, s: Store, next: nat)
    requires Formed(t) && Rep(t, s, next)
    ensures forall p :: p in Pids(t) ==> p < |s|
    decreases t
  {
    if t.Branch? {
      forall i | 0 <= i < |t.kids| ensures forall p :: p in Pids(t.kids[i]) ==> p < |s| {
        RepBound(t.kids[i], s, RowFirst(t.kids[i + 1..], next));
      }
      assert Pids(t) == {t.pid} + RowPids(t.kids);
    }
  }

  /** What the node of t must hold once child i has split. */
  ghost function NewRoots(kids: seq<Tree>, i: nat, o: Outcome): seq<nat>
    requires i < |kids| && o.Two?
  {
    InsertAt(Roots(kids), i + 1, o.right.pid)
  }

  /** Child i of t received e and the store carries the outcome. */
  ghost predicate KidDone(t: Tree, e: Entry, i: nat, o: Outcome, s: Store, s1: Store, next: nat) {
    && t.Branch? && Formed(t) && Distinct(t) && Rep(t, s, next)
    && i == ChildIndex(t.keys, e.key)
    && o == TreeInsert(t.kids[i], e, |s|)
    && FormedRow(t.kids[i + 1..]) && Carries(s1, o, t.kids[i], s, RowFirst(t.kids[i + 1..], next))
  }

  lemma KidDoneFacts(t: Tree, e: Entry, i: nat, o: Outcome, s: Store, s1: Store, next: nat)
    requires KidDone(t, e, i, o, s, s1, next)
    ensures var row := NewRow(t.kids, i, o);
      && PagesOf(o, t.kids[i], |s|) && FormedRow(row) && RepRow(row, s1, next) && t.pid !in RowPids(row)
      && t.pid < |s| && s1[t.pid] == s[t.pid]
    ensures forall p :: 0 <= p < |s| && p !in Pids(t) ==> s1[p] == s[p]
    ensures forall p :: p in RowPids(NewRow(t.kids, i, o)) ==> p < |s1|
    ensures t.pid in Pids(t) && |s| <= |s1| == o.next
    ensures o.Two? ==> Roots(NewRow(t.kids, i, o)) == NewRoots(t.kids, i, o)
    ensures o.Two? ==> |NewRow(t.kids, i, o)| == |t.kids| + 1
  {
    RepBound(t, s, next);
    KidPages(t, i);
    InsertPages(t.kids[i], e, |s|);
    InsertFirst(t.kids[i], e, |s|, 0);
    KidCarried(t, i, o, s, s1, next);
    NewRowPages(t.pid, t.kids, i, o, |s|);
    NewRowRoots(t.kids, i, o);
    assert |Roots(NewRow(t.kids, i, o))| == |NewRow(t.kids, i, o)|;
  }

  lemma InsertBelow(t: Tree, e: Entry, i: nat, o: Outcome, n: nat)
    requires t.Branch? && Formed(t) && i == ChildIndex(t.keys, e.key) && o == TreeInsert(t.kids[i], e, n)
    ensures o.One? ==> TreeInsert(t, e, n) == One(Branch(t.pid, t.keys, NewRow(t.kids, i, o)), o.next)
    ensures o.Two? ==>
      TreeInsert(t, e, n) == SplitBranch(t.pid, InsertAt(t.keys, i, o.sep), NewRow(t.kids, i, o), o.next)
  {
    NewRowIs(t.kids, i, o);
  }

  lemma NewRowRoots(kids: seq<Tree>, i: nat, o: Outcome)
    requires i < |kids| && !o.Duplicate? && Parts(o)[0].pid == kids[i].pid
    ensures Roots(NewRow(kids, i, o)) == if o.One? then Roots(kids) else NewRoots(kids, i, o)
  {
    NewRowIs(kids, i, o);
  }

  lemma BranchKeeps(t: Tree, e: Entry, i: nat, o: Outcome, s: Store, s1: Store, next: nat)
    requires KidDone(t, e, i, o, s, s1, next) && o.One?
    ensures Carries(s1, TreeInsert(t, e, |s|), t, s, next)
  {
    KidDoneFacts(t, e, i, o, s, s1, next);
    InsertBelow(t, e, i, o, |s|);
    NewRowRoots(t.kids, i, o);
    RepOne(Branch(t.pid, t.keys, NewRow(t.kids, i, o)), s1, next);
  }

  lemma BranchAbsorbs(t: Tree, e: Entry, i: nat, o: Outcome, s: Store, s1: Store, next: nat)
    requires KidDone(t, e, i, o, s, s1, next) && o.Two? && |t.keys| + 1 < BRANCH_CAP
    ensures t.pid < |s1|
    ensures var s2 := s1[t.pid := BranchNode(InsertAt(t.keys, i, o.sep), NewRoots(t.kids, i, o))];
      Carries(s2, TreeInsert(t, e, |s|), t, s, next)
  {
    hide TreeInsert, Distinct, Pids, RowPids, Rep, RepRow, NewRow, First, FormedRow, Carries, ChildIndex;
    KidDoneFacts(t, e, i, o, s, s1, next);
    InsertBelow(t, e, i, o, |s|);
    var row, ks := NewRow(t.kids, i, o), InsertAt(t.keys, i, o.sep);
    AbsorbCarries(t, ks, row, s, s1, next);
  }

  lemma AbsorbCarries(t: Tree, ks: seq<Key>, row: seq<Tree>, s: Store, s1: Store, next: nat)
    requires |row| == |ks| + 1 && |ks| < BRANCH_CAP && FormedRow(row) && RepRow(row, s1, next)
    requires t.pid < |s1| && t.pid !in RowPids(row) && t.pid in Pids(t)
    requires |s| <= |s1| && forall p :: 0 <= p < |s| && p !in Pids(t) ==> s1[p] == s[p]
    ensures Carries(s1[t.pid := BranchNode(ks, Roots(row))], SplitBranch(t.pid, ks, row, |s1|), t, s, next)
  {
    hide RepRow, RowPids, Pids, First;
    var t' := Branch(t.pid, ks, row);
    var s2 := s1[t.pid := BranchNode(ks, Roots(row))];
    RepRowFrame(row, s1, s2, next);
    RepOne(t', s2, next);
  }

  lemma BranchSplits(t: Tree, e: Entry, i: nat, o: Outcome, s: Store, s1: Store, s3: Store, next: nat)
    requires KidDone(t, e, i, o, s, s1, next) && o.Two? && |t.keys| + 1 >= BRANCH_CAP
    requires t.pid < |s1|
    requires var ks, rs := InsertAt(t.keys, i, o.sep), NewRoots(t.kids, i, o);
      var m := |ks| / 2;
      s3 == s1[t.pid := BranchNode(ks[..m], rs[..m + 1])] + [BranchNode(ks[m + 1..], rs[m + 1..])]
    ensures Carries(s3, TreeInsert(t, e, |s|), t, s, next)
  {
    hide TreeInsert, Distinct, Pids, RowPids, Rep, RepRow, NewRow, First, FormedRow, Carries, ChildIndex;
    KidDoneFacts(t, e, i, o, s, s1, next);
    InsertBelow(t, e, i, o, |s|);
    var row, ks := NewRow(t.kids, i, o), InsertAt(t.keys, i, o.sep);
    SplitCarries(t, ks, row, s, s1, s3, next);
  }

  lemma SplitCarries(t: Tree, ks: seq<Key>, row: seq<Tree>, s: Store, s1: Store, s3: Store, next: nat)
    requires |row| == |ks| + 1 && |ks| >= BRANCH_CAP && FormedRow(row) && RepRow(row, s1, next)
    requires t.pid < |s1| && t.pid !in RowPids(row) && t.pid in Pids(t)
    requires |s| <= |s1| && forall p :: 0 <= p < |s| && p !in Pids(t) ==> s1[p] == s[p]
    requires var m := |ks| / 2;
      s3 == s1[t.pid := BranchNode(ks[..m], Roots(row)[..m + 1])] + [BranchNode(ks[m + 1..], Roots(row)[m + 1..])]
    ensures Carries(s3, SplitBranch(t.pid, ks, row, |s1|), t, s, next)
  {
    hide Rep, RepRow, RowPids, Pids, Formed, FormedRow;
    SplitStore(t.pid, ks, row, s1, s3, next);
  }

  lemma SplitStore(pid: nat, ks: seq<Key>, row: seq<Tree>, s1: Store, s3: Store, next: nat)
    requires |row| == |ks| + 1 && |ks| >= BRANCH_CAP && FormedRow(row) && RepRow(row, s1, next)
    requires pid < |s1| && pid !in RowPids(row)
    requires var m := |ks| / 2;
      s3 == s1[pid := BranchNode(ks[..m], Roots(row)[..m + 1])] + [BranchNode(ks[m + 1..], Roots(row)[m + 1..])]
    ensures var o := SplitBranch(pid, ks, row, |s1|); FormedRow(Parts(o)) && RepRow(Parts(o), s3, next)
  {
    hide Rep, RepRow, RowPids;
    var m := |ks| / 2;
    assert Roots(row[..m + 1]) == Roots(row)[..m + 1] && Roots(row[m + 1..]) == Roots(row)[m + 1..];
    RepRowFrame(row, s1, s3, next);
    SplitRep(pid, ks, row, |s1|, s3, next);
  }

  lemma FirstOfBranch(t: Tree, next: nat)
    requires Formed(t) && t.Branch?
    ensures FormedRow(t.kids) && First(t) == RowFirst(t.kids, next)
  {
  }

  lemma SplitRep(pid: nat, ks: seq<Key>, row: seq<Tree>, n: nat, s: Store, next: nat)
    requires |row| == |ks| + 1 && |ks| >= BRANCH_CAP && FormedRow(row) && RepRow(row, s, next)
    requires pid < |s| && n < |s|
    requires var m := |ks| / 2;
      s[pid] == BranchNode(ks[..m], Roots(row[..m + 1])) && s[n] == BranchNode(ks[m + 1..], Roots(row[m + 1..]))
    ensures var o := SplitBranch(pid, ks, row, n); FormedRow(Parts(o)) && RepRow(Parts(o), s, next)
  {
    hide RepRow, First;
    var m := |ks| / 2;
    var o := SplitBranch(pid, ks, row, n);
    var a, b := row[..m + 1], row[m + 1..];
    assert row == a + b && FormedRow(a) && FormedRow(b);
    RepAppend(a, b, s, next);
    FirstOfBranch(o.right, next);
    RepTwo(o.left, o.right, s, next);
  }

  lemma RepChild(t: Tree, s: Store, next: nat, i: nat)
    requires Formed(t) && t.Branch? && i < |t.kids| && Rep(t, s, next)
    ensures FormedRow(t.kids[i + 1..]) && Rep(t.kids[i], s, RowFirst(t.kids[i + 1..], next))
  {
  }

  /** A node as full as its capacity, or fuller. */
  ghost predicate TooMany(n: Node) {
    match n
    case LeafNode(es, _) => |es| >= LEAF_CAP
    case BranchNode(ks, _) => |ks| >= BRANCH_CAP
    case NotANode => false
  }

  /** Every page of a tree that meets the invariant has room. */
  lemma {:induction false} NodesFit(t: Tree, h: nat, lo: int, hi: int, root: bool, s: Store, next: nat, p: nat)
    requires Good(t, h, lo, hi, root) && Rep(t, s, next) && p in Pids(t)
    ensures p < |s| && !TooMany(s[p])
    decreases h
  {
    if t.Branch? && p != t.pid {
      assert GoodKids(t.keys, t.kids, h - 1, lo, hi);
      assert p in RowPids(t.kids);
      var i :| 0 <= i < |t.kids| && p in Pids(t.kids[i]);
      RepChild(t, s, next, i);
      NodesFit(t.kids[i], h - 1, Low(t.keys, i, lo), High(t.keys, i, hi), false, s, RowFirst(t.kids[i + 1..], next), p);
    }
  }

  /** The pages below a page are determined by the store. */
  lemma {:induction false} SamePages(a: Tree, b: Tree, s: Store, na: nat, nb: nat)
    requires Formed(a) && Formed(b) && Rep(a, s, na) && Rep(b, s, nb) && a.pid == b.pid
    ensures Pids(a) == Pids(b)
    decreases a
  {
    if a.Branch? {
      assert Roots(a.kids) == Roots(b.kids);
      forall i | 0 <= i < |a.kids| ensures Pids(a.kids[i]) == Pids(b.kids[i]) {
        assert a.kids[i].pid == Roots(a.kids)[i] == Roots(b.kids)[i] == b.kids[i].pid;
        RepChild(a, s, na, i);
        RepChild(b, s, nb, i);
        SamePages(a.kids[i], b.kids[i], s, RowFirst(a.kids[i + 1..], na), RowFirst(b.kids[i + 1..], nb));
      }
    }
  }

  /** A whole tree after an insertion still has every page after the meta page exactly once. */
  lemma GrownPages(t: Tree, e: Entry, n: nat)
    requires Formed(t) && Distinct(t) && n > 0 && (forall p :: p in Pids(t) <==> 1 <= p < n)
    requires !TreeInsert(t, e, n).Duplicate?
    ensures var o := TreeInsert(t, e, n);
      && Distinct(Grown(o)) && (o.One? ==> o.tree.pid == t.pid)
      && forall p :: p in Pids(Grown(o)) <==> 1 <= p < (if o.One? then o.next else o.next + 1)
  {
    InsertPages(t, e, n);
    var o := TreeInsert(t, e, n);
    hide RowPids, DistinctRow, TreeInsert;
    if o.One? {
      RowOne(o.tree);
    } else {
      assert Pids(Grown(o)) == {o.next} + RowPids(Parts(o));
    }
  }

  /** The leaf chain: following the next pointers visits exactly the leaves, left to right. */
  lemma {:induction false} LeavesChained(t: Tree, s: Store, next: nat)
    requires Formed(t) && Rep(t, s, next)
    ensures FormedRow(Leaves(t)) && RepRow(Leaves(t), s, next) && RowFirst(Leaves(t), next) == First(t)
    ensures forall i :: 0 <= i < |Leaves(t)| ==> Leaves(t)[i].Leaf?
    decreases t
  {
    match t
    case Leaf(_, _) => RepOne(t, s, next);
    case Branch(_, _, kids) => RowLeavesChained(kids, s, next);
  }

  lemma {:induction false} RowLeavesChained(ts: seq<Tree>, s: Store, next: nat)
    requires FormedRow(ts) && RepRow(ts, s, next)
    ensures FormedRow(RowLeaves(ts)) && RepRow(RowLeaves(ts), s, next)
    ensures RowFirst(RowLeaves(ts), next) == RowFirst(ts, next)
    ensures forall i :: 0 <= i < |RowLeaves(ts)| ==> RowLeaves(ts)[i].Leaf?
    decreases ts
  {
    if ts != [] {
      var a, b := [ts[0]], ts[1..];
      assert ts == a + b && FormedRow(a) && FormedRow(b);
      RepAppend(a, b, s, next);
      RepOne(ts[0], s, RowFirst(b, next));
      LeavesChained(ts[0], s, RowFirst(b, next));
      RowLeavesChained(b, s, next);
      RepAppend(Leaves(ts[0]), RowLeaves(b), s, next);
    }
  }

  lemma {:induction false} LeafPages(t: Tree)
    ensures forall i :: 0 <= i < |Leaves(t)| ==> Leaves(t)[i].pid in Pids(t)
    decreases t
  {
    if t.Branch? { RowLeafPages(t.kids); }
  }

  lemma {:induction false} RowLeafPages(ts: seq<Tree>)
    ensures forall i :: 0 <= i < |RowLeaves(ts)| ==> RowLeaves(ts)[i].pid in RowPids(ts)
    decreases ts
  {
    if ts != [] {
      LeafPages(ts[0]);
      RowLeafPages(ts[1..]);
      assert ts == [ts[0]] + ts[1..];
      RowPidsAppend([ts[0]], ts[1..]);
      RowOne(ts[0]);
      hide RowPids, Pids;
      var a, b := Leaves(ts[0]), RowLeaves(ts[1..]);
      assert RowLeaves(ts) == a + b;
    }
  }

  // ---- page conservation ----

  function NodeCount(t: Tree): nat
    decreases t
  {
    match t
    case Leaf(_, _) => 1
    case Branch(_, _, kids) => 1 + RowCount(kids)
  }

  function RowCount(ts: seq<Tree>): nat
    decreases ts
  {
    if ts == [] then 0 else NodeCount(ts[0]) + RowCount(ts[1..])
  }

  /** A tree that reaches no page twice has as many pages as nodes. */
  lemma {:induction false} PageCount(t: Tree)
    requires Distinct(t)
    ensures |Pids(t)| == NodeCount(t)
    decreases t
  {
    if t.Branch? {
      RowPageCount(t.kids);
    }
  }

  lemma {:induction false} RowPageCount(ts: seq<Tree>)
    requires DistinctRow(ts)
    ensures |RowPids(ts)| == RowCount(ts)
    decreases ts
  {
    if ts != [] {
      var a, b := [ts[0]], ts[1..];
      assert ts == a + b;
      DistinctAppend(a, b);
      RowPidsAppend(a, b);
      RowOne(ts[0]);
      PageCount(ts[0]);
      RowPageCount(b);
    }
  }

  /** Pages 1 to n - 1 each belong to exactly one node: nothing is leaked, nothing shared. */
  lemma Conservation(t: Tree, n: nat)
    requires Distinct(t) && n > 0 && forall p :: p in Pids(t) <==> 1 <= p < n
    ensures n == 1 + NodeCount(t)
  {
    hide Pids, NodeCount, Distinct;
    PageCount(t);
    CountFrom1(Pids(t), n);
  }
}
