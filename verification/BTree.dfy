/** The B+Tree index: its operations, run on pages held by the buffer pool. */
module BTree {
  import opened Pages
  import opened Counting
  import opened BufferPool
  import opened BigEndian
  import opened Scanning
  import opened PageClient
  import opened Sequences
  import opened IndexTree
  import opened PagedTree
  import opened IndexNode

  const META := 0
  const MAGIC := 0x6E627472

  /** The pages of the index file, as nodes. */
  ghost function Nodes(f: File): (s: Store)
    requires WellFormed(f)
    ensures |s| == |f| && forall p :: 0 <= p < |f| ==> s[p] == NodeOf(f[p])
  {
    seq(|f|, p requires 0 <= p < |f| => NodeOf(f[p]))
  }

  /** The subtree t of h levels, with keys in [lo, hi), is on the pages of the file. */
  ghost predicate OnPages(t: Tree, h: nat, lo: int, hi: int, root: bool, next: nat, f: File) {
    WellFormed(f) && Good(t, h, lo, hi, root) && Rep(t, Nodes(f), next)
  }

  /** The root page of a subtree is the node it should be. */
  lemma RootNode(t: Tree, h: nat, lo: int, hi: int, root: bool, next: nat, f: File)
    requires OnPages(t, h, lo, hi, root, next, f)
    ensures t.pid < |f| && |f[t.pid]| == PAGE_SIZE && IsLeaf(f[t.pid]) == t.Leaf? && Formed(t) && h >= 1
    ensures t.Leaf? ==> NodeOf(f[t.pid]) == LeafNode(t.entries, next) && InOrder(t.entries) && |t.entries| < LEAF_CAP
    ensures t.Branch? ==>
      && NodeOf(f[t.pid]) == BranchNode(t.keys, Roots(t.kids)) && Sorted(t.keys)
      && |t.kids| == |t.keys| + 1 && |t.keys| < BRANCH_CAP
  {
    assert Nodes(f)[t.pid] == NodeOf(f[t.pid]);
    assert t.Branch? ==> GoodKids(t.keys, t.kids, h - 1, lo, hi);
  }

  /** The file is an index holding the tree t: meta page, root, and every other page exactly once in t. */
  ghost predicate IndexOk(f: File, t: Tree, h: nat) {
    && OnPages(t, h, MIN_KEY, MAX_KEY + 1, true, 0, f) && Distinct(t) && InOrder(Entries(t))
    && |f| > 0 && Field(f[META], 0, 4) == MAGIC && Field(f[META], 4, 4) == t.pid
    && (forall p :: p in Pids(t) <==> 1 <= p < |f|)
  }

  /** The keys of some pages of a file. */
  ghost function KeysIn(file: nat, ps: set<nat>): (ks: set<PageKey>)
    ensures forall p :: p in ps <==> PageKey(file, p) in ks
    ensures forall k :: k in ks ==> k.file == file && k.pid in ps
  {
    set p | p in ps :: PageKey(file, p)
  }

  lemma {:induction false} KeysCount(file: nat, ps: set<nat>)
    ensures |KeysIn(file, ps)| == |ps|
    decreases |ps|
  {
    if ps == {} {
      assert KeysIn(file, ps) == {};
    } else {
      var p :| p in ps;
      KeysCount(file, ps - {p});
      assert KeysIn(file, ps) == KeysIn(file, ps - {p}) + {PageKey(file, p)};
    }
  }

  /** An insertion of k has to split the leaf that covers it: k is not bound there and takes the last place. */
  ghost predicate LeafSplitting(t: Tree, k: Key)
    requires Formed(t)
  {
    !Has(Covering(t, k).entries, k) && |Covering(t, k).entries| + 1 >= LEAF_CAP
  }

  /** The pages an insertion of k adds: one for every node that splits and, at the root, one for a new root. */
  ghost function PagesAdded(t: Tree, k: Key, root: bool): nat
    requires Formed(t)
  {
    if Has(Covering(t, k).entries, k) then 0 else Splits(t, k) + if root && FullPath(t, k) then 1 else 0
  }

  /** How many frames are pinned once the pages on the way to k are, on top of what is pinned. */
  ghost function PathFrames(pinned: set<PageKey>, file: nat, t: Tree, k: Key): nat
    requires Formed(t)
  {
    |pinned + KeysIn(file, Path(t, k))|
  }

  /**
    * The frames do not suffice for an insertion of k into t on top of what is pinned. It pins the pages on the way to
    * k, and one more if the leaf there has to split. At the root, the meta page is pinned before and after.
    */
  ghost predicate ShortOfFrames(pinned: set<PageKey>, frames: nat, file: nat, t: Tree, k: Key, root: bool)
    requires Formed(t)
  {
    || PathFrames(pinned, file, t, k) + (if LeafSplitting(t, k) then 1 else 0) > frames
    || (root && |pinned + {PageKey(file, META)}| > frames)
  }

  lemma PinnedKeys(v: View, k: PageKey, f: nat)
    ensures v.AddPin(k, f).pinned.Keys == v.pinned.Keys + {k} && |v.AddPin(k, f).pinned| == |v.pinned.Keys + {k}|
  {
  }

  lemma OffPath(pinned: set<PageKey>, file: nat, t: Tree, k: Key)
    requires Formed(t) && PageKey(file, t.pid) !in pinned
    ensures PathFrames(pinned, file, t, k) > |pinned|
  {
    hide KeysIn;
    OnPath(pinned, file, t, k);
  }

  lemma ShortAtNode(pinned: set<PageKey>, frames: nat, file: nat, t: Tree, k: Key)
    requires Formed(t) && |pinned + {PageKey(file, t.pid)}| == frames && LeafSplitting(t, k)
    ensures ShortOfFrames(pinned, frames, file, t, k, false)
  {
    hide LeafSplitting, KeysIn;
    OnPath(pinned, file, t, k);
  }

  lemma OnPath(pinned: set<PageKey>, file: nat, t: Tree, k: Key)
    requires Formed(t)
    ensures |pinned + {PageKey(file, t.pid)}| <= |pinned + KeysIn(file, Path(t, k))|
  {
    hide KeysIn;
    assert t.pid in Path(t, k);
    SubsetCount(pinned + {PageKey(file, t.pid)}, pinned + KeysIn(file, Path(t, k)));
  }

  lemma SamePathFrames(pinned: set<PageKey>, file: nat, t: Tree, k: Key)
    requires t.Branch? && Formed(t)
    ensures var kid := t.kids[ChildIndex(t.keys, k)];
      && PathFrames(pinned + {PageKey(file, t.pid)}, file, kid, k) == PathFrames(pinned, file, t, k)
      && LeafSplitting(kid, k) == LeafSplitting(t, k)
  {
    hide KeysIn, Has;
    var pk, kid := PageKey(file, t.pid), t.kids[ChildIndex(t.keys, k)];
    assert Path(t, k) == {t.pid} + Path(kid, k);
    KeysJoined(file, t.pid, Path(kid, k));
    assert pinned + {pk} + KeysIn(file, Path(kid, k)) == pinned + KeysIn(file, Path(t, k));
  }

  lemma LeafPathFrames(v: View, file: nat, f: nat, t: Tree, k: Key)
    requires t.Leaf?
    ensures PathFrames(v.pinned.Keys, file, t, k) == |v.AddPin(PageKey(file, t.pid), f).pinned|
  {
    PinnedKeys(v, PageKey(file, t.pid), f);
    assert KeysIn(file, Path(t, k)) == {PageKey(file, t.pid)};
  }

  lemma KeysJoined(file: nat, p: nat, ps: set<nat>)
    ensures KeysIn(file, {p} + ps) == {PageKey(file, p)} + KeysIn(file, ps)
  {
  }

  lemma ShortInNumbers(pinned: set<PageKey>, frames: nat, file: nat, t: Tree, h: nat, lo: int, hi: int, k: Key)
    requires Good(t, h, lo, hi, true) && ShortOfFrames(pinned, frames, file, t, k, true)
    ensures |pinned| + h + (if LeafSplitting(t, k) then 1 else 0) > frames
  {
    hide Good, LeafSplitting, KeysIn, Path;
    AtLeastOne(t, h, lo, hi);
    NoSplits(t, k, h, lo, hi, true);
    KeysCount(file, Path(t, k));
    UnionCount(pinned, KeysIn(file, Path(t, k)));
    UnionCount(pinned, {PageKey(file, META)});
  }

  lemma AtLeastOne(t: Tree, h: nat, lo: int, hi: int)
    requires Good(t, h, lo, hi, true)
    ensures h >= 1
  {
  }

  lemma FewPages(t: Tree, h: nat, lo: int, hi: int, k: Key)
    requires Good(t, h, lo, hi, true)
    ensures PagesAdded(t, k, true) <= h + 1 && (!LeafSplitting(t, k) ==> PagesAdded(t, k, true) == 0)
  {
    hide Good, Has;
    NoSplits(t, k, h, lo, hi, true);
  }

  /** The pages of a lookup of k. */
  ghost function Visited(t: Tree, k: Key): set<nat>
    requires Formed(t)
  {
    {META} + Path(t, k)
  }

  lemma OnTheWay(t: Tree, below: Tree, k: Key)
    requires Formed(t) && Formed(below) && Path(below, k) <= Path(t, k)
    ensures META in Visited(t, k) && below.pid in Visited(t, k)
  {
    assert below.pid in Path(below, k);
  }

  lemma NextOnPath(t: Tree, k: Key)
    requires Formed(t) && t.Branch?
    ensures var kid := t.kids[ChildIndex(t.keys, k)]; Path(kid, k) <= Path(t, k) && Covering(kid, k) == Covering(t, k)
  {
  }

  lemma CoversItself(t: Tree, k: Key)
    requires t.Leaf?
    ensures Covering(t, k) == t
  {
  }

  /** The pages of the whole index. */
  ghost function AllPages(t: Tree): set<nat> {
    {META} + Pids(t)
  }

  /** The child that covers k is on pages too. */
  lemma ChildOnPages(t: Tree, h: nat, lo: int, hi: int, root: bool, next: nat, f: File, k: Key)
    requires OnPages(t, h, lo, hi, root, next, f) && t.Branch? && lo <= k < hi
    ensures var i := ChildIndex(t.keys, k);
      && h > 1 && i < |t.kids| && FormedRow(t.kids[i + 1..])
      && Low(t.keys, i, lo) <= k < High(t.keys, i, hi)
      && OnPages(t.kids[i], h - 1, Low(t.keys, i, lo), High(t.keys, i, hi), false, RowFirst(t.kids[i + 1..], next), f)
      && forall e: Entry :: e.key == k ==> (e in Entries(t) <==> e in Entries(t.kids[i]))
  {
    hide GoodKids, Nodes, Rep, Entries;
    BelowChild(t, h, lo, hi, root, k);
    RepChild(t, Nodes(f), next, ChildIndex(t.keys, k));
  }

  class Index {
    const pool: Pool
    const file: nat
    ghost var tree: Tree
    ghost var height: nat

    /** The file is an index, and no write to it is pending a report. */
    ghost predicate Valid()
      reads this, pool, pool.replacer, pool.frames
    {
      && pool.Valid() && file < |pool.view.files|
      && (forall k :: k in pool.view.unreported ==> k.file != file)
      && IndexOk(Content(), tree, height)
    }

    constructor (pool: Pool, file: nat)
      ensures this.pool == pool && this.file == file
    {
      this.pool, this.file := pool, file;
      tree, height := Leaf(0, []), 0;
    }

    ghost function Content(): File
      requires file < |pool.view.files|
      reads pool
    {
      pool.view.files[file]
    }

    /**
      * Lays out an empty index in an empty file: the meta page, and an empty leaf as the root. When a page
      * cannot be had, the file is left without a root; the pins are as before either way.
      */
    method Bootstrap() returns (err: Error)
      requires Quiet(pool.view, file) && |Content()| == 0
      requires pool.Valid()
      modifies this, pool, pool.replacer, pool.frames
      ensures OnlyFile(old(pool.view), pool.view, file)
      ensures err == Ok ==> Valid() && Contents() == map[] && height == 1
      ensures err != Ok ==> (Content() == [] || Content() == [ZeroPage()]) && BootError(err, old(pool.faults))
      // Where no disk call fails, it succeeds if and only if two frames are to be had; with just one it leaves a
      // zero page, which no later attempt to open the file accepts.
      ensures pool.faults == old(pool.faults) ==>
        && (err == Ok <==> |old(pool.view.pinned)| + 2 <= |pool.frames|)
        && (Content() == [ZeroPage()] <==> |old(pool.view.pinned)| + 1 == |pool.frames|)
      ensures pool.Valid()
    {
      hide Pool.Inv, Pool.Ready, Pool.Cached, Fetched, Loaded, OneForgotten, NodeOf, Field, Rep;
      ghost var v := pool.view;
      var mf, rf;
      err, mf, rf := TakeFirstPages();
      if err == Ok {
        LayOut(PageKey(file, 0), mf, PageKey(file, 1), rf, v);
        tree, height := Leaf(1, []), 1;
      }
    }

    /** Adds the first two pages of the file and pins them, or gives back the first if there is no second. */
    method TakeFirstPages() returns (err: Error, mf: nat, rf: nat)
      requires Quiet(pool.view, file) && Content() == []
      requires pool.Valid()
      modifies pool, pool.replacer, pool.frames
      ensures var v, mk, rk := old(pool.view), PageKey(file, 0), PageKey(file, 1);
        err == Ok ==>
          && mk !in v.pinned && rk !in v.pinned && |v.pinned| + 2 <= |pool.frames|
          && pool.view == v.Grow(file).AddPin(mk, mf).Grow(file).AddPin(rk, rf)
      ensures err != Ok ==> OnlyFile(old(pool.view), pool.view, file) && BootError(err, old(pool.faults))
      ensures err != Ok ==> Content() == [] || Content() == [ZeroPage()]
      ensures err == NoFreeFrame ==> (Content() == [ZeroPage()] <==> |old(pool.view.pinned)| + 1 == |pool.frames|)
      ensures pool.Valid()
    {
      hide Pool.Inv, Pool.Ready, Pool.Cached, Fetched, Loaded, OneForgotten;
      ghost var v := pool.view;
      mf, rf := 0, 0;
      var pid;
      err, mf, pid := pool.NewPage(file);
      if err != Ok {
        return;
      }
      var mk := PageKey(file, 0);
      OneMorePin(v, mk, mf);
      pool.ClientFacts();
      err, rf, pid := pool.NewPage(file);
      if err != Ok {
        var e := pool.Unpin(mk, false);
        assert pool.view.pinned == v.pinned;
      } else {
        OneMorePin(v.Grow(file).AddPin(mk, mf), PageKey(file, 1), rf);
      }
    }

    /** Why an index could not be laid out: it takes two frames, and no disk call may fail. */
    ghost predicate BootError(err: Error, n: nat)
      reads pool
    {
      (err == NoFreeFrame && |pool.view.pinned| + 2 > |pool.frames|) || (err == DiskError && pool.Faulty(n))
    }

    /**
      * Opens the index file, laying it out first if it is empty. A file with pages is accepted exactly when
      * it carries the magic number; t and h describe the index it holds, if it holds one.
      */
    method Open(ghost t: Tree, ghost h: nat) returns (err: Error, accepted: bool)
      requires Quiet(pool.view, file)
      requires pool.Valid()
      modifies this, pool, pool.replacer, pool.frames
      ensures OnlyFile(old(pool.view), pool.view, file)
      ensures err == Ok && |old(Content())| == 0 ==> accepted && Valid() && Contents() == map[]
      ensures err == Ok && |old(Content())| > 0 ==>
        && pool.view == old(pool.view) && |Content()[META]| == PAGE_SIZE
        && (accepted <==> Content()[META][..4] == [0x6E, 0x62, 0x74, 0x72])
        && (IndexOk(Content(), t, h) ==> accepted && Valid() && tree == t && height == h)
      ensures err != Ok && |old(Content())| == 0 ==>
        (Content() == [] || Content() == [ZeroPage()]) && BootError(err, old(pool.faults))
      ensures err != Ok && |old(Content())| > 0 ==>
        pool.view == old(pool.view) && ReadError(pool, err, file, {META}, old(pool.faults))
      ensures err != Ok ==> !accepted
      ensures pool.Valid()
    {
      hide Pool.Inv, Pool.Ready, Pool.Cached, Fetched, Loaded, OneForgotten, Field, MapOf, OnPages;
      accepted := false;
      var n := pool.NumPages(file);
      if n == 0 {
        err := Bootstrap();
        accepted := err == Ok;
      } else {
        pool.SameShape();
        MagicBytes(Content()[META]);
        err, accepted := OpenExisting(t, h);
      }
    }

    /**
      * However often it is tried, a file that a failed bootstrap left with one zero page does not open: a page
      * without the magic number is never accepted, and no attempt changes it.
      */
    method OpenAgain(attempts: nat) returns (accepted: bool)
      requires Quiet(pool.view, file) && |Content()| > 0 && |Content()[META]| == PAGE_SIZE
      requires pool.Valid()
      modifies this, pool, pool.replacer, pool.frames
      ensures pool.view == old(pool.view)
      ensures Content()[META][..4] != [0x6E, 0x62, 0x74, 0x72] ==> !accepted
      ensures Content() == [ZeroPage()] ==> !accepted
      ensures pool.Valid()
    {
      hide Pool.Inv, Pool.Ready, Pool.Cached, Fetched, Loaded, OneForgotten, Field;
      accepted := false;
      for i := 0 to attempts
        invariant pool.view == old(pool.view) && (accepted ==> old(Content())[META][..4] == [0x6E, 0x62, 0x74, 0x72])
        invariant pool.Valid()
      {
        var err, ok := Open(tree, height);
        if ok { accepted := true; }
      }
      assert ZeroPage()[..4][0] == 0;
    }

    /** Accepts a file with pages if it carries the magic number. */
    method OpenExisting(ghost t: Tree, ghost h: nat) returns (err: Error, accepted: bool)
      requires Quiet(pool.view, file) && |Content()| > 0
      requires pool.Valid()
      modifies this, pool, pool.replacer, pool.frames
      ensures pool.view == old(pool.view) && ReadError(pool, err, file, {META}, old(pool.faults))
      ensures err == Ok ==> |Content()[META]| == PAGE_SIZE
      ensures err == Ok ==> (accepted <==> Content()[META][..4] == [0x6E, 0x62, 0x74, 0x72])
      ensures err != Ok ==> !accepted
      ensures err == Ok ==> tree == t && height == h
      ensures pool.Valid()
    {
      hide Pool.Inv, Pool.Ready, Pool.Cached, Fetched, Loaded, OneForgotten, Field;
      pool.ClientFacts();
      accepted := false;
      var f;
      err, f := pool.Fetch(file, META);
      if err != Ok {
        return;
      }
      accepted := Field(pool.frames[f][..], 0, 4) == MAGIC;
      MagicBytes(pool.frames[f][..]);
      PinUnpin(old(pool.view), PageKey(file, META), f);
      var e := pool.Unpin(PageKey(file, META), false);
      tree, height := t, h;
    }

    /** Formats the two pages just allocated and releases them. */
    method LayOut(mk: PageKey, mf: nat, rk: PageKey, rf: nat, ghost v: View)
      requires file < |v.files| && v.files[file] == [] && mk == PageKey(file, 0) && rk == PageKey(file, 1)
      requires mk !in v.pinned && rk !in v.pinned && forall x :: x in v.unreported ==> x.file != file
      requires pool.view == v.Grow(file).AddPin(mk, mf).Grow(file).AddPin(rk, rf)
      requires pool.Valid()
      modifies pool, pool.replacer, pool.frames
      ensures OnlyFile(v, pool.view, file) && Quiet(pool.view, file)
      ensures IndexOk(Content(), Leaf(1, []), 1) && |Content()| == 2
      ensures MapOf(Entries(Leaf(1, []))) == map[]
      ensures pool.Valid()
    {
      hide Pool.Inv, Pool.Ready, Pool.Cached, Fetched, Loaded, OneForgotten, NodeOf, Field, Rep, IndexOk;
      FormatFirstPages(mk, mf, rk, rf);
      ghost var bm, br := Page(mk), Page(rk);
      LaidOut(v, mk, mf, rk, rf, bm, br);
      var e := pool.Unpin(rk, true);
      e := pool.Unpin(mk, true);
      EmptyIndex(Content());
    }

    method FormatFirstPages(mk: PageKey, mf: nat, rk: PageKey, rf: nat)
      requires Pinned(mk, mf) && Pinned(rk, rf) && mk != rk && rk.pid <= MAX_U32
      requires pool.Valid()
      modifies pool`view, pool.frames
      ensures Pinned(mk, mf) && Pinned(rk, rf) && |Page(mk)| == |Page(rk)| == PAGE_SIZE
      ensures pool.view == old(pool.view).Write(rk, Page(rk)).Write(mk, Page(mk))
      ensures NodeOf(Page(rk)) == LeafNode([], 0) && Field(Page(mk), 0, 4) == MAGIC && Field(Page(mk), 4, 4) == rk.pid
      ensures pool.Valid()
    {
      hide Pool.Inv, Pool.Cached, Pool.Holds, NodeOf, Field;
      pool.ClientFacts();
      pool.PinFacts(mk);
      pool.PinFacts(rk);
      Init(pool.frames[rf], true);
      WriteMeta(pool.frames[mf], rk.pid);
      pool.Wrote(rk, {mf});
      pool.Wrote(mk, {});
    }

    method WriteMeta(a: array<byte>, root: u32)
      requires a.Length == PAGE_SIZE
      modifies a
      ensures Field(a[..], 0, 4) == MAGIC && Field(a[..], 4, 4) == root
    {
      hide Field;
      MagicWrite(a[..]);
      Write(a, 0, 4, MAGIC);
      RootWrite(a[..], root);
      Write(a, 4, 4, root);
    }

    /** One level of the point lookup: the answer if the page is a leaf, else the child to go on with. */
    method SearchStep(pid: nat, key: Key, ghost t: Tree, ghost h: nat, ghost lo: int, ghost hi: int, ghost root: bool,
                      ghost next: nat)
      returns (err: Error, leaf: bool, child: nat, found: bool, tid: TID)
      requires pool.Valid() && file < |pool.view.files|
      requires OnPages(t, h, lo, hi, root, next, Content()) && t.pid == pid
      modifies pool, pool.replacer, pool.frames
      ensures pool.Valid() && pool.view == old(pool.view)
      ensures err == Ok ==> leaf == t.Leaf?
      ensures err == Ok && leaf ==> (found <==> Has(t.entries, key)) && (found ==> Entry(key, tid) in t.entries)
      ensures err == Ok && !leaf ==> child == t.kids[ChildIndex(t.keys, key)].pid
      ensures ReadError(pool, err, file, {pid}, old(pool.faults))
    {
      hide Pool.Inv, Pool.Ready, Pool.Cached, Fetched, Loaded, OneForgotten, NodeOf, OnPages, InOrder, Has, Sorted,
        ChildIndex, Formed;
      RootNode(t, h, lo, hi, root, next, Content());
      leaf, child, found, tid := false, 0, false, TID(0, 0);
      var f;
      err, f := pool.Fetch(file, pid);
      if err != Ok {
        return;
      }
      var n := pool.frames[f];
      leaf := IsLeaf(n[..]);
      if leaf {
        found, tid := LookUp(n, key);
      } else {
        var i;
        i, child := Route(n, key);
      }
      PinUnpin(old(pool.view), PageKey(file, pid), f);
      var e := pool.Unpin(PageKey(file, pid), false);
    }

    /** Reads the current root's page id from the meta page. */
    method ReadRoot() returns (err: Error, root: nat)
      requires Valid()
      modifies pool, pool.replacer, pool.frames
      ensures pool.Valid() && pool.view == old(pool.view)
      ensures err == Ok ==> root == tree.pid
      ensures err == Ok ==> |old(pool.view).pinned.Keys + {PageKey(file, META)}| <= |pool.frames|
      ensures PinsBack(old(pool.pins), old(pool.peak), pool, 0, 1)
      ensures pool.faults >= old(pool.faults)
      ensures ReadError(pool, err, file, {META}, old(pool.faults))
    {
      hide Pool.Inv, Pool.Ready, Pool.Cached, Fetched, Loaded, OneForgotten, OnPages;
      pool.ClientFacts();
      var f;
      err, f := pool.Fetch(file, META);
      if err != Ok {
        return err, 0;
      }
      pool.FewPinned();
      PinnedKeys(old(pool.view), PageKey(file, META), f);
      root := Field(pool.frames[f][..], 4, 4);
      PinUnpin(old(pool.view), PageKey(file, META), f);
      var e := pool.Unpin(PageKey(file, META), false);
    }

    /** Point lookup: the answer of the map the index stands for. */
    method Find(key: Key) returns (err: Error, found: bool, tid: TID)
      requires Valid()
      modifies pool, pool.replacer, pool.frames
      ensures Valid() && pool.view == old(pool.view)
      ensures err == Ok ==> (found <==> key in Contents()) && (found ==> tid == Contents()[key])
      ensures ReadError(pool, err, file, Visited(tree, key), old(pool.faults))
    {
      hide Pool.Inv, Pool.Ready, Pool.Cached, Fetched, Loaded, OneForgotten, OnPages, MapOf, Crowded, Visited, Path,
        Covering;
      IndexFacts(Content(), tree, height);
      var pid;
      err, pid := ReadRoot();
      if err != Ok {
        OnTheWay(tree, tree, key);
        WiderRead(err, {META}, Visited(tree, key), old(pool.faults));
        return err, false, TID(0, 0);
      }
      ghost var t, h, lo, hi, root, next := tree, height, MIN_KEY, MAX_KEY + 1, true, 0;
      while true
        invariant pool.Valid() && pool.view == old(pool.view) && file < |pool.view.files|
        invariant pool.faults == old(pool.faults)
        invariant OnPages(t, h, lo, hi, root, next, Content()) && t.pid == pid && lo <= key < hi
        invariant forall e: Entry :: e.key == key ==> (e in Entries(tree) <==> e in Entries(t))
        invariant Formed(t) && Path(t, key) <= Path(tree, key)
        decreases h
      {
        var leaf, child;
        err, leaf, child, found, tid := SearchStep(pid, key, t, h, lo, hi, root, next);
        if err != Ok {
          OnTheWay(tree, t, key);
          WiderRead(err, {pid}, Visited(tree, key), old(pool.faults));
          return;
        }
        if leaf {
          FoundInMap(Entries(tree), t.entries, key, found, tid);
          return;
        }
        NextOnPath(t, key);
        ChildOnPages(t, h, lo, hi, root, next, Content(), key);
        ghost var i := ChildIndex(t.keys, key);
        next := RowFirst(t.kids[i + 1..], next);
        t, h, lo, hi, root := t.kids[i], h - 1, Low(t.keys, i, lo), High(t.keys, i, hi), false;
        pid := child;
      }
    }

    /** One level of a descent: whether the page is a leaf, else the child that covers key. */
    method DescendStep(pid: nat, key: Key, ghost t: Tree, ghost h: nat, ghost lo: int, ghost hi: int,
                       ghost root: bool, ghost next: nat)
      returns (err: Error, leaf: bool, child: nat)
      requires file < |pool.view.files| && OnPages(t, h, lo, hi, root, next, Content()) && t.pid == pid
      requires pool.Valid()
      modifies pool, pool.replacer, pool.frames
      ensures pool.view == old(pool.view)
      ensures err == Ok ==> leaf == t.Leaf?
      ensures err == Ok && !leaf ==> child == t.kids[ChildIndex(t.keys, key)].pid
      ensures ReadError(pool, err, file, {pid}, old(pool.faults))
      ensures pool.Valid()
    {
      hide Pool.Inv, Pool.Ready, Pool.Cached, Fetched, Loaded, OneForgotten, NodeOf, OnPages, InOrder, Sorted,
        ChildIndex, Formed;
      RootNode(t, h, lo, hi, root, next, Content());
      leaf, child := false, 0;
      var f;
      err, f := pool.Fetch(file, pid);
      if err != Ok {
        return;
      }
      leaf := IsLeaf(pool.frames[f][..]);
      if !leaf {
        var i;
        i, child := Route(pool.frames[f], key);
      }
      PinUnpin(old(pool.view), PageKey(file, pid), f);
      var e := pool.Unpin(PageKey(file, pid), false);
    }

    /**
      * Descends to the leaf whose band contains key; everything left of it is smaller, everything right of it
      * larger.
      */
    method FindLeaf(key: Key)
      returns (err: Error, pid: nat, ghost pre: seq<Tree>, ghost leaf: Tree, ghost post: seq<Tree>)
      requires Valid()
      modifies pool, pool.replacer, pool.frames
      ensures pool.view == old(pool.view)
      ensures err == Ok ==>
        && Leaves(tree) == pre + [leaf] + post && leaf.Leaf? && leaf.pid == pid
        && AllBelow(Flat(pre), key) && AllAbove(Flat(post), key) && leaf == Covering(tree, key)
      ensures ReadError(pool, err, file, Visited(tree, key), old(pool.faults))
      ensures pool.Valid()
    {
      hide Pool.Inv, Pool.Ready, Pool.Cached, Fetched, Loaded, OneForgotten, OnPages, Leaves, Crowded, Visited, Path,
        Covering;
      IndexFacts(Content(), tree, height);
      pre, leaf, post := [], tree, [];
      err, pid := ReadRoot();
      if err != Ok {
        OnTheWay(tree, tree, key);
        WiderRead(err, {META}, Visited(tree, key), old(pool.faults));
        return;
      }
      ghost var t, h, lo, hi, root, next := tree, height, MIN_KEY, MAX_KEY + 1, true, 0;
      assert Leaves(tree) == pre + Leaves(t) + post;
      while true
        invariant pool.Valid() && pool.view == old(pool.view) && file < |pool.view.files|
        invariant pool.faults == old(pool.faults)
        invariant OnPages(t, h, lo, hi, root, next, Content()) && t.pid == pid && lo <= key < hi
        invariant Leaves(tree) == pre + Leaves(t) + post
        invariant AllBelow(Flat(pre), key) && AllAbove(Flat(post), key)
        invariant Formed(t) && Path(t, key) <= Path(tree, key) && Covering(t, key) == Covering(tree, key)
        decreases h
      {
        var isLeaf, child;
        err, isLeaf, child := DescendStep(pid, key, t, h, lo, hi, root, next);
        if err != Ok {
          OnTheWay(tree, t, key);
          WiderRead(err, {pid}, Visited(tree, key), old(pool.faults));
          return;
        }
        if isLeaf {
          leaf := t;
          CoversItself(t, key);
          assert Leaves(t) == [t] by { OneLeaf(t); }
          return;
        }
        NextOnPath(t, key);
        ChildOnPages(t, h, lo, hi, root, next, Content(), key);
        pre, post := Descended(t, h, lo, hi, root, next, Content(), key, pre, post, Leaves(tree));
        ghost var i := ChildIndex(t.keys, key);
        next := RowFirst(t.kids[i + 1..], next);
        t, h, lo, hi, root := t.kids[i], h - 1, Low(t.keys, i, lo), High(t.keys, i, hi), false;
        pid := child;
      }
    }

    /** Feeds the part of one leaf page to fn; the first page of a scan starts at lo. */
    method ScanPage(pid: nat, first: bool, lo: Key, hi: Key, fn: Callback<Entry>, calls: seq<Entry>,
                    ghost es: seq<Entry>, ghost nx: nat)
      returns (err: Error, next: nat, calls': seq<Entry>, done: bool, stopped: bool)
      requires file < |pool.view.files| && pid < |Content()| && |Content()[pid]| == PAGE_SIZE
      requires NodeOf(Content()[pid]) == LeafNode(es, nx) && InOrder(es) && Accepted(fn, calls, |calls|)
      requires pool.Valid()
      modifies pool, pool.replacer, pool.frames
      ensures pool.view == old(pool.view)
      ensures err != Ok ==> calls' == calls
      ensures err == Ok ==>
        var part := es[if first then LowerBound(KeysOf(es), lo) else 0..];
        var full := calls + UpToKey(part, hi);
        && next == nx
        && if stopped then CutShort(fn, calls', full)
           else calls' == full && Accepted(fn, calls', |calls'|) && (done <==> UpToKey(part, hi) != part)
      ensures ReadError(pool, err, file, {pid}, old(pool.faults))
      ensures pool.Valid()
    {
      hide Pool.Inv, Pool.Ready, Pool.Cached, Fetched, Loaded, OneForgotten, NodeOf, UpToKey, CutShort, Accepted,
        InOrder;
      next, calls', done, stopped := 0, calls, false, false;
      var f;
      err, f := pool.Fetch(file, pid);
      if err != Ok {
        return;
      }
      var i := StartIndex(pool.frames[f], first, lo, es);
      NextRange(pool.frames[f][..]);
      next := NextLeaf(pool.frames[f][..]);
      calls', done, stopped := ScanLeaf(pool.frames[f], i, hi, fn, calls);
      PinUnpin(old(pool.view), PageKey(file, pid), f);
      var e := pool.Unpin(PageKey(file, pid), false);
    }

    method StartIndex(n: array<byte>, first: bool, lo: Key, ghost es: seq<Entry>) returns (i: nat)
      requires n.Length == PAGE_SIZE && NodeOf(n[..]).LeafNode? && NodeOf(n[..]).entries == es && InOrder(es)
      ensures i == if first then LowerBound(KeysOf(es), lo) else 0
      ensures i <= |es|
    {
      i := 0;
      if first {
        var found;
        hide NodeOf;
        i, found := IndexNode.Search(n, lo);
      }
    }

    /** Scans the first of the remaining leaves and says how the scan stands after it. */
    method ScanHead(pid: nat, first: bool, lo: Key, hi: Key, fn: Callback<Entry>, calls: seq<Entry>,
                    ghost rest: seq<Tree>, ghost target: seq<Entry>)
      returns (err: Error, next: nat, calls': seq<Entry>, done: bool, stopped: bool)
      requires file < |pool.view.files| && ChainFrom(rest, Content()) && rest != [] && pid == rest[0].pid
      requires Accepted(fn, calls, |calls|) && target == calls + UpToKey(Remaining(rest, first, lo), hi)
      requires pool.Valid()
      modifies pool, pool.replacer, pool.frames
      ensures pool.view == old(pool.view)
      ensures err != Ok ==> calls' == calls
      ensures err == Ok && stopped ==> CutShort(fn, calls', target)
      ensures err == Ok && !stopped ==> Accepted(fn, calls', |calls'|) && (done ==> calls' == target)
      ensures err == Ok && !stopped && !done ==>
        && ChainFrom(rest[1..], Content()) && next == RowFirst(rest[1..], 0)
        && target == calls' + UpToKey(Remaining(rest[1..], false, lo), hi)
      ensures ReadError(pool, err, file, {pid}, old(pool.faults))
      ensures pool.Valid()
    {
      hide Pool.Inv, Pool.Ready, Pool.Cached, Fetched, Loaded, OneForgotten, NodeOf, UpToKey, CutShort, Accepted,
        InOrder, RepRow, FormedRow, ChainFrom, Flat;
      ChainHead(rest, Content());
      ghost var es, tail := rest[0].entries, rest[1..];
      ghost var part := es[if first then LowerBound(KeysOf(es), lo) else 0..];
      ghost var full := calls + UpToKey(part, hi);
      Extends(calls, part, Flat(tail), hi, full, target);
      RemainingTail(tail, Content(), lo);
      err, next, calls', done, stopped := ScanPage(pid, first, lo, hi, fn, calls, es, RowFirst(tail, 0));
      if err == Ok && stopped {
        CutShorter(fn, calls', full, target);
      }
    }

    /**
      * Visits the entries with lo <= key <= hi in ascending order, each once, until fn stops it. The
      * calls made are exactly that range, or a prefix of it when fn ends the scan. When a page read does, they are
      * the entries of the range in the leaves before the one that could not be read.
      */
    method Scan(lo: Key, hi: Key, fn: Callback<Entry>) returns (end: ScanEnd, calls: seq<Entry>)
      requires Valid()
      modifies pool, pool.replacer, pool.frames
      ensures Valid() && pool.view == old(pool.view)
      ensures end.Finished? ==> calls == Range(Entries(tree), lo, hi) && Accepted(fn, calls, |calls|)
      // The range: the bindings of the map with keys from lo to hi, ascending.
      ensures var r, m := Range(Entries(tree), lo, hi), Contents();
        && (forall i, j :: 0 <= i < j < |r| ==> r[i].key < r[j].key)
        && (forall e: Entry :: e in r <==> lo <= e.key <= hi && e.key in m && m[e.key] == e.tid)
      ensures end.Stopped? ==> CutShort(fn, calls, Range(Entries(tree), lo, hi))
      ensures end.Interrupted? ==>
        && Accepted(fn, calls, |calls|) && Prefix(calls, Range(Entries(tree), lo, hi))
        && (exists n :: 0 <= n < |Leaves(tree)| && calls == Range(Flat(Leaves(tree)[..n]), lo, hi))
        && end.error != Ok && ReadError(pool, end.error, file, AllPages(tree), old(pool.faults))
    {
      hide Pool.Inv, Pool.Ready, Pool.Cached, Fetched, Loaded, OneForgotten, OnPages, Leaves, UpToKey, CutShort, Range,
        InOrder, ChainFrom, Flat, Entries, Prefix, Crowded, AllPages, Visited, Covering, MapOf;
      IndexFacts(Content(), tree, height);
      RangeOfMap(Entries(tree), lo, hi);
      var err, pid;
      ghost var pre, leaf, post;
      err, pid, pre, leaf, post := FindLeaf(lo);
      if err != Ok {
        PrefixOf([], Range(Entries(tree), lo, hi));
        NothingRead(tree, height, lo, hi);
        PathPids(tree, lo);
        WiderRead(err, Visited(tree, lo), AllPages(tree), old(pool.faults));
        return Interrupted(err), [];
      }
      RangeStarts(tree, pre, leaf, post, lo, hi);
      ScanRow(Content(), tree, height, pre, leaf, post);
      assert ([leaf] + post)[1..] == post;
      ghost var rest, n := [leaf] + post, 0;
      end, calls, n := Walk(pid, lo, hi, fn, rest, Range(Entries(tree), lo, hi));
      if end.Interrupted? {
        ReadSoFar(tree, pre, leaf, post, lo, hi, n, calls);
        LeafOnPage(tree, pre, leaf, post, n);
        WiderRead(end.error, {rest[n].pid}, AllPages(tree), old(pool.faults));
      }
    }

    lemma WiderRead(err: Error, ps: set<nat>, qs: set<nat>, n: nat)
      requires ReadError(pool, err, file, ps, n) && ps <= qs
      ensures ReadError(pool, err, file, qs, n)
    {
    }

    /** Follows the leaf chain. */
    method Walk(start: nat, lo: Key, hi: Key, fn: Callback<Entry>, ghost leaves: seq<Tree>, ghost target: seq<Entry>)
      returns (end: ScanEnd, calls: seq<Entry>, ghost n: nat)
      requires file < |pool.view.files| && ChainFrom(leaves, Content()) && leaves != [] && start == leaves[0].pid
      requires target == UpToKey(Remaining(leaves, true, lo), hi)
      requires pool.Valid()
      modifies pool, pool.replacer, pool.frames
      ensures pool.view == old(pool.view)
      ensures end.Finished? ==> calls == target && Accepted(fn, calls, |calls|)
      ensures end.Stopped? ==> CutShort(fn, calls, target)
      ensures end.Interrupted? ==>
        && Accepted(fn, calls, |calls|) && Prefix(calls, target) && end.error != Ok
        && n < |leaves| && ReadError(pool, end.error, file, {leaves[n].pid}, old(pool.faults))
        && n < |leaves| && (n == 0 ==> calls == []) && target == calls + UpToKey(Remaining(leaves[n..], n == 0, lo), hi)
      ensures pool.Valid()
    {
      hide Pool.Inv, Pool.Ready, Pool.Cached, Fetched, Loaded, OneForgotten, UpToKey, CutShort, InOrder, RepRow,
        Prefix, ChainFrom, Remaining, Accepted, FormedRow, First;
      NoneAccepted(fn);
      ChainStart(leaves, Content());
      calls := [];
      var pid, first := start, true;
      ghost var rest := leaves;
      n := 0;
      while pid != META
        invariant pool.Valid() && pool.view == old(pool.view) && file < |pool.view.files|
        invariant pool.faults == old(pool.faults)
        invariant ChainFrom(rest, Content()) && FormedRow(rest) && pid == RowFirst(rest, 0)
        invariant Accepted(fn, calls, |calls|)
        invariant n <= |leaves| && rest == leaves[n..] && first == (n == 0) && (n == 0 ==> calls == [])
        invariant target == calls + UpToKey(Remaining(rest, first, lo), hi)
        decreases |rest|
      {
        ChainStart(rest, Content());
        var err, next, done, stopped;
        err, next, calls, done, stopped := ScanHead(pid, first, lo, hi, fn, calls, rest, target);
        if err != Ok {
          PrefixOf(calls, UpToKey(Remaining(rest, first, lo), hi));
          return Interrupted(err), calls, n;
        } else if stopped {
          return Stopped, calls, n;
        } else if done {
          return Finished, calls, n;
        }
        ChainStart(rest[1..], Content());
        assert leaves[n..][1..] == leaves[n + 1..];
        first, pid, rest, n := false, next, rest[1..], n + 1;
      }
      ChainStart(rest, Content());
      NothingLeft(lo, hi);
      return Finished, calls, n;
    }

    ghost function Page(k: PageKey): Bytes
      requires pool.view.Has(k)
      reads pool
    {
      pool.view.files[k.file][k.pid]
    }

    /** Page k is pinned in frame f and is one of this file's. */
    ghost predicate Pinned(k: PageKey, f: nat)
      reads pool
    {
      k in pool.view.pinned && pool.view.pinned[k].frame == f && k.file == file && pool.view.Has(k)
    }

    /** Inserts an entry into a pinned leaf with room. */
    method AddToLeaf(k: PageKey, f: nat, i: nat, e: Entry, ghost es: seq<Entry>, ghost next: nat)
      requires Pinned(k, f) && |Page(k)| == PAGE_SIZE
      requires NodeOf(Page(k)) == LeafNode(es, next) && i <= |es| < LEAF_CAP
      requires pool.Valid()
      modifies pool`view, pool.frames
      ensures Pinned(k, f) && |Page(k)| == PAGE_SIZE
      ensures pool.view == old(pool.view).Write(k, Page(k))
      ensures NodeOf(Page(k)) == LeafNode(InsertAt(es, i, e), next)
      ensures pool.Valid()
    {
      hide Pool.Inv, Pool.Cached, Pool.Holds, NodeOf;
      pool.ClientFacts();
      pool.PinFacts(k);
      InsertLeafAt(pool.frames[f], i, e);
      pool.Wrote(k, {});
    }

    /** Adds a separator and the child to its right to a pinned internal node with room. */
    method AddToBranch(k: PageKey, f: nat, i: nat, sep: Key, right: u32, ghost ks: seq<Key>, ghost cs: seq<nat>)
      requires Pinned(k, f) && |Page(k)| == PAGE_SIZE
      requires NodeOf(Page(k)) == BranchNode(ks, cs) && i <= |ks| < BRANCH_CAP && |cs| == |ks| + 1
      requires pool.Valid()
      modifies pool`view, pool.frames
      ensures Pinned(k, f) && |Page(k)| == PAGE_SIZE
      ensures pool.view == old(pool.view).Write(k, Page(k))
      ensures NodeOf(Page(k)) == BranchNode(InsertAt(ks, i, sep), InsertAt(cs, i + 1, right))
      ensures pool.Valid()
    {
      hide Pool.Inv, Pool.Cached, Pool.Holds, NodeOf;
      pool.ClientFacts();
      pool.PinFacts(k);
      InsertBranchAt(pool.frames[f], i, sep, right);
      pool.Wrote(k, {});
    }

    /** Splits a pinned full leaf: a new page on its right takes the upper half and its place in the chain. */
    method SplitLeafPage(k: PageKey, f: nat, ghost es: seq<Entry>, ghost next: nat)
      returns (err: Error, sep: Key, right: nat)
      requires Pinned(k, f) && |Page(k)| == PAGE_SIZE && NodeOf(Page(k)) == LeafNode(es, next) && es != []
      requires forall p :: PageKey(file, p) in pool.view.unreported ==> p == k.pid
      requires pool.Valid()
      modifies pool, pool.replacer, pool.frames
      ensures err != Ok ==> pool.view == old(pool.view)
      ensures err == Ok ==> sep == es[|es| / 2].key
      ensures err == Ok ==> SplitInTwo(old(pool.view), pool.view, k, right,
                                      LeafNode(es[..|es| / 2], right), LeafNode(es[|es| / 2..], next))
      ensures AllocError(pool, err, old(pool.view), file, old(pool.faults))
      ensures err == Ok ==> |old(pool.view).pinned| < |pool.frames|
      ensures PinsBack(old(pool.pins), old(pool.peak), pool, 0, 1)
      ensures pool.faults >= old(pool.faults)
      ensures pool.Valid()
    {
      hide Pool.Inv, Pool.Ready, Pool.Cached, Fetched, Loaded, OneForgotten, NodeOf, SplitInTwo;
      sep := 0;
      var rf;
      pool.FewPinned();
      err, rf, right := pool.NewPage(file);
      if err != Ok {
        return;
      }
      sep := MoveUpperHalf(k, f, PageKey(file, right), rf, es, next);
      Divided(old(pool.view), k, PageKey(file, right), rf, Page(k), Page(PageKey(file, right)));
      var e := pool.Unpin(PageKey(file, right), true);
    }

    method MoveUpperHalf(k: PageKey, f: nat, rk: PageKey, rf: nat, ghost es: seq<Entry>, ghost next: nat)
      returns (sep: Key)
      requires Pinned(k, f) && |Page(k)| == PAGE_SIZE && NodeOf(Page(k)) == LeafNode(es, next) && es != []
      requires Pinned(rk, rf) && k != rk && rk.pid <= MAX_U32
      requires pool.Valid()
      modifies pool`view, pool.frames
      ensures sep == es[|es| / 2].key
      ensures Pinned(k, f) && Pinned(rk, rf) && |Page(k)| == |Page(rk)| == PAGE_SIZE
      ensures pool.view == old(pool.view).Write(rk, Page(rk)).Write(k, Page(k))
      ensures NodeOf(Page(k)) == LeafNode(es[..|es| / 2], rk.pid) && NodeOf(Page(rk)) == LeafNode(es[|es| / 2..], next)
      ensures pool.Valid()
    {
      hide Pool.Inv, Pool.Cached, Pool.Holds, NodeOf;
      pool.ClientFacts();
      pool.PinFacts(k);
      pool.PinFacts(rk);
      sep := DivideLeaf(pool.frames[f], pool.frames[rf], rk.pid);
      pool.Wrote(rk, {f});
      pool.Wrote(k, {});
    }

    /** Splits a pinned full internal node: a new page on its right takes what is right of the middle key. */
    method SplitBranchPage(k: PageKey, f: nat, ghost ks: seq<Key>, ghost cs: seq<nat>)
      returns (err: Error, sep: Key, right: nat)
      requires Pinned(k, f) && |Page(k)| == PAGE_SIZE && NodeOf(Page(k)) == BranchNode(ks, cs)
      requires ks != [] && |cs| == |ks| + 1
      requires forall p :: PageKey(file, p) in pool.view.unreported ==> p == k.pid
      requires pool.Valid()
      modifies pool, pool.replacer, pool.frames
      ensures err != Ok ==> pool.view == old(pool.view)
      ensures err == Ok ==> sep == ks[|ks| / 2]
      ensures err == Ok ==> SplitInTwo(old(pool.view), pool.view, k, right,
                                      BranchNode(ks[..|ks| / 2], cs[..|ks| / 2 + 1]),
                                      BranchNode(ks[|ks| / 2 + 1..], cs[|ks| / 2 + 1..]))
      ensures AllocError(pool, err, old(pool.view), file, old(pool.faults))
      ensures PinsBack(old(pool.pins), old(pool.peak), pool, 0, 1)
      ensures pool.faults >= old(pool.faults)
      ensures pool.Valid()
    {
      hide Pool.Inv, Pool.Ready, Pool.Cached, Fetched, Loaded, OneForgotten, NodeOf, SplitInTwo;
      sep := 0;
      var rf;
      err, rf, right := pool.NewPage(file);
      if err != Ok {
        return;
      }
      sep := MoveRightKeys(k, f, PageKey(file, right), rf, ks, cs);
      Divided(old(pool.view), k, PageKey(file, right), rf, Page(k), Page(PageKey(file, right)));
      var e := pool.Unpin(PageKey(file, right), true);
    }

    method MoveRightKeys(k: PageKey, f: nat, rk: PageKey, rf: nat, ghost ks: seq<Key>, ghost cs: seq<nat>)
      returns (sep: Key)
      requires Pinned(k, f) && |Page(k)| == PAGE_SIZE && NodeOf(Page(k)) == BranchNode(ks, cs)
      requires ks != [] && |cs| == |ks| + 1
      requires Pinned(rk, rf) && k != rk
      requires pool.Valid()
      modifies pool`view, pool.frames
      ensures sep == ks[|ks| / 2]
      ensures Pinned(k, f) && Pinned(rk, rf) && |Page(k)| == |Page(rk)| == PAGE_SIZE
      ensures pool.view == old(pool.view).Write(rk, Page(rk)).Write(k, Page(k))
      ensures NodeOf(Page(k)) == BranchNode(ks[..|ks| / 2], cs[..|ks| / 2 + 1])
      ensures NodeOf(Page(rk)) == BranchNode(ks[|ks| / 2 + 1..], cs[|ks| / 2 + 1..])
      ensures pool.Valid()
    {
      hide Pool.Inv, Pool.Cached, Pool.Holds, NodeOf;
      pool.ClientFacts();
      pool.PinFacts(k);
      pool.PinFacts(rk);
      sep := DivideBranch(pool.frames[f], pool.frames[rf]);
      pool.Wrote(rk, {f});
      pool.Wrote(k, {});
    }

    /** Nothing is pending on this file, and k may be pinned in frame f on top of what is pinned already. */
    ghost predicate CanHold(v: View, k: PageKey, f: nat) {
      && k.file == file && v.Has(k) && WellFormed(v.files[file])
      && v.unreported <= v.pinned.Keys && (forall x :: x in v.unreported ==> x.file != file)
      && (k in v.pinned ==> v.pinned[k].frame == f)
    }

    /**
      * How an insertion into the subtree t ended: the pins are as before, and so is every page unless it is Done or
      * Broken.
      */
    ghost predicate Ended(res: Result, sp: Split, v: View, v': View, t: Tree, e: Entry, next: nat)
      requires file < |v.files|
    {
      match res
      case Done => OnlyFile(v, v', file) && Settled(v.files[file], v'.files[file], t, e, next, sp)
      case DuplicateKey => v' == v && Formed(t) && TreeInsert(t, e, |v.files[file]|).Duplicate?
      case Failed(_) => v' == v
      case Broken(_) => OnlyFile(v, v', file) && Jammed(v'.files[file], t)
    }

    /** The leaf case: page k, a leaf, is pinned in frame f on top of v. */
    method InsertIntoLeaf(k: PageKey, f: nat, e: Entry, ghost v: View, ghost t: Tree, ghost next: nat)
      returns (res: Result, sp: Split)
      requires t.Leaf? && k.pid == t.pid && CanHold(v, k, f) && pool.view == v.AddPin(k, f)
      requires NodeOf(v.files[file][k.pid]) == LeafNode(t.entries, next) && InOrder(t.entries) && |t.entries| < LEAF_CAP
      requires pool.Valid()
      modifies pool, pool.replacer, pool.frames
      ensures Ended(res, sp, v, pool.view, t, e, next) && !res.Failed?
      ensures res.Broken? ==> LeafSplitting(t, e.key) && Excused(res.error, v, t, e.key, false, old(pool.faults))
      ensures Outlay(res, v, t, e.key, old(pool.faults))
      ensures PinsBack(old(pool.pins), old(pool.peak), pool, 1, 1)
      ensures pool.faults >= old(pool.faults)
      ensures pool.Valid()
    {
      hide Pool.Inv, Pool.Ready, Pool.Cached, Fetched, Loaded, OneForgotten, NodeOf, Settled, LowerBound, Outlay,
        Excused, LeafSplitting;
      pool.PinFacts(k);
      sp := NoSplit;
      pool.FewPinned();
      var idx, found := Search(pool.frames[f], e.key);
      if found {
        PinUnpin(v, k, f);
        LeafOutlay(DuplicateKey, v, f, t, e.key, old(pool.faults));
        var err := pool.Unpin(k, false);
        return DuplicateKey, sp;
      }
      res, sp := FillLeaf(k, f, idx, e, v, t, next);
    }

    method FillLeaf(k: PageKey, f: nat, idx: nat, e: Entry, ghost v: View, ghost t: Tree, ghost next: nat)
      returns (res: Result, sp: Split)
      requires t.Leaf? && k.pid == t.pid && CanHold(v, k, f) && pool.view == v.AddPin(k, f)
      requires NodeOf(v.files[file][k.pid]) == LeafNode(t.entries, next) && |t.entries| < LEAF_CAP
      requires InOrder(t.entries)
      requires idx == LowerBound(KeysOf(t.entries), e.key) && !TreeInsert(t, e, |v.files[file]|).Duplicate?
      requires pool.Valid()
      modifies pool, pool.replacer, pool.frames
      ensures Ended(res, sp, v, pool.view, t, e, next) && (res == Done || res.Broken?)
      ensures res.Broken? ==> LeafSplitting(t, e.key) && Excused(res.error, v, t, e.key, false, old(pool.faults))
      ensures Outlay(res, v, t, e.key, old(pool.faults))
      ensures PinsBack(old(pool.pins), old(pool.peak), pool, 1, 1)
      ensures pool.faults >= old(pool.faults)
      ensures pool.Valid()
    {
      hide Pool.Inv, Pool.Ready, Pool.Cached, Fetched, Loaded, OneForgotten, NodeOf, TreeInsert, Settled, Outlay,
        Excused, LeafSplitting;
      pool.FewPinned();
      AddToLeaf(k, f, idx, e, t.entries, next);
      assert pool.view == Held(v, k, f, Content(), true);
      pool.PinFacts(k);
      EntriesStored(pool.frames[f][..]);
      if Full(pool.frames[f][..]) {
        res, sp := OverflowLeaf(k, f, e, v, t, next);
      } else {
        ReleaseDirty(k, f, v);
        LeafSettles(v.files[file], Content(), t, e, next);
        LeafOutlay(Done, v, f, t, e.key, old(pool.faults));
        res, sp := Done, NoSplit;
      }
    }

    /** Reports the changes to page k and releases it. */
    method ReleaseDirty(k: PageKey, f: nat, ghost v: View)
      requires CanHold(v, k, f) && file < |pool.view.files| && pool.view == Held(v, k, f, Content(), true)
      requires pool.Valid()
      modifies pool`meta, pool`view, pool`pins, pool.replacer
      ensures file < |pool.view.files| && Content() == old(Content())
      ensures WellFormed(Content()) && OnlyFile(v, pool.view, file)
      ensures PinsBack(old(pool.pins), old(pool.peak), pool, 1, 0)
      ensures pool.Valid()
    {
      hide Pool.Inv, Pool.Ready, Pool.Cached, Fetched, Loaded, OneForgotten;
      pool.ClientFacts();
      ReleaseHeld(v, k, f, Content(), true);
      var err := pool.Unpin(k, true);
    }

    method OverflowLeaf(k: PageKey, f: nat, e: Entry, ghost v: View, ghost t: Tree, ghost next: nat)
      returns (res: Result, sp: Split)
      requires t.Leaf? && k.pid == t.pid && CanHold(v, k, f)
      requires file < |pool.view.files| && pool.view == Held(v, k, f, Content(), true)
      requires !TreeInsert(t, e, |v.files[file]|).Duplicate? && |t.entries| + 1 >= LEAF_CAP && InOrder(t.entries)
      requires |Content()| == |v.files[file]| && |Page(k)| == PAGE_SIZE && Content() == v.files[file][k.pid := Page(k)]
      requires NodeOf(Page(k)) == LeafNode(Put(t.entries, e), next)
      requires pool.Valid()
      modifies pool, pool.replacer, pool.frames
      ensures Ended(res, sp, v, pool.view, t, e, next) && (res == Done || res.Broken?)
      ensures res.Broken? ==> LeafSplitting(t, e.key) && Excused(res.error, v, t, e.key, false, old(pool.faults))
      ensures Outlay(res, v, t, e.key, old(pool.faults))
      ensures PinsBack(old(pool.pins), old(pool.peak), pool, 1, 1)
      ensures pool.faults >= old(pool.faults)
      ensures pool.Valid()
    {
      hide Pool.Inv, Pool.Ready, Pool.Cached, Fetched, Loaded, OneForgotten, NodeOf, TreeInsert, Settled,
        LeafSplitting, Excused, InOrder, Has, Outlay;
      ghost var es, n := Put(t.entries, e), pool.faults;
      pool.FewPinned();
      LeafNotBound(t, e, |v.files[file]|);
      var err, sep, right := SplitLeafPage(k, f, es, next);
      assert pool.view == Held(v, k, f, Content(), true);
      ReleaseDirty(k, f, v);
      if err != Ok {
        LeafExcused(err, v, f, t, e.key, n);
        LeafOutlay(Broken(err), v, f, t, e.key, n);
        JammedHere(Content(), t);
        return Broken(err), NoSplit;
      }
      LeafSplitSettles(v.files[file], Content(), t, e, next);
      LeafOutlay(Done, v, f, t, e.key, n);
      return Done, SplitAt(sep, right);
    }

    /**
      * Why an insertion of k into t can fail: the frames do not suffice, a disk call has failed since there were n
      * failures, or the file has no room for the pages it adds.
      */
    ghost predicate Excused(err: Error, v: View, t: Tree, k: Key, root: bool, n: nat)
      requires file < |v.files| && Formed(t)
      reads pool`faults
    {
      if err == NoFreeFrame then ShortOfFrames(v.pinned.Keys, |pool.frames|, file, t, k, root)
      else err == DiskError && (pool.Faulty(n) || |v.files[file]| + PagesAdded(t, k, root) > MAX_U32)
    }

    lemma LeafExcused(err: Error, v: View, f: nat, t: Tree, k: Key, n: nat)
      requires file < |v.files| && t.Leaf? && LeafSplitting(t, k)
      requires err != Ok && AllocError(pool, err, v.AddPin(PageKey(file, t.pid), f), file, n)
      ensures Excused(err, v, t, k, false, n)
    {
      PinnedKeys(v, PageKey(file, t.pid), f);
      if err == NoFreeFrame { ShortAtNode(v.pinned.Keys, |pool.frames|, file, t, k); }
    }

    /** What excuses the insertion below an internal node excuses the one into the node. */
    lemma KidExcused(err: Error, v: View, f: nat, t: Tree, k: Key, n: nat)
      requires file < |v.files| && t.Branch? && Formed(t)
      requires Excused(err, v.AddPin(PageKey(file, t.pid), f), t.kids[ChildIndex(t.keys, k)], k, false, n)
      ensures Excused(err, v, t, k, false, n)
    {
      hide PathFrames, LeafSplitting;
      PinnedKeys(v, PageKey(file, t.pid), f);
      SamePathFrames(v.pinned.Keys, file, t, k);
    }

    /** An internal node that has to split for want of a page that is not to be had. */
    lemma BranchExcused(err: Error, v: View, w: View, f: nat, t: Tree, k: Key, n: nat)
      requires file < |v.files| && file < |w.files| && t.Branch? && Formed(t) && LeafSplitting(t, k) && FullPath(t, k)
      requires w.pinned == v.AddPin(PageKey(file, t.pid), f).pinned
      requires |w.files[file]| == |v.files[file]| + Splits(t.kids[ChildIndex(t.keys, k)], k)
      requires err != Ok && AllocError(pool, err, w, file, n)
      ensures Excused(err, v, t, k, false, n)
    {
      hide ShortOfFrames;
      PinnedKeys(v, PageKey(file, t.pid), f);
      if err == NoFreeFrame { ShortAtNode(v.pinned.Keys, |pool.frames|, file, t, k); }
    }

    /** What the end of an insertion of k into t says about the frames there were: it needs those of the way to k. */
    ghost predicate Outlay(res: Result, v: View, t: Tree, k: Key, n: nat)
      requires Formed(t)
      reads pool`faults
    {
      var m := PathFrames(v.pinned.Keys, file, t, k);
      match res
      case Done => m + (if LeafSplitting(t, k) then 1 else 0) <= |pool.frames|
      case DuplicateKey => m <= |pool.frames|
      case Broken(_) => m <= |pool.frames| && LeafSplitting(t, k)
      case Failed(err) => if err == NoFreeFrame then m > |pool.frames| else err == DiskError && pool.Faulty(n)
    }

    lemma KidOutlay(res: Result, v: View, f: nat, t: Tree, k: Key, n: nat)
      requires t.Branch? && Formed(t)
      requires Outlay(res, v.AddPin(PageKey(file, t.pid), f), t.kids[ChildIndex(t.keys, k)], k, n)
      ensures Outlay(res, v, t, k, n)
    {
      hide PathFrames, LeafSplitting;
      PinnedKeys(v, PageKey(file, t.pid), f);
      SamePathFrames(v.pinned.Keys, file, t, k);
    }

    lemma LeafOutlay(res: Result, v: View, f: nat, t: Tree, k: Key, n: nat)
      requires t.Leaf? && !res.Failed? && (res.Broken? ==> LeafSplitting(t, k))
      requires var m := |v.AddPin(PageKey(file, t.pid), f).pinned|;
        m <= |pool.frames| && (res == Done && |t.entries| + 1 >= LEAF_CAP ==> m < |pool.frames|)
      ensures Outlay(res, v, t, k, n)
    {
      LeafPathFrames(v, file, f, t, k);
    }

    lemma FetchOutlay(err: Error, v: View, t: Tree, k: Key, n: nat)
      requires Formed(t) && err != Ok && file < |v.files|
      requires if err == NoFreeFrame then |v.pinned| == |pool.frames| && PageKey(file, t.pid) !in v.pinned
               else err == DiskError && pool.Faulty(n)
      ensures Outlay(Failed(err), v, t, k, n) && Excused(err, v, t, k, false, n)
    {
      hide LeafSplitting, PathFrames, PagesAdded;
      if err == NoFreeFrame { OffPath(v.pinned.Keys, file, t, k); }
    }

    lemma RootExcused(err: Error, v: View, t: Tree, k: Key, n: nat)
      requires file < |v.files| && Formed(t) && Excused(err, v, t, k, false, n)
      ensures Excused(err, v, t, k, true, n)
    {
    }

    /** A new root that is not to be had, or a meta page that cannot be pinned to record it. */
    lemma GrowthExcused(err: Error, v: View, f1: File, t: Tree, k: Key, n: nat)
      requires file < |v.files| && Formed(t) && LeafSplitting(t, k) && FullPath(t, k)
      requires |f1| == |v.files[file]| + Splits(t, k)
      requires if err == NoFreeFrame then |v.pinned| == |pool.frames|
               else err == DiskError && (pool.Faulty(n) || |f1| >= MAX_U32)
      ensures Excused(err, v, t, k, true, n)
    {
      SubsetCount(v.pinned.Keys, v.pinned.Keys + KeysIn(file, Path(t, k)));
    }

    /** An excuse in round numbers: a pin per level and one for a split, and a page per level and one for the root. */
    lemma RoundExcuse(err: Error, v: View, t: Tree, h: nat, lo: int, hi: int, k: Key, n: nat)
      requires file < |v.files| && Good(t, h, lo, hi, true) && Excused(err, v, t, k, true, n)
      ensures if err == NoFreeFrame then |v.pinned| + h + (if LeafSplitting(t, k) then 1 else 0) > |pool.frames|
              else err == DiskError && (pool.Faulty(n) || |v.files[file]| + h + 1 > MAX_U32)
      ensures err == DiskError && !LeafSplitting(t, k) && |v.files[file]| <= MAX_U32 ==> pool.Faulty(n)
    {
      hide Good, LeafSplitting, ShortOfFrames, PagesAdded, KeysIn, Path;
      FewPages(t, h, lo, hi, k);
      if err == NoFreeFrame { ShortInNumbers(v.pinned.Keys, |pool.frames|, file, t, h, lo, hi, k); }
      assert |v.pinned| == |v.pinned.Keys|;
    }

    /**
      * Inserts e into the subtree t rooted at page `pid`, keeping that page pinned during the
      * descent. When it is Done, the pages carry exactly `TreeInsert(t, e, _)`.
      */
    method InsertInto(pid: nat, e: Entry, ghost t: Tree, ghost h: nat, ghost lo: int, ghost hi: int, ghost root: bool,
                      ghost next: nat)
      returns (res: Result, sp: Split)
      requires file < |pool.view.files| && OnPages(t, h, lo, hi, root, next, Content()) && Distinct(t)
      requires t.pid == pid && lo <= e.key < hi
      requires forall x :: x in pool.view.unreported ==> x.file != file
      requires pool.Valid()
      modifies pool, pool.replacer, pool.frames
      ensures Ended(res, sp, old(pool.view), pool.view, t, e, next)
      ensures res.Failed? || res.Broken? ==> Excused(res.error, old(pool.view), t, e.key, false, old(pool.faults))
      ensures Outlay(res, old(pool.view), t, e.key, old(pool.faults))
      ensures PinsBack(old(pool.pins), old(pool.peak), pool, 0, h + 1)
      ensures pool.faults >= old(pool.faults)
      ensures pool.Valid()
      decreases h, 1
    {
      hide Pool.Inv, Pool.Ready, Pool.Cached, Fetched, Loaded, OneForgotten, NodeOf, OnPages, TreeInsert, Settled,
        Outlay, Excused, LeafSplitting;
      RootNode(t, h, lo, hi, root, next, Content());
      pool.ClientFacts();
      ghost var v := pool.view;
      var k := PageKey(file, pid);
      var err, f := pool.Fetch(file, pid);
      if err != Ok {
        FetchOutlay(err, v, t, e.key, old(pool.faults));
        return Failed(err), NoSplit;
      }
      OneMorePin(v, k, f);
      if IsLeaf(pool.frames[f][..]) {
        res, sp := InsertIntoLeaf(k, f, e, v, t, next);
      } else {
        res, sp := InsertIntoBranch(k, f, e, v, t, h, lo, hi, root, next);
      }
    }

    /** The internal case: page k is pinned in frame f on top of v; descend, then absorb a split below. */
    method InsertIntoBranch(k: PageKey, f: nat, e: Entry, ghost v: View,
                            ghost t: Tree, ghost h: nat, ghost lo: int, ghost hi: int, ghost root: bool,
                            ghost next: nat)
      returns (res: Result, sp: Split)
      requires t.Branch? && k.pid == t.pid && CanHold(v, k, f) && pool.view == v.AddPin(k, f)
      requires OnPages(t, h, lo, hi, root, next, v.files[file]) && Distinct(t) && lo <= e.key < hi
      requires pool.Valid()
      modifies pool, pool.replacer, pool.frames
      ensures Ended(res, sp, v, pool.view, t, e, next)
      ensures res.Failed? || res.Broken? ==> Excused(res.error, v, t, e.key, false, old(pool.faults))
      ensures Outlay(res, v, t, e.key, old(pool.faults))
      ensures PinsBack(old(pool.pins), old(pool.peak), pool, 1, h)
      ensures pool.faults >= old(pool.faults)
      ensures pool.Valid()
      decreases h, 0
    {
      hide Pool.Inv, Pool.Ready, Pool.Cached, Fetched, Loaded, OneForgotten, NodeOf, OnPages, TreeInsert, Settled,
        Outlay, Excused, LeafSplitting;
      RootNode(t, h, lo, hi, root, next, Content());
      ChildOnPages(t, h, lo, hi, root, next, Content(), e.key);
      KidPages(t, ChildIndex(t.keys, e.key));
      pool.PinFacts(k);
      var i, child := Route(pool.frames[f], e.key);
      ghost var nx := RowFirst(t.kids[i + 1..], next);
      ghost var n := pool.faults;
      var csp;
      res, csp := InsertInto(child, e, t.kids[i], h - 1, Low(t.keys, i, lo), High(t.keys, i, hi), false, nx);
      if res.Failed? || res.Broken? { KidExcused(res.error, v, f, t, e.key, n); }
      KidOutlay(res, v, f, t, e.key, n);
      res, sp := Resume(k, f, i, res, csp, e, v, t, h, lo, hi, root, next, n);
    }

    /** What happens at an internal node once the insertion below it has ended. */
    method Resume(k: PageKey, f: nat, i: nat, below: Result, csp: Split, e: Entry, ghost v: View,
                  ghost t: Tree, ghost h: nat, ghost lo: int, ghost hi: int, ghost root: bool, ghost next: nat,
                  ghost n: nat)
      returns (res: Result, sp: Split)
      requires t.Branch? && k.pid == t.pid && CanHold(v, k, f)
      requires OnPages(t, h, lo, hi, root, next, v.files[file]) && Distinct(t) && lo <= e.key < hi
      requires i == ChildIndex(t.keys, e.key) && i < |t.kids| && FormedRow(t.kids[i + 1..])
      requires Ended(below, csp, v.AddPin(k, f), pool.view, t.kids[i], e, RowFirst(t.kids[i + 1..], next))
      requires pool.faults >= n
      requires below.Failed? || below.Broken? ==> Excused(below.error, v, t, e.key, false, n)
      requires Outlay(below, v, t, e.key, n)
      requires pool.Valid()
      modifies pool, pool.replacer, pool.frames
      ensures Ended(res, sp, v, pool.view, t, e, next)
      ensures res.Failed? || res.Broken? ==> Excused(res.error, v, t, e.key, false, n)
      ensures Outlay(res, v, t, e.key, n)
      ensures PinsBack(old(pool.pins), old(pool.peak), pool, 1, 1)
      ensures pool.faults >= old(pool.faults)
      ensures pool.Valid()
    {
      hide Pool.Inv, Pool.Ready, Pool.Cached, Fetched, Loaded, OneForgotten, NodeOf, OnPages, TreeInsert, Settled;
      assert v.files[file := v.files[file]] == v.files;
      assert pool.view == Held(v, k, f, Content(), false);
      if below == Done && csp.SplitAt? {
        res, sp := AbsorbSplitAt(k, f, i, csp, e, v, t, h, lo, hi, root, next);
        return;
      }
      ReleaseClean(k, f, v);
      if below == Done {
        KidOutcome(t, h, lo, hi, root, e, i, v.files[file], Content(), next);
      } else if below == DuplicateKey {
        RootNode(t, h, lo, hi, root, next, v.files[file]);
        KidDuplicate(t, e, i, |v.files[file]|);
      } else if below.Broken? {
        JammedBelow(Content(), t, i);
      }
      return below, NoSplit;
    }

    /** Releases page k, itself not changed, after changes to other pages of the file. */
    method ReleaseClean(k: PageKey, f: nat, ghost v: View)
      requires CanHold(v, k, f) && file < |pool.view.files| && pool.view == Held(v, k, f, Content(), false)
      requires pool.Valid()
      modifies pool`meta, pool`view, pool`pins, pool.replacer
      ensures file < |pool.view.files| && Content() == old(Content())
      ensures WellFormed(Content()) && OnlyFile(v, pool.view, file)
      ensures PinsBack(old(pool.pins), old(pool.peak), pool, 1, 0)
      ensures pool.Valid()
    {
      hide Pool.Inv, Pool.Ready, Pool.Cached, Fetched, Loaded, OneForgotten;
      pool.ClientFacts();
      ReleaseHeld(v, k, f, Content(), false);
      var err := pool.Unpin(k, false);
    }

    /** Adds what the split child reported to the pinned internal node, splitting that in turn if it is full. */
    method AbsorbSplitAt(k: PageKey, f: nat, i: nat, csp: Split, e: Entry, ghost v: View,
                         ghost t: Tree, ghost h: nat, ghost lo: int, ghost hi: int, ghost root: bool, ghost next: nat)
      returns (res: Result, sp: Split)
      requires t.Branch? && k.pid == t.pid && CanHold(v, k, f)
      requires file < |pool.view.files| && pool.view == Held(v, k, f, Content(), false)
      requires OnPages(t, h, lo, hi, root, next, v.files[file]) && Distinct(t) && lo <= e.key < hi
      requires i == ChildIndex(t.keys, e.key) && csp.SplitAt?
      requires i < |t.kids| && FormedRow(t.kids[i + 1..])
      requires Settled(v.files[file], Content(), t.kids[i], e, RowFirst(t.kids[i + 1..], next), csp)
      requires pool.Valid()
      modifies pool, pool.replacer, pool.frames
      ensures Ended(res, sp, v, pool.view, t, e, next)
      ensures res == Done ||
        (res.Broken? && LeafSplitting(t, e.key) && Excused(res.error, v, t, e.key, false, old(pool.faults)))
      ensures PinsBack(old(pool.pins), old(pool.peak), pool, 1, 1)
      ensures pool.faults >= old(pool.faults)
      ensures pool.Valid()
    {
      hide Pool.Inv, Pool.Ready, Pool.Cached, Fetched, Loaded, OneForgotten, NodeOf, OnPages, KidSplit, TreeInsert,
        Settled;
      ghost var f1 := Content();
      KidSettled(t, h, lo, hi, root, e, i, v.files[file], f1, csp, next);
      AddToBranch(k, f, i, csp.sep, csp.right, t.keys, Roots(t.kids));
      assert pool.view == Held(v, k, f, Content(), true);
      res, sp := FinishBranch(k, f, i, csp, e, v, t, h, f1, next);
    }

    /** Releases the internal node with its new separator, or splits it first if it is full. */
    method FinishBranch(k: PageKey, f: nat, i: nat, csp: Split, e: Entry, ghost v: View,
                        ghost t: Tree, ghost h: nat, ghost f1: File, ghost next: nat)
      returns (res: Result, sp: Split)
      requires k.pid == t.pid && CanHold(v, k, f) && file < |pool.view.files|
      requires pool.view == Held(v, k, f, Content(), true)
      requires csp.SplitAt?
      requires KidSplit(t, e, i, v.files[file], f1, csp, next) && |t.keys| < BRANCH_CAP
      requires KidGrew(t, e.key, i, v.files[file], f1)
      requires |Content()| == |f1| && |Page(k)| == PAGE_SIZE && Content() == f1[k.pid := Page(k)]
      requires NodeOf(Page(k)) == BranchNode(InsertAt(t.keys, i, csp.sep), InsertAt(Roots(t.kids), i + 1, csp.right))
      requires pool.Valid()
      modifies pool, pool.replacer, pool.frames
      ensures Ended(res, sp, v, pool.view, t, e, next)
      ensures res == Done ||
        (res.Broken? && LeafSplitting(t, e.key) && Excused(res.error, v, t, e.key, false, old(pool.faults)))
      ensures PinsBack(old(pool.pins), old(pool.peak), pool, 1, 1)
      ensures pool.faults >= old(pool.faults)
      ensures pool.Valid()
    {
      hide Pool.Inv, Pool.Ready, Pool.Cached, Fetched, Loaded, OneForgotten, NodeOf, KidSplit, TreeInsert, Settled;
      KidSplitShape(t, e, i, v.files[file], f1, csp, next);
      pool.PinFacts(k);
      BranchStored(pool.frames[f][..]);
      if Full(pool.frames[f][..]) {
        res, sp := OverflowBranch(k, f, i, csp, e, v, t, h, f1, next);
      } else {
        ReleaseDirty(k, f, v);
        BranchSettles(t, e, i, v.files[file], f1, Content(), csp, next);
        res, sp := Done, NoSplit;
      }
    }

    method OverflowBranch(k: PageKey, f: nat, i: nat, csp: Split, e: Entry, ghost v: View,
                          ghost t: Tree, ghost h: nat, ghost f1: File, ghost next: nat)
      returns (res: Result, sp: Split)
      requires k.pid == t.pid && CanHold(v, k, f) && file < |pool.view.files|
      requires pool.view == Held(v, k, f, Content(), true)
      requires csp.SplitAt?
      requires KidSplit(t, e, i, v.files[file], f1, csp, next) && |t.keys| + 1 == BRANCH_CAP
      requires KidGrew(t, e.key, i, v.files[file], f1)
      requires |Content()| == |f1| && |Page(k)| == PAGE_SIZE && Content() == f1[k.pid := Page(k)]
      requires NodeOf(Page(k)) == BranchNode(InsertAt(t.keys, i, csp.sep), InsertAt(Roots(t.kids), i + 1, csp.right))
      requires pool.Valid()
      modifies pool, pool.replacer, pool.frames
      ensures Ended(res, sp, v, pool.view, t, e, next)
      ensures res == Done ||
        (res.Broken? && LeafSplitting(t, e.key) && Excused(res.error, v, t, e.key, false, old(pool.faults)))
      ensures PinsBack(old(pool.pins), old(pool.peak), pool, 1, 1)
      ensures pool.faults >= old(pool.faults)
      ensures pool.Valid()
    {
      hide Pool.Inv, Pool.Ready, Pool.Cached, Fetched, Loaded, OneForgotten, NodeOf, KidSplit, TreeInsert, Settled;
      KidSplitShape(t, e, i, v.files[file], f1, csp, next);
      ghost var ks, cs := InsertAt(t.keys, i, csp.sep), InsertAt(Roots(t.kids), i + 1, csp.right);
      ghost var w, n := pool.view, pool.faults;
      var err, sep, right := SplitBranchPage(k, f, ks, cs);
      assert pool.view == Held(v, k, f, Content(), true);
      ReleaseDirty(k, f, v);
      if err != Ok {
        BranchExcused(err, v, w, f, t, e.key, n);
        JammedHere(Content(), t);
        return Broken(err), NoSplit;
      }
      BranchSplitSettles(t, e, i, v.files[file], f1, Content(), csp, next);
      return Done, SplitAt(sep, right);
    }

    /** The map the index stands for. */
    ghost function Contents(): map<Key, TID>
      requires Valid()
      reads this, pool, pool.replacer, pool.frames
    {
      MapOf(Entries(tree))
    }

    /**
      * Inserts a binding. Unless a split could not be carried through, the index stays an index;
      * it gains exactly the new binding, or nothing at all.
      */
    method Insert(key: Key, tid: TID) returns (res: Result)
      requires Valid()
      modifies this, pool, pool.replacer, pool.frames
      ensures OnlyFile(old(pool.view), pool.view, file)
      ensures !res.Broken? ==> Valid()
      ensures res == Done ==> key !in old(Contents()) && Contents() == old(Contents())[key := tid]
      // It adds a page for every node that splits and one for a new root, which there is if all on the way split.
      ensures res == Done ==> height == old(height) + if old(FullPath(tree, key)) then 1 else 0
      ensures res == Done ==> |Content()| == |old(Content())| + old(PagesAdded(tree, key, true))
      ensures old(PagesAdded(tree, key, true)) <= old(height) + 1
      ensures res == DuplicateKey ==> key in old(Contents())
      ensures res == DuplicateKey || res.Failed? ==>
        pool.view == old(pool.view) && tree == old(tree) && height == old(height)
      ensures res.Failed? || res.Broken? ==> Excused(res.error, old(pool.view), old(tree), key, true, old(pool.faults))
      // Where no disk call fails, it fails exactly if the pages on the way do not find frames, and breaks exactly if
      // they do but no page is to be had for a leaf that has to split.
      ensures pool.faults == old(pool.faults) ==>
        && (res.Failed? <==> old(OutOfReach(pool.view, tree, key)))
        && (res.Broken? <==> old(Breaks(pool.view, tree, key)))
      // A split that was not carried through leaves no index; only a leaf without room for one more can cause it.
      ensures res.Broken? ==> forall t, h :: !IndexOk(Content(), t, h)
      ensures res.Broken? ==> |old(Covering(tree, key)).entries| == LEAF_CAP - 1 && key !in old(Contents())
      ensures PinsBack(old(pool.pins), old(pool.peak), pool, 0, old(height) + 1)
      ensures pool.faults >= old(pool.faults)
      ensures pool.Valid()
      // With room in the file and height + 1 frames to spare only a failing disk call makes it fail.
      ensures
        && |old(pool.view.pinned)| + old(height) + 1 <= |pool.frames|
        && |old(Content())| + old(height) + 1 <= MAX_U32
        ==> res == Done || res == DuplicateKey || pool.Faulty(old(pool.faults))
      // Where the leaf has room, or the key already, height frames to spare do, and no room in the file is needed.
      ensures
        && (|old(Covering(tree, key)).entries| < LEAF_CAP - 1 || key in old(Contents()))
        && |old(pool.view.pinned)| + old(height) <= |pool.frames|
        ==> res == Done || res == DuplicateKey || pool.Faulty(old(pool.faults))
    {
      hide Pool.Inv, Pool.Ready, Pool.Cached, Fetched, Loaded, OneForgotten, IndexOk, MapOf, LeafSplitting, Excused,
        PathFrames, OutOfReach, RootOutlay, PagesAdded, FullPath, Covering, Has, InOrder, Entries, Put, PinsBack;
      ghost var v, t0, f0 := pool.view, tree, Content();
      IndexFacts(f0, t0, height);
      LeafDecides(f0, t0, height, key);
      var e := Entry(key, tid);
      res := Attempt(e);
      if res == Done {
        PutAddsBinding(Entries(t0), e);
        BoundBefore(Entries(t0), key);
      } else if res != DuplicateKey {
        Blame(res.error, v, t0, old(height), key, old(pool.faults));
      }
      if pool.faults == old(pool.faults) {
        pool.SameShape();
        Outlaid(res, v, t0, key);
        EndsExactly(res, v, t0, key);
      }
    }

    /** The insertion, seen on the tree. */
    method Attempt(e: Entry) returns (res: Result)
      requires Valid()
      modifies this, pool, pool.replacer, pool.frames
      ensures OnlyFile(old(pool.view), pool.view, file) && Formed(old(tree))
      ensures !res.Broken? ==> Valid()
      ensures res == Done ==>
        InOrder(Entries(old(tree))) && !Has(Entries(old(tree)), e.key) && Entries(tree) == Put(Entries(old(tree)), e)
      ensures res == Done ==> height == old(height) + if old(FullPath(tree, e.key)) then 1 else 0
      ensures res == Done ==> |Content()| == |old(Content())| + old(PagesAdded(tree, e.key, true))
      ensures res == DuplicateKey ==> e.key in old(Contents())
      ensures res == DuplicateKey || res.Failed? ==>
        pool.view == old(pool.view) && tree == old(tree) && height == old(height)
      ensures res.Failed? || res.Broken? ==>
        Excused(res.error, old(pool.view), old(tree), e.key, true, old(pool.faults))
      ensures res.Broken? ==> NoIndex(Content()) && LeafSplitting(old(tree), e.key)
      ensures RootOutlay(res, old(pool.view), old(tree), e.key, old(pool.faults))
      ensures PinsBack(old(pool.pins), old(pool.peak), pool, 0, old(height) + 1)
      ensures pool.faults >= old(pool.faults)
      ensures pool.Valid()
    {
      hide Pool.Inv, Pool.Ready, Pool.Cached, Fetched, Loaded, OneForgotten, IndexOk, Settled, TreeInsert, MapOf,
        Jammed, LeafSplitting, Excused, PathFrames, OutOfReach, PagesAdded, FullPath, Has, InOrder, Entries, Put;
      ghost var v, t0, f0 := pool.view, tree, Content();
      IndexFacts(f0, t0, height);
      var root, sp;
      res, root, sp := Descend(e);
      if res.Broken? {
        JammedNoIndex(f0, t0, height, Content());
      } else if res == DuplicateKey {
        DuplicateBound(f0, t0, height, e);
      } else if res == Done {
        ghost var n := pool.faults;
        res := Conclude(root, sp, e, v, f0);
        if res != Done {
          ExcusedBefore(res.error, v, t0, e.key, n, old(pool.faults));
        }
      }
    }

    lemma Outlaid(res: Result, v: View, t: Tree, k: Key)
      requires Formed(t) && RootOutlay(res, v, t, k, pool.faults)
      ensures res.Failed? <==> OutOfReach(v, t, k)
      ensures res.Broken? ==> LeafSplitting(t, k)
      ensures res == Done ==>
        PathFrames(v.pinned.Keys, file, t, k) + (if LeafSplitting(t, k) then 1 else 0) <= |pool.frames|
    {
      hide PathFrames, LeafSplitting;
    }

    /** Reads where the root is and inserts below it. */
    method Descend(e: Entry) returns (res: Result, root: nat, sp: Split)
      requires Valid()
      modifies pool, pool.replacer, pool.frames
      ensures Ended(res, sp, old(pool.view), pool.view, tree, e, 0) && (res == Done ==> root == tree.pid)
      ensures Formed(tree)
      ensures res.Failed? || res.Broken? ==> Excused(res.error, old(pool.view), tree, e.key, true, old(pool.faults))
      ensures RootOutlay(res, old(pool.view), tree, e.key, old(pool.faults))
      ensures PinsBack(old(pool.pins), old(pool.peak), pool, 0, height + 1)
      ensures pool.faults >= old(pool.faults)
      ensures pool.Valid()
    {
      hide Pool.Inv, Pool.Ready, Pool.Cached, Fetched, Loaded, OneForgotten, IndexOk, Settled, TreeInsert,
        LeafSplitting, ShortOfFrames, PagesAdded, Outlay, OutOfReach;
      ghost var v := pool.view;
      IndexFacts(Content(), tree, height);
      sp := NoSplit;
      var err;
      err, root := ReadRoot();
      if err != Ok {
        MetaExcused(err, v, tree, e.key, old(pool.faults));
        return Failed(err), root, sp;
      }
      res, sp := InsertInto(root, e, tree, height, MIN_KEY, MAX_KEY + 1, true, 0);
      if res.Failed? || res.Broken? { RootExcused(res.error, v, tree, e.key, old(pool.faults)); }
      MetaReached(res, v, tree, e.key, old(pool.faults));
    }

    /** The pages on the way to k, or the meta page, do not find frames next to what is pinned. */
    ghost predicate OutOfReach(v: View, t: Tree, k: Key)
      requires Formed(t)
    {
      || PathFrames(v.pinned.Keys, file, t, k) > |pool.frames|
      || |v.pinned.Keys + {PageKey(file, META)}| > |pool.frames|
    }

    /** What the end of an insertion at the root says about the frames there were. */
    ghost predicate RootOutlay(res: Result, v: View, t: Tree, k: Key, n: nat)
      requires Formed(t)
      reads pool`faults
    {
      match res
      case Failed(err) => if err == NoFreeFrame then OutOfReach(v, t, k) else err == DiskError && pool.Faulty(n)
      case _ => Outlay(res, v, t, k, n) && !OutOfReach(v, t, k)
    }

    /**
      * Where no disk call fails, how an insertion ends is decided by the frames and the room there are: it fails if the
      * way is out of reach, and breaks if the leaf has to split and no page is to be had.
      */
    lemma EndsExactly(res: Result, v: View, t: Tree, k: Key)
      requires file < |v.files| && Formed(t)
      requires res.Failed? ==> OutOfReach(v, t, k)
      requires !res.Failed? ==> !OutOfReach(v, t, k)
      requires res.Broken? ==> LeafSplitting(t, k) && Excused(res.error, v, t, k, true, pool.faults)
      requires res == DuplicateKey ==> !LeafSplitting(t, k)
      requires res == Done ==>
        && PathFrames(v.pinned.Keys, file, t, k) + (if LeafSplitting(t, k) then 1 else 0) <= |pool.frames|
        && |v.files[file]| + PagesAdded(t, k, true) <= MAX_U32
      ensures res.Failed? <==> OutOfReach(v, t, k)
      ensures res.Broken? <==> Breaks(v, t, k)
    {
      hide LeafSplitting, PathFrames, PagesAdded;
    }

    /** The way is within reach, but the leaf has to split and there is no frame or no room for the pages that takes. */
    ghost predicate Breaks(v: View, t: Tree, k: Key)
      requires Formed(t) && file < |v.files|
    {
      && !OutOfReach(v, t, k) && LeafSplitting(t, k)
      && (PathFrames(v.pinned.Keys, file, t, k) == |pool.frames|
          || |v.files[file]| + PagesAdded(t, k, true) > MAX_U32)
    }

    /** A pool of one frame and an index of one leaf, one entry short of its capacity: the next new key breaks it. */
    lemma BreakExample(v: View, es: seq<Entry>, k: Key)
      requires |pool.frames| == 1 && v.pinned == map[] && file < |v.files| && |es| == LEAF_CAP - 1 && !Has(es, k)
      ensures Breaks(v, Leaf(1, es), k)
    {
      assert KeysIn(file, Path(Leaf(1, es), k)) == {PageKey(file, 1)};
      assert v.pinned.Keys + {PageKey(file, 1)} == {PageKey(file, 1)};
      assert v.pinned.Keys + {PageKey(file, META)} == {PageKey(file, META)};
    }

    lemma ExcusedBefore(err: Error, v: View, t: Tree, k: Key, n: nat, n0: nat)
      requires file < |v.files| && Formed(t) && Excused(err, v, t, k, true, n) && n0 <= n
      ensures Excused(err, v, t, k, true, n0)
    {
    }

    lemma MetaExcused(err: Error, v: View, t: Tree, k: Key, n: nat)
      requires file < |v.files| && Formed(t) && v == pool.view && err != Ok
      requires ReadError(pool, err, file, {META}, n)
      ensures Excused(err, v, t, k, true, n) && RootOutlay(Failed(err), v, t, k, n)
    {
      hide PathFrames, LeafSplitting, PagesAdded;
    }

    lemma MetaReached(res: Result, v: View, t: Tree, k: Key, n: nat)
      requires Formed(t) && Outlay(res, v, t, k, n) && |v.pinned.Keys + {PageKey(file, META)}| <= |pool.frames|
      ensures RootOutlay(res, v, t, k, n)
    {
      hide PathFrames, LeafSplitting;
    }

    /** Frames for every level, and one more frame and room if the leaf has to split, leave only the disk to blame. */
    lemma Blame(err: Error, v: View, t: Tree, h: nat, k: Key, n: nat)
      requires file < |v.files| && IndexOk(v.files[file], t, h) && Formed(t) && Excused(err, v, t, k, true, n)
      ensures |v.pinned| + h + 1 <= |pool.frames| && |v.files[file]| + h + 1 <= MAX_U32 ==> pool.Faulty(n)
      ensures !LeafSplitting(t, k) && |v.pinned| + h <= |pool.frames| ==> pool.Faulty(n)
    {
      hide Good, LeafSplitting, Excused, Rep, Pids;
      RoundExcuse(err, v, t, h, MIN_KEY, MAX_KEY + 1, k, n);
    }

    /** The end of an insertion that went through: the tree is the one carried by the pages. */
    method Conclude(root: nat, sp: Split, e: Entry, ghost v: View, ghost f0: File) returns (res: Result)
      requires Quiet(pool.view, file) && file < |v.files| && OnlyFile(v, pool.view, file) && v.files[file] == f0
      requires IndexOk(f0, tree, height) && root == tree.pid
      requires Settled(f0, Content(), tree, e, 0, sp)
      requires pool.Valid()
      modifies this, pool, pool.replacer, pool.frames
      ensures OnlyFile(v, pool.view, file) && Formed(old(tree))
      ensures res == Done || (res.Broken? && Excused(res.error, v, old(tree), e.key, true, old(pool.faults)))
      ensures res.Broken? ==> LeafSplitting(old(tree), e.key) && NoIndex(Content())
      ensures res == Done ==> Valid() && height == old(height) + if old(FullPath(tree, e.key)) then 1 else 0
      ensures res == Done ==> |Content()| == |f0| + old(PagesAdded(tree, e.key, true))
      ensures res == Done ==>
        InOrder(Entries(old(tree))) && !Has(Entries(old(tree)), e.key) && Entries(tree) == Put(Entries(old(tree)), e)
      ensures PinsBack(old(pool.pins), old(pool.peak), pool, 0, 1)
      ensures pool.faults >= old(pool.faults)
      ensures pool.Valid()
    {
      hide Pool.Inv, Pool.Ready, Pool.Cached, Fetched, Loaded, OneForgotten, NodeOf, OnPages, Settled, TreeInsert,
        Entries, Has, InOrder, Put, FullPath, PagesAdded, LeafSplitting, Excused;
      IndexFacts(f0, tree, height);
      SettledGrowth(f0, Content(), tree, height, e, sp);
      if sp.NoSplit? {
        IndexAfterInsert(f0, Content(), tree, height, e);
        tree := TreeInsert(tree, e, |f0|).tree;
        return Done;
      }
      res := GrowRoot(root, sp.sep, sp.right, e, v, f0);
    }

    /** Gives the two halves of a split root a new root above them. */
    method GrowRoot(root: nat, sep: Key, right: nat, e: Entry, ghost v: View, ghost f0: File) returns (res: Result)
      requires Quiet(pool.view, file) && file < |v.files| && OnlyFile(v, pool.view, file) && v.files[file] == f0
      requires IndexOk(f0, tree, height) && root == tree.pid
      requires Settled(f0, Content(), tree, e, 0, SplitAt(sep, right))
      requires pool.Valid()
      modifies this, pool, pool.replacer, pool.frames
      ensures OnlyFile(v, pool.view, file) && Formed(old(tree))
      ensures res == Done || (res.Broken? && Excused(res.error, v, old(tree), e.key, true, old(pool.faults)))
      ensures res.Broken? ==> NoIndex(Content())
      ensures res == Done ==> Valid() && height == old(height) + 1
      ensures res == Done ==> |Content()| == old(|Content()|) + 1
      ensures res == Done ==>
        InOrder(Entries(old(tree))) && !Has(Entries(old(tree)), e.key) && Entries(tree) == Put(Entries(old(tree)), e)
      ensures PinsBack(old(pool.pins), old(pool.peak), pool, 0, 1)
      ensures pool.faults >= old(pool.faults)
      ensures pool.Valid()
    {
      hide Pool.Inv, Pool.Ready, Pool.Cached, Fetched, Loaded, OneForgotten, NodeOf, IndexOk, NewRootIn, OnPages,
        Settled, TreeInsert, Entries, Has, InOrder, Put, FullPath, PagesAdded, LeafSplitting, Splits, Excused;
      ghost var t0, h, f1, n := tree, height, Content(), pool.faults;
      IndexFacts(f0, t0, h);
      SettledShape(f0, f1, t0, h, e, sep, right);
      SettledGrowth(f0, f1, t0, h, e, SplitAt(sep, right));
      var err := InstallRoot(root, sep, right);
      if err != Ok {
        GrowthExcused(err, v, f1, t0, e.key, n);
        HalfNoIndex(f0, f1, Content(), t0, h, e, sep, right);
        return Broken(err);
      }
      IndexAfterRootSplit(f0, f1, Content(), t0, h, e, sep, right);
      tree, height := Grown(TreeInsert(t0, e, |f0|)), h + 1;
      return Done;
    }

    /** Adds a root over two nodes and records it in the meta page. */
    method InstallRoot(root: nat, sep: Key, right: nat) returns (err: Error)
      requires Quiet(pool.view, file) && root <= MAX_U32 && right <= MAX_U32 && |Content()| > 0
      requires pool.Valid()
      modifies pool, pool.replacer, pool.frames
      ensures Quiet(pool.view, file) && OnlyFile(old(pool.view), pool.view, file)
      ensures err == Ok ==> NewRootIn(old(Content()), Content(), root, sep, right)
      ensures err == Ok ==> |Content()| == |old(Content())| + 1
      ensures err != Ok ==> |old(Content())| <= |Content()| && Content()[..|old(Content())|] == old(Content())
      ensures AllocError(pool, err, old(pool.view), file, old(pool.faults))
      ensures PinsBack(old(pool.pins), old(pool.peak), pool, 0, 1)
      ensures pool.faults >= old(pool.faults)
      ensures pool.Valid()
    {
      hide Pool.Inv, Pool.Ready, Pool.Cached, Fetched, Loaded, OneForgotten, NodeOf, Field;
      pool.ClientFacts();
      var pid;
      err, pid := AddRootPage(root, sep, right);
      if err != Ok {
        return;
      }
      ghost var v := pool.view;
      assert Content()[META] == old(Content())[META];
      err := SetRoot(pid);
      OnlyFileTwice(old(pool.view), v, pool.view, file);
      pool.ClientFacts();
    }

    method AddRootPage(root: nat, sep: Key, right: nat) returns (err: Error, pid: nat)
      requires Quiet(pool.view, file) && root <= MAX_U32 && right <= MAX_U32
      requires pool.Valid()
      modifies pool, pool.replacer, pool.frames
      ensures Quiet(pool.view, file) && OnlyFile(old(pool.view), pool.view, file)
      ensures err == Ok ==> pid == |old(Content())| && |Content()| == pid + 1 && Content()[..pid] == old(Content())
      ensures err != Ok ==> Content() == old(Content())
      ensures err == Ok ==> |Content()[pid]| == PAGE_SIZE && NodeOf(Content()[pid]) == BranchNode([sep], [root, right])
      ensures AllocError(pool, err, old(pool.view), file, old(pool.faults))
      ensures PinsBack(old(pool.pins), old(pool.peak), pool, 0, 1)
      ensures pool.faults >= old(pool.faults)
      ensures pool.Valid()
    {
      hide Pool.Inv, Pool.Ready, Pool.Cached, Fetched, Loaded, OneForgotten, NodeOf;
      var f;
      err, f, pid := pool.NewPage(file);
      if err != Ok {
        return;
      }
      FormatRoot(PageKey(file, pid), f, root, sep, right);
      NewPageRelease(old(pool.view), file, f, Page(PageKey(file, pid)));
      var e := pool.Unpin(PageKey(file, pid), true);
    }

    method FormatRoot(k: PageKey, f: nat, root: u32, sep: Key, right: u32)
      requires Pinned(k, f)
      requires pool.Valid()
      modifies pool`view, pool.frames
      ensures Pinned(k, f) && |Page(k)| == PAGE_SIZE && pool.view == old(pool.view).Write(k, Page(k))
      ensures NodeOf(Page(k)) == BranchNode([sep], [root, right])
      ensures pool.Valid()
    {
      hide Pool.Inv, Pool.Cached, Pool.Holds, NodeOf;
      pool.ClientFacts();
      pool.PinFacts(k);
      InitRoot(pool.frames[f], sep, root, right);
      pool.Wrote(k, {});
    }

    /** Records a new root in the meta page. */
    method SetRoot(pid: nat) returns (err: Error)
      requires Quiet(pool.view, file) && |Content()| > 0 && pid <= MAX_U32
      requires pool.Valid()
      modifies pool, pool.replacer, pool.frames
      ensures Quiet(pool.view, file) && OnlyFile(old(pool.view), pool.view, file) && |Content()| == |old(Content())|
      ensures forall p :: 1 <= p < |Content()| ==> Content()[p] == old(Content())[p]
      ensures err == Ok ==> |Content()[META]| == |old(Content())[META]| == PAGE_SIZE
      ensures err != Ok ==> Content() == old(Content())
      ensures err == Ok ==>
        Field(Content()[META], 4, 4) == pid && Field(Content()[META], 0, 4) == Field(old(Content())[META], 0, 4)
      ensures ReadError(pool, err, file, {META}, old(pool.faults))
      ensures PinsBack(old(pool.pins), old(pool.peak), pool, 0, 1)
      ensures pool.faults >= old(pool.faults)
      ensures pool.Valid()
    {
      hide Pool.Inv, Pool.Ready, Pool.Cached, Fetched, Loaded, OneForgotten, Field;
      var k := PageKey(file, META);
      ghost var v := pool.view;
      var f;
      err, f := pool.Fetch(file, META);
      if err != Ok {
        return;
      }
      WriteRoot(k, f, pid);
      assert pool.view == Held(v, k, f, Content(), true);
      ReleaseHeld(v, k, f, Content(), true);
      var e := pool.Unpin(k, true);
    }

    method WriteRoot(k: PageKey, f: nat, pid: u32)
      requires Pinned(k, f)
      requires pool.Valid()
      modifies pool`view, pool.frames
      ensures Pinned(k, f) && |Page(k)| == |old(Page(k))| == PAGE_SIZE && pool.view == old(pool.view).Write(k, Page(k))
      ensures Field(Page(k), 4, 4) == pid && Field(Page(k), 0, 4) == Field(old(Page(k)), 0, 4)
      ensures pool.Valid()
    {
      hide Pool.Inv, Pool.Cached, Pool.Holds, Field;
      pool.ClientFacts();
      pool.PinFacts(k);
      RootWrite(pool.frames[f][..], pid);
      Write(pool.frames[f], 4, 4, pid);
      pool.Wrote(k, {});
    }

    /** With so many levels at most, there are frames and room for n insertions. */
    ghost predicate Ample(v: View, entries: nat, n: nat, levels: nat)
      requires file < |v.files|
    {
      && LevelsSuffice(entries + n, levels)
      && |v.pinned| + levels + 1 <= |pool.frames| && |v.files[file]| + n * (levels + 1) <= MAX_U32
    }

    /** A run stopped at key k in v, which holds an index t of h levels with the map m and accounts for the failure. */
    ghost predicate StoppedAt(v: View, t: Tree, h: nat, m: map<Key, TID>, k: Key, err: Error, n: nat)
      reads pool`faults
    {
      && file < |v.files| && IndexOk(v.files[file], t, h) && InOrder(Entries(t)) && MapOf(Entries(t)) == m
      && Formed(t) && Excused(err, v, t, k, true, n)
    }

    /**
      * Any run of insertions: as long as each is done or rejected as a duplicate the index stays valid and
      * stands for the map of first bindings. It stops at the first failure, which the state v it met, an index t of
      * h levels of what was inserted before, accounts for. It does not fail if there are frames for as many levels
      * as that many entries can fill and room in the file, and no disk call fails.
      */
    method InsertAll(es: seq<Entry>)
      returns (accepted: seq<bool>, last: Result, ghost v: View, ghost t: Tree, ghost h: nat)
      requires Valid()
      modifies this, pool, pool.replacer, pool.frames
      ensures OnlyFile(old(pool.view), pool.view, file) && pool.Valid()
      ensures |accepted| <= |es| && (last == Done || last.Failed? || last.Broken?)
      ensures last == Done <==> |accepted| == |es|
      ensures Answers(old(Contents()), es, accepted)
      ensures !last.Broken? ==> Valid() && Contents() == FirstWins(old(Contents()), es[..|accepted|])
      ensures last.Broken? ==> NoIndex(Content())
      ensures last != Done ==>
        && OnlyFile(old(pool.view), v, file) && (last.Failed? ==> v == pool.view)
        && StoppedAt(v, t, h, FirstWins(old(Contents()), es[..|accepted|]), es[|accepted|].key, last.error,
                     old(pool.faults))
      ensures forall levels: nat :: Ample(old(pool.view), |old(Contents())|, |es|, levels) ==>
        last == Done || pool.Faulty(old(pool.faults))
    {
      hide Pool.Inv, Pool.Ready, Pool.Cached, Fetched, Loaded, OneForgotten, IndexOk, MapOf, Entries, InOrder,
        FirstWins, Answers, Ample, StoppedAt, GrewWithin, Excused, PinsBack, View.Tidy, Covering, FullPath, PagesAdded,
        OutOfReach, Breaks, LeafSplitting;
      accepted, last := [], Done;
      ghost var m, v0 := Contents(), pool.view;
      v, t, h := pool.view, tree, height;
      NoAnswers(m, es);
      NoPages(|Content()|, height);
      while |accepted| < |es|
        invariant Valid() && OnlyFile(old(pool.view), pool.view, file) && |accepted| <= |es| && last == Done
        invariant pool.faults >= old(pool.faults)
        invariant Answers(m, es, accepted) && Contents() == FirstWins(m, es[..|accepted|])
        invariant GrewWithin(|v0.files[file]|, |Content()|, |accepted|, height)
        decreases |es| - |accepted|
      {
        v, t, h := pool.view, tree, height;
        ghost var faults := pool.faults;
        IndexFacts(Content(), t, h);
        assert MapOf(Entries(t)) == FirstWins(m, es[..|accepted|]);
        var e := es[|accepted|];
        last := Insert(e.key, e.tid);
        OnlyFileTwice(v0, v, pool.view, file);
        if last.Failed? || last.Broken? {
          StopsAt(v, t, h, FirstWins(m, es[..|accepted|]), e.key, last.error, faults, old(pool.faults));
          forall levels: nat { NotAmple(v0, v, t, h, m, es, |accepted|, last.error, levels, old(pool.faults)); }
          return;
        }
        PagesSoFar(|v0.files[file]|, |v.files[file]|, |Content()|, |accepted|, h, height);
        OneMoreAnswer(m, es, accepted, last == Done);
        accepted, last := accepted + [last == Done], Done;
      }
    }

    /** By n insertions into trees of at most h levels a file grew from c0 to c pages. */
    ghost predicate GrewWithin(c0: nat, c: nat, n: nat, h: nat) {
      c <= c0 + n * (h + 1)
    }

    lemma NoPages(c: nat, h: nat)
      ensures GrewWithin(c, c, 0, h)
    {
    }

    lemma PagesSoFar(c0: nat, c1: nat, c2: nat, n: nat, h: nat, h': nat)
      requires GrewWithin(c0, c1, n, h) && c2 <= c1 + h + 1 && h <= h'
      ensures GrewWithin(c0, c2, n + 1, h')
    {
      MulMono(n + 1, h + 1, h' + 1);
      assert n * (h + 1) + (h + 1) == (n + 1) * (h + 1);
    }

    /** Where frames and room suffice, only a failing disk call accounts for a failure. */
    lemma NotAmple(v0: View, v: View, t: Tree, h: nat, m: map<Key, TID>, es: seq<Entry>, n: nat, err: Error,
                   levels: nat, faults: nat)
      requires OnlyFile(v0, v, file) && n < |es| && StoppedAt(v, t, h, FirstWins(m, es[..n]), es[n].key, err, faults)
      requires GrewWithin(|v0.files[file]|, |v.files[file]|, n, h)
      ensures Ample(v0, |m|, |es|, levels) ==> pool.Faulty(faults)
    {
      hide Good, IndexOk, MapOf, Entries, InOrder, FirstWins, LevelsSuffice, Pow, Excused, LeafSplitting, Has,
        Covering;
      if Ample(v0, |m|, |es|, levels) {
        MapCount(Entries(t));
        FirstWinsCount(m, es[..n]);
        FewerEntries(|Entries(t)|, |m| + |es|, levels);
        IndexFacts(v.files[file], t, h);
        RoundExcuse(err, v, t, h, MIN_KEY, MAX_KEY + 1, es[n].key, faults);
        HeightBound(t, h, MIN_KEY, MAX_KEY + 1, levels);
        PagesSoFar(|v0.files[file]|, |v.files[file]|, |v.files[file]| + h + 1, n, h, levels);
        MulMono(levels + 1, n + 1, |es|);
      }
    }

    lemma StopsAt(v: View, t: Tree, h: nat, m: map<Key, TID>, k: Key, err: Error, n: nat, n0: nat)
      requires n0 <= n && file < |v.files| && IndexOk(v.files[file], t, h)
      requires InOrder(Entries(t)) && MapOf(Entries(t)) == m
      requires Formed(t) && Excused(err, v, t, k, true, n)
      ensures StoppedAt(v, t, h, m, k, err, n0)
    {
    }

    /** The file is the meta page and one page per node. */
    lemma PagesConserved()
      requires Valid()
      ensures |Content()| == 1 + NodeCount(tree)
    {
      Conservation(tree, |Content()|);
    }
  }

  /** From v to v', page k was rewritten as `left` and the new page `right` holds `other`. */
  ghost predicate SplitInTwo(v: View, v': View, k: PageKey, right: nat, left: Node, other: Node) {
    && v.Has(k) && v'.Has(k) && right == |v.files[k.file]| && v'.Has(PageKey(k.file, right))
    && v'.pinned == v.pinned && v'.unreported == v.unreported + {k} && |v'.files| == |v.files|
    && (var f, f' := v.files[k.file], v'.files[k.file];
        && v'.files == v.files[k.file := f']
        && |f'[k.pid]| == |f'[right]| == PAGE_SIZE && NodeOf(f'[k.pid]) == left && NodeOf(f'[right]) == other
        && f' == f[k.pid := f'[k.pid]] + [f'[right]])
  }

  /** The view after page k was divided with a new page rk, both written and rk released. */
  lemma Divided(v: View, k: PageKey, rk: PageKey, rf: nat, left: Bytes, other: Bytes)
    requires v.Has(k) && rk == PageKey(k.file, |v.files[k.file]|) && rk !in v.pinned && rk !in v.unreported
    requires |left| == |other| == PAGE_SIZE
    ensures var w := v.Grow(k.file).AddPin(rk, rf);
      && w.Has(k) && w.Has(rk)
      && var w' := w.Write(rk, other).Write(k, left);
      rk in w'.pinned && SplitInTwo(v, w'.DropPin(rk, true), k, rk.pid, NodeOf(left), NodeOf(other))
  {
    hide NodeOf;
    var w' := v.Grow(k.file).AddPin(rk, rf).Write(rk, other).Write(k, left).DropPin(rk, true);
    var f := v.files[k.file];
    assert w'.pinned == v.pinned;
    assert w'.unreported == v.unreported + {k};
    assert (f + [ZeroPage()])[rk.pid := other][k.pid := left] == f[k.pid := left] + [other];
    assert w'.files[k.file] == f[k.pid := left] + [other];
    assert w'.files == v.files[k.file := w'.files[k.file]];
  }

  /** File f' is f with one more page, a root over two nodes, to which the meta page now points. */
  ghost predicate NewRootIn(f: File, f': File, root: nat, sep: Key, right: nat) {
    && WellFormed(f) && WellFormed(f') && 0 < |f| && |f'| == |f| + 1 && (forall p :: 1 <= p < |f| ==> f'[p] == f[p])
    && NodeOf(f'[|f|]) == BranchNode([sep], [root, right])
    && Field(f'[META], 0, 4) == Field(f[META], 0, 4) && Field(f'[META], 4, 4) == |f|
  }

  /** What an insertion into a subtree reports: a separator and the page of the new right node, when it split. */
  datatype Split = NoSplit | SplitAt(sep: Key, right: nat)

  datatype Result =
    | Done
    | DuplicateKey
    | Failed(error: Error)  // a page on the way down could not be pinned; nothing was changed
    | Broken(error: Error)  // a node was filled but no page could be had to split it into

  /** No page outside t changed. */
  ghost predicate Untouched(f: File, f': File, t: Tree) {
    |f| <= |f'| && forall p :: 0 <= p < |f| && p !in Pids(t) ==> f'[p] == f[p]
  }

  /** File f' carries the outcome of inserting e into t, and the caller was told how t came out. */
  ghost predicate Settled(f: File, f': File, t: Tree, e: Entry, next: nat, sp: Split) {
    && WellFormed(f) && WellFormed(f') && Formed(t) && Untouched(f, f', t)
    && (var o := TreeInsert(t, e, |f|);
        && Carries(Nodes(f'), o, t, Nodes(f), next)
        && sp == if o.Two? then SplitAt(o.sep, o.right.pid) else NoSplit)
  }

  /** The view while page k is held for changes to file contents f'; `pending` if they are not yet reported. */
  ghost function Held(v: View, k: PageKey, fr: nat, f': File, pending: bool): View
    requires k.file < |v.files|
  {
    v.AddPin(k, fr).(files := v.files[k.file := f'], unreported := if pending then v.unreported + {k} else v.unreported)
  }

  /** Releasing a page held for changes leaves just the changes. */
  lemma ReleaseHeld(v: View, k: PageKey, fr: nat, f': File, pending: bool)
    requires k.file < |v.files| && k !in v.unreported && (k in v.pinned ==> v.pinned[k].frame == fr)
    ensures var h := Held(v, k, fr, f', pending);
      k in h.pinned && h.DropPin(k, pending) == v.(files := v.files[k.file := f'])
  {
    var h := Held(v, k, fr, f', pending);
    assert h.DropPin(k, pending).pinned == v.pinned;
    assert h.DropPin(k, pending).unreported == v.unreported;
  }

  lemma OneMorePin(v: View, k: PageKey, f: nat)
    ensures |v.AddPin(k, f).pinned| <= |v.pinned| + 1
    ensures k !in v.pinned ==> |v.AddPin(k, f).pinned| == |v.pinned| + 1
  {
    assert v.AddPin(k, f).pinned.Keys == v.pinned.Keys + {k};
    assert |v.pinned| == |v.pinned.Keys| && |v.AddPin(k, f).pinned| == |v.AddPin(k, f).pinned.Keys|;
  }

  /** A page of t was filled and could not be split. */
  ghost predicate Jammed(f: File, t: Tree) {
    exists p :: p in Pids(t) && p < |f| && |f[p]| == PAGE_SIZE && TooMany(NodeOf(f[p]))
  }

  lemma JammedHere(f: File, t: Tree)
    requires t.pid < |f| && |f[t.pid]| == PAGE_SIZE && TooMany(NodeOf(f[t.pid]))
    ensures Jammed(f, t)
  {
    assert t.pid in Pids(t);
  }

  lemma JammedBelow(f: File, t: Tree, i: nat)
    requires t.Branch? && i < |t.kids| && Distinct(t) && Jammed(f, t.kids[i])
    ensures Jammed(f, t)
  {
    KidPages(t, i);
  }

  /** No index is in the file. */
  ghost predicate NoIndex(f: File) {
    forall t, h :: !IndexOk(f, t, h)
  }

  /** A file with a page that could not be split is no index. */
  lemma JammedNoIndex(f0: File, t0: Tree, h0: nat, f: File)
    requires IndexOk(f0, t0, h0) && Jammed(f, t0)
    ensures NoIndex(f)
  {
    hide NodeOf, Rep, Good;
    var p :| p in Pids(t0) && p < |f| && |f[p]| == PAGE_SIZE && TooMany(NodeOf(f[p]));
    forall t, h ensures !IndexOk(f, t, h) {
      if IndexOk(f, t, h) {
        NodesFit(t, h, MIN_KEY, MAX_KEY + 1, true, Nodes(f), 0, p);
      }
    }
  }

  /** A file whose root split but whose meta page still points at the left half is no index: the right half is lost. */
  lemma HalfNoIndex(f0: File, f1: File, f: File, t0: Tree, h0: nat, e: Entry, sep: Key, right: nat)
    requires IndexOk(f0, t0, h0) && Settled(f0, f1, t0, e, 0, SplitAt(sep, right))
    requires |f1| <= |f| && f[..|f1|] == f1
    ensures NoIndex(f)
  {
    hide NodeOf, Good, TreeInsert, Pids, RowPids, Distinct, Rep, RepRow, Carries;
    var o := TreeInsert(t0, e, |f0|);
    SettledShape(f0, f1, t0, h0, e, sep, right);
    RightLost(f0, f1, t0, e, o);
    forall t, h ensures !IndexOk(f, t, h) {
      if IndexOk(f, t, h) {
        assert f[META] == f1[META];
        LeftOnly(f1, f, o, t);
      }
    }
  }

  /** The two halves share no page, and the left one is where the root was. */
  lemma RightLost(f0: File, f1: File, t: Tree, e: Entry, o: Outcome)
    requires WellFormed(f0) && WellFormed(f1) && Formed(t) && Distinct(t) && |f0| > 0
    requires forall p :: p in Pids(t) <==> 1 <= p < |f0|
    requires o == TreeInsert(t, e, |f0|) && o.Two? && Carries(Nodes(f1), o, t, Nodes(f0), 0)
    ensures Formed(o.left) && Formed(o.right) && o.left.pid == t.pid
    ensures 1 <= o.right.pid < |f1| && o.right.pid !in Pids(o.left)
    ensures Rep(o.left, Nodes(f1), First(o.right))
  {
    hide TreeInsert, Distinct, Rep, First, NodeOf;
    InsertPages(t, e, |f0|);
    assert Parts(o)[0] == o.left && Parts(o)[1] == o.right;
    RepTwo(o.left, o.right, Nodes(f1), 0);
    assert o.right.pid in Pids(o.right);
  }

  lemma LeftOnly(f1: File, f: File, o: Outcome, t: Tree)
    requires WellFormed(f1) && WellFormed(f) && |f1| <= |f| && f[..|f1|] == f1
    requires o.Two? && Formed(o.left) && Formed(o.right) && Rep(o.left, Nodes(f1), First(o.right))
    requires Formed(t) && Rep(t, Nodes(f), 0) && t.pid == o.left.pid
    ensures Pids(t) == Pids(o.left)
  {
    hide Rep, NodeOf, Pids, First;
    forall p | 0 <= p < |f1| ensures Nodes(f)[p] == Nodes(f1)[p] { assert f[p] == f[..|f1|][p]; }
    RepFrame(o.left, Nodes(f1), Nodes(f), First(o.right));
    SamePages(t, o.left, Nodes(f), 0, First(o.right));
  }

  lemma LeafNotBound(t: Tree, e: Entry, n: nat)
    requires t.Leaf? && InOrder(t.entries) && !TreeInsert(t, e, n).Duplicate? && |t.entries| + 1 >= LEAF_CAP
    ensures LeafSplitting(t, e.key)
  {
  }

  lemma LeafSettles(f: File, f': File, t: Tree, e: Entry, next: nat)
    requires WellFormed(f) && WellFormed(f') && t.Leaf? && t.pid < |f| && !TreeInsert(t, e, |f|).Duplicate?
    requires |t.entries| + 1 < LEAF_CAP && |f'| == |f| && f' == f[t.pid := f'[t.pid]]
    requires NodeOf(f'[t.pid]) == LeafNode(Put(t.entries, e), next)
    ensures Settled(f, f', t, e, next, NoSplit)
  {
    assert Nodes(f') == Nodes(f)[t.pid := LeafNode(Put(t.entries, e), next)];
    LeafAbsorbs(t.pid, t.entries, Put(t.entries, e), Nodes(f), next);
  }

  lemma LeafSplitSettles(f: File, f': File, t: Tree, e: Entry, next: nat)
    requires WellFormed(f) && WellFormed(f') && t.Leaf? && t.pid < |f| && !TreeInsert(t, e, |f|).Duplicate?
    requires |t.entries| + 1 >= LEAF_CAP && |f'| == |f| + 1 && f' == f[t.pid := f'[t.pid]] + [f'[|f|]]
    requires var es := Put(t.entries, e); var m := |es| / 2;
      NodeOf(f'[t.pid]) == LeafNode(es[..m], |f|) && NodeOf(f'[|f|]) == LeafNode(es[m..], next)
    ensures var es := Put(t.entries, e); Settled(f, f', t, e, next, SplitAt(es[|es| / 2].key, |f|))
  {
    hide NodeOf, Nodes, Rep, RepRow, Carries;
    var es := Put(t.entries, e);
    StoreSplits(f, f', t.pid);
    LeafSplits(t.pid, t.entries, es, Nodes(f), Nodes(f'), next);
  }

  lemma StoreSplits(f: File, f': File, pid: nat)
    requires WellFormed(f) && WellFormed(f') && pid < |f| && |f'| == |f| + 1 && f' == f[pid := f'[pid]] + [f'[|f|]]
    ensures |Nodes(f)| == |f| && Nodes(f') == Nodes(f)[pid := NodeOf(f'[pid])] + [NodeOf(f'[|f|])]
  {
    hide NodeOf;
  }

  /** Child i of t split when e was inserted into it; f1 is the file after that. */
  ghost predicate KidSplit(t: Tree, e: Entry, i: nat, f0: File, f1: File, csp: Split, next: nat) {
    && WellFormed(f0) && WellFormed(f1) && t.Branch? && Formed(t) && i == ChildIndex(t.keys, e.key) && csp.SplitAt?
    && Distinct(t) && Untouched(f0, f1, t.kids[i])
    && (var o := TreeInsert(t.kids[i], e, |f0|);
        && KidDone(t, e, i, o, Nodes(f0), Nodes(f1), next)
        && o.Two? && o.next == |f1| && csp == SplitAt(o.sep, o.right.pid))
  }

  lemma KidSplitShape(t: Tree, e: Entry, i: nat, f0: File, f1: File, csp: Split, next: nat)
    requires KidSplit(t, e, i, f0, f1, csp, next)
    ensures t.Branch? && i <= |t.keys| && |t.kids| == |t.keys| + 1 && t.pid < |f0| <= |f1|
    ensures |f1[t.pid]| == PAGE_SIZE && NodeOf(f1[t.pid]) == BranchNode(t.keys, Roots(t.kids))
    ensures csp.right < |f1|
  {
    var o := TreeInsert(t.kids[i], e, |f0|);
    KidDoneFacts(t, e, i, o, Nodes(f0), Nodes(f1), next);
    RepTwo(o.left, o.right, Nodes(f1), RowFirst(t.kids[i + 1..], next));
  }

  lemma KidSettled(t: Tree, h: nat, lo: int, hi: int, root: bool, e: Entry, i: nat, f0: File, f1: File, csp: Split,
                   next: nat)
    requires OnPages(t, h, lo, hi, root, next, f0) && Distinct(t) && t.Branch? && lo <= e.key < hi
    requires i == ChildIndex(t.keys, e.key) && csp.SplitAt? && i < |t.kids| && FormedRow(t.kids[i + 1..])
    requires Settled(f0, f1, t.kids[i], e, RowFirst(t.kids[i + 1..], next), csp)
    ensures KidSplit(t, e, i, f0, f1, csp, next) && KidGrew(t, e.key, i, f0, f1)
    ensures |t.keys| < BRANCH_CAP
    ensures i <= |t.keys| && |t.kids| == |t.keys| + 1 && t.pid < |f0| <= |f1|
    ensures |f1[t.pid]| == PAGE_SIZE && NodeOf(f1[t.pid]) == BranchNode(t.keys, Roots(t.kids))
    ensures csp.right < |f1| <= MAX_U32
  {
    hide NodeOf, TreeInsert, Pids, RowPids, DistinctRow, Entries, KidGrew;
    assert GoodKids(t.keys, t.kids, h - 1, lo, hi);
    KidSplitShape(t, e, i, f0, f1, csp, next);
    KidFull(t, h, lo, hi, root, e, i, f0, f1);
  }

  /** Child i of t, on the way to k, split, and the file grew by a page for every node that did. */
  ghost predicate KidGrew(t: Tree, k: Key, i: nat, f0: File, f1: File) {
    && t.Branch? && Formed(t) && i == ChildIndex(t.keys, k) && LeafSplitting(t, k)
    && FullPath(t.kids[i], k) && |f1| == |f0| + Splits(t.kids[i], k)
  }

  lemma KidFull(t: Tree, h: nat, lo: int, hi: int, root: bool, e: Entry, i: nat, f0: File, f1: File)
    requires Good(t, h, lo, hi, root) && t.Branch? && lo <= e.key < hi && i == ChildIndex(t.keys, e.key)
    requires var o := TreeInsert(t.kids[i], e, |f0|); o.Two? && o.next == |f1|
    ensures KidGrew(t, e.key, i, f0, f1)
  {
    hide TreeInsert;
    assert GoodKids(t.keys, t.kids, h - 1, lo, hi);
    ChildBand(t.keys, e.key);
    InsertSplits(t.kids[i], e, |f0|);
    CoveringDecides(t.kids[i], e, |f0|, h - 1, Low(t.keys, i, lo), High(t.keys, i, hi), false);
    NoSplits(t.kids[i], e.key, h - 1, Low(t.keys, i, lo), High(t.keys, i, hi), false);
  }

  lemma BranchSettles(t: Tree, e: Entry, i: nat, f0: File, f1: File, f2: File, csp: Split, next: nat)
    requires KidSplit(t, e, i, f0, f1, csp, next) && |t.keys| + 1 < BRANCH_CAP && t.pid < |f1|
    requires WellFormed(f2) && |f2| == |f1| && f2 == f1[t.pid := f2[t.pid]] && i <= |t.keys| && |t.kids| == |t.keys| + 1
    requires NodeOf(f2[t.pid]) == BranchNode(InsertAt(t.keys, i, csp.sep), InsertAt(Roots(t.kids), i + 1, csp.right))
    ensures Settled(f0, f2, t, e, next, NoSplit)
  {
    hide NodeOf, TreeInsert, KidDone, Carries;
    KidPages(t, i);
    var o := TreeInsert(t.kids[i], e, |f0|);
    BranchAbsorbs(t, e, i, o, Nodes(f0), Nodes(f1), next);
    InsertBelow(t, e, i, o, |f0|);
    assert Nodes(f2) == Nodes(f1)[t.pid := NodeOf(f2[t.pid])];
  }

  lemma BranchSplitSettles(t: Tree, e: Entry, i: nat, f0: File, f1: File, f2: File, csp: Split, next: nat)
    requires KidSplit(t, e, i, f0, f1, csp, next) && |t.keys| + 1 >= BRANCH_CAP && t.pid < |f1|
    requires WellFormed(f2) && |f2| == |f1| + 1 && f2 == f1[t.pid := f2[t.pid]] + [f2[|f1|]]
    requires i <= |t.keys| && |t.kids| == |t.keys| + 1
    requires var ks, cs := InsertAt(t.keys, i, csp.sep), InsertAt(Roots(t.kids), i + 1, csp.right);
      var m := |ks| / 2;
      NodeOf(f2[t.pid]) == BranchNode(ks[..m], cs[..m + 1]) && NodeOf(f2[|f1|]) == BranchNode(ks[m + 1..], cs[m + 1..])
    ensures var ks := InsertAt(t.keys, i, csp.sep); Settled(f0, f2, t, e, next, SplitAt(ks[|ks| / 2], |f1|))
  {
    hide NodeOf, TreeInsert, KidDone, Carries;
    KidPages(t, i);
    var o := TreeInsert(t.kids[i], e, |f0|);
    assert Nodes(f2) == Nodes(f1)[t.pid := NodeOf(f2[t.pid])] + [NodeOf(f2[|f1|])];
    BranchSplits(t, e, i, o, Nodes(f0), Nodes(f1), Nodes(f2), next);
    InsertBelow(t, e, i, o, |f0|);
  }

  lemma KidOutcome(t: Tree, h: nat, lo: int, hi: int, root: bool, e: Entry, i: nat, f0: File, f1: File, next: nat)
    requires OnPages(t, h, lo, hi, root, next, f0) && Distinct(t) && t.Branch?
    requires i == ChildIndex(t.keys, e.key) && i < |t.kids| && FormedRow(t.kids[i + 1..])
    requires Settled(f0, f1, t.kids[i], e, RowFirst(t.kids[i + 1..], next), NoSplit)
    ensures Settled(f0, f1, t, e, next, NoSplit)
  {
    KidPages(t, i);
    var o := TreeInsert(t.kids[i], e, |f0|);
    BranchKeeps(t, e, i, o, Nodes(f0), Nodes(f1), next);
    InsertBelow(t, e, i, o, |f0|);
  }

  lemma KidDuplicate(t: Tree, e: Entry, i: nat, n: nat)
    requires t.Branch? && Formed(t) && i == ChildIndex(t.keys, e.key) && TreeInsert(t.kids[i], e, n).Duplicate?
    ensures TreeInsert(t, e, n).Duplicate?
  {
  }

  /** The file after an insertion that did not split the root. */
  lemma IndexAfterInsert(f0: File, f1: File, t: Tree, h: nat, e: Entry)
    requires IndexOk(f0, t, h) && Settled(f0, f1, t, e, 0, NoSplit)
    ensures var o := TreeInsert(t, e, |f0|);
      && o.One? && IndexOk(f1, o.tree, h)
      && !Has(Entries(t), e.key) && Entries(o.tree) == Put(Entries(t), e)
  {
    hide Good, TreeInsert, Pids, Distinct, Rep, RepRow, NodeOf, Put, Entries, InOrder, Has;
    InsertAtRoot(t, h, MIN_KEY, MAX_KEY + 1, e, |f0|);
    GrownPages(t, e, |f0|);
    var o := TreeInsert(t, e, |f0|);
    EntriesSorted(o.tree, h, MIN_KEY, MAX_KEY + 1, true);
    RepOne(o.tree, Nodes(f1), 0);
    assert META !in Pids(t);
  }

  /** The file once the two halves of the old root have a new root above them, recorded in the meta page. */
  lemma IndexAfterRootSplit(f0: File, f1: File, f2: File, t: Tree, h: nat, e: Entry, sep: Key, right: nat)
    requires IndexOk(f0, t, h) && Settled(f0, f1, t, e, 0, SplitAt(sep, right))
    requires NewRootIn(f1, f2, t.pid, sep, right)
    ensures var o := TreeInsert(t, e, |f0|);
      && o.Two? && IndexOk(f2, Grown(o), h + 1)
      && !Has(Entries(t), e.key) && Entries(Grown(o)) == Put(Entries(t), e)
  {
    hide Good, TreeInsert, Pids, Distinct, NodeOf, RowPids, Rep, RepRow, Put, Entries, InOrder, Has, Field, Roots;
    InsertAtRoot(t, h, MIN_KEY, MAX_KEY + 1, e, |f0|);
    GrownPages(t, e, |f0|);
    var o := TreeInsert(t, e, |f0|);
    SettledShape(f0, f1, t, h, e, sep, right);
    EntriesSorted(Grown(o), h + 1, MIN_KEY, MAX_KEY + 1, true);
    SplitRootOnPages(f0, f1, f2, t, e, o);
  }

  lemma SplitRootOnPages(f0: File, f1: File, f2: File, t: Tree, e: Entry, o: Outcome)
    requires WellFormed(f1) && WellFormed(f2) && |f2| == |f1| + 1 && forall p :: 1 <= p < |f1| ==> f2[p] == f1[p]
    requires Formed(t) && Distinct(t) && |f0| > 0 && (forall p :: p in Pids(t) <==> 1 <= p < |f0|)
    requires o == TreeInsert(t, e, |f0|) && o.Two? && o.next == |f1|
    requires FormedRow(Parts(o)) && RepRow(Parts(o), Nodes(f1), 0)
    requires NodeOf(f2[|f1|]) == BranchNode([o.sep], [t.pid, o.right.pid])
    ensures Formed(Grown(o)) && Rep(Grown(o), Nodes(f2), 0)
  {
    hide TreeInsert, Distinct, Pids, NodeOf, RowPids, RepRow;
    InsertPages(t, e, |f0|);
    RepRowFrame(Parts(o), Nodes(f1), Nodes(f2), 0);
    assert Roots(Parts(o)) == [t.pid, o.right.pid];
  }

  lemma IndexFacts(f: File, t: Tree, h: nat)
    requires IndexOk(f, t, h)
    ensures OnPages(t, h, MIN_KEY, MAX_KEY + 1, true, 0, f) && Distinct(t) && InOrder(Entries(t)) && Formed(t)
    ensures |f| > 0 && |f[META]| == PAGE_SIZE && Field(f[META], 4, 4) == t.pid
  {
  }

  lemma DuplicateBound(f: File, t: Tree, h: nat, e: Entry)
    requires IndexOk(f, t, h) && Formed(t) && InOrder(Entries(t)) && TreeInsert(t, e, |f|).Duplicate?
    ensures e.key in MapOf(Entries(t))
  {
    hide TreeInsert, MapOf, Entries, InOrder, Good, Rep;
    InsertAtRoot(t, h, MIN_KEY, MAX_KEY + 1, e, |f|);
    var i :| 0 <= i < |Entries(t)| && Entries(t)[i].key == e.key;
    assert Entries(t)[i] in Entries(t);
  }

  lemma BoundBefore(es: seq<Entry>, k: Key)
    requires InOrder(es) && !Has(es, k)
    ensures k !in MapOf(es)
  {
  }

  lemma RootWrite(b: Bytes, pid: u32)
    requires |b| == PAGE_SIZE
    ensures var b' := Splice(b, 4, Encode(pid, 4)); Field(b', 4, 4) == pid && Field(b', 0, 4) == Field(b, 0, 4)
  {
    Widths();
    DecodeEncode(pid, 4);
    SpliceInside(b, 4, Encode(pid, 4));
    SpliceOutside(b, 4, Encode(pid, 4), 0, 4);
  }

  lemma SettledGrowth(f0: File, f1: File, t: Tree, h: nat, e: Entry, sp: Split)
    requires IndexOk(f0, t, h) && Settled(f0, f1, t, e, 0, sp)
    ensures Formed(t) && |f1| == |f0| + Splits(t, e.key) && (sp.SplitAt? <==> FullPath(t, e.key))
    ensures PagesAdded(t, e.key, true) == Splits(t, e.key) + if FullPath(t, e.key) then 1 else 0
    ensures FullPath(t, e.key) ==> LeafSplitting(t, e.key)
  {
    hide TreeInsert, Good, Rep, Pids, NodeOf, InOrder, Distinct, RepRow, Has, Covering, FullPath, Splits;
    InsertSplits(t, e, |f0|);
    CoveringDecides(t, e, |f0|, h, MIN_KEY, MAX_KEY + 1, true);
    NoSplits(t, e.key, h, MIN_KEY, MAX_KEY + 1, true);
  }

  /** Whether a key is bound shows at the leaf that covers it. */
  lemma LeafDecides(f: File, t: Tree, h: nat, k: Key)
    requires IndexOk(f, t, h)
    ensures Formed(t) && InOrder(Entries(t)) && h >= 1
    ensures k in MapOf(Entries(t)) <==> Has(Covering(t, k).entries, k)
    ensures LeafSplitting(t, k) <==> |Covering(t, k).entries| == LEAF_CAP - 1 && k !in MapOf(Entries(t))
    ensures PagesAdded(t, k, true) <= h + 1
  {
    hide TreeInsert, MapOf, Rep, Pids, NodeOf, Distinct, RepRow, InOrder, Good, Entries, Has, Path, Splits, FullPath,
      Covering;
    var e := Entry(k, TID(0, 0));
    InsertAtRoot(t, h, MIN_KEY, MAX_KEY + 1, e, |f|);
    CoveringDecides(t, e, |f|, h, MIN_KEY, MAX_KEY + 1, true);
    NoSplits(t, k, h, MIN_KEY, MAX_KEY + 1, true);
    FewPages(t, h, MIN_KEY, MAX_KEY + 1, k);
    AtLeastOne(t, h, MIN_KEY, MAX_KEY + 1);
    HasBinding(Entries(t), k);
  }

  lemma HasBinding(es: seq<Entry>, k: Key)
    requires InOrder(es)
    ensures k in MapOf(es) <==> Has(es, k)
  {
    hide MapOf;
    if Has(es, k) {
      var i :| 0 <= i < |es| && es[i].key == k;
      assert es[i] in es;
    }
  }

  lemma SettledShape(f0: File, f1: File, t: Tree, h: nat, e: Entry, sep: Key, right: nat)
    requires IndexOk(f0, t, h) && Settled(f0, f1, t, e, 0, SplitAt(sep, right))
    ensures WellFormed(f1) && 0 < |f0| <= |f1| <= |f0| + h && f1[META] == f0[META]
    ensures t.pid < |f1| <= MAX_U32 && right < |f1|
  {
    hide TreeInsert, Good, Rep, Pids, NodeOf, InOrder, Distinct, RepRow;
    var o := TreeInsert(t, e, |f0|);
    InsertGrowth(t, e, |f0|, h, MIN_KEY, MAX_KEY + 1, true);
    RootNode(t, h, MIN_KEY, MAX_KEY + 1, true, 0, f0);
    RightPid(o, Nodes(f1));
    assert META !in Pids(t);
  }

  lemma RightPid(o: Outcome, s: Store)
    requires o.Two? && FormedRow(Parts(o)) && RepRow(Parts(o), s, 0)
    ensures o.right.pid < |s|
  {
    assert Parts(o)[1] == o.right;
  }

  lemma {:induction false} PathPids(t: Tree, k: Key)
    requires Formed(t)
    ensures Path(t, k) <= Pids(t) && Visited(t, k) <= AllPages(t)
    decreases t
  {
    if t.Branch? {
      var i := ChildIndex(t.keys, k);
      PathPids(t.kids[i], k);
      assert Pids(t.kids[i]) <= RowPids(t.kids);
    }
  }

  lemma LeafOnPage(t: Tree, pre: seq<Tree>, leaf: Tree, post: seq<Tree>, n: nat)
    requires Leaves(t) == pre + [leaf] + post && n <= |post|
    ensures ([leaf] + post)[n].pid in AllPages(t)
  {
    hide Leaves, Pids;
    LeafPages(t);
    assert ([leaf] + post)[n] == Leaves(t)[|pre| + n];
  }

  lemma OneLeaf(t: Tree)
    requires t.Leaf?
    ensures Leaves(t) == [t]
  {
  }

  /** The leaves on either side after a descent by one level. */
  lemma Descended(t: Tree, h: nat, lo: int, hi: int, root: bool, next: nat, f: File, k: Key, pre: seq<Tree>,
                  post: seq<Tree>, all: seq<Tree>)
    returns (pre': seq<Tree>, post': seq<Tree>)
    requires OnPages(t, h, lo, hi, root, next, f) && t.Branch? && lo <= k < hi
    requires all == pre + Leaves(t) + post && AllBelow(Flat(pre), k) && AllAbove(Flat(post), k)
    ensures all == pre' + Leaves(t.kids[ChildIndex(t.keys, k)]) + post'
    ensures AllBelow(Flat(pre'), k) && AllAbove(Flat(post'), k)
  {
    hide Rep, GoodKids, Leaves, Flat;
    LeavesAroundChild(t, h, lo, hi, root, k);
    var i := ChildIndex(t.keys, k);
    var a, m, b := RowLeaves(t.kids[..i]), Leaves(t.kids[i]), RowLeaves(t.kids[i + 1..]);
    pre', post' := pre + a, b + post;
    FlatAppend(pre, a);
    FlatAppend(b, post);
    assert pre + (a + m + b) + post == (pre + a) + m + (b + post);
  }

  /** The file holds these leaves, chained, the last one pointing nowhere. */
  ghost predicate ChainFrom(rest: seq<Tree>, f: File) {
    && WellFormed(f) && FormedRow(rest) && RepRow(rest, Nodes(f), 0)
    && forall i :: 0 <= i < |rest| ==> rest[i].Leaf? && rest[i].pid > 0 && InOrder(rest[i].entries)
  }

  /** The first page of a chain of leaves; 0, the meta page's, means there is none. */
  lemma ChainStart(rest: seq<Tree>, f: File)
    requires ChainFrom(rest, f)
    ensures FormedRow(rest) && (RowFirst(rest, 0) == META <==> rest == [])
    ensures rest != [] ==> rest[0].Leaf? && RowFirst(rest, 0) == rest[0].pid
  {
  }

  lemma NoneAccepted(fn: Callback<Entry>)
    ensures Accepted(fn, [], 0)
  {
  }

  lemma NothingLeft(lo: Key, hi: Key)
    ensures UpToKey(Remaining([], false, lo), hi) == [] && UpToKey(Remaining([], true, lo), hi) == []
  {
  }

  /** What a scan has yet to consider. */
  ghost function Remaining(rest: seq<Tree>, first: bool, lo: Key): seq<Entry> {
    if rest == [] || rest[0].Branch? then []
    else
      var es := rest[0].entries;
      es[if first then LowerBound(KeysOf(es), lo) else 0..] + Flat(rest[1..])
  }

  lemma ScanRow(f: File, t: Tree, h: nat, pre: seq<Tree>, leaf: Tree, post: seq<Tree>)
    requires IndexOk(f, t, h) && Leaves(t) == pre + [leaf] + post && leaf.Leaf?
    ensures ChainFrom([leaf] + post, f) && RowFirst([leaf] + post, 0) == leaf.pid
    ensures forall i :: 0 <= i < |post| ==> post[i].Leaf?
  {
    hide Leaves, RepRow, Rep, NodeOf, Pids, Good, InOrder, Flat, Entries;
    LeavesChained(t, Nodes(f), 0);
    var row := [leaf] + post;
    assert pre + row == Leaves(t);
    forall i | 0 <= i < |pre| ensures Formed(pre[i]) { assert pre[i] == Leaves(t)[i]; }
    forall i | 0 <= i < |row| ensures Formed(row[i]) { assert row[i] == Leaves(t)[|pre| + i]; }
    RepAppend(pre, row, Nodes(f), 0);
    LeafPages(t);
    forall i | 0 <= i < |row| ensures row[i].Leaf? && row[i].pid > 0 && InOrder(row[i].entries) {
      assert row[i] == Leaves(t)[|pre| + i];
      LeafInOrder(t, |pre| + i);
    }
    assert row[0] == leaf;
    assert forall i :: 0 <= i < |post| ==> post[i] == row[i + 1];
  }

  lemma LeafInOrder(t: Tree, i: nat)
    requires i < |Leaves(t)| && Leaves(t)[i].Leaf? && InOrder(Entries(t))
    ensures InOrder(Leaves(t)[i].entries)
  {
    hide Leaves, Flat;
    FlatLeaves(t);
    FlatAround(Leaves(t), i);
    MiddleInOrder(Flat(Leaves(t)[..i]), Entries(Leaves(t)[i]), Flat(Leaves(t)[i + 1..]));
  }

  lemma MiddleInOrder(a: seq<Entry>, m: seq<Entry>, b: seq<Entry>)
    requires InOrder(a + m + b)
    ensures InOrder(m)
  {
    assert forall i :: 0 <= i < |m| ==> (a + m + b)[|a| + i] == m[i];
  }

  lemma ChainHead(rest: seq<Tree>, f: File)
    requires ChainFrom(rest, f) && rest != []
    ensures rest[0].Leaf? && rest[0].pid < |f| && |f[rest[0].pid]| == PAGE_SIZE && InOrder(rest[0].entries)
    ensures ChainFrom(rest[1..], f) && NodeOf(f[rest[0].pid]) == LeafNode(rest[0].entries, RowFirst(rest[1..], 0))
  {
    var a, b := [rest[0]], rest[1..];
    assert rest == a + b && FormedRow(a) && FormedRow(b);
    RepAppend(a, b, Nodes(f), 0);
    RepOne(rest[0], Nodes(f), RowFirst(b, 0));
    assert Nodes(f)[rest[0].pid] == NodeOf(f[rest[0].pid]);
  }

  /** The target seen from the part of one leaf: more follows only if the part is used up. */
  lemma Extends(before: seq<Entry>, part: seq<Entry>, tail: seq<Entry>, hi: Key, full: seq<Entry>, target: seq<Entry>)
    requires target == before + UpToKey(part + tail, hi) && full == before + UpToKey(part, hi)
    ensures if UpToKey(part, hi) == part then target == full + UpToKey(tail, hi) else target == full
    ensures |full| <= |target| && full == target[..|full|]
  {
    UpToKeyAppend(part, tail, hi);
    if UpToKey(part, hi) == part {
      Assoc(before, part, UpToKey(tail, hi));
    }
  }

  lemma NothingRead(t: Tree, h: nat, lo: Key, hi: Key)
    requires Good(t, h, MIN_KEY, MAX_KEY + 1, true)
    ensures |Leaves(t)| > 0 && Range(Flat(Leaves(t)[..0]), lo, hi) == []
  {
    SomeLeaf(t, h, MIN_KEY, MAX_KEY + 1, true);
  }

  lemma {:induction false} SomeLeaf(t: Tree, h: nat, lo: int, hi: int, root: bool)
    requires Good(t, h, lo, hi, root)
    ensures |Leaves(t)| > 0
    decreases h
  {
    if t.Branch? { SomeLeaf(t.kids[0], h - 1, Low(t.keys, 0, lo), High(t.keys, 0, hi), false); }
  }

  /** The calls of a scan that read n leaves from the first one on are what those leaves have of the range. */
  lemma ReadSoFar(t: Tree, pre: seq<Tree>, leaf: Tree, post: seq<Tree>, lo: Key, hi: Key, n: nat, calls: seq<Entry>)
    requires InOrder(Entries(t)) && Leaves(t) == pre + [leaf] + post && n < 1 + |post|
    requires AllBelow(Flat(pre), lo) && AllAbove(Flat(post), lo) && (forall i :: 0 <= i < |post| ==> post[i].Leaf?)
    requires if n == 0 then calls == []
             else Range(Entries(t), lo, hi) == calls + UpToKey(Remaining(([leaf] + post)[n..], false, lo), hi)
    ensures |pre| + n < |Leaves(t)| && calls == Range(Flat(Leaves(t)[..|pre| + n]), lo, hi)
  {
    hide Flat, Range, UpToKey, InOrder, Remaining, Leaves, AllAbove;
    if n == 0 {
      assert Leaves(t)[..|pre|] == pre;
      RangeBelow(Flat(pre), lo, hi);
    } else {
      var done, rest := Leaves(t)[..|pre| + n], post[n - 1..];
      CutAfter(pre, leaf, post, n);
      FlatLeaves(t);
      FlatAppend(done, rest);
      FlatAppend(post[..n - 1], rest);
      RangeAppend(Flat(done), Flat(rest), lo, hi);
      TailOfRange(Flat(done), Flat(post[..n - 1]), Flat(rest), lo, hi);
      assert Remaining(rest, false, lo) == Flat(rest) by { FlatRest(rest, lo); }
      SameTail(Range(Flat(done), lo, hi), calls, Range(Flat(rest), lo, hi));
    }
  }

  lemma CutAfter(pre: seq<Tree>, leaf: Tree, post: seq<Tree>, n: nat)
    requires 1 <= n <= |post|
    ensures var all := pre + [leaf] + post;
      && all == all[..|pre| + n] + post[n - 1..] && post == post[..n - 1] + post[n - 1..]
      && ([leaf] + post)[n..] == post[n - 1..]
  {
    var all := pre + [leaf] + post;
    assert all[|pre| + n..] == post[n - 1..];
    assert ([leaf] + post)[n..] == post[n - 1..];
  }

  lemma FlatRest(rest: seq<Tree>, lo: Key)
    requires rest != [] && rest[0].Leaf?
    ensures Remaining(rest, false, lo) == Flat(rest)
  {
  }

  lemma TailOfRange(done: seq<Entry>, a: seq<Entry>, rest: seq<Entry>, lo: Key, hi: Key)
    requires InOrder(done + rest) && AllAbove(a + rest, lo)
    ensures Range(rest, lo, hi) == UpToKey(rest, hi)
  {
    assert forall i :: 0 <= i < |rest| ==> rest[i] == (done + rest)[|done| + i] && rest[i] == (a + rest)[|a| + i];
    RangeIsPrefix(rest, lo, hi);
  }

  lemma SameTail(a: seq<Entry>, b: seq<Entry>, c: seq<Entry>)
    requires a + c == b + c
    ensures a == b
  {
    assert |a| == |b|;
    assert (a + c)[..|a|] == a && (b + c)[..|b|] == b;
  }

  lemma RemainingTail(tail: seq<Tree>, f: File, lo: Key)
    requires ChainFrom(tail, f)
    ensures Remaining(tail, false, lo) == Flat(tail)
  {
  }

  /** The magic number on the page. */
  lemma MagicBytes(b: Bytes)
    requires |b| == PAGE_SIZE
    ensures Field(b, 0, 4) == MAGIC <==> b[..4] == [0x6E, 0x62, 0x74, 0x72]
  {
    EncodeDecode(b[0..4]);
    assert b[0..4] == b[..4];
    MagicEncoded();
    Widths();
    DecodeEncode(MAGIC, 4);
  }

  lemma MagicEncoded()
    ensures Encode(MAGIC, 4) == [0x6E, 0x62, 0x74, 0x72]
  {
    assert Encode(0x6E, 1) == [0x6E];
    assert Encode(0x6E62, 2) == [0x6E, 0x62];
    assert Encode(0x6E6274, 3) == [0x6E, 0x62, 0x74];
  }

  lemma MagicWrite(b: Bytes)
    requires |b| == PAGE_SIZE
    ensures Field(Splice(b, 0, Encode(MAGIC, 4)), 0, 4) == MAGIC
  {
    Widths();
    DecodeEncode(MAGIC, 4);
    SpliceInside(b, 0, Encode(MAGIC, 4));
  }

  lemma EmptyIndex(f: File)
    requires WellFormed(f) && |f| == 2 && NodeOf(f[1]) == LeafNode([], 0)
    requires Field(f[META], 0, 4) == MAGIC && Field(f[META], 4, 4) == 1
    ensures IndexOk(f, Leaf(1, []), 1) && MapOf(Entries(Leaf(1, []))) == map[]
  {
    assert Nodes(f)[1] == NodeOf(f[1]);
  }

  lemma LaidOut(v: View, mk: PageKey, mf: nat, rk: PageKey, rf: nat, bm: Bytes, br: Bytes)
    requires mk.file == rk.file < |v.files| && v.files[mk.file] == [] && mk.pid == 0 && rk.pid == 1
    requires mk !in v.pinned && rk !in v.pinned && mk !in v.unreported && rk !in v.unreported
    ensures var w := v.Grow(mk.file).AddPin(mk, mf).Grow(mk.file).AddPin(rk, rf);
      && w.Has(rk) && w.Write(rk, br).Has(mk)
      && (var w1 := w.Write(rk, br).Write(mk, bm);
          && rk in w1.pinned && mk in w1.DropPin(rk, true).pinned
          && w1.DropPin(rk, true).DropPin(mk, true) == v.(files := v.files[mk.file := [bm, br]]))
  {
    var w1 := v.Grow(mk.file).AddPin(mk, mf).Grow(mk.file).AddPin(rk, rf).Write(rk, br).Write(mk, bm);
    var w2 := w1.DropPin(rk, true).DropPin(mk, true);
    assert w2.pinned == v.pinned && w2.unreported == v.unreported;
    assert w2.files[mk.file] == [bm, br];
    assert w2.files == v.files[mk.file := [bm, br]];
  }

  lemma FoundInMap(all: seq<Entry>, es: seq<Entry>, k: Key, found: bool, tid: TID)
    requires InOrder(all) && forall e: Entry :: e.key == k ==> (e in all <==> e in es)
    requires (found <==> Has(es, k)) && (found ==> Entry(k, tid) in es)
    ensures (found <==> k in MapOf(all)) && (found ==> tid == MapOf(all)[k])
  {
    hide MapOf;
    if found {
      assert Entry(k, tid) in all;
    }
  }

  /** A map after a list of insertions, each rejected if its key is already bound. */
  function FirstWins(m: map<Key, TID>, es: seq<Entry>): map<Key, TID> {
    if es == [] then m
    else
      var n := |es| - 1;
      var m' := FirstWins(m, es[..n]);
      if es[n].key in m' then m' else m'[es[n].key := es[n].tid]
  }

  /** An insertion was accepted exactly when its key was not bound by an earlier one. */
  ghost predicate Answers(m: map<Key, TID>, es: seq<Entry>, accepted: seq<bool>) {
    |accepted| <= |es| && forall i :: 0 <= i < |accepted| ==> (accepted[i] <==> es[i].key !in FirstWins(m, es[..i]))
  }

  lemma {:induction false} FirstWinsCount(m: map<Key, TID>, es: seq<Entry>)
    ensures |FirstWins(m, es)| <= |m| + |es|
  {
    if es != [] { FirstWinsCount(m, es[..|es| - 1]); }
  }

  lemma FewerEntries(few: nat, many: nat, levels: nat)
    requires few <= many && LevelsSuffice(many, levels)
    ensures LevelsSuffice(few, levels)
  {
  }

  lemma NoAnswers(m: map<Key, TID>, es: seq<Entry>)
    ensures Answers(m, es, []) && FirstWins(m, es[..0]) == m
  {
  }

  lemma OneMoreAnswer(m: map<Key, TID>, es: seq<Entry>, accepted: seq<bool>, a: bool)
    requires |accepted| < |es| && Answers(m, es, accepted)
    requires (a <==> es[|accepted|].key !in FirstWins(m, es[..|accepted|]))
    ensures Answers(m, es, accepted + [a])
    ensures var n := |accepted|; var m' := FirstWins(m, es[..n]);
      FirstWins(m, es[..n + 1]) == if a then m'[es[n].key := es[n].tid] else m'
  {
    var n := |accepted|;
    assert es[..n + 1][..n] == es[..n] && es[..n + 1][n] == es[n];
    forall i | 0 <= i <= n ensures (accepted + [a])[i] <==> es[i].key !in FirstWins(m, es[..i]) {
      hide FirstWins;
      if i < n { assert (accepted + [a])[i] == accepted[i]; }
    }
  }
}
