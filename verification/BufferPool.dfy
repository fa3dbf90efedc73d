/**
  * The page cache shared by every file of the engine. Clients see only its `View`: a plain
  * page store with pins. Frames, eviction, the LRU order and the disk do not show in it.
  */
module BufferPool {
  import opened Pages
  import opened LruReplacer
  import opened Counting

  datatype PageKey = PageKey(file: nat, pid: nat)

  datatype FrameMeta = FrameMeta(key: PageKey, pinCount: nat, dirty: bool)

  datatype Error = Ok | NoFreeFrame | DiskError | NotResident | NotPinned

  type Positive = n: int | n > 0 witness 1

  /** A pinned page: the frame it is bound to and how many pins are outstanding. */
  datatype Pin = Pin(frame: nat, count: Positive)

  /**
    * What a client may rely on: the contents of every page of every file, the outstanding
    * pins, and the pages written to since their writer last reported them dirty.
    */
  datatype View = View(files: seq<File>, pinned: map<PageKey, Pin>, unreported: set<PageKey>) {

    ghost predicate Has(k: PageKey) {
      k.file < |files| && k.pid < |files[k.file]|
    }

    ghost function Pins(k: PageKey): nat {
      if k in pinned then pinned[k].count else 0
    }

    /** The store after one more pin on k, in frame f. */
    ghost function AddPin(k: PageKey, f: nat): View {
      this.(pinned := pinned[k := Pin(f, Pins(k) + 1)])
    }

    /** The store after a pin on k is released. */
    ghost function DropPin(k: PageKey, dirty: bool): View
      requires k in pinned
    {
      var p := pinned[k];
      this.(pinned := if p.count == 1 then pinned - {k} else pinned[k := Pin(p.frame, p.count - 1)],
            unreported := if dirty then unreported - {k} else unreported)
    }

    /** The store after the holder of a pin on k overwrote its bytes. */
    ghost function Write(k: PageKey, b: Bytes): View
      requires Has(k)
    {
      this.(files := files[k.file := files[k.file][k.pid := b]], unreported := unreported + {k})
    }

    /** The pages whose last holder released them without reporting its write. */
    ghost function Exposed(): set<PageKey> {
      unreported - pinned.Keys
    }

    /** Every unreported write still has a holder of its page. */
    ghost predicate Tidy() {
      unreported <= pinned.Keys
    }

    /** The store after page k left memory: a write that nobody reported is gone, and b, what the disk has, is back. */
    ghost function Forget(k: PageKey, b: Bytes): View
      requires Has(k)
    {
      if k in unreported
      then this.(files := files[k.file := files[k.file][k.pid := b]], unreported := unreported - {k})
      else this
    }

    /** The store after file `i` grew by one zero page. */
    ghost function Grow(i: nat): View
      requires i < |files|
    {
      this.(files := files[i := files[i] + [ZeroPage()]])
    }
  }

  /** The pins outstanding, over all pages. */
  ghost function PinSum(pinned: map<PageKey, Pin>): nat {
    if pinned == map[] then 0
    else
      var k :| k in pinned;
      pinned[k].count + PinSum(pinned - {k})
  }

  lemma {:induction false} PinSumOf(pinned: map<PageKey, Pin>, k: PageKey)
    requires k in pinned
    ensures PinSum(pinned) == pinned[k].count + PinSum(pinned - {k})
    decreases |pinned|
  {
    var x :| x in pinned && PinSum(pinned) == pinned[x].count + PinSum(pinned - {x});
    if x != k {
      PinSumOf(pinned - {x}, k);
      PinSumOf(pinned - {k}, x);
      assert pinned - {x} - {k} == pinned - {k} - {x};
    }
  }

  lemma PinSumAdds(v: View, k: PageKey, f: nat)
    ensures PinSum(v.AddPin(k, f).pinned) == PinSum(v.pinned) + 1
  {
    var p := v.AddPin(k, f).pinned;
    PinSumOf(p, k);
    assert p - {k} == v.pinned - {k};
    if k in v.pinned {
      PinSumOf(v.pinned, k);
    } else {
      assert v.pinned - {k} == v.pinned;
    }
  }

  lemma PinSumDrops(v: View, k: PageKey, dirty: bool)
    requires k in v.pinned
    ensures PinSum(v.DropPin(k, dirty).pinned) == PinSum(v.pinned) - 1
  {
    var p := v.DropPin(k, dirty).pinned;
    PinSumOf(v.pinned, k);
    if k in p {
      PinSumOf(p, k);
      assert p - {k} == v.pinned - {k};
    }
  }

  /** v' is v, save that one page with a hidden write may have fallen back to what the disk had of it. */
  ghost predicate OneForgotten(v: View, v': View) {
    v' == v || exists k, b :: k in v.Exposed() && v.Has(k) && v' == v.Forget(k, b)
  }

  // ---- bookkeeping, as a relation between values ----

  ghost predicate Resident(meta: seq<FrameMeta>, table: map<PageKey, nat>, f: nat)
    requires f < |meta|
  {
    meta[f].key in table && table[meta[f].key] == f
  }

  /** No frame outside `bound` holds a page now that it did not hold before. */
  ghost predicate NoneNew(meta: seq<FrameMeta>, table: map<PageKey, nat>,
                          meta': seq<FrameMeta>, table': map<PageKey, nat>, bound: set<nat>) {
    && |meta'| == |meta|
    && forall f: nat :: f < |meta| && f !in bound && Resident(meta', table', f) ==>
         Resident(meta, table, f) && meta'[f].key == meta[f].key
  }

  /** The page table and the frames' keys are inverse to each other. */
  ghost predicate Inverse(meta: seq<FrameMeta>, table: map<PageKey, nat>) {
    forall k :: k in table ==> table[k] < |meta| && meta[table[k]].key == k
  }

  /** The free list names distinct frames that hold no page. */
  ghost predicate FreeOk(meta: seq<FrameMeta>, table: map<PageKey, nat>, free: seq<nat>) {
    && (forall i :: 0 <= i < |free| ==> free[i] < |meta| && !Resident(meta, table, free[i]))
    && (forall i, j :: 0 <= i < j < |free| ==> free[i] != free[j])
  }

  /** The replacer holds exactly the resident frames that nobody pins. */
  ghost predicate IdleOk(meta: seq<FrameMeta>, table: map<PageKey, nat>, idle: set<nat>) {
    forall f: nat :: f in idle <==> f < |meta| && Resident(meta, table, f) && meta[f].pinCount == 0
  }

  /** Every frame is free or resident, save the one being filled (`hole`). */
  ghost predicate Covered(meta: seq<FrameMeta>, table: map<PageKey, nat>, free: seq<nat>, hole: set<nat>) {
    && (forall f :: 0 <= f < |meta| ==> f in free || Resident(meta, table, f) || f in hole)
    && (forall f :: f in hole ==> f < |meta| && f !in free && !Resident(meta, table, f))
  }

  ghost predicate Partition(meta: seq<FrameMeta>, table: map<PageKey, nat>, free: seq<nat>, idle: set<nat>,
                            hole: set<nat>) {
    Inverse(meta, table) && FreeOk(meta, table, free) && IdleOk(meta, table, idle) && Covered(meta, table, free, hole)
  }

  /** The view's pins are the frames' pin counts. */
  ghost predicate PinsOk(pinned: map<PageKey, Pin>, meta: seq<FrameMeta>, table: map<PageKey, nat>)
    requires Inverse(meta, table)
  {
    && (forall k :: k in pinned ==>
          k in table && pinned[k].frame == table[k] && pinned[k].count == meta[table[k]].pinCount)
    && (forall k :: k in table && k !in pinned ==> meta[table[k]].pinCount == 0)
  }

  /** The view's files have the disk's shape, and its contents wherever no frame holds the page. */
  ghost predicate FilesOk(view: seq<File>, disk: seq<File>, table: map<PageKey, nat>) {
    && |view| == |disk|
    && (forall i :: 0 <= i < |disk| ==> WellFormed(disk[i]) && WellFormed(view[i]) && |view[i]| == |disk[i]|)
    && (forall i, p :: 0 <= i < |disk| && 0 <= p < |disk[i]| && PageKey(i, p) !in table ==> view[i][p] == disk[i][p])
    && (forall k :: k in table ==> k.file < |disk| && k.pid < |disk[k.file]|)
  }

  ghost predicate OnDisk(view: View, disk: seq<File>, k: PageKey) {
    view.Has(k) && k.file < |disk| && k.pid < |disk[k.file]| && disk[k.file][k.pid] == view.files[k.file][k.pid]
  }

  /** A resident page is on disk as it stands, unless its frame is dirty or a write to it is not yet reported. */
  ghost predicate CleanOk(view: View, disk: seq<File>, meta: seq<FrameMeta>, table: map<PageKey, nat>)
    requires Inverse(meta, table)
  {
    forall k :: k in table ==> meta[table[k]].dirty || k in view.unreported || OnDisk(view, disk, k)
  }

  lemma InitPartition(meta: seq<FrameMeta>, free: seq<nat>)
    requires |free| == |meta| && forall f :: 0 <= f < |meta| ==> free[f] == f
    ensures Partition(meta, map[], free, {}, {})
  {
    forall f | 0 <= f < |meta| ensures f in free {
      assert free[f] == f;
    }
  }

  lemma HitKeeps(meta: seq<FrameMeta>, table: map<PageKey, nat>, free: seq<nat>, idle: set<nat>,
                 pinned: map<PageKey, Pin>, k: PageKey)
    requires Partition(meta, table, free, idle, {}) && PinsOk(pinned, meta, table) && k in table
    ensures var f := table[k];
      var meta' := meta[f := meta[f].(pinCount := meta[f].pinCount + 1)];
      && Partition(meta', table, free, idle - {f}, {})
      && PinsOk(pinned[k := Pin(f, meta[f].pinCount + 1)], meta', table)
      && (k in pinned ==> pinned[k].frame == f && pinned[k].count == meta[f].pinCount)
      && (k !in pinned ==> meta[f].pinCount == 0)
      && NoneNew(meta, table, meta', table, {})
  {
    var f := table[k];
    var meta' := meta[f := meta[f].(pinCount := meta[f].pinCount + 1)];
    assert forall g :: 0 <= g < |meta| ==> Resident(meta', table, g) == Resident(meta, table, g);
  }

  lemma UnpinKeeps(meta: seq<FrameMeta>, table: map<PageKey, nat>, free: seq<nat>, idle: set<nat>,
                   v: View, k: PageKey, dirty: bool)
    requires Partition(meta, table, free, idle, {}) && PinsOk(v.pinned, meta, table)
    requires k in table && meta[table[k]].pinCount > 0
    ensures k in v.pinned && v.pinned[k].count == meta[table[k]].pinCount
    ensures var f := table[k];
      var c := meta[f].pinCount - 1;
      var meta' := meta[f := meta[f].(pinCount := c, dirty := meta[f].dirty || dirty)];
      && Partition(meta', table, free, if c == 0 then idle + {f} else idle, {})
      && PinsOk(v.DropPin(k, dirty).pinned, meta', table)
      && NoneNew(meta, table, meta', table, {})
  {
    var f := table[k];
    var c := meta[f].pinCount - 1;
    var meta' := meta[f := meta[f].(pinCount := c, dirty := meta[f].dirty || dirty)];
    assert forall g :: 0 <= g < |meta| ==> Resident(meta', table, g) == Resident(meta, table, g);
  }

  lemma TakeFreeKeeps(meta: seq<FrameMeta>, table: map<PageKey, nat>, free: seq<nat>, idle: set<nat>,
                      pinned: map<PageKey, Pin>)
    requires Partition(meta, table, free, idle, {}) && PinsOk(pinned, meta, table) && free != []
    ensures var n := |free| - 1;
      free[n] < |meta| && Partition(meta, table, free[..n], idle, {free[n]})
    ensures |pinned| != |meta|
  {
    hide PinsOk, IdleOk;
    var n := |free| - 1;
    PinnedCount(meta, table, pinned);
    assert !Resident(meta, table, free[n]);
    assert forall g :: g in free ==> g in free[..n] || g == free[n];
  }

  lemma NoneIdle(meta: seq<FrameMeta>, table: map<PageKey, nat>, idle: set<nat>, pinned: map<PageKey, Pin>)
    requires Partition(meta, table, [], idle, {}) && PinsOk(pinned, meta, table)
    ensures idle == {} <==> |pinned| == |meta|
  {
    PinnedCount(meta, table, pinned);
  }

  lemma EvictKeeps(meta: seq<FrameMeta>, table: map<PageKey, nat>, idle: set<nat>, pinned: map<PageKey, Pin>, v: nat)
    requires Partition(meta, table, [], idle, {}) && PinsOk(pinned, meta, table) && v in idle
    ensures v < |meta| && Resident(meta, table, v) && meta[v].key !in pinned && Inverse(meta, table)
    ensures var table' := table - {meta[v].key};
      && Partition(meta, table', [], idle - {v}, {v}) && PinsOk(pinned, meta, table')
      && NoneNew(meta, table, meta, table', {})
  {
  }

  lemma GiveBackKeeps(meta: seq<FrameMeta>, table: map<PageKey, nat>, free: seq<nat>, idle: set<nat>, f: nat)
    requires Partition(meta, table, free, idle, {f})
    ensures Partition(meta, table, free + [f], idle, {})
  {
    assert forall g :: g in free + [f] <==> g in free || g == f;
  }

  lemma BindKeeps(meta: seq<FrameMeta>, table: map<PageKey, nat>, free: seq<nat>, idle: set<nat>, f: nat,
                  pinned: map<PageKey, Pin>, k: PageKey)
    requires Partition(meta, table, free, idle, {f}) && PinsOk(pinned, meta, table) && k !in table
    ensures f < |meta| && !Resident(meta, table, f) && k !in pinned
    ensures var meta' := meta[f := FrameMeta(k, 1, false)];
      && Partition(meta', table[k := f], free, idle, {}) && PinsOk(pinned[k := Pin(f, 1)], meta', table[k := f])
      && NoneNew(meta, table, meta', table[k := f], {f})
  {
    assert f in {f};
    var meta' := meta[f := FrameMeta(k, 1, false)];
    var table' := table[k := f];
    assert forall g :: 0 <= g < |meta| && g != f ==> Resident(meta', table', g) == Resident(meta, table, g);
  }

  // ---- what is in memory, and in which order it leaves ----

  /** The pages in memory, and those of them that nobody pins, the one released last in front. */
  datatype Cache = Cache(resident: set<PageKey>, idle: seq<PageKey>)

  ghost function KeyOf(meta: seq<FrameMeta>, f: nat): PageKey {
    if f < |meta| then meta[f].key else PageKey(0, 0)
  }

  /** The pages in the frames of the eviction list. */
  ghost function IdlePages(order: seq<Element>, meta: seq<FrameMeta>): (ks: seq<PageKey>)
    ensures |ks| == |order| && forall i :: 0 <= i < |order| ==> ks[i] == KeyOf(meta, order[i].frame)
  {
    seq(|order|, i requires 0 <= i < |order| => KeyOf(meta, order[i].frame))
  }

  /** The list without k. */
  ghost function Minus(ks: seq<PageKey>, k: PageKey): (r: seq<PageKey>)
    ensures forall x :: x in r <==> x in ks && x != k
    ensures k !in ks ==> r == ks
  {
    if ks == [] then [] else (if ks[0] == k then [] else [ks[0]]) + Minus(ks[1..], k)
  }

  /** A frame was had: where all are taken, the page released longest ago left memory. */
  ghost function Freed(c: Cache, frames: nat): Cache {
    var n := |c.idle| - 1;
    if |c.resident| < frames || n < 0 then c else Cache(c.resident - {c.idle[n]}, c.idle[..n])
  }

  /** The page released longest ago could not be written back and is now at the other end. */
  ghost function TurnedBack(c: Cache): Cache {
    var n := |c.idle| - 1;
    if n < 0 then c else c.(idle := [c.idle[n]] + c.idle[..n])
  }

  /** What became of the memory when a frame was asked for; `fault` if a disk call failed. */
  ghost predicate Asked(c: Cache, c': Cache, frames: nat, err: Error, fault: bool) {
    match err
    case Ok => c' == Freed(c, frames)
    case DiskError => fault && |c.resident| >= frames && c.idle != [] && c' == TurnedBack(c)
    case _ => c' == c
  }

  /** What became of it when the frame was for page k: with the frame in hand, filling it can still fail. */
  ghost predicate Loaded(c: Cache, c': Cache, frames: nat, k: PageKey, err: Error, fault: bool) {
    match err
    case Ok => var t := Freed(c, frames); c' == Cache(t.resident + {k}, t.idle)
    case DiskError => c' == Freed(c, frames) || Asked(c, c', frames, DiskError, fault)
    case _ => c' == c
  }

  /** What became of it when page k was fetched: if it was there it is no longer idle, else it was loaded. */
  ghost predicate Fetched(c: Cache, c': Cache, frames: nat, k: PageKey, err: Error, fault: bool) {
    if k in c.resident then c' == c.(idle := Minus(c.idle, k)) else Loaded(c, c', frames, k, err, fault)
  }

  lemma NotHad(c: Cache, c': Cache, frames: nat, k: PageKey, err: Error, fault: bool)
    requires Asked(c, c', frames, err, fault) && err != Ok
    ensures Loaded(c, c', frames, k, err, fault)
  {
  }

  lemma NotFilled(c: Cache, c': Cache, frames: nat, k: PageKey, fault: bool)
    requires Asked(c, c', frames, Ok, false)
    ensures Loaded(c, c', frames, k, DiskError, fault)
  {
  }

  lemma FrameFilled(c: Cache, t: Cache, frames: nat, k: PageKey, fault: bool)
    requires Asked(c, t, frames, Ok, fault)
    ensures Loaded(c, Cache(t.resident + {k}, t.idle), frames, k, Ok, fault)
  {
  }

  lemma {:induction false} IdleWithout(order: seq<Element>, meta: seq<FrameMeta>, f: nat, k: PageKey)
    requires forall e :: e in order ==> (KeyOf(meta, e.frame) == k <==> e.frame == f)
    ensures IdlePages(Without(order, f), meta) == Minus(IdlePages(order, meta), k)
  {
    if order != [] {
      hide IdlePages, KeyOf, Without, Minus;
      var e, rest := order[0], order[1..];
      assert order == [e] + rest && e in order;
      IdleWithout(rest, meta, f, k);
      FrontIdle(rest, e, meta);
      FrontIdle(Without(rest, f), e, meta);
      WithoutFront(e, rest, f);
      MinusFront(KeyOf(meta, e.frame), IdlePages(rest, meta), k);
    }
  }

  lemma WithoutFront(e: Element, rest: seq<Element>, f: nat)
    ensures Without([e] + rest, f) == (if e.frame == f then [] else [e]) + Without(rest, f)
  {
    assert ([e] + rest)[1..] == rest;
  }

  lemma MinusFront(x: PageKey, rest: seq<PageKey>, k: PageKey)
    ensures Minus([x] + rest, k) == (if x == k then [] else [x]) + Minus(rest, k)
  {
    assert ([x] + rest)[1..] == rest;
  }

  lemma SameKeys(order: seq<Element>, meta: seq<FrameMeta>, f: nat, m: FrameMeta)
    requires f < |meta| && m.key == meta[f].key
    ensures IdlePages(order, meta[f := m]) == IdlePages(order, meta)
  {
  }

  lemma FrontIdle(order: seq<Element>, e: Element, meta: seq<FrameMeta>)
    ensures IdlePages([e] + order, meta) == [KeyOf(meta, e.frame)] + IdlePages(order, meta)
  {
  }

  lemma BackIdle(order: seq<Element>, meta: seq<FrameMeta>, stamp: nat)
    requires order != []
    ensures var ks, n := IdlePages(order, meta), |order| - 1;
      && ks[n] == KeyOf(meta, Back(order)) && IdlePages(order[..n], meta) == ks[..n]
      && IdlePages(Requeued(order, stamp), meta) == [ks[n]] + ks[..n]
  {
    FrontIdle(order[..|order| - 1], Element(Back(order), stamp), meta);
  }

  lemma BoundElsewhere(order: seq<Element>, meta: seq<FrameMeta>, f: nat, m: FrameMeta)
    requires f < |meta| && forall e :: e in order ==> e.frame != f
    ensures IdlePages(order, meta[f := m]) == IdlePages(order, meta)
  {
    forall i | 0 <= i < |order| ensures KeyOf(meta[f := m], order[i].frame) == KeyOf(meta, order[i].frame) {
      assert order[i] in order;
    }
  }

  lemma CacheEvicted(c: Cache, c': Cache, frames: nat, err: Error, fault: bool, order: seq<Element>,
                     order': seq<Element>, meta: seq<FrameMeta>, stamp: nat)
    requires |c.resident| == frames && c.idle == IdlePages(order, meta) && c'.idle == IdlePages(order', meta)
    requires err == Ok ==>
      order != [] && order' == order[..|order| - 1] && c'.resident == c.resident - {KeyOf(meta, Back(order))}
    requires err != Ok ==> c'.resident == c.resident
    requires err == DiskError ==> fault && order != [] && order' == Requeued(order, stamp)
    requires err != Ok && err != DiskError ==> order' == order
    ensures Asked(c, c', frames, err, fault)
  {
    hide IdlePages, Requeued;
    if err == Ok || err == DiskError { BackIdle(order, meta, stamp); }
  }

  /** The frames in the eviction list hold idle pages, each its own. */
  lemma ListedFrames(order: seq<Element>, ix: map<nat, Element>, meta: seq<FrameMeta>, table: map<PageKey, nat>)
    requires Linked(order, ix) && Inverse(meta, table) && IdleOk(meta, table, ix.Keys)
    ensures forall e :: e in order ==> e.frame < |meta| && Resident(meta, table, e.frame) && meta[e.frame].pinCount == 0
  {
  }

  lemma IdleMembers(order: seq<Element>, ix: map<nat, Element>, meta: seq<FrameMeta>, table: map<PageKey, nat>,
                    pinned: map<PageKey, Pin>)
    requires Linked(order, ix) && Inverse(meta, table) && IdleOk(meta, table, ix.Keys) && PinsOk(pinned, meta, table)
    ensures forall k :: k in IdlePages(order, meta) <==> k in table && k !in pinned
  {
    ListedFrames(order, ix, meta, table);
    forall k ensures k in IdlePages(order, meta) <==> k in table && k !in pinned {
      if k in table && k !in pinned {
        assert ix[table[k]] in order;
        var i :| 0 <= i < |order| && order[i] == ix[table[k]];
        assert IdlePages(order, meta)[i] == k;
      }
    }
  }

  lemma IdleDistinct(order: seq<Element>, ix: map<nat, Element>, meta: seq<FrameMeta>, table: map<PageKey, nat>)
    requires Linked(order, ix) && Ordered(order) && Inverse(meta, table) && IdleOk(meta, table, ix.Keys)
    ensures var ks := IdlePages(order, meta); forall i, j :: 0 <= i < j < |ks| ==> ks[i] != ks[j]
  {
    ListedFrames(order, ix, meta, table);
    forall i, j | 0 <= i < j < |order| ensures IdlePages(order, meta)[i] != IdlePages(order, meta)[j] {
      assert order[i] in order && order[j] in order;
    }
  }

  lemma FreeCount(meta: seq<FrameMeta>, table: map<PageKey, nat>, free: seq<nat>, idle: set<nat>)
    requires Partition(meta, table, free, idle, {})
    ensures |table| <= |meta| && (free == [] <==> |table| == |meta|)
  {
    var busy := Image(table.Keys, table);
    InjectiveCount(table.Keys, table);
    assert |table| == |table.Keys| == |busy|;
    assert busy <= UpTo(|meta|);
    SubsetCount(busy, UpTo(|meta|));
    if free == [] {
      forall f | f in UpTo(|meta|) ensures f in busy {
        assert Resident(meta, table, f);
        assert meta[f].key in table.Keys;
      }
    } else {
      assert free[0] in UpTo(|meta|) && free[0] !in busy;
    }
  }

  class Pool {
    const frames: seq<array<byte>>  // the memory slots, allocated once
    const replacer: Replacer        // idle resident frames, in eviction order
    const reliable: bool            // whether the devices never fail
    var files: seq<File>            // the disk contents, by file id
    var meta: seq<FrameMeta>        // meta[f] describes frames[f]
    var pageTable: map<PageKey, nat>
    var freeList: seq<nat>
    ghost var view: View
    ghost var pins: int             // pins taken and not yet released
    ghost var peak: int             // the most pins there ever were at once
    ghost var faults: nat           // disk calls inside a file's bounds that have failed

    /** Everything but the bytes in the frames. */
    ghost predicate Inv(hole: set<nat>)
      reads this, replacer
    {
      && |frames| == |meta| > 0
      && (forall f :: 0 <= f < |frames| ==> frames[f].Length == PAGE_SIZE)
      && (forall f, g :: 0 <= f < g < |frames| ==> frames[f] != frames[g])
      && replacer.Valid()
      && Partition(meta, pageTable, freeList, replacer.index.Keys, hole)
      && PinsOk(view.pinned, meta, pageTable)
      && FilesOk(view.files, files, pageTable)
      && CleanOk(view, files, meta, pageTable)
      && view.unreported <= pageTable.Keys && pins == PinSum(view.pinned)
    }

    /** A resident frame holds the contents of its page. */
    ghost predicate Holds(f: nat)
      requires f < |frames| && f < |meta|
      reads `meta, `pageTable, `view, frames[f]
    {
      Resident(meta, pageTable, f) ==>
        var k := meta[f].key;
        view.Has(k) && frames[f][..] == view.files[k.file][k.pid]
    }

    ghost predicate Ready(hole: set<nat>)
      reads this, replacer, frames
    {
      Inv(hole) && forall f :: 0 <= f < |frames| ==> Holds(f)
    }

    /** The pool's own invariant, which every operation keeps whatever its callers do. */
    ghost predicate Sound()
      reads this, replacer, frames
    {
      Ready({})
    }

    /** The pool is sound, and whoever wrote to a page reported it or holds the page still. */
    ghost predicate Valid()
      reads this, replacer, frames
    {
      Sound() && view.Tidy()
    }

    /** The pages in memory, as their clients caused them to be there. */
    ghost function Cached(): Cache
      reads `pageTable, `meta, replacer
    {
      Cache(pageTable.Keys, IdlePages(replacer.order, meta))
    }

    /** The idle pages are those in memory that nobody pins, each listed once; memory holds no more than its frames. */
    lemma CacheFacts()
      requires Sound()
      ensures forall k :: k in Cached().idle <==> k in pageTable && k !in view.pinned
      ensures forall i, j :: 0 <= i < j < |Cached().idle| ==> Cached().idle[i] != Cached().idle[j]
      ensures |pageTable| <= |frames|
    {
      hide PinSum, FilesOk, CleanOk, Holds, AddedAt, Dated, FreeOk, Covered, IdleOk, Linked, Ordered, IdlePages, PinsOk;
      FreeCount(meta, pageTable, freeList, replacer.index.Keys);
      IdleMembers(replacer.order, replacer.index, meta, pageTable, view.pinned);
      IdleDistinct(replacer.order, replacer.index, meta, pageTable);
    }

    /** As many pages are pinned as there are frames. */
    ghost predicate AllPinned()
      reads this
    {
      |view.pinned| == |frames|
    }

    /**
      * Every frame is free, or holds a pinned page, or holds an idle one, and is in no second state. The free
      * list and the replacer name exactly the free and the idle frames, each once; a page is in at most one
      * frame; and no resident page lies past the end of its file, where the next one would be allocated.
      */
    lemma ThreeStates(f: nat)
      requires Sound() && f < |frames|
      ensures f in freeList <==> !Resident(meta, pageTable, f)
      ensures f in replacer.index <==> Resident(meta, pageTable, f) && meta[f].pinCount == 0
      ensures (exists k :: k in view.pinned && view.pinned[k].frame == f) <==>
        Resident(meta, pageTable, f) && meta[f].pinCount > 0
      ensures multiset(freeList)[f] <= 1 && (f in replacer.index ==> f !in freeList)
      ensures Resident(meta, pageTable, f) ==>
        var k := meta[f].key;
        && view.Has(k) && k.pid < |files[k.file]| && view.Pins(k) == meta[f].pinCount
        && forall g :: 0 <= g < |frames| && Resident(meta, pageTable, g) && meta[g].key == k ==> g == f
    {
      hide Replacer.Valid, Pool.Holds;
      Once(freeList, f);
      if Resident(meta, pageTable, f) && meta[f].pinCount > 0 {
        assert meta[f].key in view.pinned;
      }
    }

    /** A disk call failed since there were n such failures. */
    ghost predicate Faulty(n: nat)
      reads `faults
    {
      faults > n && !reliable
    }

    /** A pool of `size` free frames with no files. The source panics unless size is positive. */
    constructor (size: nat, reliable: bool)
      requires size > 0
      ensures Valid() && fresh(replacer) && fresh(frames)
      ensures |frames| == size && this.reliable == reliable
      ensures view == View([], map[], {}) && pins == peak == 0 && faults == 0
      ensures Cached() == Cache({}, []) && freeList == seq(size, i => i)
    {
      var fs: seq<array<byte>> := [];
      for i := 0 to size
        invariant |fs| == i
        invariant forall f :: 0 <= f < i ==> fresh(fs[f]) && fs[f].Length == PAGE_SIZE
        invariant forall f, g :: 0 <= f < g < i ==> fs[f] != fs[g]
      {
        var page := new byte[PAGE_SIZE](_ => 0);
        fs := fs + [page];
      }
      frames := fs;
      replacer := new Replacer();
      this.reliable := reliable;
      files, meta, pageTable := [], seq(size, _ => FrameMeta(PageKey(0, 0), 0, false)), map[];
      freeList := seq(size, i => i);
      view, pins, peak, faults := View([], map[], {}), 0, 0, 0;
      new;
      InitPartition(meta, freeList);
    }

    /** Frees a frame: the last of the free list, or the least recently used idle one, written back first if dirty. */
    method AcquireFrame() returns (err: Error, f: nat)
      requires Sound()
      modifies this`files, this`pageTable, this`freeList, this`view, this`faults, replacer
      ensures if err == Ok then f < |frames| && Ready({f}) else Sound()
      ensures err == Ok && old(freeList) != [] ==>
        && f == old(freeList)[|old(freeList)| - 1] && pageTable == old(pageTable) && files == old(files)
        && view == old(view) && replacer.order == old(replacer.order)
      ensures err == Ok && old(freeList) == [] ==> Evicted(f)
      ensures err == NoFreeFrame <==> old(AllPinned())
      ensures err == Ok || err == NoFreeFrame || (err == DiskError && Faulty(old(faults)))
      ensures err != DiskError ==> faults == old(faults)
      ensures err != Ok ==> old(freeList) == [] && Unchanged(err)
      // After a failed write-back the order is as before exactly if there was one candidate; else another is next.
      ensures err == DiskError ==>
        (Frames(replacer.order) == Frames(old(replacer.order)) <==> |old(replacer.order)| == 1)
      ensures err == DiskError && |old(replacer.order)| > 1 ==>
        old(replacer.order) != [] && replacer.order != [] && Back(replacer.order) != Back(old(replacer.order))
      ensures OneForgotten(old(view), view)
      ensures pageTable.Keys <= old(pageTable.Keys) && |files| == |old(files)|
      ensures Asked(old(Cached()), Cached(), |frames|, err, faults > old(faults))
    {
      hide PinSum, FreeOk, IdleOk, Covered, PinsOk, FilesOk, CleanOk, Replacer.Valid, Oldest, Ordered, Linked,
        Requeued, IdlePages, OneForgotten;
      FreeCount(meta, pageTable, freeList, replacer.index.Keys);
      assert |pageTable| == |pageTable.Keys|;
      var n := |freeList|;
      if n > 0 {
        TakeFreeKeeps(meta, pageTable, freeList, replacer.index.Keys, view.pinned);
        f := freeList[n - 1];
        freeList := freeList[..n - 1];
        SameView(view);
        return Ok, f;
      }
      NoneIdle(meta, pageTable, replacer.index.Keys, view.pinned);
      assert replacer.index == map[] <==> replacer.index.Keys == {};
      replacer.Consistent();
      err, f := Evict();
      CacheEvicted(old(Cached()), Cached(), |frames|, err, faults > old(faults), old(replacer.order), replacer.order,
                   meta, |old(replacer.log)| + 1);
      if err == DiskError {
        RequeueReorders(old(replacer.order), old(replacer.index), |old(replacer.log)| + 1);
      }
    }

    /** Frame v was the candidate added longest ago, and its page, as the disk has it, is no longer resident. */
    twostate predicate Evicted(v: nat)
      reads this, replacer
    {
      && old(replacer.order) != [] && v == Back(old(replacer.order))
      && v in old(replacer.index) && Oldest(v, old(replacer.index), old(replacer.log))
      && replacer.order == old(replacer.order)[..|old(replacer.order)| - 1]
      && v < |meta| && meta == old(meta)
      && var k := meta[v].key;
      && k in old(pageTable) && pageTable == old(pageTable) - {k}
      && (!meta[v].dirty ==> files == old(files))
      && old(view).Has(k) && k.file < |files| && k.pid < |files[k.file]|
      && view == old(view).Forget(k, files[k.file][k.pid])
    }

    /**
      * A failed eviction changes nothing but the place of the victim it had to put back: from the least recent
      * end of the candidates to the most recent one.
      */
    twostate predicate Unchanged(err: Error)
      reads this, replacer
    {
      && view == old(view) && pageTable == old(pageTable) && meta == old(meta) && freeList == old(freeList)
      && replacer.index.Keys == old(replacer.index.Keys)
      && (err == NoFreeFrame ==> replacer.order == old(replacer.order))
      && (err == DiskError ==>
            old(replacer.order) != [] && replacer.order == Requeued(old(replacer.order), |old(replacer.log)| + 1))
    }

    method Evict() returns (err: Error, v: nat)
      requires Sound() && freeList == []
      modifies this`files, this`pageTable, this`view, this`faults, replacer
      ensures if err == Ok then v < |frames| && Ready({v}) else Sound()
      ensures err == Ok ==> Evicted(v)
      ensures err == NoFreeFrame <==> old(replacer.index) == map[]
      ensures err == Ok || err == NoFreeFrame || (err == DiskError && Faulty(old(faults)))
      ensures err != DiskError ==> faults == old(faults)
      ensures err != Ok ==> Unchanged(err)
      ensures OneForgotten(old(view), view)
      ensures pageTable.Keys <= old(pageTable.Keys) && |files| == |old(files)|
    {
      hide PinSum, Inverse, Partition, NoneNew, PinsOk, FilesOk, CleanOk, Replacer.Valid, Oldest, View.Forget,
        OneForgotten, Requeued;
      var ok;
      v, ok := replacer.Victim();
      if !ok {
        SameView(view);
        return NoFreeFrame, 0;
      }
      EvictKeeps(meta, pageTable, old(replacer.index.Keys), view.pinned, v);
      ghost var k := meta[v].key;
      assert Holds(v);
      ok := SaveVictim(v);
      if !ok {
        replacer.Unpin(v);
        assert replacer.index.Keys == old(replacer.index.Keys);
        PutBack(old(replacer.order), v, |old(replacer.log)| + 1);
        SameView(view);
        assert Inv({});
        forall f | 0 <= f < |frames| ensures Holds(f) { assert old(Holds(f)); }
        return DiskError, 0;
      }
      ForgotOne(view, k, files[k.file][k.pid]);
      DropPage(v);
      return Ok, v;
    }

    /** Takes the saved victim's page out of the table. */
    method DropPage(v: nat)
      requires v < |frames| == |meta| && Resident(meta, pageTable, v) && freeList == []
      requires (forall f :: 0 <= f < |frames| ==> frames[f].Length == PAGE_SIZE)
      requires (forall f, g :: 0 <= f < g < |frames| ==> frames[f] != frames[g])
      requires replacer.Valid() && view.unreported <= pageTable.Keys && pins == PinSum(view.pinned)
      requires view.Has(meta[v].key) && meta[v].key.file < |files| && meta[v].key.pid < |files[meta[v].key.file]|
      requires var k := meta[v].key; var t := pageTable - {k};
        && Partition(meta, t, freeList, replacer.index.Keys, {v}) && PinsOk(view.pinned, meta, t)
        && NoneNew(meta, pageTable, meta, t, {})
        && var w := view.Forget(k, files[k.file][k.pid]);
        && FilesOk(w.files, files, t) && CleanOk(w, files, meta, t)
      requires forall f :: 0 <= f < |frames| ==> Holds(f)
      modifies this`pageTable, this`view
      ensures Ready({v}) && pageTable == old(pageTable) - {meta[v].key}
      ensures view == old(view).Forget(meta[v].key, files[meta[v].key.file][meta[v].key.pid])
    {
      hide PinSum, FreeOk, IdleOk, Covered, PinsOk, FilesOk, CleanOk, Replacer.Valid;
      var k := meta[v].key;
      view := view.Forget(k, files[k.file][k.pid]);
      pageTable := pageTable - {k};
      assert Inv({v});
      forall f | 0 <= f < |frames| ensures Holds(f) { assert old(Holds(f)); }
    }

    /** Writes the victim back if it is dirty, after which its page can be forgotten. */
    method SaveVictim(v: nat) returns (ok: bool)
      requires v < |frames| && v < |meta| && frames[v].Length == PAGE_SIZE
      requires Inverse(meta, pageTable) && FilesOk(view.files, files, pageTable)
      requires CleanOk(view, files, meta, pageTable)
      requires Resident(meta, pageTable, v) && Holds(v)
      modifies this`files, this`faults
      ensures |files| == |old(files)| && (!meta[v].dirty ==> ok && files == old(files))
      ensures ok ==> faults == old(faults)
      ensures !ok ==> Faulty(old(faults))
      ensures !ok ==> FilesOk(view.files, files, pageTable) && CleanOk(view, files, meta, pageTable)
      ensures ok ==>
        var k := meta[v].key; var t := pageTable - {k};
        && view.Has(k) && k.file < |files| && k.pid < |files[k.file]|
        && var w := view.Forget(k, files[k.file][k.pid]);
        Inverse(meta, t) && FilesOk(w.files, files, t) && CleanOk(w, files, meta, t)
    {
      ok := true;
      if meta[v].dirty {
        ok := WriteFrame(v);
      }
      if ok {
        DropFiles(view, files, meta, pageTable, meta[v].key);
      }
    }

    /** Pins a resident page: one more pin, and no longer an eviction candidate. */
    method PinResident(k: PageKey) returns (f: nat)
      requires Sound() && k in pageTable
      modifies this`meta, this`view, this`pins, this`peak, replacer
      ensures Sound() && f < |frames| && view == old(view).AddPin(k, f) && OnePinMore()
      ensures view.Has(k) && frames[f][..] == view.files[k.file][k.pid]
      ensures k in old(view.pinned) ==> f == old(view.pinned[k].frame)
      ensures Cached() == old(Cached()).(idle := Minus(old(Cached()).idle, k))
    {
      hide PinSum, FreeOk, IdleOk, Covered, PinsOk, FilesOk, CleanOk, Replacer.Valid, Without, IdlePages, Minus,
        Linked, Ordered;
      f := pageTable[k];
      PinnedIdle(k);
      SameKeys(Without(replacer.order, f), meta, f, meta[f].(pinCount := meta[f].pinCount + 1));
      assert Holds(f);
      HitKeeps(meta, pageTable, freeList, replacer.index.Keys, view.pinned, k);
      HitClean(view, files, meta, pageTable, k);
      PinSumAdds(view, k, f);
      meta := meta[f := meta[f].(pinCount := meta[f].pinCount + 1)];
      replacer.Pin(f);
      view := view.AddPin(k, f);
      CountPin();
      assert Inv({});
      forall g | 0 <= g < |frames| ensures Holds(g) { assert old(Holds(g)); }
    }

    lemma PinnedIdle(k: PageKey)
      requires Sound() && k in pageTable
      ensures IdlePages(Without(replacer.order, pageTable[k]), meta) == Minus(IdlePages(replacer.order, meta), k)
    {
      hide PinSum, FreeOk, Covered, PinsOk, FilesOk, CleanOk, Holds, Dated, Ordered, IdlePages, Minus, Without;
      ListedFrames(replacer.order, replacer.index, meta, pageTable);
      IdleWithout(replacer.order, meta, pageTable[k], k);
    }

    /** A frame that holds no page is not in the eviction list. */
    lemma NotListed(f: nat, m: FrameMeta)
      requires Ready({f}) && f < |frames|
      ensures IdlePages(replacer.order, meta[f := m]) == IdlePages(replacer.order, meta)
    {
      hide PinSum, FreeOk, PinsOk, FilesOk, CleanOk, Holds, Dated, Ordered, IdlePages;
      ListedFrames(replacer.order, replacer.index, meta, pageTable);
      assert f in {f};
      BoundElsewhere(replacer.order, meta, f, m);
    }

    /** One more pin is outstanding than before. */
    twostate predicate OnePinMore()
      reads this
    {
      pins == old(pins) + 1 && peak == if pins > old(peak) then pins else old(peak)
    }

    ghost method CountPin()
      modifies this`pins, this`peak
      ensures OnePinMore()
    {
      pins := pins + 1;
      peak := if pins > peak then pins else peak;
    }

    /** Records frame f as holding page k with a single pin. */
    method BindFrame(f: nat, k: PageKey)
      requires Ready({f}) && f < |frames| && k !in pageTable && OnDisk(view, files, k)
      requires frames[f][..] == view.files[k.file][k.pid]
      modifies this`meta, this`pageTable, this`view, this`pins, this`peak
      ensures Sound() && view == old(view).AddPin(k, f) && k !in old(view.pinned) && OnePinMore()
      ensures Cached() == Cache(old(Cached()).resident + {k}, old(Cached()).idle)
    {
      hide PinSum, FreeOk, IdleOk, Covered, PinsOk, FilesOk, CleanOk, Replacer.Valid, Without, IdlePages;
      NotListed(f, FrameMeta(k, 1, false));
      BindKeeps(meta, pageTable, freeList, replacer.index.Keys, f, view.pinned, k);
      BindFiles(view, files, meta, pageTable, f, k);
      PinSumAdds(view, k, f);
      meta := meta[f := FrameMeta(k, 1, false)];
      pageTable := pageTable[k := f];
      view := view.AddPin(k, f);
      CountPin();
      assert Inv({});
      forall g | 0 <= g < |frames| ensures Holds(g) { assert old(Holds(g)); }
    }

    /** Returns an unused frame to the free list. */
    method GiveBack(f: nat)
      requires Ready({f})
      modifies this`freeList
      ensures Sound() && freeList == old(freeList) + [f]
    {
      GiveBackKeeps(meta, pageTable, freeList, replacer.index.Keys, f);
      freeList := freeList + [f];
    }

    /** Pins page `pid` of `file`, loading it into a frame if it is not resident. */
    method Fetch(file: nat, pid: nat) returns (err: Error, f: nat)
      requires Sound() && file < |view.files|
      modifies this, replacer, frames
      ensures Sound() && (old(view).Tidy() ==> Valid())
      ensures err == Ok ==>
        var k := PageKey(file, pid);
        && f < |frames| && OneForgotten(old(view).AddPin(k, f), view)
        && (old(view).Tidy() ==> view == old(view).AddPin(k, f))
        && view.Has(k) && frames[f][..] == view.files[file][pid]
        && (k in old(view.pinned) ==> f == old(view.pinned[k].frame))
        && OnePinMore()
      ensures err != Ok ==> OneForgotten(old(view), view) && (old(view).Tidy() ==> view == old(view))
      ensures err != Ok ==> pins == old(pins) && peak == old(peak)
      ensures err == NoFreeFrame <==> PageKey(file, pid) !in old(view.pinned) && old(AllPinned())
      ensures err == Ok || err == NoFreeFrame ||
        (err == DiskError && (Faulty(old(faults)) || !old(view).Has(PageKey(file, pid))))
      ensures faults >= old(faults) && (err != DiskError ==> faults == old(faults))
      // A page in memory is no longer idle; for any other a frame is taken.
      ensures Fetched(old(Cached()), Cached(), |frames|, PageKey(file, pid), err, faults > old(faults))
      ensures PageKey(file, pid) in old(Cached()).resident ==> err == Ok
    {
      hide Inv, PinsOk, CleanOk, FilesOk, Partition, OneForgotten, Loaded, IdlePages, Minus;
      SameShape();
      PinnedOnly();
      var k := PageKey(file, pid);
      if k in pageTable {
        f := PinResident(k);
        SameView(view);
        return Ok, f;
      }
      err, f := Load(k);
    }

    /** Brings a page that is not in memory into a frame, with one pin. */
    method Load(k: PageKey) returns (err: Error, f: nat)
      requires Sound() && k.file < |view.files| && k !in pageTable
      modifies this, replacer, frames
      ensures Sound() && (old(view).Tidy() ==> Valid())
      ensures err == Ok ==>
        && f < |frames| && OneForgotten(old(view).AddPin(k, f), view)
        && (old(view).Tidy() ==> view == old(view).AddPin(k, f))
        && view.Has(k) && frames[f][..] == view.files[k.file][k.pid] && OnePinMore()
      ensures err != Ok ==> OneForgotten(old(view), view) && (old(view).Tidy() ==> view == old(view))
      ensures err != Ok ==> pins == old(pins) && peak == old(peak)
      ensures err == NoFreeFrame <==> old(AllPinned())
      ensures err == Ok || err == NoFreeFrame || (err == DiskError && (Faulty(old(faults)) || !old(view).Has(k)))
      ensures faults >= old(faults) && (err != DiskError ==> faults == old(faults))
      ensures Loaded(old(Cached()), Cached(), |frames|, k, err, faults > old(faults))
    {
      hide Inv, PinsOk, CleanOk, FilesOk, Partition, OneForgotten, Evicted, Unchanged, Asked, Loaded, IdlePages;
      ghost var c := Cached();
      SameShape();
      err, f := AcquireFrame();
      TidyKept(old(view), view);
      if err != Ok {
        NotHad(c, Cached(), |frames|, k, err, faults > old(faults));
        return err, 0;
      }
      var ok := LoadFrame(f, k);
      if !ok {
        NotFilled(c, Cached(), |frames|, k, faults > old(faults));
        GiveBack(f);
        return DiskError, 0;
      }
      FrameFilled(c, Cached(), |frames|, k, false);
      ForgetThenPin(old(view), view, k, f);
      BindFrame(f, k);
    }

    /** Fills the blank frame f from disk. */
    method LoadFrame(f: nat, k: PageKey) returns (ok: bool)
      requires f < |frames| && Ready({f}) && k.file < |files| && k !in pageTable
      modifies frames[f], this`faults
      ensures Ready({f})
      ensures ok ==> OnDisk(view, files, k) && frames[f][..] == view.files[k.file][k.pid]
      ensures !ok ==> Faulty(old(faults)) || !view.Has(k)
      ensures faults >= old(faults) && (ok ==> faults == old(faults))
    {
      hide PinSum, FreeOk, IdleOk, PinsOk, CleanOk, Replacer.Valid;
      ok := ReadPage(files[k.file], k.pid, frames[f], reliable);
      if !ok && k.pid < |files[k.file]| {
        faults := faults + 1;
      }
      assert Inv({f});
      forall g | 0 <= g < |frames| ensures Holds(g) { assert old(Holds(g)); }
    }

    /** Adds a zero page to `file` and pins it. The frame is secured first, so a full pool never grows the file. */
    method NewPage(file: nat) returns (err: Error, f: nat, pid: nat)
      requires Sound() && file < |view.files|
      modifies this, replacer, frames
      ensures Sound() && (old(view).Tidy() ==> Valid())
      ensures err == Ok ==>
        && f < |frames| && pid == |old(view).files[file]| < MAX_U32
        && OneForgotten(old(view).Grow(file).AddPin(PageKey(file, pid), f), view)
        && (old(view).Tidy() ==> view == old(view).Grow(file).AddPin(PageKey(file, pid), f))
        && PageKey(file, pid) !in old(view.pinned)
        && frames[f][..] == ZeroPage()
        && OnePinMore()
      ensures err != Ok ==> OneForgotten(old(view), view) && (old(view).Tidy() ==> view == old(view))
      ensures err != Ok ==> pins == old(pins) && peak == old(peak)
      ensures err == NoFreeFrame <==> old(AllPinned())
      ensures err == Ok || err == NoFreeFrame ||
        (err == DiskError && (Faulty(old(faults)) || |old(view).files[file]| == MAX_U32))
      ensures faults >= old(faults) && (err != DiskError ==> faults == old(faults))
      ensures Loaded(old(Cached()), Cached(), |frames|, PageKey(file, pid), err, faults > old(faults))
      ensures err == Ok ==> PageKey(file, pid) !in old(Cached()).resident
    {
      hide Inv, PinsOk, CleanOk, Partition, FilesOk, OneForgotten, Evicted, Unchanged, Asked, Loaded, IdlePages;
      ghost var v, c := view, Cached();
      SameShape();
      NextAbsent(file);
      err, f := AcquireFrame();
      TidyKept(v, view);
      if err != Ok {
        NotHad(c, Cached(), |frames|, PageKey(file, 0), err, faults > old(faults));
        return err, 0, 0;
      }
      ghost var w, t := view, Cached();
      var ok;
      ok, pid := FillNew(f, file);
      if !ok {
        NotFilled(c, t, |frames|, PageKey(file, 0), faults > old(faults));
        GiveBack(f);
        return DiskError, 0, 0;
      }
      FrameFilled(c, t, |frames|, PageKey(file, pid), false);
      ForgetThenGrow(v, w, file, f);
    }

    /** Allocates a page of `file` on disk and binds the blank frame f to it. */
    method FillNew(f: nat, file: nat) returns (ok: bool, pid: nat)
      requires f < |frames| && Ready({f}) && file < |files| && file < |view.files|
      modifies this, frames[f]
      ensures !ok ==> Ready({f}) && view == old(view) && pins == old(pins) && peak == old(peak)
      ensures !ok ==> Faulty(old(faults)) || |old(view).files[file]| == MAX_U32
      ensures faults >= old(faults) && (ok ==> faults == old(faults))
      ensures ok ==>
        && Sound() && file < |old(view).files| && pid == |old(view).files[file]| < MAX_U32
        && view == old(view).Grow(file).AddPin(PageKey(file, pid), f)
        && PageKey(file, pid) !in old(view.pinned)
        && frames[f][..] == ZeroPage() && OnePinMore()
      ensures Cached() == if ok then Cache(old(Cached()).resident + {PageKey(file, pid)}, old(Cached()).idle)
                          else old(Cached())
    {
      hide Inv, PinsOk, CleanOk, Partition, FilesOk, IdlePages;
      ok, pid := Extend(f, file);
      if ok {
        ClearFrame(f);
        BindFrame(f, PageKey(file, pid));
      }
    }

    /** Pinned pages are resident, and where every frame is pinned no others are. */
    lemma PinnedOnly()
      requires Sound()
      ensures view.pinned.Keys <= pageTable.Keys && (AllPinned() ==> view.pinned.Keys == pageTable.Keys)
    {
      hide PinSum, FilesOk, CleanOk, Replacer.Valid, Holds;
      PinnedCount(meta, pageTable, view.pinned);
    }

    /** The page that a file gets next is not in memory. */
    lemma NextAbsent(file: nat)
      requires Sound() && file < |view.files|
      ensures PageKey(file, |view.files[file]|) !in Cached().resident
    {
      hide PinSum, Partition, PinsOk, CleanOk, Replacer.Valid, Holds;
    }

    lemma SameShape()
      requires Sound()
      ensures FilesOk(view.files, files, pageTable)
      ensures |view.files| == |files|
      ensures view.unreported <= pageTable.Keys && forall k :: k in view.unreported ==> view.Has(k)
      ensures forall i :: 0 <= i < |files| ==> |files[i]| == |view.files[i]| && WellFormed(view.files[i])
    {
    }

    /** Appends a zero page to the disk file. */
    method Extend(f: nat, file: nat) returns (ok: bool, pid: nat)
      requires f < |frames| && Ready({f}) && file < |files|
      modifies this`files, this`view, this`faults
      ensures Ready({f})
      ensures !ok ==> view == old(view) && (Faulty(old(faults)) || |old(view).files[file]| == MAX_U32)
      ensures faults >= old(faults) && (ok ==> faults == old(faults))
      ensures ok ==>
        var k := PageKey(file, pid);
        && view == old(view).Grow(file) && pid == |old(view).files[file]| < MAX_U32
        && OnDisk(view, files, k) && view.files[file][pid] == ZeroPage() && k !in pageTable
    {
      hide PinSum, FreeOk, IdleOk, Covered, PinsOk, Replacer.Valid;
      var file';
      file', pid, ok := AllocatePage(files[file], reliable);
      if ok {
        GrowFiles(view, files, meta, pageTable, file);
        files := files[file := file'];
        view := view.Grow(file);
        assert Inv({f});
        forall g | 0 <= g < |frames| ensures Holds(g) { assert old(Holds(g)); }
      } else if |files[file]| < MAX_U32 {
        faults := faults + 1;
      }
    }

    method ClearFrame(f: nat)
      requires f < |frames| && Ready({f})
      modifies frames[f]
      ensures Ready({f}) && frames[f][..] == ZeroPage()
    {
      hide PinSum, FreeOk, IdleOk, PinsOk, CleanOk, FilesOk, Replacer.Valid;
      forall i | 0 <= i < PAGE_SIZE {
        frames[f][i] := 0;
      }
      assert Inv({f});
      forall g | 0 <= g < |frames| ensures Holds(g) { assert old(Holds(g)); }
    }

    /**
      * Releases one pin. A pool stays valid if pages written to are reported dirty no later than with the
      * release of their last pin. A page whose write is hidden from the pool may lose it: it is exposed.
      */
    method Unpin(k: PageKey, dirty: bool) returns (err: Error)
      requires Sound()
      modifies this`meta, this`view, this`pins, replacer
      ensures Sound()
      ensures err == Ok <==> k in old(view.pinned)
      ensures err == NotResident <==> k !in old(pageTable)
      ensures err == Ok ==> view == old(view).DropPin(k, dirty) && pins == old(pins) - 1
      ensures err != Ok ==> view == old(view) && pins == old(pins) && (err == NotResident || err == NotPinned)
      ensures old(view).Tidy() && (dirty || k !in old(view).unreported || old(view).Pins(k) > 1) ==> Valid()
      ensures err == Ok && !(dirty || k !in old(view).unreported || old(view).Pins(k) > 1) ==> k in view.Exposed()
      // The last holder's release makes the page the last to leave memory; nothing else changes what is idle.
      ensures Cached() == var c := old(Cached());
        if err == Ok && old(view).Pins(k) == 1 then c.(idle := [k] + c.idle) else c
    {
      hide PinSum, FreeOk, IdleOk, Covered, FilesOk, CleanOk, Replacer.Valid, IdlePages;
      if k !in pageTable {
        return NotResident;
      }
      if meta[pageTable[k]].pinCount == 0 {
        return NotPinned;
      }
      DropPin(pageTable[k], k, dirty);
      return Ok;
    }

    method DropPin(f: nat, k: PageKey, dirty: bool)
      requires Sound() && k in pageTable && f == pageTable[k] && meta[f].pinCount > 0
      modifies this`meta, this`view, this`pins, replacer
      ensures Sound() && k in old(view.pinned) && view == old(view).DropPin(k, dirty) && pins == old(pins) - 1
      ensures Cached() == var c := old(Cached()); if old(view).Pins(k) == 1 then c.(idle := [k] + c.idle) else c
    {
      hide PinSum, FreeOk, IdleOk, Covered, PinsOk, FilesOk, CleanOk, Replacer.Valid, IdlePages;
      HeldNotListed(k);
      UnpinKeeps(meta, pageTable, freeList, replacer.index.Keys, view, k, dirty);
      UnpinClean(view, files, meta, pageTable, k, dirty);
      PinSumDrops(view, k, dirty);
      ghost var order := replacer.order;
      SameKeys(order, meta, f, meta[f].(pinCount := meta[f].pinCount - 1, dirty := meta[f].dirty || dirty));
      meta := meta[f := meta[f].(pinCount := meta[f].pinCount - 1, dirty := meta[f].dirty || dirty)];
      if meta[f].pinCount == 0 {
        FrontIdle(order, Element(f, |replacer.log|), meta);
        replacer.Unpin(f);
      }
      view, pins := view.DropPin(k, dirty), pins - 1;
      assert Inv({});
      forall g | 0 <= g < |frames| ensures Holds(g) { assert old(Holds(g)); }
    }

    lemma HeldNotListed(k: PageKey)
      requires Sound() && k in pageTable && meta[pageTable[k]].pinCount > 0
      ensures pageTable[k] !in replacer.index && view.Pins(k) == meta[pageTable[k]].pinCount
    {
    }

    method NumPages(file: nat) returns (n: nat)
      requires Sound() && file < |view.files|
      ensures n == |view.files[file]|
    {
      n := |files[file]|;
    }

    /** Writes a page back if it is dirty. It neither unpins nor evicts. */
    method FlushPage(k: PageKey) returns (err: Error)
      requires Sound()
      modifies this`files, this`meta, this`faults
      ensures Sound() && view == old(view)
      ensures err == NotResident <==> k !in pageTable
      ensures err == Ok ==> k in view.unreported || OnDisk(view, files, k)
      ensures err == Ok || err == NotResident || (err == DiskError && Faulty(old(faults)))
      ensures err != DiskError ==> faults == old(faults)
      ensures Cached() == old(Cached())
    {
      hide IdlePages;
      if k !in pageTable {
        return NotResident;
      }
      var ok := FlushFrame(pageTable[k]);
      return if ok then Ok else DiskError;
    }

    /** Writes a dirty frame back and marks it clean; a clean frame is left alone. */
    method FlushFrame(f: nat) returns (ok: bool)
      requires Sound() && f < |frames| && Resident(meta, pageTable, f)
      modifies this`files, this`meta, this`faults
      ensures Sound() && view == old(view)
      ensures |meta| == |old(meta)|
      ensures ok ==> meta == old(meta)[f := old(meta)[f].(dirty := false)]
      ensures ok ==> meta[f].key in view.unreported || OnDisk(view, files, meta[f].key)
      ensures !ok ==> Faulty(old(faults)) && meta == old(meta)
      ensures ok ==> faults == old(faults)
      ensures Cached() == old(Cached())
    {
      hide PinSum, FreeOk, IdleOk, Covered, PinsOk, FilesOk, Replacer.Valid, IdlePages;
      SameKeys(replacer.order, meta, f, meta[f].(dirty := false));
      if !meta[f].dirty {
        return true;
      }
      assert Holds(f);
      ok := WriteFrame(f);
      if ok {
        FlushKeeps(meta, pageTable, freeList, replacer.index.Keys, view.pinned, f);
        meta := meta[f := meta[f].(dirty := false)];
        assert Inv({});
        forall g | 0 <= g < |frames| ensures Holds(g) { assert old(Holds(g)); }
      }
    }

    /**
      * Writes back every dirty page, in any order, stopping at the first failed write. When it
      * succeeds the disk holds the contents of every page with no unreported write.
      */
    method FlushAll() returns (err: Error)
      requires Sound()
      modifies this`files, this`meta, this`faults
      ensures Sound() && view == old(view)
      ensures if err == Ok then faults == old(faults) else err == DiskError && Faulty(old(faults))
      ensures err == Ok ==> forall k :: view.Has(k) && k !in view.unreported ==> OnDisk(view, files, k)
      ensures Cached() == old(Cached())
    {
      hide PinSum, FreeOk, IdleOk, Covered, PinsOk, FilesOk, CleanOk, Replacer.Valid, OnDisk, IdlePages;
      var todo := pageTable.Keys;
      while todo != {}
        invariant Sound() && view == old(view) && todo <= pageTable.Keys && faults == old(faults)
        invariant Cached() == old(Cached())
        invariant forall k :: k in pageTable && k !in todo ==> !meta[pageTable[k]].dirty
        decreases todo
      {
        var k :| k in todo;
        var ok := FlushFrame(pageTable[k]);
        if !ok {
          return DiskError;
        }
        todo := todo - {k};
      }
      AllClean(view, files, meta, pageTable);
      return Ok;
    }

    /** Every frame holds its page, except those whose bytes a client is changing. */
    ghost predicate HoldsBut(busy: set<nat>)
      requires |frames| == |meta|
      reads this, frames
    {
      forall g :: 0 <= g < |frames| && g !in busy ==> Holds(g)
    }

    /** The bytes of the pinned page k were changed in its frame: the view follows. */
    ghost method Wrote(k: PageKey, busy: set<nat>)
      requires Inv({}) && k in view.pinned && HoldsBut(busy + {view.pinned[k].frame})
      modifies this`view
      ensures Inv({}) && HoldsBut(busy - {view.pinned[k].frame})
      ensures old(view).Has(k) && view == old(view).Write(k, frames[view.pinned[k].frame][..])
      ensures old(view).Tidy() ==> view.Tidy()
    {
      hide PinSum, FreeOk, IdleOk, Covered, Replacer.Valid;
      var f := view.pinned[k].frame;
      WriteFiles(view, files, meta, pageTable, k, frames[f][..]);
      view := view.Write(k, frames[f][..]);
      assert Inv({});
      forall g | 0 <= g < |frames| && g !in busy - {f} ensures Holds(g) {
        if g != f { assert old(Holds(g)); }
      }
    }

    /** What a client holding pins may use of the pool's inside. */
    lemma ClientFacts()
      requires Sound()
      ensures Inv({}) && |frames| == |meta| && HoldsBut({}) && |files| == |view.files|
      ensures forall f :: 0 <= f < |frames| ==> frames[f].Length == PAGE_SIZE
      ensures forall f, g :: 0 <= f < g < |frames| ==> frames[f] != frames[g]
      ensures forall i :: 0 <= i < |view.files| ==> WellFormed(view.files[i])
      ensures |view.pinned| <= |frames| && (view.Tidy() ==> view.unreported <= view.pinned.Keys)
    {
      PinnedCount(meta, pageTable, view.pinned);
    }

    /** There are no more pinned pages than frames. */
    lemma FewPinned()
      requires Sound()
      ensures |view.pinned| <= |frames|
    {
      hide PinSum, FilesOk, CleanOk, Replacer.Valid, Holds;
      PinnedCount(meta, pageTable, view.pinned);
    }

    /** The counter of pins is the sum of the pins on all pages. */
    lemma PinsCounted()
      requires Sound()
      ensures pins == PinSum(view.pinned)
    {
      hide PinSum;
    }

    /** A pinned page is in its frame; distinct pages are in distinct frames. */
    lemma PinFacts(k: PageKey)
      requires Sound() && k in view.pinned
      ensures view.Has(k) && k in pageTable
      ensures view.pinned[k].frame < |frames| && frames[view.pinned[k].frame][..] == view.files[k.file][k.pid]
      ensures forall l :: l in view.pinned && l != k ==> view.pinned[l].frame != view.pinned[k].frame
    {
      assert Holds(pageTable[k]);
    }

    /** Adds a file, known from now on by the returned id. */
    method Register(file: File) returns (id: nat)
      requires Sound() && WellFormed(file)
      modifies this`files, this`view
      ensures Sound() && (old(view).Tidy() ==> Valid()) && id == |old(view).files|
      ensures view == old(view).(files := old(view).files + [file])
    {
      hide PinSum, Partition, PinsOk, Replacer.Valid;
      id := |files|;
      files := files + [file];
      view := view.(files := view.files + [file]);
      assert Inv({});
      forall g | 0 <= g < |frames| ensures Holds(g) { assert old(Holds(g)); }
    }

    /** Writes frame f over its page on disk. */
    method WriteFrame(f: nat) returns (ok: bool)
      requires f < |frames| && f < |meta| && frames[f].Length == PAGE_SIZE
      requires Inverse(meta, pageTable) && FilesOk(view.files, files, pageTable)
      requires CleanOk(view, files, meta, pageTable)
      requires Resident(meta, pageTable, f) && Holds(f) && meta[f].dirty
      modifies this`files, this`faults
      ensures |files| == |old(files)|
      ensures FilesOk(view.files, files, pageTable) && CleanOk(view, files, meta, pageTable)
      ensures ok ==> OnDisk(view, files, meta[f].key)
      ensures if ok then faults == old(faults) else Faulty(old(faults))
    {
      var k := meta[f].key;
      var file';
      file', ok := WritePage(files[k.file], k.pid, frames[f], reliable);
      files := files[k.file := file'];
      if !ok {
        faults := faults + 1;
      }
    }
  }

  /** In a list without repetitions nothing occurs twice. */
  lemma {:induction false} Once(s: seq<nat>, x: nat)
    requires forall i, j :: 0 <= i < j < |s| ==> s[i] != s[j]
    ensures multiset(s)[x] <= 1
  {
    if s != [] {
      var n := |s| - 1;
      Once(s[..n], x);
      assert s == s[..n] + [s[n]];
    }
  }

  lemma HitClean(view: View, disk: seq<File>, meta: seq<FrameMeta>, table: map<PageKey, nat>, k: PageKey)
    requires Inverse(meta, table) && CleanOk(view, disk, meta, table) && k in table
    ensures var f := table[k];
      var meta' := meta[f := meta[f].(pinCount := meta[f].pinCount + 1)];
      Inverse(meta', table) && CleanOk(view.AddPin(k, f), disk, meta', table)
  {
  }

  lemma GrowFiles(view: View, disk: seq<File>, meta: seq<FrameMeta>, table: map<PageKey, nat>, i: nat)
    requires Inverse(meta, table) && FilesOk(view.files, disk, table) && CleanOk(view, disk, meta, table)
    requires i < |disk| && |disk[i]| < MAX_U32
    ensures i < |view.files|
    ensures var disk' := disk[i := disk[i] + [ZeroPage()]];
      && FilesOk(view.Grow(i).files, disk', table) && CleanOk(view.Grow(i), disk', meta, table)
      && OnDisk(view.Grow(i), disk', PageKey(i, |disk[i]|)) && PageKey(i, |disk[i]|) !in table
  {
  }

  lemma UnpinClean(view: View, disk: seq<File>, meta: seq<FrameMeta>, table: map<PageKey, nat>, k: PageKey, dirty: bool)
    requires Inverse(meta, table) && CleanOk(view, disk, meta, table) && k in table && k in view.pinned
    requires meta[table[k]].pinCount > 0
    ensures var f := table[k];
      var meta' := meta[f := meta[f].(pinCount := meta[f].pinCount - 1, dirty := meta[f].dirty || dirty)];
      Inverse(meta', table) && CleanOk(view.DropPin(k, dirty), disk, meta', table)
  {
  }

  lemma FlushKeeps(meta: seq<FrameMeta>, table: map<PageKey, nat>, free: seq<nat>, idle: set<nat>,
                   pinned: map<PageKey, Pin>, f: nat)
    requires Partition(meta, table, free, idle, {}) && PinsOk(pinned, meta, table) && f < |meta|
    ensures var meta' := meta[f := meta[f].(dirty := false)];
      && Partition(meta', table, free, idle, {}) && PinsOk(pinned, meta', table)
      && NoneNew(meta, table, meta', table, {})
  {
    var meta' := meta[f := meta[f].(dirty := false)];
    assert forall g :: 0 <= g < |meta| ==> Resident(meta', table, g) == Resident(meta, table, g);
  }

  lemma WriteFiles(view: View, disk: seq<File>, meta: seq<FrameMeta>, table: map<PageKey, nat>, k: PageKey, b: Bytes)
    requires Inverse(meta, table) && FilesOk(view.files, disk, table) && CleanOk(view, disk, meta, table)
    requires k in table && |b| == PAGE_SIZE
    ensures view.Has(k)
    ensures FilesOk(view.Write(k, b).files, disk, table) && CleanOk(view.Write(k, b), disk, meta, table)
  {
  }

  lemma AllClean(view: View, disk: seq<File>, meta: seq<FrameMeta>, table: map<PageKey, nat>)
    requires Inverse(meta, table) && FilesOk(view.files, disk, table) && CleanOk(view, disk, meta, table)
    requires forall k :: k in table ==> !meta[table[k]].dirty
    ensures forall k :: view.Has(k) && k !in view.unreported ==> OnDisk(view, disk, k)
  {
  }

  /** There are as many pinned pages as frames exactly when every frame is pinned. */
  lemma PinnedCount(meta: seq<FrameMeta>, table: map<PageKey, nat>, pinned: map<PageKey, Pin>)
    requires Inverse(meta, table) && PinsOk(pinned, meta, table)
    ensures |pinned| == |meta| <==> forall f :: 0 <= f < |meta| ==> Resident(meta, table, f) && meta[f].pinCount > 0
    ensures |pinned| <= |meta|
  {
    var busy := Image(pinned.Keys, table);
    InjectiveCount(pinned.Keys, table);
    assert |pinned| == |pinned.Keys| == |busy|;
    SubsetCount(busy, UpTo(|meta|));
    BusyFrames(meta, table, pinned, busy);
  }

  lemma BusyFrames(meta: seq<FrameMeta>, table: map<PageKey, nat>, pinned: map<PageKey, Pin>, busy: set<nat>)
    requires Inverse(meta, table) && PinsOk(pinned, meta, table) && pinned.Keys <= table.Keys
    requires busy == Image(pinned.Keys, table)
    ensures busy == UpTo(|meta|) <==> forall f :: 0 <= f < |meta| ==> Resident(meta, table, f) && meta[f].pinCount > 0
  {
    forall f | 0 <= f < |meta| ensures f in busy <==> Resident(meta, table, f) && meta[f].pinCount > 0 {
      if Resident(meta, table, f) && meta[f].pinCount > 0 {
        assert meta[f].key in pinned;
      }
    }
    assert forall f :: f in busy ==> f < |meta|;
  }

  lemma BindFiles(view: View, disk: seq<File>, meta: seq<FrameMeta>, table: map<PageKey, nat>, f: nat, k: PageKey)
    requires Inverse(meta, table) && FilesOk(view.files, disk, table) && CleanOk(view, disk, meta, table)
    requires f < |meta| && !Resident(meta, table, f) && k !in table && OnDisk(view, disk, k)
    ensures var meta' := meta[f := FrameMeta(k, 1, false)];
      && Inverse(meta', table[k := f]) && FilesOk(view.files, disk, table[k := f])
      && CleanOk(view.AddPin(k, f), disk, meta', table[k := f])
  {
  }

  lemma DropFiles(view: View, disk: seq<File>, meta: seq<FrameMeta>, table: map<PageKey, nat>, k: PageKey)
    requires Inverse(meta, table) && FilesOk(view.files, disk, table) && CleanOk(view, disk, meta, table)
    requires k in table && (meta[table[k]].dirty ==> OnDisk(view, disk, k))
    ensures view.Has(k) && k.file < |disk| && k.pid < |disk[k.file]|
    ensures var w := view.Forget(k, disk[k.file][k.pid]);
      Inverse(meta, table - {k}) && FilesOk(w.files, disk, table - {k}) && CleanOk(w, disk, meta, table - {k})
  {
  }

  /** Forgetting one page and pinning another can be done in either order. */
  lemma ForgetThenPin(v: View, mid: View, k: PageKey, f: nat)
    requires OneForgotten(v, mid) && k !in v.Exposed()
    ensures OneForgotten(v.AddPin(k, f), mid.AddPin(k, f)) && (v.Tidy() ==> mid == v)
  {
    if mid != v {
      var x, b :| x in v.Exposed() && v.Has(x) && mid == v.Forget(x, b);
      assert mid.AddPin(k, f) == v.AddPin(k, f).Forget(x, b) && x in v.AddPin(k, f).Exposed();
    }
  }

  /** So can forgetting a page and pinning a new one. */
  lemma ForgetThenGrow(v: View, w: View, i: nat, f: nat)
    requires OneForgotten(v, w) && i < |v.files| && PageKey(i, |v.files[i]|) !in v.unreported
    ensures i < |w.files| == |v.files| && |w.files[i]| == |v.files[i]| && w.pinned == v.pinned
    ensures var k := PageKey(i, |v.files[i]|); OneForgotten(v.Grow(i).AddPin(k, f), w.Grow(i).AddPin(k, f))
    ensures v.Tidy() ==> w == v
  {
    if w != v {
      var x, b :| x in v.Exposed() && v.Has(x) && w == v.Forget(x, b);
      GrowForgets(v, x, b, i);
      assert x in v.Grow(i).Exposed();
      ForgetThenPin(v.Grow(i), w.Grow(i), PageKey(i, |v.files[i]|), f);
    }
  }

  lemma SameView(v: View)
    ensures OneForgotten(v, v)
  {
  }

  lemma PutBack(order: seq<Element>, v: nat, stamp: nat)
    requires order != [] && v == Back(order)
    ensures Requeued(order, stamp) == [Element(v, stamp)] + order[..|order| - 1]
  {
  }

  /** With no write hidden, no page is forgotten. */
  lemma TidyKept(v: View, v': View)
    requires OneForgotten(v, v')
    ensures v.Tidy() ==> v' == v
    ensures v'.pinned == v.pinned && |v'.files| == |v.files|
    ensures forall i :: 0 <= i < |v.files| ==> |v'.files[i]| == |v.files[i]|
  {
  }

  lemma ForgotOne(v: View, k: PageKey, b: Bytes)
    requires v.Has(k) && k !in v.pinned
    ensures OneForgotten(v, v.Forget(k, b))
  {
  }

  lemma GrowForgets(v: View, x: PageKey, b: Bytes, i: nat)
    requires v.Has(x) && i < |v.files|
    ensures v.Grow(i).Has(x) && v.Forget(x, b).Grow(i) == v.Grow(i).Forget(x, b)
  {
    if x in v.unreported && x.file == i {
      var f := v.files[i];
      assert (f + [ZeroPage()])[x.pid := b] == f[x.pid := b] + [ZeroPage()];
    }
    assert v.Forget(x, b).Grow(i).files == v.Grow(i).Forget(x, b).files;
  }
}
