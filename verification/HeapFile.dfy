/** The heap: tuples appended to the last page of a file, read back by address or in one pass. */
module HeapFile {
  import opened Pages
  import opened Sequences
  import opened Scanning
  import opened BufferPool
  import opened PageClient
  import opened SlottedPage

  /** A stored tuple and its address. */
  datatype Item = Item(tid: TID, data: Bytes)

  ghost predicate HeapOk(f: File) {
    WellFormed(f) && forall p :: 0 <= p < |f| ==> Formatted(f[p])
  }

  ghost function PageItems(p: u32, ts: seq<Bytes>): (items: seq<Item>)
    requires |ts| < 0x1_0000
    ensures |items| == |ts| && forall i :: 0 <= i < |ts| ==> items[i] == Item(TID(p, i), ts[i])
  {
    seq(|ts|, i requires 0 <= i < |ts| => Item(TID(p, i), ts[i]))
  }

  /** Everything a heap file holds, page after page and slot after slot. */
  ghost function Log(f: File): seq<Item>
    requires WellFormed(f)
  {
    if f == [] then [] else Log(f[..|f| - 1]) + PageItems(|f| - 1, Tuples(f[|f| - 1]))
  }

  // ---- the log and the pages ----

  lemma LogGrows(f: File, b: Bytes)
    requires WellFormed(f) && |f| < MAX_U32 && |b| == PAGE_SIZE
    ensures WellFormed(f + [b]) && Log(f + [b]) == Log(f) + PageItems(|f|, Tuples(b))
  {
    var g := f + [b];
    assert g[..|f|] == f && g[|f|] == b;
    LogLast(g);
  }

  lemma LogLast(f: File)
    requires WellFormed(f) && f != []
    ensures var n := |f| - 1;
      WellFormed(f[..n]) && |Tuples(f[n])| < 0x1_0000 && Log(f) == Log(f[..n]) + PageItems(n, Tuples(f[n]))
  {
    hide PageItems;
  }

  /** A tuple added to the last page is added at the end of the log. */
  lemma LogAppends(f: File, b: Bytes, data: Bytes)
    requires WellFormed(f) && f != [] && |b| == PAGE_SIZE && Tuples(b) == Tuples(f[|f| - 1]) + [data]
    ensures WellFormed(f[|f| - 1 := b])
    ensures Log(f[|f| - 1 := b]) == Log(f) + [Item(TID(|f| - 1, |Tuples(f[|f| - 1])|), data)]
  {
    hide Tuples, Log;
    var n := |f| - 1;
    var ts, f' := Tuples(f[n]), f[n := b];
    assert f'[..n] == f[..n];
    LogLast(f);
    LogLast(f');
    assert PageItems(n, ts + [data]) == PageItems(n, ts) + [Item(TID(n, |ts|), data)];
    Assoc(Log(f[..n]), PageItems(n, ts), [Item(TID(n, |ts|), data)]);
  }

  /** An item is in the log exactly when its address leads to its bytes. */
  lemma {:induction false} LogHas(f: File, x: Item)
    requires WellFormed(f)
    ensures x in Log(f) <==>
      && x.tid.page < |f| && x.tid.slot < |Tuples(f[x.tid.page])|
      && x.data == Tuples(f[x.tid.page])[x.tid.slot]
    decreases |f|
  {
    hide Tuples;
    if f != [] {
      var n := |f| - 1;
      LogHas(f[..n], x);
      var last := PageItems(n, Tuples(f[n]));
      if x.tid.page == n && x.tid.slot < |last| { assert last[x.tid.slot].tid == x.tid; }
      assert x in Log(f) <==> x in Log(f[..n]) || x in last;
    }
  }

  ghost predicate Before(a: TID, b: TID) {
    a.page < b.page || (a.page == b.page && a.slot < b.slot)
  }

  /** Addresses increase along the log. */
  lemma {:induction false} LogOrdered(f: File, i: nat, j: nat)
    requires WellFormed(f) && i < j < |Log(f)|
    ensures Before(Log(f)[i].tid, Log(f)[j].tid)
    decreases |f|
  {
    hide Tuples;
    var n := |f| - 1;
    var front := Log(f[..n]);
    if j < |front| {
      LogOrdered(f[..n], i, j);
    } else if i < |front| {
      LogHas(f[..n], front[i]);
    }
  }

  /** One address, one tuple. */
  lemma LogFunctional(f: File, x: Item, y: Item)
    requires WellFormed(f)
    ensures x in Log(f) && y in Log(f) && x.tid == y.tid ==> x == y
  {
    hide Tuples, Log;
    LogHas(f, x);
    LogHas(f, y);
  }

  // ---- where tuples go ----

  /** How far a heap is filled: its pages, and the tuples and the free bytes of the last one. */
  datatype Fill = Fill(pages: nat, slots: nat, free: int)

  ghost function FillOf(f: File): Fill
    requires WellFormed(f)
  {
    if f == [] then Fill(0, 0, 0) else Fill(|f|, |Tuples(f[|f| - 1])|, Free(f[|f| - 1]))
  }

  /** A tuple of so many bytes and its slot fit the last page. */
  predicate Fits(s: Fill, size: nat) {
    s.pages > 0 && size + 4 <= s.free
  }

  /**
    * The fill after a tuple of so many bytes: it takes its bytes and a slot of 4 from the last page if they are free
    * there, else from a new page, which has 8168; a new page is added even if they do not fit it.
    */
  function Filled(s: Fill, size: nat): Fill {
    if Fits(s, size) then Fill(s.pages, s.slots + 1, s.free - size - 4)
    else if size <= 8164 then Fill(s.pages + 1, 1, 8164 - size)
    else Fill(s.pages + 1, 0, 8168)
  }

  lemma FillLast(f: File, b: Bytes)
    requires HeapOk(f) && f != [] && Formatted(b)
    ensures WellFormed(f[|f| - 1 := b]) && FillOf(f[|f| - 1 := b]) == Fill(|f|, |Tuples(b)|, Free(b))
  {
  }

  lemma FillNewPage(f: File, b: Bytes)
    requires WellFormed(f) && |f| < MAX_U32 && |b| == PAGE_SIZE
    ensures WellFormed(f + [b]) && FillOf(f + [b]) == Fill(|f| + 1, |Tuples(b)|, Free(b))
  {
  }

  /** The address of the tuple last added. */
  ghost predicate NewestAt(s: Fill, tid: TID) {
    tid.page == s.pages - 1 && tid.slot == s.slots - 1
  }

  /** From v to v', only file i changed, and only by the items added to its log. */
  ghost predicate Appended(v: View, v': View, i: nat, items: seq<Item>) {
    && OnlyFile(v, v', i) && HeapOk(v.files[i]) && HeapOk(v'.files[i])
    && Log(v'.files[i]) == Log(v.files[i]) + items && |v.files[i]| <= |v'.files[i]| <= |v.files[i]| + 1
  }

  lemma AppendedNothing(v: View, i: nat)
    requires i < |v.files| && HeapOk(v.files[i])
    ensures Appended(v, v, i, [])
  {
    assert v.files[i := v.files[i]] == v.files;
  }

  lemma AppendedLast(v: View, i: nat, b: Bytes, data: Bytes)
    requires i < |v.files| && HeapOk(v.files[i]) && v.files[i] != []
    requires var last := v.files[i][|v.files[i]| - 1]; Formatted(b) && Tuples(b) == Tuples(last) + [data]
    ensures var n := |v.files[i]| - 1; var slot := |Tuples(v.files[i][n])|;
      slot < 0x1_0000
      && Appended(v, v.(files := v.files[i := v.files[i][n := b]]), i, [Item(TID(n, slot), data)])
  {
    hide Tuples, Log;
    LogAppends(v.files[i], b, data);
  }

  lemma FreeBound(b: Bytes)
    requires Formatted(b)
    ensures Free(b) <= 8168
  {
  }

  /** From v to v' the last page of file i took a tuple, in this slot. */
  ghost predicate LastTook(v: View, v': View, i: nat, data: Bytes, slot: nat) {
    && i < |v.files| && HeapOk(v.files[i]) && v.files[i] != []
    && var n := |v.files[i]| - 1;
    && slot == |Tuples(v.files[i][n])| < 0x1_0000 && n < 0x1_0000_0000 && |data| <= 8164
    && Appended(v, v', i, [Item(TID(n, slot), data)])
    && FillOf(v'.files[i]) == Fill(n + 1, slot + 1, Free(v.files[i][n]) - |data| - 4)
  }

  lemma TookLast(v: View, i: nat, b: Bytes, data: Bytes)
    requires i < |v.files| && HeapOk(v.files[i]) && v.files[i] != []
    requires var last := v.files[i][|v.files[i]| - 1];
      && |last| == PAGE_SIZE && |data| + 4 <= Free(last)
      && Formatted(b) && Tuples(b) == Tuples(last) + [data] && Free(b) == Free(last) - |data| - 4
    ensures var n := |v.files[i]| - 1;
      LastTook(v, v.(files := v.files[i := v.files[i][n := b]]), i, data, |Tuples(v.files[i][n])|)
  {
    hide Tuples, Free, Appended;
    AppendedLast(v, i, b, data);
    FillLast(v.files[i], b);
    FreeBound(v.files[i][|v.files[i]| - 1]);
  }

  lemma AppendedNew(v: View, i: nat, b: Bytes)
    requires i < |v.files| && HeapOk(v.files[i]) && |v.files[i]| < MAX_U32
    requires Formatted(b)
    ensures Appended(v, v.(files := v.files[i := v.files[i] + [b]]), i, PageItems(|v.files[i]|, Tuples(b)))
  {
    hide Tuples, Log;
    LogGrows(v.files[i], b);
  }

  datatype InsertResult = Stored(tid: TID) | TooLarge | InsertFailed(error: Error)

  datatype GetResult = Found(data: Bytes) | NoSlot | GetFailed(error: Error)

  /** The rows that were stored, with the addresses they were given. */
  function Kept(rows: seq<Bytes>, results: seq<InsertResult>): seq<Item>
    requires |rows| == |results|
  {
    if rows == [] then []
    else
      var n := |rows| - 1;
      Kept(rows[..n], results[..n]) + if results[n].Stored? then [Item(results[n].tid, rows[n])] else []
  }

  lemma NothingKept()
    ensures Kept([], []) == []
  {
  }

  lemma KeptMore(rows: seq<Bytes>, i: nat, results: seq<InsertResult>, r: InsertResult)
    requires i < |rows| && |results| == i
    ensures Kept(rows[..i + 1], results + [r]) ==
      Kept(rows[..i], results) + if r.Stored? then [Item(r.tid, rows[i])] else []
  {
    assert rows[..i + 1][..i] == rows[..i] && (results + [r])[..i] == results;
  }

  /** The state of a run of insertions: how far the heap is filled, and how many disk calls have failed. */
  datatype Moment = Moment(fill: Fill, faults: nat)

  class Heap {
    const pool: Pool
    const file: nat

    constructor (pool: Pool, file: nat)
      ensures this.pool == pool && this.file == file
    {
      this.pool, this.file := pool, file;
    }

    /** Every page of the file is a slotted page, and no write to it is pending a report. */
    ghost predicate Valid()
      reads pool, pool.replacer, pool.frames
    {
      pool.Valid() && Quiet(pool.view, file) && HeapOk(Content())
    }

    ghost function Content(): File
      requires file < |pool.view.files|
      reads pool
    {
      pool.view.files[file]
    }

    /** The append-only log that the heap stands for. */
    ghost function Contents(): seq<Item>
      requires file < |pool.view.files| && WellFormed(Content())
      reads pool
    {
      Log(Content())
    }

    /** Adds a tuple to the pinned page k if it fits there. */
    method AddTo(k: PageKey, f: nat, data: Bytes) returns (ok: bool, slot: nat)
      requires k in pool.view.pinned && pool.view.pinned[k].frame == f && pool.view.Has(k)
      requires Formatted(pool.view.files[k.file][k.pid])
      requires pool.Valid()
      modifies pool`view, pool.frames
      ensures var b := old(pool.view).files[k.file][k.pid];
        && (ok <==> |data| + 4 <= Free(b))
        && (!ok ==> pool.view == old(pool.view))
        && (ok ==> pool.view.Has(k) && var b' := pool.view.files[k.file][k.pid];
             && pool.view == old(pool.view).Write(k, b') && slot == |Tuples(b)|
             && Formatted(b') && Tuples(b') == Tuples(b) + [data] && Free(b') == Free(b) - |data| - 4)
      ensures pool.Valid()
    {
      hide Pool.Inv, Pool.Cached, Formatted, Tuples, Free, Inserted;
      pool.ClientFacts();
      pool.PinFacts(k);
      ok, slot := InsertTuple(pool.frames[f], data);
      if ok {
        pool.Wrote(k, {});
      } else {
        forall g | 0 <= g < |pool.frames| ensures pool.Holds(g) { assert old(pool.Holds(g)); }
      }
    }

    /** Formats the pinned page k and adds a tuple if it fits an empty page. */
    method FormatAndAdd(k: PageKey, f: nat, data: Bytes) returns (ok: bool, slot: nat)
      requires k in pool.view.pinned && pool.view.pinned[k].frame == f && pool.view.Has(k)
      requires pool.Valid()
      modifies pool`view, pool.frames
      ensures ok <==> |data| <= 8164
      ensures pool.view.Has(k) && var b' := pool.view.files[k.file][k.pid];
        && pool.view == old(pool.view).Write(k, b') && |b'| == PAGE_SIZE
        && Formatted(b') && Tuples(b') == (if ok then [data] else [])
        && Free(b') == (if ok then 8164 - |data| else 8168)
      ensures ok ==> slot == 0
      ensures pool.Valid()
    {
      hide Pool.Inv, Pool.Cached, Formatted, Tuples, Free, Inserted;
      pool.ClientFacts();
      pool.PinFacts(k);
      Init(pool.frames[f]);
      ok, slot := InsertTuple(pool.frames[f], data);
      pool.Wrote(k, {});
    }

    /**
      * Stores a tuple: on the last page if it fits there, else on a new one. A tuple too large for an
      * empty page leaves a formatted empty page behind; the log is unchanged by every failure.
      */
    method Insert(data: Bytes) returns (res: InsertResult)
      requires Valid()
      modifies pool, pool.replacer, pool.frames
      ensures Valid() && OnlyFile(old(pool.view), pool.view, file)
      ensures Contents() == old(Contents()) + if res.Stored? then [Item(res.tid, data)] else []
      ensures res.InsertFailed? ==> pool.view == old(pool.view)
      ensures Explained(res, data, pool.view, old(FillOf(Content())), old(pool.faults), pool.faults)
      // Where it goes: behind the last tuple of the last page if its bytes and a slot are free there, else on a new
      // page.
      ensures var n := |old(Content())|;
        res.Stored? ==>
          if n > 0 && |data| + 4 <= Free(old(Content())[n - 1])
          then res.tid == TID(n - 1, |Tuples(old(Content())[n - 1])|) && |Content()| == n
          else res.tid == TID(n, 0) && |Content()| == n + 1
      ensures res.Stored? ==> |data| <= 8164
      ensures res.TooLarge? ==> |data| > 8164 && |Content()| == |old(Content())| + 1
      ensures FillOf(Content()) ==
        if res.InsertFailed? then old(FillOf(Content())) else Filled(old(FillOf(Content())), |data|)
      ensures res.Stored? ==> NewestAt(FillOf(Content()), res.tid)
      ensures !res.InsertFailed? ==> pool.faults == old(pool.faults)
      ensures |pool.view.pinned| < |pool.frames| && |old(Content())| < MAX_U32 ==>
        pool.Faulty(old(pool.faults)) || (res.Stored? <==> |data| <= 8164)
    {
      hide Pool.Inv, Pool.Ready, Pool.Cached, Fetched, Loaded, OneForgotten, Formatted, Tuples, Log;
      AppendedNothing(pool.view, file);
      var n := pool.NumPages(file);
      if n > 0 {
        var err, ok, slot := TryLast(n - 1, data);
        if err != Ok { return InsertFailed(err); }
        if ok { return Stored(TID(n - 1, slot)); }
      }
      res := OnNewPage(data);
    }

    /**
      * What the result of an insertion into a heap filled like s is owed to; during it the failures of the disk went
      * from n to n'. Frames are wanting only if none is free for the last page or, where the tuple does not fit there,
      * for a new one; the size of the file matters only if a new page is needed.
      */
    ghost predicate Explained(r: InsertResult, data: Bytes, v: View, s: Fill, n: nat, n': nat) {
      match r
      case Stored(_) => |data| <= 8164
      case TooLarge => |data| > 8164
      case InsertFailed(e) =>
        if e == NoFreeFrame then
          |v.pinned| == |pool.frames| && !(Fits(s, |data|) && PageKey(file, s.pages - 1) in v.pinned)
        else e == DiskError && ((n' > n && !pool.reliable) || (!Fits(s, |data|) && s.pages == MAX_U32))
    }

    ghost function Now(): Moment
      requires file < |pool.view.files| && WellFormed(Content())
      reads pool
    {
      Moment(FillOf(Content()), pool.faults)
    }

    /**
      * The insertion number i of a run. A tuple goes next to the one before, or to a new page if it does not fit; a
      * failure leaves the heap filled as it was.
      */
    ghost predicate WentOn(trace: seq<Moment>, rows: seq<Bytes>, results: seq<InsertResult>, v: View, i: nat) {
      && i < |rows| && i < |results| && i + 1 < |trace|
      && var s, s', r, data := trace[i].fill, trace[i + 1].fill, results[i], rows[i];
      && s' == (if r.InsertFailed? then s else Filled(s, |data|))
      && (r.Stored? ==> NewestAt(s', r.tid))
      && (!r.InsertFailed? ==> (s'.pages == s.pages <==> Fits(s, |data|)))
      && Explained(r, data, v, s, trace[i].faults, trace[i + 1].faults)
    }

    /**
      * A run of insertions: what is stored is logged in order, nothing stored is ever lost or moved, and a tuple is
      * not stored only because it is too large, all frames are pinned, the disk fails or the file is full. Tuples are
      * packed: the file grows at exactly those that do not fit its last page.
      */
    method InsertAll(rows: seq<Bytes>) returns (results: seq<InsertResult>, ghost trace: seq<Moment>)
      requires Valid()
      modifies pool, pool.replacer, pool.frames
      ensures Valid() && OnlyFile(old(pool.view), pool.view, file)
      ensures |results| == |rows| && Contents() == old(Contents()) + Kept(rows, results)
      ensures forall x :: x in old(Contents()) ==> x in Contents()
      ensures |trace| == |rows| + 1 && trace[0] == old(Now()) && trace[|rows|] == Now()
      ensures forall i :: 0 <= i < |rows| ==> WentOn(trace, rows, results, pool.view, i)
      ensures |pool.view.pinned| < |pool.frames| && |old(Content())| + |rows| <= MAX_U32 ==>
        forall i :: 0 <= i < |rows| && trace[i].faults == trace[i + 1].faults ==>
          (results[i].Stored? <==> |rows[i]| <= 8164)
    {
      hide Pool.Inv, Pool.Ready, Pool.Cached, Fetched, Loaded, OneForgotten, Formatted, Log, Kept, View.Tidy, WentOn,
        Filled, Tuples, Explained;
      NothingKept();
      results, trace := [], [Now()];
      AppendedNothing(pool.view, file);
      for i := 0 to |rows|
        invariant Valid() && OnlyFile(old(pool.view), pool.view, file)
        invariant |results| == i && Contents() == old(Contents()) + Kept(rows[..i], results)
        invariant |trace| == i + 1 && trace[0] == old(Now()) && trace[i] == Now()
        invariant forall j :: 0 <= j < i ==> WentOn(trace, rows, results, pool.view, j)
      {
        ghost var v := pool.view;
        var r := Insert(rows[i]);
        OnlyFileTwice(old(pool.view), v, pool.view, file);
        KeptMore(rows, i, results, r);
        Assoc(old(Contents()), Kept(rows[..i], results), if r.Stored? then [Item(r.tid, rows[i])] else []);
        OneMore(trace, rows, results, v, pool.view, i, r, Now());
        results, trace := results + [r], trace + [Now()];
      }
      assert rows[..|rows|] == rows;
      AllStored(trace, rows, results, pool.view);
    }

    lemma OneMore(trace: seq<Moment>, rows: seq<Bytes>, results: seq<InsertResult>, v: View, v': View, i: nat,
                  r: InsertResult, m: Moment)
      requires |results| == i < |rows| && |trace| == i + 1 && v'.pinned == v.pinned
      requires forall j :: 0 <= j < i ==> WentOn(trace, rows, results, v, j)
      requires Explained(r, rows[i], v', trace[i].fill, trace[i].faults, m.faults)
      requires m.fill == if r.InsertFailed? then trace[i].fill else Filled(trace[i].fill, |rows[i]|)
      requires r.Stored? ==> NewestAt(m.fill, r.tid)
      ensures forall j :: 0 <= j <= i ==> WentOn(trace + [m], rows, results + [r], v', j)
    {
      forall j | 0 <= j <= i ensures WentOn(trace + [m], rows, results + [r], v', j) {
        if j < i { assert WentOn(trace, rows, results, v, j); }
      }
    }

    lemma {:induction false} PagesGrow(trace: seq<Moment>, rows: seq<Bytes>, results: seq<InsertResult>, v: View,
                                       i: nat)
      requires |results| == |rows| && |trace| == |rows| + 1 && i <= |rows|
      requires forall j :: 0 <= j < |rows| ==> WentOn(trace, rows, results, v, j)
      ensures trace[i].fill.pages <= trace[0].fill.pages + i
      decreases i
    {
      if i > 0 {
        PagesGrow(trace, rows, results, v, i - 1);
        assert WentOn(trace, rows, results, v, i - 1);
      }
    }

    /** With a free frame, room in the file and no failing disk call every tuple is stored that fits an empty page. */
    lemma AllStored(trace: seq<Moment>, rows: seq<Bytes>, results: seq<InsertResult>, v: View)
      requires |results| == |rows| && |trace| == |rows| + 1
      requires forall j :: 0 <= j < |rows| ==> WentOn(trace, rows, results, v, j)
      ensures |v.pinned| < |pool.frames| && trace[0].fill.pages + |rows| <= MAX_U32 ==>
        forall i :: 0 <= i < |rows| && trace[i].faults == trace[i + 1].faults ==>
          (results[i].Stored? <==> |rows[i]| <= 8164)
    {
      forall i | 0 <= i < |rows| && |v.pinned| < |pool.frames| && trace[0].fill.pages + |rows| <= MAX_U32
        ensures trace[i].faults == trace[i + 1].faults ==> (results[i].Stored? <==> |rows[i]| <= 8164)
      {
        PagesGrow(trace, rows, results, v, i);
        assert WentOn(trace, rows, results, v, i);
      }
    }

    /** Tries the last page. */
    method TryLast(pid: nat, data: Bytes) returns (err: Error, ok: bool, slot: nat)
      requires Quiet(pool.view, file) && HeapOk(Content()) && pid + 1 == |Content()|
      requires pool.Valid()
      modifies pool, pool.replacer, pool.frames
      ensures err != Ok || !ok ==> pool.view == old(pool.view)
      ensures ReadError(pool, err, file, {pid}, old(pool.faults))
      ensures err == Ok ==> (ok <==> |data| + 4 <= Free(old(Content())[pid]))
      ensures err == Ok && ok ==> LastTook(old(pool.view), pool.view, file, data, slot)
      ensures pool.Valid()
    {
      hide Pool.Inv, Pool.Ready, Pool.Cached, Fetched, Loaded, OneForgotten, Tuples, Free, LastTook, Formatted, HeapOk,
        Crowded;
      LastFormatted(Content());
      ok, slot := false, 0;
      ghost var v := pool.view;
      var k := PageKey(file, pid);
      var f;
      err, f := pool.Fetch(file, pid);
      if err != Ok {
        if err == NoFreeFrame { CrowdedOut(pool, file, pid); }
        return;
      }
      ok, slot := AddTo(k, f, data);
      if ok {
        ghost var b' := pool.view.files[file][pid];
        WriteRelease(v, k, f, b');
        TookLast(v, file, b', data);
        var e := pool.Unpin(k, true);
      } else {
        PinUnpin(v, k, f);
        var e := pool.Unpin(k, false);
      }
    }

    lemma LastFormatted(f: File)
      requires HeapOk(f) && f != []
      ensures Formatted(f[|f| - 1]) && |f| <= MAX_U32
    {
    }

    /** Grows the file by a formatted page and puts the tuple there. */
    method OnNewPage(data: Bytes) returns (res: InsertResult)
      requires Quiet(pool.view, file) && HeapOk(Content())
      requires pool.Valid()
      modifies pool, pool.replacer, pool.frames
      ensures res.InsertFailed? ==>
        && pool.view == old(pool.view) && res.error != Ok
        && AllocError(pool, res.error, pool.view, file, old(pool.faults))
      ensures !res.InsertFailed? ==> pool.faults == old(pool.faults)
      ensures res.Stored? ==> |data| <= 8164 && Appended(old(pool.view), pool.view, file, [Item(res.tid, data)])
      ensures res.Stored? ==> res.tid.page == |old(Content())| && res.tid.slot == 0
      ensures res.TooLarge? ==> |data| > 8164 && Appended(old(pool.view), pool.view, file, [])
      ensures !res.InsertFailed? ==> WellFormed(Content())
      ensures var n := |old(Content())| + 1;
        !res.InsertFailed? ==>
          FillOf(Content()) == if |data| <= 8164 then Fill(n, 1, 8164 - |data|) else Fill(n, 0, 8168)
      ensures pool.Valid()
    {
      hide Pool.Inv, Pool.Ready, Pool.Cached, Fetched, Loaded, OneForgotten, Tuples, Free, Appended, Formatted;
      ghost var v := pool.view;
      var err, f, pid := pool.NewPage(file);
      if err != Ok { return InsertFailed(err); }
      var k := PageKey(file, pid);
      var ok, slot := FormatAndAdd(k, f, data);
      ghost var b' := pool.view.files[file][pid];
      NewPageRelease(v, file, f, b');
      AppendedNew(v, file, b');
      FillNewPage(v.files[file], b');
      assert ok ==> PageItems(pid, [data]) == [Item(TID(pid, 0), data)];
      var e := pool.Unpin(k, true);
      res := if ok then Stored(TID(pid, slot)) else TooLarge;
    }

    /** A copy of the tuple at an address. */
    method Get(tid: TID) returns (res: GetResult)
      requires Valid()
      modifies pool, pool.replacer, pool.frames
      ensures Valid() && pool.view == old(pool.view)
      ensures forall d :: res == Found(d) ==> Item(tid, d) in Contents()
      ensures res == NoSlot ==> tid.page < |Content()| && forall d :: Item(tid, d) !in Contents()
      ensures res.GetFailed? ==>
        if res.error == NoFreeFrame then Crowded(pool, file, {tid.page})
        else res.error == DiskError && (pool.Faulty(old(pool.faults)) || tid.page >= |Content()|)
    {
      hide Pool.Inv, Pool.Ready, Pool.Cached, Fetched, Loaded, OneForgotten, Tuples, Log, Formatted;
      ghost var v := pool.view;
      var err, f := pool.Fetch(file, tid.page);
      if err != Ok { return GetFailed(err); }
      var count := SlotCount(pool.frames[f]);
      if tid.slot >= count {
        forall d ensures Item(tid, d) !in Contents() { LogHas(v.files[file], Item(tid, d)); }
        res := NoSlot;
      } else {
        var d := LocateTuple(pool.frames[f], tid.slot);
        LogHas(v.files[file], Item(tid, d));
        res := Found(d);
      }
      PinUnpin(v, PageKey(file, tid.page), f);
      var e := pool.Unpin(PageKey(file, tid.page), false);
    }

    /** Visits every tuple in physical order until fn stops it. */
    method Scan(fn: Callback<Item>) returns (end: ScanEnd, calls: seq<Item>)
      requires Valid()
      modifies pool, pool.replacer, pool.frames
      ensures Valid() && pool.view == old(pool.view)
      ensures end.Finished? ==> calls == Contents() && Accepted(fn, calls, |calls|)
      ensures end.Stopped? ==> CutShort(fn, calls, Contents())
      ensures end.Interrupted? ==>
        && Accepted(fn, calls, |calls|) && Prefix(calls, Contents())
        && end.error != Ok
        && (exists n :: 0 <= n < |Content()| && WellFormed(Content()[..n]) && calls == Log(Content()[..n]) &&
                        ReadError(pool, end.error, file, {n}, old(pool.faults)))
    {
      hide Pool.Inv, Pool.Ready, Pool.Cached, Fetched, Loaded, OneForgotten, Tuples, Log, Formatted, Accepted,
        CutShort, Prefix;
      ghost var f := Content();
      calls := [];
      var pid := 0;
      LogNone(fn);
      var n := pool.NumPages(file);
      assert f[..0] == [];
      while pid < n
        invariant pool.faults == old(pool.faults)
        invariant pool.view == old(pool.view) && pid <= n == |f| && file < |pool.view.files| && Content() == f
        invariant WellFormed(f[..pid]) && calls == Log(f[..pid]) && Accepted(fn, calls, |calls|)
        invariant pool.Valid()
      {
        LogStep(f, pid);
        var err, calls', stopped := ScanPage(pid, fn, calls);
        if err != Ok {
          LogPrefix(f, pid);
          return Interrupted(err), calls;
        }
        if stopped {
          LogPrefix(f, pid + 1);
          CutWithin(fn, calls', Log(f[..pid + 1]), Log(f));
          return Stopped, calls';
        }
        calls, pid := calls', pid + 1;
        n := pool.NumPages(file);
      }
      assert f[..n] == f;
      end := Finished;
    }

    /** Feeds the tuples of one page to fn. */
    method ScanPage(pid: nat, fn: Callback<Item>, calls: seq<Item>)
      returns (err: Error, calls': seq<Item>, stopped: bool)
      requires Quiet(pool.view, file) && HeapOk(Content()) && pid < |Content()| && Accepted(fn, calls, |calls|)
      requires pool.Valid()
      modifies pool, pool.replacer, pool.frames
      ensures pool.view == old(pool.view)
      ensures err == Ok ==>
        var full := calls + PageItems(pid, Tuples(Content()[pid]));
        if stopped then CutShort(fn, calls', full) else calls' == full && Accepted(fn, calls', |calls'|)
      ensures ReadError(pool, err, file, {pid}, old(pool.faults))
      ensures pool.Valid()
    {
      hide Pool.Inv, Pool.Ready, Pool.Cached, Fetched, Loaded, OneForgotten, Tuples, Formatted, Accepted, CutShort;
      ghost var v := pool.view;
      calls', stopped := calls, false;
      var f;
      err, f := pool.Fetch(file, pid);
      if err != Ok { return; }
      assert Formatted(v.files[file][pid]);
      calls', stopped := FeedPage(pool.frames[f], pid, fn, calls);
      PinUnpin(v, PageKey(file, pid), f);
      var e := pool.Unpin(PageKey(file, pid), false);
    }
  }

  lemma CountSmall(b: Bytes)
    requires |b| == PAGE_SIZE
    ensures |Tuples(b)| == Count(b) < 0x1_0000
  {
  }

  method FeedPage(a: array<byte>, pid: u32, fn: Callback<Item>, calls: seq<Item>)
    returns (calls': seq<Item>, stopped: bool)
    requires a.Length == PAGE_SIZE && Formatted(a[..]) && Accepted(fn, calls, |calls|)
    ensures var full := calls + PageItems(pid, Tuples(a[..]));
      if stopped then CutShort(fn, calls', full) else calls' == full && Accepted(fn, calls', |calls'|)
  {
    hide Tuples, Formatted, Accepted, CutShort, Count, Upper, Lower;
    CountSmall(a[..]);
    var n := SlotCount(a);
    calls', stopped := calls, false;
    ghost var items := PageItems(pid, Tuples(a[..]));
    ghost var full := calls + items;
    for i := 0 to n
      invariant Accepted(fn, calls', |calls'|) && !stopped && full == calls' + items[i..]
    {
      var t := LocateTuple(a, i);
      var x := Item(TID(pid, i), t);
      assert items[i..] == [x] + items[i + 1..];
      CallStep(fn, calls', x, items[i + 1..], full);
      stopped := !fn(calls', x);
      calls' := calls' + [x];
      if stopped { return; }
    }
  }

  lemma LogNone(fn: Callback<Item>)
    ensures Log([]) == [] && Accepted(fn, [], 0)
  {
  }

  lemma LogStep(f: File, p: nat)
    requires WellFormed(f) && p < |f|
    ensures WellFormed(f[..p]) && WellFormed(f[..p + 1])
    ensures Log(f[..p + 1]) == Log(f[..p]) + PageItems(p, Tuples(f[p]))
  {
    hide Tuples;
    assert f[..p + 1][..p] == f[..p];
  }

  lemma {:induction false} LogPrefix(f: File, p: nat)
    requires WellFormed(f) && p <= |f|
    ensures WellFormed(f[..p]) && Prefix(Log(f[..p]), Log(f))
    decreases |f| - p
  {
    hide Tuples, Log;
    if p == |f| {
      assert f[..p] == f;
    } else {
      LogPrefix(f, p + 1);
      LogStep(f, p);
      PrefixOf(Log(f[..p]), PageItems(p, Tuples(f[p])));
      PrefixTwice(Log(f[..p]), Log(f[..p + 1]), Log(f));
    }
  }

  lemma PrefixTwice(a: seq<Item>, b: seq<Item>, c: seq<Item>)
    requires Prefix(a, b) && Prefix(b, c)
    ensures Prefix(a, c)
  {
    assert c[..|b|][..|a|] == c[..|a|];
  }

  lemma CutWithin(fn: Callback<Item>, calls: seq<Item>, part: seq<Item>, all: seq<Item>)
    requires CutShort(fn, calls, part) && Prefix(part, all)
    ensures CutShort(fn, calls, all)
  {
    CutShorter(fn, calls, part, all);
  }
}
