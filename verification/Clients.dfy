/**
  * Many clients of one pool. Every pool operation runs under one lock, so any concurrent use is an
  * interleaving of whole operations; here a schedule says whose turn it is and what they do.
  */
module Clients {
  import opened Pages
  import opened BufferPool

  /** A client's hold on a page: the frame it was handed, its pins, and whether it has a write to report. */
  datatype Handle = Handle(frame: nat, count: Positive, wrote: bool)

  type Hand = map<PageKey, Handle>

  /** What each client holds. */
  type Ledger = seq<Hand>

  datatype Action =
    | Fetch(file: nat, pid: nat)
    | NewPage(file: nat)
    | Write(key: PageKey, at: nat, value: byte)
    | Release(key: PageKey, dirty: bool)
    | Flush(key: PageKey)
    | FlushAll

  datatype Turn = Turn(client: nat, action: Action)

  function Count(h: Hand, k: PageKey): nat {
    if k in h then h[k].count else 0
  }

  /** The outstanding pins on k, over all clients. */
  function Outstanding(l: Ledger, k: PageKey): nat {
    if l == [] then 0 else Count(l[|l| - 1], k) + Outstanding(l[..|l| - 1], k)
  }

  /** The pool's pins are the clients' pins, in the frames they were handed. */
  ghost predicate Agrees(v: View, l: Ledger) {
    && (forall k :: v.Pins(k) == Outstanding(l, k))
    && (forall c, k :: 0 <= c < |l| && k in l[c] ==> k in v.pinned && v.pinned[k].frame == l[c][k].frame)
  }

  /** If a write to k is unreported, some holder of k knows it has one to report. */
  ghost predicate Accounted(v: View, l: Ledger, k: PageKey) {
    k in v.unreported ==> exists c :: HasWritten(l, c, k)
  }

  ghost predicate HasWritten(l: Ledger, c: nat, k: PageKey) {
    c < |l| && k in l[c] && l[c][k].wrote
  }

  // ---- sums ----

  lemma {:induction false} Replaced(l: Ledger, c: nat, h: Hand, k: PageKey)
    requires c < |l|
    ensures Outstanding(l[c := h], k) == Outstanding(l, k) - Count(l[c], k) + Count(h, k)
    decreases |l|
  {
    var n := |l| - 1;
    if c == n {
      assert l[c := h][..n] == l[..n];
    } else {
      assert l[c := h][..n] == l[..n][c := h];
      Replaced(l[..n], c, h, k);
    }
  }

  lemma {:induction false} Share(l: Ledger, c: nat, k: PageKey)
    requires c < |l|
    ensures Outstanding(l, k) >= Count(l[c], k)
    decreases |l|
  {
    if c < |l| - 1 { Share(l[..|l| - 1], c, k); }
  }

  // ---- the steps ----

  function Pinned(h: Hand, k: PageKey, f: nat): Hand {
    h[k := if k in h then h[k].(count := h[k].count + 1) else Handle(f, 1, false)]
  }

  function Released(h: Hand, k: PageKey, dirty: bool): Hand
    requires k in h
  {
    if h[k].count == 1 then h - {k}
    else h[k := Handle(h[k].frame, h[k].count - 1, h[k].wrote && !dirty)]
  }

  function Wrote(h: Hand, k: PageKey): Hand
    requires k in h
  {
    h[k := h[k].(wrote := true)]
  }

  lemma PinAgrees(v: View, l: Ledger, c: nat, k: PageKey, f: nat)
    requires Agrees(v, l) && c < |l| && (k in v.pinned ==> v.pinned[k].frame == f)
    ensures Agrees(v.AddPin(k, f), l[c := Pinned(l[c], k, f)])
  {
    var v', l' := v.AddPin(k, f), l[c := Pinned(l[c], k, f)];
    forall x ensures v'.Pins(x) == Outstanding(l', x) { Replaced(l, c, Pinned(l[c], k, f), x); }
  }

  lemma WriteAgrees(v: View, l: Ledger, c: nat, k: PageKey, b: Bytes)
    requires Agrees(v, l) && c < |l| && k in l[c] && v.Has(k)
    ensures Agrees(v.Write(k, b), l[c := Wrote(l[c], k)])
  {
    var v', l' := v.Write(k, b), l[c := Wrote(l[c], k)];
    forall x ensures v'.Pins(x) == Outstanding(l', x) { Replaced(l, c, Wrote(l[c], k), x); }
  }

  lemma ReleaseAgrees(v: View, l: Ledger, c: nat, k: PageKey, dirty: bool)
    requires Agrees(v, l) && c < |l| && k in l[c]
    ensures k in v.pinned && Agrees(v.DropPin(k, dirty), l[c := Released(l[c], k, dirty)])
    ensures v.Pins(k) == Outstanding(l, k)
  {
    var h := Released(l[c], k, dirty);
    var v', l' := v.DropPin(k, dirty), l[c := h];
    forall x ensures v'.Pins(x) == Outstanding(l', x) { Replaced(l, c, h, x); }
    forall d, x | 0 <= d < |l'| && x in l'[d] ensures x in v'.pinned && v'.pinned[x].frame == l'[d][x].frame {
      assert x in l[d];
      Share(l', d, x);
    }
  }

  lemma SamePinsAgree(v: View, v': View, l: Ledger)
    requires Agrees(v, l) && v'.pinned == v.pinned
    ensures Agrees(v', l)
  {
    assert forall k :: v'.Pins(k) == v.Pins(k);
  }

  // ---- runs ----

  /** The plain page store: what an action that took place does to the contents of the files. */
  function Store(files: seq<File>, a: Action, done: bool): seq<File> {
    match a
    case NewPage(i) => if done && i < |files| then files[i := files[i] + [ZeroPage()]] else files
    case Write(k, at, x) =>
      if done && k.file < |files| && k.pid < |files[k.file]| && at < |files[k.file][k.pid]|
      then files[k.file := files[k.file][k.pid := files[k.file][k.pid][at := x]]]
      else files
    case _ => files
  }

  function Replay(files: seq<File>, schedule: seq<Turn>, done: seq<bool>): seq<File>
    requires |done| == |schedule|
  {
    if schedule == [] then files
    else
      var n := |schedule| - 1;
      Store(Replay(files, schedule[..n], done[..n]), schedule[n].action, done[n])
  }

  /** What a turn does to the ledger: nothing unless it is done, else exactly its own pin, write or release. */
  ghost predicate Recorded(v: View, l: Ledger, l': Ledger, t: Turn, done: bool) {
    if !done then l' == l
    else
      var c := t.client;
      && c < |l| == |l'|
      && match t.action
         case Fetch(i, p) => OnePinMore(l, l', c, PageKey(i, p))
         case NewPage(i) => i < |v.files| && OnePinMore(l, l', c, PageKey(i, |v.files[i]|))
         case Write(k, at, _) => k in l[c] && at < PAGE_SIZE && l' == l[c := Wrote(l[c], k)]
         case Release(k, dirty) => k in l[c] && l' == l[c := Released(l[c], k, dirty)]
         case _ => l' == l
  }

  ghost predicate OnePinMore(l: Ledger, l': Ledger, c: nat, k: PageKey) {
    c < |l| == |l'| && k in l'[c] && l' == l[c := Pinned(l[c], k, l'[c][k].frame)]
  }

  /** The frame in which client c holds k. */
  function FrameOf(l: Ledger, c: nat, k: PageKey): nat {
    if c < |l| && k in l[c] then l[c][k].frame else 0
  }

  /** What an action that was done makes of the view, when l is the ledger after it. */
  ghost function Effect(v: View, l: Ledger, t: Turn): View {
    match t.action
    case Fetch(i, p) => v.AddPin(PageKey(i, p), FrameOf(l, t.client, PageKey(i, p)))
    case NewPage(i) =>
      if i < |v.files| then v.Grow(i).AddPin(PageKey(i, |v.files[i]|), FrameOf(l, t.client, PageKey(i, |v.files[i]|)))
      else v
    case Write(k, at, x) =>
      if v.Has(k) && at < |v.files[k.file][k.pid]| then v.Write(k, v.files[k.file][k.pid][at := x]) else v
    case Release(k, dirty) => if k in v.pinned then v.DropPin(k, dirty) else v
    case _ => v
  }

  /**
    * What a turn makes of the view: the effect of its action, if that was done. A turn that needs a frame may besides
    * push one page out of memory that lost its last holder with a write unreported; that write is then gone.
    */
  ghost predicate Stepped(v: View, v': View, l': Ledger, t: Turn, done: bool) {
    var w := if done then Effect(v, l', t) else v;
    if t.action.Fetch? || t.action.NewPage? then OneForgotten(w, v') else v' == w
  }

  /**
    * What a turn makes of the memory. A page whose last pin is released becomes idle, in front of the others; one that
    * is fetched again stops being idle; and where a frame is needed and none is free, the one at the back leaves.
    */
  ghost predicate Moved(v: View, c: Cache, c': Cache, frames: nat, l: Ledger, t: Turn, done: bool, fault: bool) {
    match t.action
    case Fetch(i, p) =>
      if done then Fetched(c, c', frames, PageKey(i, p), Ok, fault)
      else
        || (c' == c && !fault)
        || (PageKey(i, p) !in c.resident && Loaded(c, c', frames, PageKey(i, p), DiskError, fault))
    case NewPage(i) =>
      if done then
        && i < |v.files| && PageKey(i, |v.files[i]|) !in c.resident
        && Loaded(c, c', frames, PageKey(i, |v.files[i]|), Ok, fault)
      else (c' == c && !fault) || Loaded(c, c', frames, PageKey(i, 0), DiskError, fault)
    case Release(k, _) => c' == if done && Outstanding(l, k) == 1 then c.(idle := [k] + c.idle) else c
    case _ => c' == c
  }

  lemma NotLoaded(c: Cache, c': Cache, frames: nat, k: PageKey, k': PageKey, err: Error, fault: bool)
    requires Loaded(c, c', frames, k, err, fault) && err != Ok && (err != DiskError ==> !fault)
    ensures (c' == c && !fault) || Loaded(c, c', frames, k', DiskError, fault)
  {
  }

  lemma FetchFailed(c: Cache, c': Cache, frames: nat, k: PageKey, err: Error, fault: bool)
    requires Fetched(c, c', frames, k, err, fault) && k !in c.resident && err != Ok && (err != DiskError ==> !fault)
    ensures (c' == c && !fault) || Loaded(c, c', frames, k, DiskError, fault)
  {
    NotLoaded(c, c', frames, k, k, err, fault);
  }

  /** When a turn has to be done, save for failing disk calls: the client is entitled to it and a frame is to be had. */
  ghost predicate Due(v: View, resident: set<PageKey>, frames: nat, l: Ledger, t: Turn) {
    && t.client < |l|
    && match t.action
       case Fetch(i, p) => v.Has(PageKey(i, p)) && (PageKey(i, p) in resident || |v.pinned| < frames)
       case NewPage(i) => i < |v.files| && |v.files[i]| < MAX_U32 && |v.pinned| < frames
       case Write(k, at, _) => k in l[t.client] && at < PAGE_SIZE
       case Release(k, _) => k in l[t.client]
       case Flush(k) => k in resident
       case FlushAll => true
  }

  /** Every hold kept across a step is on the same frame. */
  ghost predicate StillBound(l: Ledger, l': Ledger) {
    |l'| == |l| && forall c, k :: 0 <= c < |l| && k in l[c] && k in l'[c] ==> l'[c][k].frame == l[c][k].frame
  }

  /** One client's turn. Clients write to and release only what they hold; all else they do as they please. */
  method Perform(pool: Pool, l: Ledger, t: Turn) returns (l': Ledger, done: bool)
    requires Agrees(pool.view, l)
    requires pool.Sound()
    modifies pool, pool.replacer, pool.frames
    ensures Agrees(pool.view, l') && StillBound(l, l')
    ensures Recorded(old(pool.view), l, l', t, done) && Stepped(old(pool.view), pool.view, l', t, done)
    ensures Due(old(pool.view), old(pool.pageTable.Keys), |pool.frames|, l, t) ==>
      done || pool.Faulty(old(pool.faults))
    ensures Moved(old(pool.view), old(pool.Cached()), pool.Cached(), |pool.frames|, l, t, done,
                  pool.faults > old(pool.faults))
    ensures pool.faults >= old(pool.faults)
    ensures pool.Sound()
  {
    hide Pool.Inv, Pool.Ready, Pool.Cached, Fetched, Loaded, OneForgotten, Agrees;
    SameView(pool.view);
    l', done := l, false;
    if t.client >= |l| { return; }
    match t.action
    case Fetch(file, pid) => l', done := PerformFetch(pool, l, t.client, file, pid);
    case NewPage(file) => l', done := PerformNew(pool, l, t.client, file);
    case Write(k, at, x) => l', done := PerformWrite(pool, l, t.client, k, at, x);
    case Release(k, dirty) => l', done := PerformRelease(pool, l, t.client, k, dirty);
    case Flush(k) =>
      var err := pool.FlushPage(k);
      done := err == Ok;
    case FlushAll =>
      var err := pool.FlushAll();
      done := err == Ok;
  }

  method PerformFetch(pool: Pool, l: Ledger, c: nat, file: nat, pid: nat) returns (l': Ledger, done: bool)
    requires Agrees(pool.view, l) && c < |l|
    requires pool.Sound()
    modifies pool, pool.replacer, pool.frames
    ensures Agrees(pool.view, l') && StillBound(l, l')
    ensures var k := PageKey(file, pid);
      if done then OnePinMore(l, l', c, k) && OneForgotten(old(pool.view).AddPin(k, l'[c][k].frame), pool.view)
      else l' == l && OneForgotten(old(pool.view), pool.view)
    ensures old(pool.view).Has(PageKey(file, pid)) ==>
      PageKey(file, pid) in old(pool.pageTable) || |old(pool.view).pinned| < |pool.frames| ==>
      done || pool.Faulty(old(pool.faults))
    ensures Moved(old(pool.view), old(pool.Cached()), pool.Cached(), |pool.frames|, l, Turn(c, Fetch(file, pid)), done,
                  pool.faults > old(pool.faults))
    ensures pool.faults >= old(pool.faults)
    ensures pool.Sound()
  {
    hide Pool.Inv, Pool.Ready, Pool.Cached, Fetched, Loaded, OneForgotten, Agrees;
    l', done := l, false;
    SameView(pool.view);
    pool.SameShape();
    pool.PinnedOnly();
    if file >= |pool.files| { return; }
    ghost var v := pool.view;
    var err, f := pool.Fetch(file, pid);
    if err == Ok {
      var k := PageKey(file, pid);
      PinAgrees(v, l, c, k, f);
      TidyKept(v.AddPin(k, f), pool.view);
      l', done := l[c := Pinned(l[c], k, f)], true;
      SamePinsAgree(v.AddPin(k, f), pool.view, l');
      HandedOut(v, l, c, k, f);
    } else {
      TidyKept(v, pool.view);
      SamePinsAgree(v, pool.view, l);
      FetchFailed(old(pool.Cached()), pool.Cached(), |pool.frames|, PageKey(file, pid), err,
                  pool.faults > old(pool.faults));
    }
  }

  /** The frame handed out is the one in the client's hand. */
  lemma HandedOut(v: View, l: Ledger, c: nat, k: PageKey, f: nat)
    requires Agrees(v, l) && c < |l| && (k in v.pinned ==> v.pinned[k].frame == f)
    ensures var l' := l[c := Pinned(l[c], k, f)]; OnePinMore(l, l', c, k) && l'[c][k].frame == f && StillBound(l, l')
  {
  }

  method PerformNew(pool: Pool, l: Ledger, c: nat, file: nat) returns (l': Ledger, done: bool)
    requires Agrees(pool.view, l) && c < |l|
    requires pool.Sound()
    modifies pool, pool.replacer, pool.frames
    ensures Agrees(pool.view, l') && StillBound(l, l')
    ensures var v := old(pool.view);
      if done then
        && file < |v.files| && var k := PageKey(file, |v.files[file]|);
        OnePinMore(l, l', c, k) && OneForgotten(v.Grow(file).AddPin(k, l'[c][k].frame), pool.view)
      else l' == l && OneForgotten(v, pool.view)
    ensures file < |old(pool.view).files| && |old(pool.view).files[file]| < MAX_U32 ==>
      |old(pool.view).pinned| < |pool.frames| ==> done || pool.Faulty(old(pool.faults))
    ensures Moved(old(pool.view), old(pool.Cached()), pool.Cached(), |pool.frames|, l, Turn(c, NewPage(file)), done,
                  pool.faults > old(pool.faults))
    ensures pool.faults >= old(pool.faults)
    ensures pool.Sound()
  {
    hide Pool.Inv, Pool.Ready, Pool.Cached, Fetched, Loaded, OneForgotten, Agrees;
    l', done := l, false;
    SameView(pool.view);
    pool.SameShape();
    if file >= |pool.files| { return; }
    ghost var v := pool.view;
    var err, f, pid := pool.NewPage(file);
    if err == Ok {
      var k := PageKey(file, pid);
      ghost var w := v.Grow(file);
      SamePinsAgree(v, w, l);
      PinAgrees(w, l, c, k, f);
      TidyKept(w.AddPin(k, f), pool.view);
      l', done := l[c := Pinned(l[c], k, f)], true;
      SamePinsAgree(w.AddPin(k, f), pool.view, l');
      HandedOut(w, l, c, k, f);
    } else {
      TidyKept(v, pool.view);
      SamePinsAgree(v, pool.view, l);
      NotLoaded(old(pool.Cached()), pool.Cached(), |pool.frames|, PageKey(file, pid), PageKey(file, 0), err,
                pool.faults > old(pool.faults));
    }
  }

  method PerformWrite(pool: Pool, l: Ledger, c: nat, k: PageKey, at: nat, x: byte) returns (l': Ledger, done: bool)
    requires Agrees(pool.view, l) && c < |l|
    requires pool.Sound()
    modifies pool`view, pool.frames
    ensures Agrees(pool.view, l') && StillBound(l, l')
    ensures done <==> k in l[c] && at < PAGE_SIZE
    ensures l' == if done then l[c := Wrote(l[c], k)] else l
    ensures pool.view == if done then Effect(old(pool.view), l', Turn(c, Write(k, at, x))) else old(pool.view)
    ensures pool.Sound()
  {
    hide Pool.Inv, Pool.Cached, Pool.Holds;
    l', done := l, false;
    if k !in l[c] || at >= PAGE_SIZE { return; }
    pool.ClientFacts();
    pool.PinFacts(k);
    var f := l[c][k].frame;
    pool.frames[f][at] := x;
    pool.Wrote(k, {});
    WriteAgrees(old(pool.view), l, c, k, pool.frames[f][..]);
    l', done := l[c := Wrote(l[c], k)], true;
  }

  method PerformRelease(pool: Pool, l: Ledger, c: nat, k: PageKey, dirty: bool) returns (l': Ledger, done: bool)
    requires Agrees(pool.view, l) && c < |l|
    requires pool.Sound()
    modifies pool`meta, pool`view, pool`pins, pool.replacer
    ensures Agrees(pool.view, l') && StillBound(l, l')
    ensures done <==> k in l[c]
    ensures l' == if done then l[c := Released(l[c], k, dirty)] else l
    ensures pool.view == if done then Effect(old(pool.view), l', Turn(c, Release(k, dirty))) else old(pool.view)
    ensures Moved(old(pool.view), old(pool.Cached()), pool.Cached(), |pool.frames|, l, Turn(c, Release(k, dirty)), done,
                  false)
    ensures pool.Sound()
  {
    hide Pool.Inv, Pool.Ready, Pool.Cached, Fetched, Loaded, OneForgotten, Agrees;
    l', done := l, false;
    if k !in l[c] { return; }
    ReleaseAgrees(pool.view, l, c, k, dirty);
    var err := pool.Unpin(k, dirty);
    l', done := l[c := Released(l[c], k, dirty)], true;
  }

  /**
    * The state between two turns: what the pool stands for, which pages it has in memory and their bytes, what the
    * clients hold, and how many disk calls have failed.
    */
  datatype Moment = Moment(view: View, cache: Cache, memory: seq<Bytes>, ledger: Ledger, faults: nat)

  ghost function Now(pool: Pool, l: Ledger): (m: Moment)
    reads pool, pool.replacer, pool.frames
    ensures m.view == pool.view && m.cache == pool.Cached() && m.ledger == l && |m.memory| == |pool.frames|
    ensures m.faults == pool.faults
    ensures forall f :: 0 <= f < |pool.frames| ==> m.memory[f] == pool.frames[f][..]
  {
    Moment(pool.view, pool.Cached(),
           seq(|pool.frames|, f requires 0 <= f < |pool.frames| reads pool.frames => pool.frames[f][..]), l,
           pool.faults)
  }

  /**
    * Client c holds page k: the page is pinned in the frame that the client was handed, and the frame has its
    * contents.
    */
  ghost predicate Bound(m: Moment, c: nat, k: PageKey)
    requires c < |m.ledger| && k in m.ledger[c]
  {
    var f := m.ledger[c][k].frame;
    && k in m.view.pinned && m.view.pinned[k].frame == f && k in m.cache.resident
    && f < |m.memory| && m.view.Has(k) && m.memory[f] == m.view.files[k.file][k.pid]
  }

  /** The idle pages are those in memory that nobody pins, each listed once. */
  ghost predicate Listed(m: Moment) {
    && (forall k :: k in m.cache.idle <==> k in m.cache.resident && k !in m.view.pinned)
    && (forall i, j :: 0 <= i < j < |m.cache.idle| ==> m.cache.idle[i] != m.cache.idle[j])
    && |m.cache.resident| <= |m.memory|
  }

  /** The pins of every page are the outstanding pins on it, and every hold is bound. */
  ghost predicate Coherent(m: Moment) {
    && Agrees(m.view, m.ledger) && (forall c, k :: 0 <= c < |m.ledger| && k in m.ledger[c] ==> Bound(m, c, k))
    && Listed(m)
  }

  /** What one turn makes of a moment. */
  ghost predicate Turned(m: Moment, m': Moment, t: Turn, done: bool) {
    && Recorded(m.view, m.ledger, m'.ledger, t, done) && StillBound(m.ledger, m'.ledger)
    && Stepped(m.view, m'.view, m'.ledger, t, done)
    && m'.faults >= m.faults
    && (Due(m.view, m.cache.resident, |m.memory|, m.ledger, t) ==> done || m'.faults > m.faults)
    && |m'.memory| == |m.memory|
    && Moved(m.view, m.cache, m'.cache, |m.memory|, m.ledger, t, done, m'.faults > m.faults)
  }

  /** The moments of a run: every one coherent, every one the last one's turned. */
  ghost predicate IsRun(trace: seq<Moment>, schedule: seq<Turn>, done: seq<bool>) {
    && |trace| == |schedule| + 1 && |done| == |schedule|
    && (forall i :: 0 <= i < |trace| ==> Coherent(trace[i]))
    && (forall i :: 0 <= i < |schedule| ==> TurnedAt(trace, schedule, done, i))
  }

  ghost predicate TurnedAt(trace: seq<Moment>, schedule: seq<Turn>, done: seq<bool>, i: nat)
    requires i < |schedule| == |done| && |trace| == |schedule| + 1
  {
    Turned(trace[i], trace[i + 1], schedule[i], done[i])
  }

  /**
    * Any number of clients, any schedule, any failures, reported writes or not. At every moment of the run the pool's
    * pins are the clients' outstanding pins, and every hold is bound to its frame; every turn does what its client
    * asked for, and only that, whenever it is due. If all clients report their writes the files are those of a plain
    * page store.
    */
  method Run(pool: Pool, start: Ledger, schedule: seq<Turn>)
    returns (l: Ledger, done: seq<bool>, ghost trace: seq<Moment>)
    requires Agrees(pool.view, start)
    requires pool.Sound()
    modifies pool, pool.replacer, pool.frames
    ensures IsRun(trace, schedule, done)
    ensures trace[0] == old(Now(pool, start)) && trace[|schedule|] == Now(pool, l)
    ensures Reporting(trace, schedule) ==>
      pool.Valid() && pool.view.files == Replay(old(pool.view.files), schedule, done)
    ensures pool.Sound()
  {
    hide Pool.Inv, Pool.Ready, IdlePages, OneForgotten, Agrees, Coherent, Turned, Reporting, Replay, Moved, Due;
    NowCoherent(pool, start);
    l, done, trace := start, [], [Now(pool, start)];
    for i := 0 to |schedule|
      invariant Agrees(pool.view, l) && IsRun(trace, schedule[..i], done)
      invariant trace[0] == old(Now(pool, start)) && trace[i] == Now(pool, l)
      invariant pool.Sound()
    {
      ghost var m := trace[i];
      var ok;
      l, ok := Perform(pool, l, schedule[i]);
      NowCoherent(pool, l);
      TurnMade(m, Now(pool, l), schedule[i], ok);
      Prolonged(trace, schedule, done, i, Now(pool, l), ok);
      done, trace := done + [ok], trace + [Now(pool, l)];
    }
    assert schedule[..|schedule|] == schedule && done[..|done|] == done;
    if Reporting(trace, schedule) { ReportingRun(trace, schedule, done, |schedule|); }
  }

  lemma TurnMade(m: Moment, m': Moment, t: Turn, done: bool)
    requires Recorded(m.view, m.ledger, m'.ledger, t, done) && StillBound(m.ledger, m'.ledger)
    requires Stepped(m.view, m'.view, m'.ledger, t, done) && m'.faults >= m.faults
    requires Due(m.view, m.cache.resident, |m.memory|, m.ledger, t) ==> done || m'.faults > m.faults
    requires |m'.memory| == |m.memory|
    requires Moved(m.view, m.cache, m'.cache, |m.memory|, m.ledger, t, done, m'.faults > m.faults)
    ensures Turned(m, m', t, done)
  {
  }

  lemma NowCoherent(pool: Pool, l: Ledger)
    requires Agrees(pool.view, l)
    requires pool.Sound()
    ensures Coherent(Now(pool, l))
  {
    hide Pool.Inv, Pool.Ready, IdlePages, OneForgotten;
    var m := Now(pool, l);
    pool.CacheFacts();
    forall c, k | 0 <= c < |l| && k in l[c] ensures Bound(m, c, k) {
      pool.PinFacts(k);
    }
  }

  lemma Prolonged(trace: seq<Moment>, schedule: seq<Turn>, done: seq<bool>, i: nat, m: Moment, ok: bool)
    requires i < |schedule| && IsRun(trace, schedule[..i], done)
    requires Coherent(m) && Turned(trace[i], m, schedule[i], ok)
    ensures IsRun(trace + [m], schedule[..i + 1], done + [ok])
  {
    hide Coherent, Turned;
    var trace', schedule', done' := trace + [m], schedule[..i + 1], done + [ok];
    forall j | 0 <= j < |schedule'| ensures TurnedAt(trace', schedule', done', j) {
      if j < i { assert TurnedAt(trace, schedule[..i], done, j); }
    }
  }

  // ---- what a client may rely on over a run ----

  /** How many of client c's releases of page k are done in the turns from i to j. */
  function Releases(schedule: seq<Turn>, done: seq<bool>, c: nat, k: PageKey, i: nat, j: nat): nat
    requires i <= j <= |schedule| == |done|
  {
    if i == j then 0
    else
      var t := schedule[j - 1];
      Releases(schedule, done, c, k, i, j - 1) +
      if done[j - 1] && t.client == c && t.action.Release? && t.action.key == k then 1 else 0
  }

  /** Nobody else releases a client's pins: they go down by its own releases only. */
  lemma {:induction false} OwnReleases(trace: seq<Moment>, schedule: seq<Turn>, done: seq<bool>,
                                       c: nat, k: PageKey, i: nat, j: nat)
    requires IsRun(trace, schedule, done) && i <= j <= |schedule| && c < |trace[i].ledger|
    ensures |trace[j].ledger| == |trace[i].ledger|
    ensures Count(trace[j].ledger[c], k) >= Count(trace[i].ledger[c], k) - Releases(schedule, done, c, k, i, j)
    decreases j
  {
    hide Coherent, Due, Stepped, Moved, Listed;
    if i < j {
      OwnReleases(trace, schedule, done, c, k, i, j - 1);
      assert TurnedAt(trace, schedule, done, j - 1);
      OneTurn(trace[j - 1], trace[j], schedule[j - 1], done[j - 1], c, k);
    }
  }

  lemma OneTurn(m: Moment, m': Moment, t: Turn, done: bool, c: nat, k: PageKey)
    requires Turned(m, m', t, done) && c < |m.ledger|
    ensures |m'.ledger| == |m.ledger|
    ensures Count(m'.ledger[c], k) >= Count(m.ledger[c], k) -
      if done && t.client == c && t.action.Release? && t.action.key == k then 1 else 0
  {
    hide Due, Stepped, Moved, Listed;
  }

  /**
    * A frame stays bound until the matching unpin: as long as a client has released a page less often than it held
    * it at moment i, the page is pinned in the very frame it was handed, which has the page's contents.
    */
  lemma {:induction false} BoundUntilReleased(trace: seq<Moment>, schedule: seq<Turn>, done: seq<bool>,
                                              c: nat, k: PageKey, i: nat, j: nat)
    requires IsRun(trace, schedule, done) && i <= j <= |schedule| && c < |trace[i].ledger|
    requires Releases(schedule, done, c, k, i, j) < Count(trace[i].ledger[c], k)
    ensures c < |trace[j].ledger| && k in trace[j].ledger[c] && Bound(trace[j], c, k)
    ensures k in trace[i].ledger[c] && trace[j].ledger[c][k].frame == trace[i].ledger[c][k].frame
    decreases j
  {
    hide Due, Stepped, Recorded, Agrees, Moved, Listed;
    OwnReleases(trace, schedule, done, c, k, i, j);
    assert Coherent(trace[j]);
    if i < j {
      BoundUntilReleased(trace, schedule, done, c, k, i, j - 1);
      assert TurnedAt(trace, schedule, done, j - 1);
    }
  }

  // ---- what becomes of the contents ----

  /** The page k of the files, if there is one. */
  function PageAt(files: seq<File>, k: PageKey): seq<Bytes> {
    if k.file < |files| && k.pid < |files[k.file]| then [files[k.file][k.pid]] else []
  }

  ghost predicate SameCounts(a: seq<File>, b: seq<File>) {
    |a| == |b| && forall i :: 0 <= i < |a| ==> |a[i]| == |b[i]|
  }

  lemma StoreCounts(a: seq<File>, b: seq<File>, act: Action, done: bool)
    requires SameCounts(a, b)
    ensures SameCounts(Store(a, act, done), Store(b, act, done))
  {
  }

  /** Where files agree on a page they agree on it after the same action. */
  lemma StoreAlike(a: seq<File>, b: seq<File>, act: Action, done: bool, k: PageKey)
    requires SameCounts(a, b) && PageAt(a, k) == PageAt(b, k)
    ensures PageAt(Store(a, act, done), k) == PageAt(Store(b, act, done), k)
  {
  }

  lemma EffectStores(v: View, l: Ledger, t: Turn, done: bool)
    ensures (if done then Effect(v, l, t) else v).files == Store(v.files, t.action, done)
    ensures t.action.Fetch? || t.action.NewPage? ==>
      var w := if done then Effect(v, l, t) else v; w.Exposed() <= v.Exposed() && (v.Tidy() ==> w.Tidy())
  {
  }

  lemma ForgotElsewhere(w: View, v': View, k: PageKey)
    requires OneForgotten(w, v') && k !in w.Exposed()
    ensures SameCounts(w.files, v'.files) && PageAt(v'.files, k) == PageAt(w.files, k)
    ensures v'.pinned == w.pinned && v'.unreported <= w.unreported
  {
  }

  /**
    * A turn treats a page as a plain page store would, unless the page lost its last holder with a write unreported;
    * without such pages it treats all of them so.
    */
  lemma TurnStores(v: View, v': View, l': Ledger, t: Turn, done: bool, k: PageKey)
    requires Stepped(v, v', l', t, done)
    ensures SameCounts(v'.files, Store(v.files, t.action, done))
    ensures k !in v.Exposed() ==> PageAt(v'.files, k) == PageAt(Store(v.files, t.action, done), k)
    ensures v.Tidy() ==> v'.files == Store(v.files, t.action, done)
  {
    hide OneForgotten, Store, Effect, PageAt;
    EffectStores(v, l', t, done);
    var w := if done then Effect(v, l', t) else v;
    if t.action.Fetch? || t.action.NewPage? {
      TidyKept(w, v');
      if k !in v.Exposed() { ForgotElsewhere(w, v', k); }
    }
  }

  /** The page counts are those of a plain page store anyway. */
  lemma {:induction false} SameGrowth(trace: seq<Moment>, schedule: seq<Turn>, done: seq<bool>, j: nat)
    requires IsRun(trace, schedule, done) && j <= |schedule|
    ensures SameCounts(trace[j].view.files, Replay(trace[0].view.files, schedule[..j], done[..j]))
    decreases j
  {
    hide Coherent, Recorded, Due, Stepped, Store, PageAt, Moved, Listed;
    if j > 0 {
      var n := j - 1;
      SameGrowth(trace, schedule, done, n);
      assert TurnedAt(trace, schedule, done, n);
      TurnStores(trace[n].view, trace[j].view, trace[j].ledger, schedule[n], done[n], PageKey(0, 0));
      assert schedule[..j][..n] == schedule[..n] && done[..j][..n] == done[..n];
      var replayed := Replay(trace[0].view.files, schedule[..n], done[..n]);
      StoreCounts(trace[n].view.files, replayed, schedule[n].action, done[n]);
    }
  }

  /** A page that is never left exposed has the contents it would have in a plain page store. */
  lemma {:induction false} NeverExposed(trace: seq<Moment>, schedule: seq<Turn>, done: seq<bool>, k: PageKey, j: nat)
    requires IsRun(trace, schedule, done) && j <= |schedule|
    requires forall i :: 0 <= i < j ==> k !in trace[i].view.Exposed()
    ensures PageAt(trace[j].view.files, k) == PageAt(Replay(trace[0].view.files, schedule[..j], done[..j]), k)
    decreases j
  {
    hide Coherent, Recorded, Due, Stepped, Store, PageAt, Moved, Listed;
    if j > 0 {
      var n := j - 1;
      NeverExposed(trace, schedule, done, k, n);
      SameGrowth(trace, schedule, done, n);
      assert TurnedAt(trace, schedule, done, n);
      TurnStores(trace[n].view, trace[j].view, trace[j].ledger, schedule[n], done[n], k);
      assert schedule[..j][..n] == schedule[..n] && done[..j][..n] == done[..n];
      var replayed := Replay(trace[0].view.files, schedule[..n], done[..n]);
      StoreAlike(trace[n].view.files, replayed, schedule[n].action, done[n], k);
    }
  }

  /** The turn does not hide a write to k: whoever gives up its last pin on k reports what it wrote there. */
  ghost predicate Reports(l: Ledger, t: Turn, k: PageKey) {
    t.action.Release? && t.action.key == k && t.client < |l| && k in l[t.client] ==>
      t.action.dirty || !l[t.client][k].wrote || l[t.client][k].count > 1
  }

  lemma StillAccounted(m: Moment, m': Moment, t: Turn, done: bool, k: PageKey)
    requires Coherent(m) && Turned(m, m', t, done) && Accounted(m.view, m.ledger, k) && Reports(m.ledger, t, k)
    ensures Accounted(m'.view, m'.ledger, k)
  {
    hide Due, Moved, Listed;
    if k in m'.view.unreported {
      if t.action.Write? && t.action.key == k && done {
        assert HasWritten(m'.ledger, t.client, k);
      } else {
        WasUnreported(m.view, m'.view, m'.ledger, t, done, k);
        var c :| HasWritten(m.ledger, c, k);
        WriterStays(m.view, m.ledger, m'.ledger, t, done, c, k);
      }
    }
  }

  lemma WasUnreported(v: View, v': View, l': Ledger, t: Turn, done: bool, k: PageKey)
    requires Stepped(v, v', l', t, done) && k in v'.unreported && !(t.action.Write? && t.action.key == k && done)
    ensures k in v.unreported && (t.action.Release? && t.action.key == k && done ==> !t.action.dirty || k !in v.pinned)
  {
  }

  lemma WriterStays(v: View, l: Ledger, l': Ledger, t: Turn, done: bool, c: nat, k: PageKey)
    requires Recorded(v, l, l', t, done) && HasWritten(l, c, k) && Reports(l, t, k)
    requires !(t.action.Release? && t.action.key == k && done && t.action.dirty)
    ensures HasWritten(l', c, k)
  {
    if done && t.client != c { assert l'[c] == l[c]; }
  }

  /**
    * The one way to expose a page: the last pin outstanding on it is released clean while a write to it is
    * unreported.
    */
  lemma ExposedExactly(m: Moment, m': Moment, t: Turn, done: bool, k: PageKey)
    requires Coherent(m) && Turned(m, m', t, done) && k !in m.view.Exposed()
    ensures k in m'.view.Exposed() <==>
      done && t.action == Release(k, false) && Outstanding(m.ledger, k) == 1 && k in m.view.unreported
  {
    hide Due, Moved, Listed;
    assert m.view.Pins(k) == Outstanding(m.ledger, k);
    if t.action.Write? && t.action.key == k && done {
      assert Bound(m, t.client, k);
    } else if k in m'.view.unreported {
      WasUnreported(m.view, m'.view, m'.ledger, t, done, k);
    }
  }

  lemma AccountedSafe(m: Moment, k: PageKey)
    requires Coherent(m) && Accounted(m.view, m.ledger, k)
    ensures k !in m.view.Exposed()
  {
    if k in m.view.unreported {
      var c :| HasWritten(m.ledger, c, k);
      assert Bound(m, c, k);
    }
  }

  lemma {:induction false} AccountedRun(trace: seq<Moment>, schedule: seq<Turn>, done: seq<bool>, k: PageKey, j: nat)
    requires IsRun(trace, schedule, done) && j <= |schedule| && Accounted(trace[0].view, trace[0].ledger, k)
    requires forall i :: 0 <= i < |schedule| ==> Reports(trace[i].ledger, schedule[i], k)
    ensures Accounted(trace[j].view, trace[j].ledger, k) && k !in trace[j].view.Exposed()
    decreases j
  {
    hide Coherent, Turned, Reports, Accounted;
    if j > 0 {
      AccountedRun(trace, schedule, done, k, j - 1);
      assert TurnedAt(trace, schedule, done, j - 1);
      StillAccounted(trace[j - 1], trace[j], schedule[j - 1], done[j - 1], k);
    }
    assert Coherent(trace[j]);
    AccountedSafe(trace[j], k);
  }

  /**
    * Whoever reports its writes keeps them: if the clients report their writes to page k, its contents are those of a
    * plain page store at every moment, whatever they hide about other pages.
    */
  lemma ReportedPageSafe(trace: seq<Moment>, schedule: seq<Turn>, done: seq<bool>, k: PageKey, j: nat)
    requires IsRun(trace, schedule, done) && j <= |schedule| && Accounted(trace[0].view, trace[0].ledger, k)
    requires forall i :: 0 <= i < |schedule| ==> Reports(trace[i].ledger, schedule[i], k)
    ensures PageAt(trace[j].view.files, k) == PageAt(Replay(trace[0].view.files, schedule[..j], done[..j]), k)
  {
    hide Coherent, Turned, Reports, Accounted, PageAt, Replay;
    forall i | 0 <= i < j ensures k !in trace[i].view.Exposed() { AccountedRun(trace, schedule, done, k, i); }
    NeverExposed(trace, schedule, done, k, j);
  }

  /** Every write is reported, from the ones pending at the start on. */
  ghost predicate Reporting(trace: seq<Moment>, schedule: seq<Turn>) {
    && |trace| == |schedule| + 1 && (forall k :: Accounted(trace[0].view, trace[0].ledger, k))
    && (forall i, k :: 0 <= i < |schedule| ==> Reports(trace[i].ledger, schedule[i], k))
  }

  /** Where every write is reported nothing is ever exposed, and the files are those of a plain page store. */
  lemma ReportingRun(trace: seq<Moment>, schedule: seq<Turn>, done: seq<bool>, j: nat)
    requires IsRun(trace, schedule, done) && Reporting(trace, schedule) && j <= |schedule|
    ensures trace[j].view.Tidy()
    ensures trace[j].view.files == Replay(trace[0].view.files, schedule[..j], done[..j])
  {
    hide Coherent, Turned, Reports, Accounted, Replay;
    forall k | k in trace[j].view.unreported ensures k in trace[j].view.pinned {
      AccountedRun(trace, schedule, done, k, j);
    }
    var a, b := trace[j].view.files, Replay(trace[0].view.files, schedule[..j], done[..j]);
    SameGrowth(trace, schedule, done, j);
    forall k ensures PageAt(a, k) == PageAt(b, k) {
      forall i | 0 <= i < j ensures k !in trace[i].view.Exposed() { AccountedRun(trace, schedule, done, k, i); }
      NeverExposed(trace, schedule, done, k, j);
    }
    SameFiles(a, b);
  }

  lemma SameFiles(a: seq<File>, b: seq<File>)
    requires SameCounts(a, b) && forall k :: PageAt(a, k) == PageAt(b, k)
    ensures a == b
  {
    forall i | 0 <= i < |a| ensures a[i] == b[i] {
      forall p | 0 <= p < |a[i]| ensures a[i][p] == b[i][p] {
        assert PageAt(a, PageKey(i, p)) == PageAt(b, PageKey(i, p));
      }
    }
  }

  /** A new pool whose clients hold nothing is where runs start. */
  lemma NothingHeld(v: View, n: nat)
    requires v.pinned == map[]
    ensures Agrees(v, seq(n, _ => map[]))
    ensures v.unreported == {} ==> var l: Ledger := seq(n, _ => map[]); forall k :: Accounted(v, l, k)
  {
    var l: Ledger := seq(n, _ => map[]);
    forall k: PageKey ensures Outstanding(l, k) == 0 { NonePinned(n, k); }
  }

  lemma {:induction false} NonePinned(n: nat, k: PageKey)
    ensures Outstanding(seq(n, _ => map[]), k) == 0
  {
    if n > 0 {
      var l: Ledger := seq(n, _ => map[]);
      assert l[..n - 1] == seq(n - 1, _ => map[]);
      NonePinned(n - 1, k);
    }
  }

  /** The disk has every page without an unreported write as the view has it. */
  ghost predicate Saved(v: View, disk: seq<File>) {
    && |disk| == |v.files| && (forall i :: 0 <= i < |disk| ==> |disk[i]| == |v.files[i]|)
    && (forall k :: v.Has(k) && k !in v.unreported ==> disk[k.file][k.pid] == v.files[k.file][k.pid])
  }

  /** A file without unreported writes is on disk as it stands. */
  lemma SavedFile(v: View, disk: seq<File>, i: nat)
    requires Saved(v, disk) && i < |disk| && forall k :: k in v.unreported ==> k.file != i
    ensures disk[i] == v.files[i]
  {
    forall p | 0 <= p < |disk[i]| ensures disk[i][p] == v.files[i][p] { assert v.Has(PageKey(i, p)); }
  }

  /**
    * Flushing everything and starting over with a new pool on the same disk: the new pool has what the disk has,
    * which is every page but those with a write nobody has reported.
    */
  method Reopen(pool: Pool, size: nat) returns (err: Error, again: Pool)
    requires pool.Sound() && size > 0
    modifies pool`files, pool`meta, pool`faults
    ensures pool.Sound() && pool.view == old(pool.view)
    ensures if err == Ok then pool.faults == old(pool.faults) else err == DiskError && pool.Faulty(old(pool.faults))
    ensures err == Ok ==> again.Valid() && again.view == View(pool.files, map[], {}) && Saved(pool.view, pool.files)
    ensures err == Ok ==> |again.frames| == size && again.reliable == pool.reliable && again.faults == 0
    ensures err == Ok ==> fresh(again) && fresh(again.replacer) && fresh(again.frames)
  {
    hide Pool.Inv, Pool.Ready, Pool.Cached, Fetched, Loaded, OneForgotten;
    err := pool.FlushAll();
    again := pool;
    if err != Ok { return; }
    assert Saved(pool.view, pool.files) by { pool.SameShape(); }
    var disk := pool.files;
    assert forall i :: 0 <= i < |disk| ==> WellFormed(disk[i]) by { pool.SameShape(); }
    again := new Pool(size, pool.reliable);
    for i := 0 to |disk|
      invariant again.Valid() && again.view == View(disk[..i], map[], {}) && again.faults == 0
      modifies again
    {
      var id := again.Register(disk[i]);
      assert disk[..i + 1] == disk[..i] + [disk[i]];
    }
    assert disk[..|disk|] == disk;
  }
}
