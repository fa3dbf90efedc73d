/** What the layers above the buffer pool share: pins taken and released, and files left alone. */
module PageClient {
  import opened Pages
  import opened BufferPool

  datatype ScanEnd = Finished | Stopped | Interrupted(error: Error)

  /** The file is there and no write to it is pending a report. */
  ghost predicate Quiet(v: View, file: nat) {
    file < |v.files| && forall x :: x in v.unreported ==> x.file != file
  }

  /**
    * Why not all of these pages of a file could be pinned, one at a time: every frame is pinned and one of the pages is
    * not, or a disk call has failed since there were n.
    */
  ghost predicate ReadError(pool: Pool, err: Error, file: nat, ps: set<nat>, n: nat)
    reads pool
  {
    if err == DiskError then pool.Faulty(n)
    else pool.faults == n && (err == Ok || (err == NoFreeFrame && Crowded(pool, file, ps)))
  }

  /** Every frame is pinned, and one of these pages of the file is in none of them. */
  ghost predicate Crowded(pool: Pool, file: nat, ps: set<nat>)
    reads pool
  {
    |pool.view.pinned| == |pool.frames| && exists p :: p in ps && PageKey(file, p) !in pool.view.pinned
  }

  lemma CrowdedOut(pool: Pool, file: nat, p: nat)
    requires |pool.view.pinned| == |pool.frames| && PageKey(file, p) !in pool.view.pinned
    ensures Crowded(pool, file, {p})
  {
  }

  /** Why a page could not be added to a file: every frame is pinned, a disk call failed, or the file is full. */
  ghost predicate AllocError(pool: Pool, err: Error, v: View, file: nat, n: nat)
    requires file < |v.files|
    reads pool
  {
    if err == DiskError then pool.faults >= n && (pool.Faulty(n) || |v.files[file]| >= MAX_U32)
    else pool.faults == n && (err == Ok || (err == NoFreeFrame && |v.pinned| == |pool.frames|))
  }

  /**
    * Since there were `pins` and `peak`, so many pins were given back and at no time were there more than `more` on
    * top.
    */
  ghost predicate PinsBack(pins: int, peak: int, pool: Pool, less: int, more: int)
    reads pool
  {
    pool.pins == pins - less && pool.peak <= if peak > pins + more then peak else pins + more
  }

  /** A page that is pinned and released again leaves no trace. */
  lemma PinUnpin(v: View, k: PageKey, f: nat)
    requires v.unreported <= v.pinned.Keys && (k in v.pinned ==> v.pinned[k].frame == f)
    ensures var v' := v.AddPin(k, f);
      k in v'.pinned && v'.DropPin(k, false) == v && (k !in v'.unreported || v'.Pins(k) > 1)
  {
    var v' := v.AddPin(k, f).DropPin(k, false);
    assert v'.pinned == v.pinned;
  }

  /** Only file i differs between the two views. */
  ghost predicate OnlyFile(v: View, v': View, i: nat) {
    i < |v.files| && i < |v'.files| && v' == v.(files := v.files[i := v'.files[i]])
  }

  lemma OnlyFileTwice(v: View, v1: View, v2: View, i: nat)
    requires OnlyFile(v, v1, i) && OnlyFile(v1, v2, i)
    ensures OnlyFile(v, v2, i)
  {
    assert v.files[i := v1.files[i]][i := v2.files[i]] == v.files[i := v2.files[i]];
  }

  /** A page that is pinned, rewritten and released dirty leaves just its new bytes. */
  lemma WriteRelease(v: View, k: PageKey, f: nat, b: Bytes)
    requires v.Has(k) && k !in v.unreported && (k in v.pinned ==> v.pinned[k].frame == f)
    ensures var v' := v.AddPin(k, f).Write(k, b);
      && k in v'.pinned
      && v'.DropPin(k, true) == v.(files := v.files[k.file := v.files[k.file][k.pid := b]])
  {
    var v' := v.AddPin(k, f).Write(k, b).DropPin(k, true);
    assert v'.pinned == v.pinned && v'.unreported == v.unreported;
  }

  /** A page that is added, written and released dirty leaves just the longer file. */
  lemma NewPageRelease(v: View, i: nat, f: nat, b: Bytes)
    requires i < |v.files| && var k := PageKey(i, |v.files[i]|); k !in v.pinned && k !in v.unreported
    ensures var k := PageKey(i, |v.files[i]|); var w := v.Grow(i).AddPin(k, f);
      && w.Has(k) && k in w.Write(k, b).pinned
      && w.Write(k, b).DropPin(k, true) == v.(files := v.files[i := v.files[i] + [b]])
  {
    var g, k, file := v.Grow(i), PageKey(i, |v.files[i]|), v.files[i];
    WriteRelease(g, k, f, b);
    assert (file + [ZeroPage()])[|file| := b] == file + [b];
    assert g.files[i := file + [b]] == v.files[i := file + [b]];
  }
}
