/** The eviction policy of the buffer pool: which frames may be evicted, in which order. */
module LruReplacer {

  /** A list node. `stamp` stands for the node's identity: no two nodes ever share one. */
  datatype Element = Element(frame: nat, stamp: nat)

  /** One call on the replacer, with the frame it was about. */
  datatype Event = Unpinned(frame: nat) | Pinned(frame: nat) | Evicted(frame: nat) | NoVictim

  /**
    * When `f` became a candidate, read off the history alone: the index of the earliest
    * `Unpinned(f)` that no later call took back; -1 when `f` is not a candidate.
    */
  ghost function AddedAt(log: seq<Event>, f: nat): (t: int)
    ensures -1 <= t < |log|
    ensures t >= 0 ==> log[t] == Unpinned(f)
  {
    if log == [] then -1
    else
      var n := |log| - 1;
      var before := AddedAt(log[..n], f);
      match log[n]
      case Unpinned(g) => if g == f && before < 0 then n else before
      case Pinned(g) => if g == f then -1 else before
      case Evicted(g) => if g == f then -1 else before
      case NoVictim => before
  }

  /** What `AddedAt` means: f was unpinned at t, was no candidate just before, and nothing took it back since. */
  lemma {:induction false} AddedAtMeaning(log: seq<Event>, f: nat)
    ensures var t := AddedAt(log, f);
      if t >= 0 then
        && AddedAt(log[..t], f) < 0
        && (forall i :: t < i < |log| ==> log[i] != Pinned(f) && log[i] != Evicted(f))
      else
        forall i :: 0 <= i < |log| && log[i] == Unpinned(f) ==>
          exists j :: i < j < |log| && (log[j] == Pinned(f) || log[j] == Evicted(f))
  {
    if log != [] {
      var n := |log| - 1;
      var init := log[..n];
      AddedAtMeaning(init, f);
      var t := AddedAt(log, f);
      if t >= 0 && t < n {
        assert init[..t] == log[..t];
      } else if t < 0 {
        forall i | 0 <= i < |log| && log[i] == Unpinned(f)
          ensures exists j :: i < j < |log| && (log[j] == Pinned(f) || log[j] == Evicted(f))
        {
          if AddedAt(init, f) < 0 {
            assert i < n && init[i] == Unpinned(f);
            var j :| i < j < |init| && (init[j] == Pinned(f) || init[j] == Evicted(f));
            assert log[j] == init[j];
          } else {
            assert log[n] == Pinned(f) || log[n] == Evicted(f);
          }
        }
      }
    }
  }

  /** The list is ordered by node identity, newest first. */
  ghost predicate Ordered(es: seq<Element>) {
    forall i, j :: 0 <= i < j < |es| ==> es[i].stamp > es[j].stamp
  }

  /** The list and the index hold the same nodes. */
  ghost predicate Linked(es: seq<Element>, ix: map<nat, Element>) {
    && (forall e :: e in es ==> e.frame in ix && ix[e.frame] == e)
    && (forall f :: f in ix ==> ix[f].frame == f && ix[f] in es)
  }

  /** The index holds exactly the candidates of the history, each dated by the call that added it. */
  ghost predicate Dated(ix: map<nat, Element>, log: seq<Event>) {
    && (forall f :: f in ix ==> AddedAt(log, f) == ix[f].stamp)
    && (forall f: nat :: f !in ix ==> AddedAt(log, f) < 0)
  }

  class Replacer {
    var order: seq<Element>       // front = most recently used, back = least
    var index: map<nat, Element>  // frame -> its list node
    var clock: nat                // source of fresh node identities
    ghost var log: seq<Event>

    ghost predicate Valid()
      reads this
    {
      clock == |log| && Ordered(order) && Linked(order, index) && Dated(index, log)
    }

    lemma Consistent()
      requires Valid()
      ensures Ordered(order) && Linked(order, index)
    {
    }

    constructor ()
      ensures Valid() && order == [] && index == map[] && log == []
    {
      order, index, clock, log := [], map[], 0, [];
    }

    /** Marks f evictable, at the most recent end; a frame already tracked keeps its place. */
    method Unpin(f: nat)
      requires Valid()
      modifies this
      ensures Valid() && log == old(log) + [Unpinned(f)]
      ensures index.Keys == old(index.Keys) + {f}
      ensures f in old(index) ==> order == old(order)
      ensures f !in old(index) ==> order == [Element(f, |old(log)|)] + old(order)
    {
      hide AddedAt, Ordered, Linked, Dated;
      DatedUnpin(index, log, f);
      if f !in index {
        PushFront(order, index, log, f);
        var e := Element(f, clock);
        order := [e] + order;
        index := index[f := e];
      }
      clock, log := clock + 1, log + [Unpinned(f)];
    }

    /** Marks f no longer evictable; no effect when f is not tracked. */
    method Pin(f: nat)
      requires Valid()
      modifies this
      ensures Valid() && log == old(log) + [Pinned(f)]
      ensures index == old(index) - {f}
      ensures order == Without(old(order), f)
    {
      hide AddedAt, Ordered, Linked, Dated;
      DatedRemove(index, log, f, Pinned(f));
      Unlink(order, index, f);
      if f !in index {
        WithoutAbsent(order, f);
        assert index - {f} == index;
      } else {
        WithoutOrdered(order, f);
        order := Without(order, f);
        index := index - {f};
      }
      clock, log := clock + 1, log + [Pinned(f)];
    }

    /** Takes the candidate that was added longest ago; fails exactly when there is none. */
    method Victim() returns (f: nat, ok: bool)
      requires Valid()
      modifies this
      ensures Valid() && log == old(log) + [if ok then Evicted(f) else NoVictim]
      ensures ok <==> old(index) != map[]
      ensures !ok ==> f == 0 && index == old(index) && order == old(order)
      ensures ok ==> f in old(index) && index == old(index) - {f}
      ensures ok ==> old(order) != [] && f == Back(old(order)) && order == old(order)[..|old(order)| - 1]
      ensures ok ==> Oldest(f, old(index), old(log))
    {
      hide AddedAt, Ordered, Dated;
      if order == [] {
        DatedNone(index, log);
        f, ok := 0, false;
        clock, log := clock + 1, log + [NoVictim];
        return;
      }
      var e := order[|order| - 1];
      assert e in order;
      f, ok := e.frame, true;
      BackIsOldest(order, index, log);
      DatedRemove(index, log, f, Evicted(f));
      UnlinkBack(order, index);
      order := order[..|order| - 1];
      index := index - {f};
      clock, log := clock + 1, log + [Evicted(f)];
    }
  }

  /** Every other candidate was added by a later call than f. */
  ghost predicate Oldest(f: nat, ix: map<nat, Element>, log: seq<Event>) {
    AddedAt(log, f) >= 0 && forall g :: g in ix && g != f ==> AddedAt(log, f) < AddedAt(log, g)
  }

  lemma BackIsOldest(es: seq<Element>, ix: map<nat, Element>, log: seq<Event>)
    requires es != [] && Ordered(es) && Linked(es, ix) && Dated(ix, log)
    ensures es[|es| - 1] in es && Oldest(es[|es| - 1].frame, ix, log)
  {
    var b := es[|es| - 1];
    assert b in es;
    forall g | g in ix && g != b.frame ensures AddedAt(log, b.frame) < AddedAt(log, g) {
      var i :| 0 <= i < |es| && es[i] == ix[g];
    }
  }

  /** The frame at the back of the list: the next victim. */
  function Back(es: seq<Element>): nat
    requires es != []
  {
    es[|es| - 1].frame
  }

  lemma UnlinkBack(es: seq<Element>, ix: map<nat, Element>)
    requires es != [] && Ordered(es) && Linked(es, ix)
    ensures var front := es[..|es| - 1]; Ordered(front) && Linked(front, ix - {Back(es)})
  {
    var n := |es| - 1;
    assert es[n] in es;
    forall e | e in es && e != es[n] ensures e in es[..n] {
      var i :| 0 <= i < |es| && es[i] == e;
      assert i < n && es[..n][i] == e;
    }
    forall e | e in es[..n] ensures e in es && e != es[n] {
      var i :| 0 <= i < n && es[..n][i] == e;
      assert es[i].stamp > es[n].stamp;
    }
  }

  // ---- a victim that is put back ----

  /** The list after its back was taken and, as eviction failed, unpinned again by the call number `stamp`. */
  function Requeued(es: seq<Element>, stamp: nat): (r: seq<Element>)
    requires es != []
    ensures r != []
  {
    [Element(Back(es), stamp)] + es[..|es| - 1]
  }

  function Frames(es: seq<Element>): (fs: seq<nat>)
    ensures |fs| == |es| && forall i :: 0 <= i < |es| ==> fs[i] == es[i].frame
  {
    seq(|es|, i requires 0 <= i < |es| => es[i].frame)
  }

  /**
    * A failed eviction leaves the order of the candidates as it was if and only if there was just one. With
    * two or more the next victim is another frame, so a page that cannot be written does not block the pool.
    */
  lemma RequeueReorders(es: seq<Element>, ix: map<nat, Element>, stamp: nat)
    requires es != [] && Ordered(es) && Linked(es, ix)
    ensures Frames(Requeued(es, stamp)) == Frames(es) <==> |es| == 1
    ensures |es| >= 2 ==> Back(Requeued(es, stamp)) == es[|es| - 2].frame != Back(es)
    ensures multiset(Frames(Requeued(es, stamp))) == multiset(Frames(es))
  {
    var n, r := |es| - 1, Requeued(es, stamp);
    RequeueFrames(es, stamp);
    if n >= 1 {
      NeighboursDiffer(es, ix, n - 1);
      assert Frames(r)[n] == es[n - 1].frame;
      assert Frames(es)[n] == Back(es);
    } else {
      assert Frames(r) == Frames(es);
    }
  }

  lemma NeighboursDiffer(es: seq<Element>, ix: map<nat, Element>, i: nat)
    requires i + 1 < |es| && Ordered(es) && Linked(es, ix)
    ensures es[i].frame != es[i + 1].frame
  {
    assert es[i] in es && es[i + 1] in es;
  }

  lemma RequeueFrames(es: seq<Element>, stamp: nat)
    requires es != []
    ensures Frames(Requeued(es, stamp)) == [Back(es)] + Frames(es)[..|es| - 1]
    ensures multiset(Frames(Requeued(es, stamp))) == multiset(Frames(es))
  {
    var n := |es| - 1;
    assert Frames(Requeued(es, stamp)) == [Back(es)] + Frames(es)[..n];
    assert Frames(es) == Frames(es)[..n] + [Back(es)];
  }

  /** Frames 1 and 0, unpinned in the order 0, 1: after a failed eviction of 0 the next victim is 1. */
  lemma RequeueExample()
    ensures var es := [Element(1, 1), Element(0, 0)];
      Frames(Requeued(es, 3)) == [0, 1] && Frames(es) == [1, 0] && Back(es) == 0 && Back(Requeued(es, 3)) == 1
  {
  }

  lemma AddedAtStep(log: seq<Event>, e: Event, f: nat)
    ensures AddedAt(log + [e], f) ==
      var before := AddedAt(log, f);
      if e == Unpinned(f) then (if before < 0 then |log| else before)
      else if e == Pinned(f) || e == Evicted(f) then -1
      else before
  {
    assert (log + [e])[..|log|] == log;
  }

  lemma DatedUnpin(ix: map<nat, Element>, log: seq<Event>, f: nat)
    requires Dated(ix, log)
    ensures Dated(if f in ix then ix else ix[f := Element(f, |log|)], log + [Unpinned(f)])
  {
    hide AddedAt;
    forall g: nat { AddedAtStep(log, Unpinned(f), g); }
  }

  lemma DatedRemove(ix: map<nat, Element>, log: seq<Event>, f: nat, e: Event)
    requires Dated(ix, log) && (e == Pinned(f) || e == Evicted(f))
    ensures Dated(ix - {f}, log + [e])
  {
    hide AddedAt;
    forall g: nat { AddedAtStep(log, e, g); }
  }

  lemma DatedNone(ix: map<nat, Element>, log: seq<Event>)
    requires Dated(ix, log)
    ensures Dated(ix, log + [NoVictim])
  {
    hide AddedAt;
    forall g: nat { AddedAtStep(log, NoVictim, g); }
  }

  lemma PushFront(es: seq<Element>, ix: map<nat, Element>, log: seq<Event>, f: nat)
    requires Ordered(es) && Linked(es, ix) && Dated(ix, log) && f !in ix
    ensures var e := Element(f, |log|); Ordered([e] + es) && Linked([e] + es, ix[f := e])
  {
    hide AddedAt;
    forall e | e in es ensures e.stamp < |log| {
      assert AddedAt(log, e.frame) < |log|;
    }
  }

  lemma Unlink(es: seq<Element>, ix: map<nat, Element>, f: nat)
    requires Linked(es, ix)
    ensures Linked(Without(es, f), ix - {f})
    ensures f !in ix ==> forall e :: e in es ==> e.frame != f
  {
  }

  /** The list with the node of frame f unlinked. */
  function Without(es: seq<Element>, f: nat): (r: seq<Element>)
    ensures forall e :: e in r <==> e in es && e.frame != f
  {
    if es == [] then [] else (if es[0].frame == f then [] else [es[0]]) + Without(es[1..], f)
  }

  lemma WithoutAbsent(es: seq<Element>, f: nat)
    requires forall e :: e in es ==> e.frame != f
    ensures Without(es, f) == es
  {
  }

  lemma WithoutOrdered(es: seq<Element>, f: nat)
    requires Ordered(es)
    ensures Ordered(Without(es, f))
  {
    if es != [] {
      WithoutOrdered(es[1..], f);
      assert forall e :: e in es[1..] ==> e in es && e.stamp < es[0].stamp;
    }
  }
}
