/** Which page leaves memory: over any run, the one whose last pin was released longest ago. */
module Eviction {
  import opened BufferPool
  import opened Clients

  /** The last turn before j that released page k; -1 if none did. */
  function LastRelease(schedule: seq<Turn>, done: seq<bool>, k: PageKey, j: nat): (i: int)
    requires j <= |schedule| == |done|
    ensures -1 <= i < j
    ensures i >= 0 ==> done[i] && schedule[i].action.Release? && schedule[i].action.key == k
    ensures forall x :: i < x < j && done[x] && schedule[x].action.Release? ==> schedule[x].action.key != k
  {
    if j == 0 then -1
    else if done[j - 1] && schedule[j - 1].action.Release? && schedule[j - 1].action.key == k then j - 1
    else LastRelease(schedule, done, k, j - 1)
  }

  /** The place of k in a list. */
  function Place(ks: seq<PageKey>, k: PageKey): (i: nat)
    ensures i <= |ks| && (k in ks ==> i < |ks| && ks[i] == k)
  {
    if ks == [] || ks[0] == k then 0 else 1 + Place(ks[1..], k)
  }

  /** In this turn the page that was to leave memory could not be written back. */
  ghost predicate TurnedAway(m: Moment, m': Moment, t: Turn, done: bool) {
    && !done && (t.action.Fetch? || t.action.NewPage?) && m'.faults > m.faults
    && |m.cache.resident| >= |m.memory| && m.cache.idle != [] && m'.cache.resident == m.cache.resident
  }

  /**
    * Since which turn page k has been waiting at moment j: its last release, or the last time it could not be written
    * back. Pages that have been idle from the start come before all turns, by their place then.
    */
  ghost function Since(trace: seq<Moment>, schedule: seq<Turn>, done: seq<bool>, k: PageKey, j: nat): (i: int)
    requires |trace| == |schedule| + 1 && j <= |schedule| == |done|
    ensures i < j
  {
    if j == 0 then -1 - Place(trace[0].cache.idle, k)
    else
      var n, t := j - 1, schedule[j - 1];
      if done[n] && t.action.Release? && t.action.key == k then n
      else if TurnedAway(trace[n], trace[j], t, done[n]) && k == Last(trace[n].cache.idle) then n
      else Since(trace, schedule, done, k, n)
  }

  ghost function Last(ks: seq<PageKey>): PageKey {
    if ks == [] then PageKey(0, 0) else ks[|ks| - 1]
  }

  // ---- lists by age ----

  /** The list goes from the youngest to the oldest. */
  ghost predicate Aged(ks: seq<PageKey>, since: PageKey -> int) {
    forall a, b :: 0 <= a < b < |ks| ==> since(ks[a]) > since(ks[b])
  }

  lemma AgedSame(ks: seq<PageKey>, f: PageKey -> int, g: PageKey -> int)
    requires Aged(ks, f) && forall k :: k in ks ==> g(k) == f(k)
    ensures Aged(ks, g)
  {
  }

  lemma AgedFront(ks: seq<PageKey>, f: PageKey -> int, g: PageKey -> int, k: PageKey)
    requires Aged(ks, f) && forall x :: x in ks ==> g(x) == f(x) < g(k)
    ensures Aged([k] + ks, g)
  {
    var r := [k] + ks;
    forall a, b | 0 <= a < b < |r| ensures g(r[a]) > g(r[b]) {
      assert r[b] == ks[b - 1];
      if a > 0 { assert r[a] == ks[a - 1]; }
    }
  }

  lemma {:induction false} AgedMinus(ks: seq<PageKey>, f: PageKey -> int, k: PageKey)
    requires Aged(ks, f)
    ensures Aged(Minus(ks, k), f)
  {
    if ks != [] {
      var rest := ks[1..];
      AgedMinus(rest, f, k);
      if ks[0] != k {
        forall x | x in Minus(rest, k) ensures f(x) < f(ks[0]) {
          var i :| 0 <= i < |rest| && rest[i] == x;
          assert ks[i + 1] == x;
        }
        AgedFront(Minus(rest, k), f, f, ks[0]);
      }
    }
  }

  lemma {:induction false} PlaceOf(ks: seq<PageKey>, a: nat)
    requires a < |ks| && forall i, j :: 0 <= i < j < |ks| ==> ks[i] != ks[j]
    ensures Place(ks, ks[a]) == a
    decreases a
  {
    if a > 0 {
      assert ks[1..][a - 1] == ks[a];
      PlaceOf(ks[1..], a - 1);
    }
  }

  // ---- over a run ----

  /** The idle pages of a moment are listed by how long they have been waiting. */
  ghost predicate InTurn(trace: seq<Moment>, schedule: seq<Turn>, done: seq<bool>, j: nat)
    requires |trace| == |schedule| + 1 && j <= |schedule| == |done|
  {
    Aged(trace[j].cache.idle, k => Since(trace, schedule, done, k, j))
  }

  lemma {:induction false} AlwaysInTurn(trace: seq<Moment>, schedule: seq<Turn>, done: seq<bool>, j: nat)
    requires IsRun(trace, schedule, done) && j <= |schedule|
    ensures InTurn(trace, schedule, done, j)
    decreases j
  {
    hide Agrees, Recorded, Stepped, Due;
    if j == 0 {
      var ks := trace[0].cache.idle;
      assert Coherent(trace[0]);
      forall a | 0 <= a < |ks| ensures Place(ks, ks[a]) == a { PlaceOf(ks, a); }
    } else {
      var n := j - 1;
      AlwaysInTurn(trace, schedule, done, n);
      assert TurnedAt(trace, schedule, done, n) && Coherent(trace[n]);
      StillInTurn(trace, schedule, done, n);
    }
  }

  lemma StillInTurn(trace: seq<Moment>, schedule: seq<Turn>, done: seq<bool>, n: nat)
    requires |trace| == |schedule| + 1 && n < |schedule| == |done|
    requires InTurn(trace, schedule, done, n) && Coherent(trace[n])
    requires Turned(trace[n], trace[n + 1], schedule[n], done[n])
    ensures InTurn(trace, schedule, done, n + 1)
  {
    hide Turned, Coherent, Minus, TurnedAway;
    var m, m', t := trace[n], trace[n + 1], schedule[n];
    var ks, ks' := m.cache.idle, m'.cache.idle;
    var f := k => Since(trace, schedule, done, k, n);
    var g := k => Since(trace, schedule, done, k, n + 1);
    if t.action.Release? {
      AfterRelease(m, m', t, done[n]);
      if ks' != ks { AgedFront(ks, f, g, t.action.key); } else { AgedSame(ks, f, g); }
    } else if TurnedAway(m, m', t, done[n]) {
      AfterTurningAway(m, m', t, done[n]);
      AgedSame(ks[..|ks| - 1], f, g);
      AgedFront(ks[..|ks| - 1], f, g, Last(ks));
    } else {
      AfterOther(m, m', t, done[n]);
      AgedSame(ks, f, g);
      AgedMinus(ks, g, Wanted(t));
    }
  }

  /** The page a fetch asks for. */
  ghost function Wanted(t: Turn): PageKey {
    if t.action.Fetch? then PageKey(t.action.file, t.action.pid) else PageKey(0, 0)
  }

  /** A page that is released was pinned, and so not idle. */
  lemma AfterRelease(m: Moment, m': Moment, t: Turn, done: bool)
    requires Coherent(m) && Turned(m, m', t, done) && t.action.Release?
    ensures var k, ks := t.action.key, m.cache.idle;
      && (done ==> k !in ks) && (m'.cache.idle == ks || (done && m'.cache.idle == [k] + ks))
      && m'.cache.resident == m.cache.resident && !TurnedAway(m, m', t, done)
  {
    hide Agrees, Stepped, Due;
    if done { assert Bound(m, t.client, t.action.key); }
  }

  lemma AfterTurningAway(m: Moment, m': Moment, t: Turn, done: bool)
    requires Coherent(m) && Turned(m, m', t, done) && TurnedAway(m, m', t, done)
    ensures var ks, n := m.cache.idle, |m.cache.idle| - 1;
      n >= 0 && m'.cache.idle == [Last(ks)] + ks[..n] && Last(ks) !in ks[..n]
  {
    hide Agrees, Recorded, Stepped, Due;
    assert Last(m.cache.idle) in m.cache.resident;
  }

  lemma AfterOther(m: Moment, m': Moment, t: Turn, done: bool)
    requires Coherent(m) && Turned(m, m', t, done) && !t.action.Release? && !TurnedAway(m, m', t, done)
    ensures var ks, ks', n := m.cache.idle, m'.cache.idle, |m.cache.idle| - 1;
      ks' == ks || ks' == Minus(ks, Wanted(t)) || (n >= 0 && ks' == ks[..n])
  {
    hide Agrees, Recorded, Stepped, Due, Minus;
  }

  // ---- the law ----

  /** The turn needs a frame: it adds a page, or fetches one that is not in memory. */
  ghost predicate NeedsFrame(m: Moment, t: Turn) {
    t.action.NewPage? || (t.action.Fetch? && Wanted(t) !in m.cache.resident)
  }

  /** A page leaves memory only for a frame that is needed where none is free, and only from the back of the list. */
  lemma LeavesFromBack(m: Moment, m': Moment, t: Turn, done: bool, x: PageKey)
    requires Coherent(m) && Turned(m, m', t, done) && x in m.cache.resident && x !in m'.cache.resident
    ensures NeedsFrame(m, t) && |m.cache.resident| == |m.memory|
    ensures m.cache.idle != [] && x == Last(m.cache.idle) && Outstanding(m.ledger, x) == 0
    ensures forall y :: y in m.cache.resident && y != x ==> y in m'.cache.resident
  {
    hide Recorded, Stepped, Due, Minus, Bound;
    assert m.view.Pins(x) == Outstanding(m.ledger, x);
  }

  /**
    * The page that a turn pushes out of memory has been waiting longer than every other page that nobody pins, whatever
    * failed before.
    */
  lemma LongestWaiting(trace: seq<Moment>, schedule: seq<Turn>, done: seq<bool>, i: nat, x: PageKey, y: PageKey)
    requires IsRun(trace, schedule, done) && i < |schedule|
    requires x in trace[i].cache.resident && x !in trace[i + 1].cache.resident
    requires y in trace[i].cache.resident && Outstanding(trace[i].ledger, y) == 0 && y != x
    ensures Outstanding(trace[i].ledger, x) == 0 && NeedsFrame(trace[i], schedule[i])
    ensures |trace[i].cache.resident| == |trace[i].memory| && y in trace[i + 1].cache.resident
    ensures Since(trace, schedule, done, x, i) < Since(trace, schedule, done, y, i)
  {
    hide Turned, Since, Bound;
    var m := trace[i];
    assert TurnedAt(trace, schedule, done, i) && Coherent(m);
    AlwaysInTurn(trace, schedule, done, i);
    LeavesFromBack(m, trace[i + 1], schedule[i], done[i], x);
    assert m.view.Pins(y) == Outstanding(m.ledger, y);
    assert y in m.cache.idle;
    var a :| 0 <= a < |m.cache.idle| && m.cache.idle[a] == y;
  }

  /** Up to moment j no page that was to leave memory could not be written back. */
  ghost predicate WrittenBack(trace: seq<Moment>, schedule: seq<Turn>, done: seq<bool>, j: nat)
    requires |trace| == |schedule| + 1 && j <= |schedule| == |done|
  {
    forall i :: 0 <= i < j ==> !TurnedAway(trace[i], trace[i + 1], schedule[i], done[i])
  }

  lemma {:induction false} SinceRelease(trace: seq<Moment>, schedule: seq<Turn>, done: seq<bool>, k: PageKey, j: nat)
    requires |trace| == |schedule| + 1 && j <= |schedule| == |done| && WrittenBack(trace, schedule, done, j)
    ensures var r := LastRelease(schedule, done, k, j);
      Since(trace, schedule, done, k, j) == if r >= 0 then r else -1 - Place(trace[0].cache.idle, k)
    decreases j
  {
    hide TurnedAway;
    if j > 0 { SinceRelease(trace, schedule, done, k, j - 1); }
  }

  /**
    * Read off the schedule alone: among the pages in memory that nobody pins, the one that a turn pushes out is the one
    * whose last release lies furthest back, where no write-back failed. Pages not released since the start of the run
    * come first, in the order in which they were waiting then.
    */
  lemma LeastRecentlyReleased(trace: seq<Moment>, schedule: seq<Turn>, done: seq<bool>, i: nat, x: PageKey, y: PageKey)
    requires IsRun(trace, schedule, done) && i < |schedule| && WrittenBack(trace, schedule, done, i)
    requires x in trace[i].cache.resident && x !in trace[i + 1].cache.resident
    requires y in trace[i].cache.resident && Outstanding(trace[i].ledger, y) == 0 && y != x
    ensures var rx, ry := LastRelease(schedule, done, x, i), LastRelease(schedule, done, y, i);
      rx < ry || (rx == ry == -1 && Place(trace[0].cache.idle, x) > Place(trace[0].cache.idle, y))
  {
    hide Coherent, TurnedAt, WrittenBack;
    LongestWaiting(trace, schedule, done, i, x, y);
    SinceRelease(trace, schedule, done, x, i);
    SinceRelease(trace, schedule, done, y, i);
  }

  /** A turn that needs a frame where none is free pushes out exactly one page, if it is done. */
  lemma OneLeaves(m: Moment, m': Moment, t: Turn)
    requires Coherent(m) && Turned(m, m', t, true) && NeedsFrame(m, t) && |m.cache.resident| == |m.memory|
    requires m.cache.idle != []
    ensures var x := Last(m.cache.idle); x in m.cache.resident && x !in m'.cache.resident
  {
    hide Agrees, Stepped, Due, Minus;
    var x := Last(m.cache.idle);
    assert x in m.cache.idle && x in m.cache.resident;
  }
}
