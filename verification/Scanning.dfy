/** Scans that feed items to a callback, which may end the scan. */
module Scanning {
  import opened Sequences

  /** A scan callback: from the calls made so far and the item, whether the scan goes on. */
  type Callback<!T> = (seq<T>, T) -> bool

  /** Every call but possibly the last asked to go on. */
  ghost predicate Accepted<T>(fn: Callback<T>, calls: seq<T>, n: nat) {
    n <= |calls| && forall i :: 0 <= i < n ==> fn(calls[..i], calls[i])
  }

  /** The callback ended the scan: it turned down the last of the calls, which are a prefix of `full`. */
  ghost predicate CutShort<T>(fn: Callback<T>, calls: seq<T>, full: seq<T>) {
    && 0 < |calls| <= |full| && calls == full[..|calls|]
    && Accepted(fn, calls, |calls| - 1) && !Accepted(fn, calls, |calls|)
  }

  lemma CallStep<T>(fn: Callback<T>, calls: seq<T>, e: T, rest: seq<T>, full: seq<T>)
    requires Accepted(fn, calls, |calls|) && full == calls + ([e] + rest)
    ensures var c := calls + [e];
      full == c + rest && (if fn(calls, e) then Accepted(fn, c, |c|) else CutShort(fn, c, full))
  {
    Assoc(calls, [e], rest);
    AcceptedStep(fn, calls, e, calls + [e]);
    assert full[..|calls| + 1] == calls + [e];
  }

  lemma AcceptedStep<T>(fn: Callback<T>, calls: seq<T>, e: T, c: seq<T>)
    requires Accepted(fn, calls, |calls|) && c == calls + [e]
    ensures Accepted(fn, c, |c| - 1) && (Accepted(fn, c, |c|) <==> fn(calls, e))
  {
    assert forall x :: 0 <= x < |calls| ==> c[..x] == calls[..x] && c[x] == calls[x];
    assert c[..|calls|] == calls && c[|calls|] == e;
  }

  lemma CutShorter<T>(fn: Callback<T>, calls: seq<T>, full: seq<T>, target: seq<T>)
    requires CutShort(fn, calls, full) && |full| <= |target| && full == target[..|full|]
    ensures CutShort(fn, calls, target)
  {
    assert target[..|full|][..|calls|] == target[..|calls|];
  }

  ghost predicate Prefix<T>(a: seq<T>, b: seq<T>) {
    |a| <= |b| && a == b[..|a|]
  }

  lemma PrefixOf<T>(a: seq<T>, b: seq<T>)
    ensures Prefix(a, a + b) && (a == [] ==> Prefix(a, b))
  {
  }
}
