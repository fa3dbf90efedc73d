/** Reading and writing a run of bits inside bytes, seen as one stream, most significant bit first. */
module Bits {
  import opened Pages

  // ---- unsigned words, bit by bit ----

  /** Bit k of w, bit 0 being the least significant. */
  predicate Bit(w: nat, k: nat)
    decreases k
  {
    if k == 0 then w % 2 == 1 else Bit(w / 2, k - 1)
  }

  function Shr(w: nat, k: nat): nat
    decreases k
  {
    if k == 0 then w else Shr(w / 2, k - 1)
  }

  function Shl(w: nat, k: nat): nat
    decreases k
  {
    if k == 0 then w else 2 * Shl(w, k - 1)
  }

  /** The low n bits: what a conversion to an n-bit word keeps. */
  function Low(w: nat, n: nat): nat
    decreases n
  {
    if n == 0 then 0 else 2 * Low(w / 2, n - 1) + w % 2
  }

  function And(x: nat, y: nat): nat {
    if x == 0 || y == 0 then 0 else 2 * And(x / 2, y / 2) + (x % 2) * (y % 2)
  }

  function Or(x: nat, y: nat): nat
    decreases x + y
  {
    if x == 0 then y else if y == 0 then x else 2 * Or(x / 2, y / 2) + (if x % 2 + y % 2 > 0 then 1 else 0)
  }

  /** x with the bits of y cleared. */
  function AndNot(x: nat, y: nat): nat {
    if x == 0 then 0 else 2 * AndNot(x / 2, y / 2) + (if x % 2 == 1 && y % 2 == 0 then 1 else 0)
  }

  lemma {:induction false} ZeroBit(k: nat)
    ensures !Bit(0, k)
    decreases k
  {
    if k > 0 { ZeroBit(k - 1); }
  }

  lemma {:induction false} ShrBit(w: nat, t: nat, k: nat)
    ensures Bit(Shr(w, t), k) == Bit(w, t + k)
    decreases t
  {
    if t > 0 { ShrBit(w / 2, t - 1, k); }
  }

  lemma {:induction false} ShlBit(w: nat, t: nat, k: nat)
    ensures Bit(Shl(w, t), k) == (k >= t && Bit(w, k - t))
    decreases t
  {
    if t > 0 && k > 0 { ShlBit(w, t - 1, k - 1); }
  }

  lemma {:induction false} LowBit(w: nat, n: nat, k: nat)
    ensures Bit(Low(w, n), k) == (k < n && Bit(w, k))
    decreases n
  {
    if n == 0 {
      ZeroBit(k);
    } else if k > 0 {
      LowBit(w / 2, n - 1, k - 1);
    }
  }

  lemma {:induction false} AndBit(x: nat, y: nat, k: nat)
    ensures Bit(And(x, y), k) == (Bit(x, k) && Bit(y, k))
    decreases k
  {
    if x == 0 || y == 0 {
      ZeroBit(k);
    } else if k > 0 {
      AndBit(x / 2, y / 2, k - 1);
    }
  }

  lemma {:induction false} OrBit(x: nat, y: nat, k: nat)
    ensures Bit(Or(x, y), k) == (Bit(x, k) || Bit(y, k))
    decreases k
  {
    if x == 0 || y == 0 {
      ZeroBit(k);
    } else if k > 0 {
      OrBit(x / 2, y / 2, k - 1);
    }
  }

  lemma {:induction false} AndNotBit(x: nat, y: nat, k: nat)
    ensures Bit(AndNot(x, y), k) == (Bit(x, k) && !Bit(y, k))
    decreases k
  {
    if x == 0 {
      ZeroBit(k);
    } else if k > 0 {
      AndNotBit(x / 2, y / 2, k - 1);
    }
  }

  lemma {:induction false} MaskBit(n: nat, k: nat)
    ensures Shl(1, n) >= 1 && Bit(Shl(1, n) - 1, k) == (k < n)
    decreases n
  {
    if n == 0 {
      ZeroBit(k);
    } else {
      MaskBit(n - 1, if k > 0 then k - 1 else 0);
      DoubleLessOne(Shl(1, n - 1), k);
    }
  }

  lemma DoubleLessOne(w: nat, k: nat)
    requires w >= 1
    ensures Bit(2 * w - 1, k) == (k == 0 || Bit(w - 1, k - 1))
  {
    assert (2 * w - 1) / 2 == w - 1 && (2 * w - 1) % 2 == 1;
  }

  /** A word is its bits. */
  lemma {:induction false} SameBits(x: nat, y: nat)
    requires forall k :: Bit(x, k) == Bit(y, k)
    ensures x == y
    decreases x + y
  {
    assert Bit(x, 0) == Bit(y, 0);
    if x != 0 || y != 0 {
      forall k: nat ensures Bit(x / 2, k) == Bit(y / 2, k) {
        assert Bit(x, k + 1) == Bit(y, k + 1);
      }
      SameBits(x / 2, y / 2);
    }
  }

  /** A word below 2^n has no bit at n or above. */
  lemma {:induction false} NoHighBit(w: nat, n: nat, k: nat)
    requires w < Shl(1, n) && k >= n
    ensures !Bit(w, k)
    decreases n
  {
    if n == 0 { ZeroBit(k); } else { NoHighBit(w / 2, n - 1, k - 1); }
  }

  /** A word with no bit at n or above is below 2^n. */
  lemma {:induction false} OnlyLowBits(w: nat, n: nat)
    requires forall k :: k >= n ==> !Bit(w, k)
    ensures w < Shl(1, n)
    decreases n
  {
    if n == 0 {
      forall k: nat ensures Bit(w, k) == Bit(0, k) { ZeroBit(k); }
      SameBits(w, 0);
    } else {
      forall k | k >= n - 1 ensures !Bit(w / 2, k) { assert !Bit(w, k + 1); }
      OnlyLowBits(w / 2, n - 1);
    }
  }

  /** A byte is its eight bits. */
  lemma SameByte(x: byte, y: byte)
    requires forall k :: 0 <= k < 8 ==> Bit(x, k) == Bit(y, k)
    ensures x == y
  {
    hide Bit, Shl;
    forall k: nat ensures Bit(x, k) == Bit(y, k) {
      if k >= 8 {
        Powers();
        NoHighBit(x, 8, k);
        NoHighBit(y, 8, k);
      }
    }
    SameBits(x, y);
  }

  // ---- the bit stream ----

  /** Bit x of the stream. */
  predicate BitAt(b: Bytes, x: nat)
    requires x < 8 * |b|
  {
    Bit(b[x / 8], 7 - x % 8)
  }

  /** The value of the run of n bits from bit off on, most significant first. */
  function RunValue(b: Bytes, off: nat, n: nat): nat
    requires off + n <= 8 * |b|
  {
    if n == 0 then 0 else 2 * RunValue(b, off, n - 1) + (if BitAt(b, off + n - 1) then 1 else 0)
  }

  lemma {:induction false} RunBit(b: Bytes, off: nat, n: nat, k: nat)
    requires off + n <= 8 * |b|
    ensures Bit(RunValue(b, off, n), k) == (k < n && BitAt(b, off + n - 1 - k))
    decreases n
  {
    if n == 0 {
      ZeroBit(k);
    } else if k > 0 {
      RunBit(b, off, n - 1, k - 1);
    }
  }

  /** Equal runs have equal bits. */
  lemma SameRunBits(b: Bytes, b': Bytes, off: nat, n: nat, x: nat)
    requires |b'| == |b| && off + n <= 8 * |b| && RunValue(b, off, n) == RunValue(b', off, n) && off <= x < off + n
    ensures BitAt(b, x) == BitAt(b', x)
  {
    hide RunValue, BitAt;
    RunBit(b, off, n, off + n - 1 - x);
    RunBit(b', off, n, off + n - 1 - x);
  }

  /** b' is b with the n bits at off replaced by the low n bits of v. */
  ghost predicate Written(b: Bytes, b': Bytes, off: nat, n: nat, v: nat) {
    && |b'| == |b| && off + n <= 8 * |b|
    && forall x :: 0 <= x < 8 * |b| ==>
         BitAt(b', x) == if off <= x < off + n then Bit(v, off + n - 1 - x) else BitAt(b, x)
  }

  /** A run written is read back, and runs that do not meet it keep their value. */
  lemma WrittenRuns(b: Bytes, b': Bytes, off: nat, n: nat, v: nat)
    requires Written(b, b', off, n, v)
    ensures v < Shl(1, n) ==> RunValue(b', off, n) == v
    ensures forall o, m :: 0 <= o && 0 <= m && o + m <= 8 * |b| && (o + m <= off || off + n <= o) ==>
      RunValue(b', o, m) == RunValue(b, o, m)
  {
    if v < Shl(1, n) {
      forall k: nat ensures Bit(RunValue(b', off, n), k) == Bit(v, k) {
        RunBit(b', off, n, k);
        if k >= n { NoHighBit(v, n, k); }
      }
      SameBits(RunValue(b', off, n), v);
    }
    forall o, m | 0 <= o && 0 <= m && o + m <= 8 * |b| && (o + m <= off || off + n <= o)
      ensures RunValue(b', o, m) == RunValue(b, o, m)
    {
      RunSame(b, b', off, n, v, o, m);
    }
  }

  lemma {:induction false} RunSame(b: Bytes, b': Bytes, off: nat, n: nat, v: nat, o: nat, m: nat)
    requires Written(b, b', off, n, v) && o + m <= 8 * |b| && (o + m <= off || off + n <= o)
    ensures RunValue(b', o, m) == RunValue(b, o, m)
    decreases m
  {
    if m > 0 { RunSame(b, b', off, n, v, o, m - 1); }
  }

  // ---- the window: the bytes a run touches, as one 32-bit word ----

  /** The n bytes from s on, packed most significant first. */
  function Window(b: Bytes, s: nat, n: nat): nat
    requires s + n <= |b|
  {
    if n == 0 then 0 else Or(Low(Shl(Window(b, s, n - 1), 8), 32), b[s + n - 1])
  }

  lemma Powers()
    ensures Shl(1, 8) == 256 && Shl(1, 16) == 0x1_0000
  {
    assert Shl(1, 2) == 4;
    assert Shl(1, 4) == 16;
    assert Shl(1, 6) == 64;
    assert Shl(1, 8) == 256;
    assert Shl(1, 10) == 1024;
    assert Shl(1, 12) == 4096;
    assert Shl(1, 14) == 16384;
  }

  lemma {:induction false} WindowBit(b: Bytes, s: nat, n: nat, k: nat)
    requires s + n <= |b| && n <= 3
    ensures Bit(Window(b, s, n), k) == (k < 8 * n && Bit(b[s + n - 1 - k / 8], k % 8))
    decreases n
  {
    hide Bit, Shl, Or, Low;
    if n == 0 {
      ZeroBit(k);
    } else {
      var w := Window(b, s, n - 1);
      var x: nat := b[s + n - 1];
      OrBit(Low(Shl(w, 8), 32), x, k);
      LowBit(Shl(w, 8), 32, k);
      ShlBit(w, 8, k);
      if k >= 8 {
        Powers();
        NoHighBit(x, 8, k);
        WindowBit(b, s, n - 1, k - 8);
        assert (k - 8) / 8 == k / 8 - 1 && (k - 8) % 8 == k % 8;
      }
    }
  }

  /** Bit x of the stream, found in the window. */
  lemma StreamBit(b: Bytes, s: nat, n: nat, x: nat)
    requires s + n <= |b| && n <= 3 && 8 * s <= x < 8 * (s + n)
    ensures BitAt(b, x) == Bit(Window(b, s, n), 8 * (s + n) - 1 - x)
  {
    hide Bit, Window;
    var k := 8 * (s + n) - 1 - x;
    WindowBit(b, s, n, k);
    assert k / 8 == s + n - 1 - x / 8 && k % 8 == 7 - x % 8;
  }

  /** Where a run of `length` bits at `offset` lies: its bytes, and the bits after it in the last one. */
  ghost predicate Spans(offset: nat, length: nat, s: nat, n: nat, tail: nat) {
    1 <= n <= 3 && s == offset / 8 && 8 * s + tail + length + offset % 8 == 8 * (s + n) && tail < 8 && length <= 16
  }

  /** The run, cut out of the window by shift and mask. */
  lemma CutOut(b: Bytes, offset: nat, length: nat, s: nat, n: nat, tail: nat)
    requires Spans(offset, length, s, n, tail) && s + n <= |b| && offset + length <= 8 * |b|
    ensures Shl(1, length) >= 1 && And(Shr(Window(b, s, n), tail), Shl(1, length) - 1) == RunValue(b, offset, length)
  {
    hide Bit, Shr, Shl, And, Window, RunValue, BitAt;
    var w := Window(b, s, n);
    MaskBit(length, 0);
    var mask: nat := Shl(1, length) - 1;
    var r := And(Shr(w, tail), mask);
    forall k: nat ensures Bit(r, k) == Bit(RunValue(b, offset, length), k) {
      AndBit(Shr(w, tail), mask, k);
      ShrBit(w, tail, k);
      MaskBit(length, k);
      RunBit(b, offset, length, k);
      if k < length {
        StreamBit(b, s, n, offset + length - 1 - k);
      }
    }
    SameBits(r, RunValue(b, offset, length));
  }

  /** The last byte of the run, computed in 16 bits. */
  function EndByte(offset: nat, length: nat): nat
    requires length >= 1
  {
    (offset + length - 1) % 0x1_0000 / 8
  }

  /** An accepted run ends by bit 65536. Bytes up to a page, 8192, have no other. */
  predicate InReach(size: nat, offset: nat, length: nat) {
    1 <= length <= 16 && offset + length <= 8 * size ==> offset + length <= 0x1_0000
  }

  /** The slice of the run's bytes has its bounds reversed, and so panics, exactly when the run ends past bit 65536. */
  lemma OutOfReach(offset: u16, length: nat)
    requires 1 <= length <= 16
    ensures offset / 8 > EndByte(offset, length) + 1 <==> offset + length > 0x1_0000
  {
    if offset + length <= 0x1_0000 {
      assert EndByte(offset, length) == (offset + length - 1) / 8;
    } else {
      assert (offset + length - 1) % 0x1_0000 == offset + length - 1 - 0x1_0000;
    }
  }

  method Locate(offset: u16, length: nat, size: nat) returns (start: nat, n: nat, tail: nat)
    requires 1 <= length <= 16 && offset + length <= 8 * size && InReach(size, offset, length)
    ensures Spans(offset, length, start, n, tail) && start + n <= size
  {
    start := offset / 8;
    var end := EndByte(offset, length);
    assert end == (offset + length - 1) / 8;
    n := end + 1 - start;
    tail := 8 * n - offset % 8 - length;
  }

  method PackWindow(bytes: Bytes, start: nat, n: nat) returns (w: nat)
    requires start + n <= |bytes|
    ensures w == Window(bytes, start, n)
  {
    hide Or, Low, Shl;
    w := 0;
    for i := 0 to n
      invariant w == Window(bytes, start, i)
    {
      w := Or(Low(Shl(w, 8), 32), bytes[start + i]);
    }
  }

  /** Reads the run; fails when its length is not 1 to 16 or it does not lie inside the bytes. */
  method ReadBits(bytes: Bytes, offset: u16, length: byte) returns (ok: bool, v: nat)
    requires InReach(|bytes|, offset, length)
    ensures ok <==> 1 <= length <= 16 && offset + length <= 8 * |bytes|
    ensures ok ==> v == RunValue(bytes, offset, length) && v < 0x1_0000
    ensures !ok ==> v == 0
  {
    hide Shr, Shl, And, RunValue, Window, Spans;
    if length == 0 || length > 16 || offset + length > 8 * |bytes| {
      return false, 0;
    }
    var start, n, tail := Locate(offset, length, |bytes|);
    var windowVal := PackWindow(bytes, start, n);
    CutOut(bytes, offset, length, start, n, tail);
    RunBound(bytes, offset, length, 16);
    var mask := Shl(1, length) - 1;
    v := And(Shr(windowVal, tail), mask);
    return true, v;
  }

  /** The window with the run replaced: clear it, then merge the value in. */
  function Merged(w: nat, length: nat, tail: nat, v: nat): nat
    requires Shl(1, length) >= 1
  {
    Or(AndNot(w, Shl(Shl(1, length) - 1, tail)), Shl(v, tail))
  }

  lemma MergedBit(w: nat, length: nat, tail: nat, v: nat, k: nat)
    requires Shl(1, length) >= 1 && v < Shl(1, length)
    ensures Bit(Merged(w, length, tail, v), k) == if tail <= k < tail + length then Bit(v, k - tail) else Bit(w, k)
  {
    hide Bit, Shl, Or, AndNot;
    var mask: nat := Shl(1, length) - 1;
    OrBit(AndNot(w, Shl(mask, tail)), Shl(v, tail), k);
    AndNotBit(w, Shl(mask, tail), k);
    ShlBit(mask, tail, k);
    ShlBit(v, tail, k);
    if k >= tail {
      MaskBit(length, k - tail);
      if k >= tail + length { NoHighBit(v, length, k - tail); }
    }
  }

  /** b' holds the word w in the n bytes from s on, most significant first, and is b elsewhere. */
  ghost predicate Unpacked(b: Bytes, b': Bytes, s: nat, n: nat, w: nat) {
    && |b'| == |b| && s + n <= |b|
    && (forall i :: 0 <= i < |b| && !(s <= i < s + n) ==> b'[i] == b[i])
    && (forall i :: s <= i < s + n ==> b'[i] == Low(Shr(w, 8 * (s + n - 1 - i)), 8))
  }

  lemma UnpackedBit(b: Bytes, b': Bytes, s: nat, n: nat, w: nat, x: nat)
    requires Unpacked(b, b', s, n, w) && x < 8 * |b|
    ensures BitAt(b', x) == if 8 * s <= x < 8 * (s + n) then Bit(w, 8 * (s + n) - 1 - x) else BitAt(b, x)
  {
    hide Bit, Low, Shr;
    if 8 * s <= x < 8 * (s + n) {
      var i := x / 8;
      var t := 8 * (s + n - 1 - i);
      LowBit(Shr(w, t), 8, 7 - x % 8);
      ShrBit(w, t, 7 - x % 8);
      assert t + (7 - x % 8) == 8 * (s + n) - 1 - x;
    }
  }

  lemma MergedIsWritten(b: Bytes, b': Bytes, offset: nat, length: nat, s: nat, n: nat, tail: nat, v: nat)
    requires Spans(offset, length, s, n, tail) && s + n <= |b| && offset + length <= 8 * |b|
    requires Shl(1, length) >= 1 && v < Shl(1, length) && |b'| == |b|
    requires Unpacked(b, b', s, n, Merged(Window(b, s, n), length, tail, v))
    ensures Written(b, b', offset, length, v)
  {
    hide Bit, Shl, Window, Merged, BitAt, Unpacked;
    var w := Window(b, s, n);
    forall x | 0 <= x < 8 * |b|
      ensures BitAt(b', x) == if offset <= x < offset + length then Bit(v, offset + length - 1 - x) else BitAt(b, x)
    {
      UnpackedBit(b, b', s, n, Merged(w, length, tail, v), x);
      if 8 * s <= x < 8 * (s + n) {
        MergedBit(w, length, tail, v, 8 * (s + n) - 1 - x);
        StreamBit(b, s, n, x);
      }
    }
  }

  /** Stores the window word into the n bytes of a from `start` on. */
  method UnpackWindow(a: array<byte>, start: nat, n: nat, w: nat)
    requires start + n <= a.Length
    modifies a
    ensures Unpacked(old(a[..]), a[..], start, n, w)
  {
    hide Low, Shr;
    var rest := w;
    var i := n;
    ShrNone(w);
    while i > 0
      invariant 0 <= i <= n
      invariant rest == Shr(w, 8 * (n - i))
      invariant forall j :: 0 <= j < a.Length && !(start + i <= j < start + n) ==> a[j] == old(a[j])
      invariant forall j :: start + i <= j < start + n ==> a[j] == Low(Shr(w, 8 * (start + n - 1 - j)), 8)
    {
      i := i - 1;
      LowByte(rest);
      a[start + i] := Low(rest, 8);
      ShrTwice(w, 8 * (n - 1 - i), 8);
      rest := Shr(rest, 8);
    }
  }

  lemma ShrNone(w: nat)
    ensures Shr(w, 0) == w
  {
  }

  lemma {:induction false} ShrTwice(w: nat, s: nat, t: nat)
    ensures Shr(Shr(w, s), t) == Shr(w, s + t)
    decreases s
  {
    if s > 0 { ShrTwice(w / 2, s - 1, t); }
  }

  lemma LowByte(w: nat)
    ensures Low(w, 8) < 256
  {
    hide Bit, Low, Shl;
    forall k: nat | k >= 8 ensures !Bit(Low(w, 8), k) { LowBit(w, 8, k); }
    OnlyLowBits(Low(w, 8), 8);
    Powers();
  }

  /**
    * Writes the run into the `size` bytes of a from `base` on; fails, changing nothing, when the
    * length is not 1 to 16, the run does not lie inside those bytes, or the value does not fit it.
    */
  method WriteBits(a: array<byte>, base: nat, size: nat, offset: u16, length: byte, v: nat) returns (ok: bool)
    requires base + size <= a.Length && InReach(size, offset, length)
    modifies a
    ensures ok <==> 1 <= length <= 16 && offset + length <= 8 * size && v < Shl(1, length)
    ensures a[..base] == old(a[..base]) && a[base + size..] == old(a[base + size..])
    ensures ok ==> Written(old(a[base..base + size]), a[base..base + size], offset, length, v)
    ensures !ok ==> a[..] == old(a[..])
  {
    if length == 0 || length > 16 || offset + length > 8 * size || v > Shl(1, length) - 1 {
      return false;
    }
    hide Shl, Window, Merged, Unpacked, Written, Spans;
    MaskBit(length, 0);
    var start, n, tail := Locate(offset, length, size);
    ghost var b := a[base..base + size];
    var windowVal := PackWindow(a[base..base + size], start, n);
    windowVal := Merged(windowVal, length, tail, v);
    UnpackWindow(a, base + start, n, windowVal);
    Shifted(old(a[..]), a[..], base, size, start, n, windowVal);
    MergedIsWritten(b, a[base..base + size], offset, length, start, n, tail, v);
    return true;
  }

  lemma Shifted(b: Bytes, b': Bytes, base: nat, size: nat, s: nat, n: nat, w: nat)
    requires base + size <= |b| && s + n <= size && Unpacked(b, b', base + s, n, w)
    ensures Unpacked(b[base..base + size], b'[base..base + size], s, n, w)
    ensures b'[..base] == b[..base] && b'[base + size..] == b[base + size..]
  {
    var c, c' := b[base..base + size], b'[base..base + size];
    forall i | s <= i < s + n ensures c'[i] == Low(Shr(w, 8 * (s + n - 1 - i)), 8) {
      assert c'[i] == b'[base + i];
    }
  }

  lemma RunBound(b: Bytes, off: nat, n: nat, m: nat)
    requires off + n <= 8 * |b| && n <= m <= 16
    ensures RunValue(b, off, n) < Shl(1, n) && RunValue(b, off, n) < 0x1_0000
  {
    hide Bit, RunValue, Shl;
    forall k: nat | k >= n ensures !Bit(RunValue(b, off, n), k) { RunBit(b, off, n, k); }
    OnlyLowBits(RunValue(b, off, n), n);
    OnlyLowBits(RunValue(b, off, n), 16);
    Powers();
  }
}
