/** The 4-byte slot entry: three packed fields, offset (15 bits), length (15 bits) and flag (2 bits). */
module SlotEntry {
  import opened Pages
  import opened Bits

  const SIZE := 4

  datatype Slot = Slot(offset: nat, length: nat, flag: nat)

  /** The fields of an entry, laid out one after the other, most significant bit first. */
  ghost function SlotOf(e: Bytes): Slot
    requires |e| == SIZE
  {
    Slot(RunValue(e, 0, 15), RunValue(e, 15, 15), RunValue(e, 30, 2))
  }

  method Offset(e: Bytes) returns (v: nat)
    requires |e| == SIZE
    ensures v == SlotOf(e).offset && v < 0x8000
  {
    var ok;
    ok, v := ReadBits(e, 0, 15);
    FieldBound(e, 0);
  }

  method Length(e: Bytes) returns (v: nat)
    requires |e| == SIZE
    ensures v == SlotOf(e).length && v < 0x8000
  {
    var ok;
    ok, v := ReadBits(e, 15, 15);
    FieldBound(e, 15);
  }

  method Flag(e: Bytes) returns (v: nat)
    requires |e| == SIZE
    ensures v == SlotOf(e).flag
  {
    var ok;
    ok, v := ReadBits(e, 30, 2);
  }

  lemma FieldBound(e: Bytes, pos: nat)
    requires |e| == SIZE && pos + 15 <= 32
    ensures RunValue(e, pos, 15) < 0x8000
  {
    RunBound(e, pos, 15, 15);
    Shl15();
  }

  lemma Shl15()
    ensures Shl(1, 15) == 0x8000 && Shl(1, 2) == 4
  {
    Powers();
    assert Shl(1, 16) == 2 * Shl(1, 15);
  }

  method SetOffset(a: array<byte>, base: nat, v: nat) returns (ok: bool)
    requires base + SIZE <= a.Length
    modifies a
    ensures ok <==> v < 0x8000
    ensures a[..base] == old(a[..base]) && a[base + SIZE..] == old(a[base + SIZE..])
    ensures var e, e' := old(a[base..base + SIZE]), a[base..base + SIZE];
      SlotOf(e') == if ok then SlotOf(e).(offset := v) else SlotOf(e)
  {
    hide Shl, RunValue, Written;
    Shl15();
    ok := WriteBits(a, base, SIZE, 0, 15, v);
    if ok { WrittenRuns(old(a[base..base + SIZE]), a[base..base + SIZE], 0, 15, v); }
    else { assert a[base..base + SIZE] == a[..][base..base + SIZE]; }
  }

  method SetLength(a: array<byte>, base: nat, v: nat) returns (ok: bool)
    requires base + SIZE <= a.Length
    modifies a
    ensures ok <==> v < 0x8000
    ensures a[..base] == old(a[..base]) && a[base + SIZE..] == old(a[base + SIZE..])
    ensures var e, e' := old(a[base..base + SIZE]), a[base..base + SIZE];
      SlotOf(e') == if ok then SlotOf(e).(length := v) else SlotOf(e)
  {
    hide Shl, RunValue, Written;
    Shl15();
    ok := WriteBits(a, base, SIZE, 15, 15, v);
    if ok { WrittenRuns(old(a[base..base + SIZE]), a[base..base + SIZE], 15, 15, v); }
    else { assert a[base..base + SIZE] == a[..][base..base + SIZE]; }
  }

  method SetFlag(a: array<byte>, base: nat, v: nat) returns (ok: bool)
    requires base + SIZE <= a.Length
    modifies a
    ensures ok <==> v < 4
    ensures a[..base] == old(a[..base]) && a[base + SIZE..] == old(a[base + SIZE..])
    ensures var e, e' := old(a[base..base + SIZE]), a[base..base + SIZE];
      SlotOf(e') == if ok then SlotOf(e).(flag := v) else SlotOf(e)
  {
    hide Shl, RunValue, Written;
    Shl15();
    ok := WriteBits(a, base, SIZE, 30, 2, v);
    if ok { WrittenRuns(old(a[base..base + SIZE]), a[base..base + SIZE], 30, 2, v); }
    else { assert a[base..base + SIZE] == a[..][base..base + SIZE]; }
  }
}
