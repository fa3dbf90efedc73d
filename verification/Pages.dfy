/** Raw pages, and the files of pages the storage engine is built on. */
module Pages {
  const PAGE_SIZE := 8192
  const MAX_U32 := 4294967295

  type byte = b: int | 0 <= b < 256
  type Bytes = seq<byte>

  type u16 = n: int | 0 <= n < 0x1_0000
  type u32 = n: int | 0 <= n < 0x1_0000_0000

  /** The physical address of a tuple: its page and its slot there. */
  datatype TID = TID(page: u32, slot: u16)

  /** A disk file: a growable sequence of pages. */
  type File = seq<Bytes>

  ghost predicate WellFormed(file: File) {
    |file| <= MAX_U32 && forall p :: 0 <= p < |file| ==> |file[p]| == PAGE_SIZE
  }

  function ZeroPage(): (b: Bytes)
    ensures |b| == PAGE_SIZE && forall i :: 0 <= i < PAGE_SIZE ==> b[i] == 0
  {
    seq(PAGE_SIZE, i => 0)
  }

  /**
    * Reads page `id` into `dst`. When the device is not reliable the call may fail, having
    * overwritten any prefix of `dst`.
    */
  method ReadPage(file: File, id: nat, dst: array<byte>, reliable: bool) returns (ok: bool)
    requires WellFormed(file) && dst.Length == PAGE_SIZE
    modifies dst
    ensures ok ==> id < |file| && dst[..] == file[id]
    ensures reliable && id < |file| ==> ok
  {
    if id >= |file| {
      return false;
    }
    var fails := *;
    var transferred: nat := PAGE_SIZE;
    if fails && !reliable {
      transferred :| transferred < PAGE_SIZE;
    }
    forall i | 0 <= i < transferred {
      dst[i] := file[id][i];
    }
    ok := transferred == PAGE_SIZE;
  }

  /**
    * Writes `src` over page `id`. A failed call may leave that page torn; no other page changes.
    */
  method WritePage(file: File, id: nat, src: array<byte>, reliable: bool) returns (file': File, ok: bool)
    requires WellFormed(file) && src.Length == PAGE_SIZE
    ensures WellFormed(file') && |file'| == |file|
    ensures ok ==> id < |file| && file' == file[id := src[..]]
    ensures forall p :: 0 <= p < |file| && p != id ==> file'[p] == file[p]
    ensures reliable && id < |file| ==> ok
  {
    if id >= |file| {
      return file, false;
    }
    var fails := *;
    if fails && !reliable {
      var cut: nat :| cut < PAGE_SIZE;
      return file[id := src[..cut] + file[id][cut..]], false;
    }
    return file[id := src[..]], true;
  }

  /** Appends a zero page and returns its id; fails at the page limit, or when the device does. */
  method AllocatePage(file: File, reliable: bool) returns (file': File, id: nat, ok: bool)
    requires WellFormed(file)
    ensures WellFormed(file')
    ensures ok ==> |file| < 4294967295 && id == |file| && file' == file + [ZeroPage()]
    ensures !ok ==> file' == file
    ensures reliable && |file| < 4294967295 ==> ok
  {
    var fails := *;
    if |file| == MAX_U32 || (fails && !reliable) {
      return file, 0, false;
    }
    return file + [ZeroPage()], |file|, true;
  }
}
