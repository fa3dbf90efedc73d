/** What outlives a pool: an index and a heap, flushed and opened again on the same disk. */
module Engine {
  import opened Pages
  import opened BufferPool
  import opened PageClient
  import opened Clients
  import opened IndexTree
  import opened BTree
  import HeapFile

  /**
    * An index survives its pool: after a flush, a new pool on the same disk opens the file as a valid index
    * with the same map, unless a call on the disk fails.
    */
  method ReopenIndex(index: Index, size: nat) returns (err: Error, accepted: bool, again: Index)
    requires index.Valid() && size > 0
    modifies index.pool`files, index.pool`meta, index.pool`faults
    ensures index.Valid() && index.pool.view == old(index.pool.view) && index.Contents() == old(index.Contents())
    ensures err == Ok ==> accepted && again.Valid() && again.Contents() == index.Contents()
    ensures err == Ok ==> again.file == index.file && |again.pool.frames| == size
    ensures err == Ok ||
      (err == DiskError && (index.pool.Faulty(old(index.pool.faults)) || again.pool.Faulty(0)))
  {
    hide Pool.Inv, Pool.Ready, Pool.Cached, Fetched, Loaded, OneForgotten, IndexOk, MapOf;
    accepted, again := false, index;
    var pool;
    err, pool := Reopen(index.pool, size);
    if err != Ok { return; }
    SavedFile(index.pool.view, index.pool.files, index.file);
    IndexFacts(index.Content(), index.tree, index.height);
    again := new Index(pool, index.file);
    err, accepted := again.Open(index.tree, index.height);
  }

  /** A heap survives its pool: the same log is read from the new one. */
  method ReopenHeap(heap: HeapFile.Heap, size: nat) returns (err: Error, again: HeapFile.Heap)
    requires heap.Valid() && size > 0
    modifies heap.pool`files, heap.pool`meta, heap.pool`faults
    ensures heap.Valid() && heap.pool.view == old(heap.pool.view)
    ensures err == Ok ==> again.Valid() && again.Contents() == heap.Contents() && again.file == heap.file
    ensures err == Ok || (err == DiskError && heap.pool.Faulty(old(heap.pool.faults)))
  {
    hide Pool.Inv, Pool.Ready, Pool.Cached, Fetched, Loaded, OneForgotten, HeapFile.HeapOk, HeapFile.Log;
    again := heap;
    var pool;
    err, pool := Reopen(heap.pool, size);
    if err != Ok { return; }
    SavedFile(heap.pool.view, heap.pool.files, heap.file);
    again := new HeapFile.Heap(pool, heap.file);
  }
}
