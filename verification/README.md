# minidb in Dafny

A verified model of the storage engine minidb: a B+Tree index and a heap file over one buffer pool, the
slotted page, the record codec and the bit helpers below them. The layers stack as they do in the engine.
The index and the heap run on the modelled pool's frames, byte by byte, so what is proved of them holds
through eviction, write-back and failing disk calls.

| file | what it models |
|---|---|
| `Pages.dfy` | pages, files as growable sequences of 8192-byte pages, disk calls that may fail and tear a page |
| `LruReplacer.dfy` | the eviction order, judged against the full history of calls |
| `BufferPool.dfy` | the pool; clients see a `View`: page contents, pins, writes not yet reported |
| `Clients.dfy` | interleaved clients of one pool, over whole runs, and a new pool on the same disk |
| `Eviction.dfy` | which page leaves memory, over whole runs |
| `PageClient.dfy` | what the layers above share: a pin taken and released |
| `BigEndian.dfy`, `Bits.dfy` | integers in bytes; runs of bits in a stream, most significant first |
| `SlotEntry.dfy`, `TupleHeader.dfy` | the packed 4-byte slot and 12-byte tuple header |
| `SlottedPage.dfy`, `HeapFile.dfy` | the two-ended page and the append-only heap on it |
| `Record.dfy` | rows to tuple bytes and back |
| `IndexTree.dfy` | the B+Tree as a value: insertion, its invariant, its map, its size bounds |
| `PagedTree.dfy` | that tree on pages: one node a page, leaves chained, no page shared or lost |
| `IndexNode.dfy` | nodes as bytes and the in-place operations on them |
| `BTree.dfy` | the index operations on the pool |
| `Engine.dfy` | an index and a heap that outlive their pool |
| `Layout.dfy` | all formats once more, as arithmetic on bytes and bits |
| `Counting.dfy`, `Sequences.dfy`, `Scanning.dfy` | finite sets, sequences, callbacks that may end a scan |

The main results, for all inputs and all failures of the disk:

- The index is a finite map. Insert, Find and Scan refine it through any cascade of splits, on the real
  bytes, and the page graph stays a B+Tree: strictly ordered, inside its separator bands, of one depth,
  at least half full, with the leaf chain in key order and every page used exactly once
  (`BTree.Index.Insert`, `InsertAll`, `Find`, `Scan`, `PagesConserved`; `IndexTree.EngineBounds`).
- An insertion into a tree of h levels never holds more than h + 1 pins and gives all of them back, on error paths too.
  Where no disk call fails, how it ends is decided, both ways, by whether the pages on its way, and one more if the leaf
  has to split, find frames next to what is pinned, and by the room in the file. It adds a page for exactly those nodes
  that are full from the leaf up, and a level exactly if all are. A run of insertions never fails when there are frames
  for the levels that so many entries can fill (`BTree.Index.Insert`, `InsertAll`).
- The pool is a plain page store: caching, eviction and write-back do not show, whatever fails. A page can only lose
  a write that its last holder hid (`BufferPool.Pool.Fetch` and its companions, `ThreeStates`).
- However clients interleave, and whether or not they report what they write, a page's pins are the outstanding pins,
  and a frame stays bound until the matching release (`Clients.Run`, `Clients.BoundUntilReleased`). A page whose
  writers report keeps its contents whatever others hide (`Clients.ReportedPageSafe`).
- An index and a heap that are flushed are the same map and the same log under a new pool (`Engine.ReopenIndex`,
  `Engine.ReopenHeap`).
- The page that leaves memory is, among those nobody pins, the one whose last release lies furthest back in the
  schedule; a failed write-back counts as a release (`Eviction.LeastRecentlyReleased`, `Eviction.LongestWaiting`).
- The heap is an append-only log whose addresses increase and keep their bytes, and which grows by a page at exactly
  the tuples that do not fit its last one (`HeapFile.Heap.InsertAll`, `Get`, `Scan`, `HeapFile.LogOrdered`); a page's
  tuples tile it (`SlottedPage.Tiling`).
- Records have one encoding, round trip, are prefix free, and decode exactly when well formed
  (`Record.OneEncoding`, `RoundTripExactly`, `PrefixFree`, `DecodesExactly`).
- A bit run is read and written as in a simple bit stream, so packed fields do not disturb each other
  (`Bits.ReadBits`, `Bits.WriteBits`, `Bits.WrittenRuns`). Every format is tied to its bytes in plain numbers
  (`Layout.DecodedBytes`, `Layout.NodeBytes` and their companions).

How the code is read:

- The node capacities are arbitrary constants that fit a page (at least 2 and 3); results hold for all of
  them, 584 and 681 included.
- I/O failures are a nondeterministic choice inside the three disk calls, switched off by `reliable`. The ghost counter
  `faults` of a pool counts them; a `DiskError` means that it rose, or a page outside its file, or a full file.
- `pins` and `peak` of a pool are ghost counters: the sum of the pins outstanding on all pages, which its invariant ties
  them to, and the most there ever were.
- A file handle is the pair of the pool and a file id. Page bytes are changed in the pinned frame itself;
  the ghost method `Wrote` then moves the view along.
- A scan callback is a function of the calls made so far, so it may depend on everything it has seen.
- Text values are byte strings.

Where the code differs from its documentation, or from what one would expect, the model follows the code:

- A node splits on reaching capacity, so a resting node holds at most capacity - 1 keys; the figures in
  section 5.6 of the index design are one higher (`IndexTree.AtMost`).
- After a failed write-back the pool is said to be exactly as it was (`internal/storage/buffer/buffer_pool.go:403-405`).
  The victim re-enters at the most recent end, so this holds of the set of candidates, and of their order if and only
  if there is just one. With more, the next eviction takes another page, so one that cannot be written does not block
  the pool (`BufferPool.Pool.AcquireFrame`, `LruReplacer.RequeueReorders`, `LruReplacer.RequeueExample`).
- Encode checks the column count after cutting it to 16 bits, so it accepts some schemas of 65536 columns
  and more, whose rows then do not decode (`Record.RoundTripExactly`, `Record.WideRowIsLost`).
- A bootstrap that gets its first page but not its second leaves a file with one zero page. That file is never accepted
  again, as it is neither empty nor carries the magic number. Where no disk call fails this happens if and only if
  just one frame is to be had (`BTree.Index.Bootstrap`, `BTree.Index.OpenAgain`).
- An insertion that gets no page for a split reports an error but has already filled the node, or split the root without
  a new one above it. The file is then no index any more, as a node is at its capacity or the right half of the tree is
  out of reach of the root (`BTree.JammedNoIndex`, `BTree.HalfNoIndex`). Exactly when this happens is stated by
  `BTree.Index.Insert`; a pool of one frame and a full leaf are enough (`BTree.Index.BreakExample`).

## Model

| member | source | states |
|---|---|---|
| BTree.Index.Insert | internal/access/nbtree/nbtree.go:230-257 | Done adds exactly one unbound key to the map, a page for every node that splits and one for a new root, which there is exactly if all nodes on the way were one key short of capacity; DuplicateKey means the key was bound and no page changed; the file is an index afterwards if and only if the insertion is not Broken; where no disk call fails it is Failed, without a change, exactly if the pages on the way and the meta page do not find frames next to what is pinned, and Broken exactly if they do but the leaf has to split and no frame or no room is left for the pages that takes; so height frames do where the leaf has room or the key, and height + 1 and room anyway; it holds at most height + 1 pins and gives all back; other files are as before |
| BTree.Index.Attempt | internal/access/nbtree/nbtree.go:230-257 | the same on the tree: the in-order entries gain the new one at its place |
| BTree.Index.EndsExactly | internal/access/nbtree/nbtree.go:230-257 | where no disk call fails, frames and room decide how an insertion ends, both ways |
| BTree.Index.BreakExample | internal/access/nbtree/nbtree.go:280-282 | one frame and a leaf one entry short of its capacity: the next new key breaks the index |
| BTree.JammedNoIndex | internal/access/nbtree/nbtree.go:280-305 | a file with a node at its capacity, which could not be split, is no index |
| BTree.HalfNoIndex | internal/access/nbtree/nbtree.go:239-256 | a file whose root split while the meta page still points at the left half is no index: no tree has all its pages |
| BTree.Index.Descend | internal/access/nbtree/nbtree.go:231-238 | the same of the insertion below the root |
| BTree.Index.InsertAll | internal/access/nbtree/nbtree.go:230-257 | every run of done or rejected insertions keeps the whole invariant and ends in the map where the first binding of each key wins; each call is accepted exactly when its key was unbound; a failure is accounted for by the index it met, and one that breaks a split leaves no index; with room, and frames for as many levels as that many entries can fill, only a failing disk call ends the run |
| BTree.Index.NotAmple | internal/access/nbtree/nbtree.go:56-59 | where frames for the levels that so many entries can fill and room suffice, only a failing disk call accounts for a failure |
| BTree.Index.Blame | internal/access/nbtree/nbtree.go:56-59 | frames for every level, and one more and room if the leaf has to split, leave only the disk to blame |
| BTree.LeafDecides | internal/access/nbtree/nbtree.go:269-282 | a key is bound exactly if the leaf that covers it has it; an insertion splits that leaf exactly if it has not and lacks one entry to its capacity; it adds at most a page per level and one |
| BTree.SettledGrowth | internal/access/nbtree/nbtree.go:308-339 | the file grows by a page for every node that splits, and the root splits exactly if every node on the way is full |
| BTree.Index.KidExcused | internal/access/nbtree/nbtree.go:285-293 | what excuses a failure below a node, one pin less to spare, excuses it at the node |
| BTree.Index.InsertInto | internal/access/nbtree/nbtree.go:262-306 | the pages of the subtree carry exactly the tree-level insertion and no page outside it changes; a failure on the way down changes nothing and means fewer frames than one per level and one more, or a failing or full disk |
| BTree.Index.InsertIntoLeaf | internal/access/nbtree/nbtree.go:269-283 | the leaf case: duplicate without change, absorbed, or split |
| BTree.Index.FillLeaf | internal/access/nbtree/nbtree.go:275-282 | a leaf below capacity after the insertion is released dirty, a full one is split; only the page for that split can be wanting |
| BTree.Index.OverflowLeaf | internal/access/nbtree/nbtree.go:280-282 | a full leaf becomes two leaves on the pages, or its page could not be had |
| BTree.Index.InsertIntoBranch | internal/access/nbtree/nbtree.go:285-305 | the internal case: the child that covers the key receives it while this page stays pinned |
| BTree.Index.Resume | internal/access/nbtree/nbtree.go:288-305 | what the level does with each outcome of the level below; an unchanged page is released clean |
| BTree.Index.AbsorbSplitAt | internal/access/nbtree/nbtree.go:297-305 | separator and right child go in at the descent position; a full node splits in turn |
| BTree.Index.FinishBranch | internal/access/nbtree/nbtree.go:299-305 | a node below capacity is released dirty, a full one is split |
| BTree.Index.OverflowBranch | internal/access/nbtree/nbtree.go:303-305 | a full internal node becomes two on the pages, its middle key moving up |
| BTree.Index.AddToLeaf | internal/access/nbtree/nbtree.go:275 | the pinned leaf page is rewritten as the sequence insertion of the entry |
| BTree.Index.AddToBranch | internal/access/nbtree/nbtree.go:298 | the pinned internal page is rewritten as two sequence insertions, key at i and child at i + 1 |
| BTree.Index.SplitLeafPage | internal/access/nbtree/nbtree.go:311-324 | one page is added holding the upper half and the old successor, the left page points at it, the separator is its first key; a failed allocation leaves no trace |
| BTree.Index.MoveUpperHalf | internal/access/nbtree/nbtree.go:316-321 | the two leaf pages after the move, and the separator |
| BTree.Index.SplitBranchPage | internal/access/nbtree/nbtree.go:329-339 | one page is added holding what is right of the middle key, which is in neither half |
| BTree.Index.MoveRightKeys | internal/access/nbtree/nbtree.go:334-336 | the two internal pages after the move, and the key pushed up |
| BTree.Index.Conclude | internal/access/nbtree/nbtree.go:239-256 | the index after the root level has ended, with a new root when it split |
| BTree.Index.GrowRoot | internal/access/nbtree/nbtree.go:243-256 | a split root gets a root over its halves and the meta page points at it: again an index, one level higher |
| BTree.Index.InstallRoot | internal/access/nbtree/nbtree.go:243-256 | one more page, a root over the two halves, to which the meta page now points, and nothing else |
| BTree.Index.AddRootPage | internal/access/nbtree/nbtree.go:245-255 | the new root page has the one separator and the two halves as children |
| BTree.Index.SetRoot | internal/access/nbtree/nbtree.go:111-119 | only the root field of the meta page changes |
| BTree.Index.ReadRoot | internal/access/nbtree/nbtree.go:100-108 | the root page of the index, without a trace in the store |
| BTree.Index.Open | internal/access/nbtree/nbtree.go:60-76 | an empty file is laid out; a file with pages is accepted exactly when its first bytes are the letters nbtr, and an index written earlier is valid again with the same contents |
| Engine.ReopenIndex | internal/access/nbtree/nbtree.go:60-76 | an index flushed and opened again by a new pool on the same disk is valid with the same map; only a failing disk call prevents it |
| BTree.Index.OpenExisting | internal/access/nbtree/nbtree.go:65-75 | accepted exactly with the letters nbtr, without a trace in the store |
| BTree.MagicBytes | internal/access/nbtree/nbtree.go:33-42 | the magic number is those four bytes |
| BTree.Index.Bootstrap | internal/access/nbtree/nbtree.go:80-97 | an empty file becomes a valid index of one empty leaf; a failure returns every pin and leaves at most one zero page; where no disk call fails it succeeds if and only if two frames are to be had, and leaves a zero page if and only if just one is |
| BTree.Index.TakeFirstPages | internal/access/nbtree/nbtree.go:81-89 | two pages added and pinned, or the first given back |
| BTree.Index.OpenAgain | internal/access/nbtree/nbtree.go:62-75 | however often it is tried, a file whose first page lacks the magic number, such as the zero page a failed bootstrap leaves, is never accepted nor changed |
| BTree.Index.LayOut | internal/access/nbtree/nbtree.go:90-96 | meta page and empty root leaf are an index with the empty map |
| BTree.Index.Find | internal/access/nbtree/nbtree.go:122-146 | terminates with the answer of the map and leaves the store, the pins and the index alone; fails only when a disk call failed, or every frame is pinned and the meta page or a page on the way is in none |
| BTree.Index.SearchStep | internal/access/nbtree/nbtree.go:127-145 | one level: the answer at a leaf, else the child that covers the key |
| BTree.Index.FindLeaf | internal/access/nbtree/nbtree.go:200-219 | the leaf whose band contains the key: all leaves left of it are below the key, all right of it above |
| BTree.Index.DescendStep | internal/access/nbtree/nbtree.go:205-218 | one level of that descent |
| BTree.Index.Scan | internal/access/nbtree/nbtree.go:152-181 | for all lo and hi, lo > hi included, the calls are exactly the bindings of the map with keys from lo to hi, ascending, each once; a callback that refuses ends them at the refused entry; when a page cannot be read they are the entries of the range in the leaves before it |
| BTree.ReadSoFar | internal/access/nbtree/nbtree.go:157-180 | the calls of a scan after n leaves are what those leaves have of the range |
| BTree.Index.Walk | internal/access/nbtree/nbtree.go:157-180 | following the chain from the first leaf makes exactly the calls the range asks for |
| BTree.Index.ScanHead | internal/access/nbtree/nbtree.go:158-179 | one leaf of the chain: what it contributes and what remains to be visited |
| BTree.Index.ScanPage | internal/access/nbtree/nbtree.go:159-171 | one page: its contribution to the calls, its successor, and no trace in the store |
| BTree.Index.PagesConserved | internal/access/nbtree/nbtree.go:311-339 | the page count is one for the meta page plus one per node: splits neither leak nor share pages |
| BTree.ChildOnPages | internal/access/nbtree/node.go:149-158 | the child picked for a key covers it, is laid out on the pages, and holds every binding of that key the node holds |
| IndexTree.LowerBound | internal/access/nbtree/node.go:132-147 | everything before the result is below the key, and the key at it is not |
| IndexTree.ChildBand | internal/access/nbtree/node.go:149-158 | every separator left of the child picked is at most the key, every one from it on is above |
| IndexTree.InsertGood | internal/access/nbtree/nbtree.go:262-306 | insertion anywhere in a tree keeps order, separator bands, equal depth, capacity and minimum fill |
| IndexTree.SplitLeafGood | internal/access/nbtree/node.go:205-218 | both halves of a full leaf are within their bands, below capacity and at least half full |
| IndexTree.SplitBranchGood | internal/access/nbtree/node.go:220-238 | the same for a full internal node without its middle key |
| IndexTree.AbsorbSplit | internal/access/nbtree/nbtree.go:297-298 | a node whose child split still has every child inside its band |
| IndexTree.InsertPuts | internal/access/nbtree/nbtree.go:262-306 | the in-order entries gain the new one at its place through any cascade of splits; Duplicate exactly when the key is there |
| IndexTree.InsertAtRoot | internal/access/nbtree/nbtree.go:230-257 | the same for the whole tree: it stays good and grows by at most one level |
| IndexTree.PutAddsBinding | internal/access/nbtree/nbtree.go:228-230 | placing an entry in order adds exactly that binding to the map |
| IndexTree.InsertGrowth | internal/access/nbtree/nbtree.go:308-339 | an insertion takes at most one page per level, one fewer if the top did not split |
| IndexTree.InsertSplits | internal/access/nbtree/nbtree.go:308-339 | an insertion of an unbound key adds one page per node, from the leaf up, that is one key short of its capacity |
| IndexTree.CoveringDecides | internal/access/nbtree/nbtree.go:269-274 | Duplicate exactly if the covering leaf has the key |
| IndexTree.NoSplits | internal/access/nbtree/nbtree.go:299-305 | nodes split exactly if the covering leaf is one entry short of its capacity; a descent visits at most one page per level |
| IndexTree.EntriesSorted | internal/access/nbtree/node.go:149-151 | the in-order entries of a good tree are strictly ascending and inside its band |
| IndexTree.BelowChild | internal/access/nbtree/nbtree.go:142 | a key is bound in a node exactly as it is below the child that covers it |
| IndexTree.RangeStarts | internal/access/nbtree/nbtree.go:152-168 | the range is what follows, along the leaves, the first key not below lo in the leaf covering lo |
| IndexTree.RangeOfMap | internal/access/nbtree/nbtree.go:148-151 | the range holds exactly the bindings of the map with keys from lo to hi, strictly ascending |
| IndexTree.FlatLeaves | internal/access/nbtree/nbtree.go:148-151 | the leaves in order hold the entries in order |
| IndexTree.AtLeast | internal/access/nbtree/node.go:165-170 | a subtree other than the root of h levels holds at least (leafCap / 2) * ((internalCap - 1) / 2 + 1)^(h - 1) entries |
| IndexTree.AtMost | internal/access/nbtree/node.go:165-170 | a tree of h levels holds at most (leafCap - 1) * internalCap^(h - 1) entries, as a node splits on reaching capacity |
| IndexTree.RootAtLeast | internal/access/nbtree/node.go:209-238 | a tree of two or more levels holds at least twice the minimum of a subtree |
| IndexTree.HeightBound | internal/access/nbtree/node.go:165-170 | a tree is no higher than the levels its number of entries can fill |
| IndexTree.EngineBounds | internal/access/nbtree/node.go:45-48 | with 584 and 681: at most 583 * 681^(h - 1) entries, at least 584 * 341^(h - 2) |
| PagedTree.InsertPages | internal/access/nbtree/nbtree.go:308-339 | an insertion keeps every old page of the tree, adds exactly the consecutive new page ids, and reaches no page twice |
| PagedTree.RepFrame | internal/access/nbtree/nbtree.go:259-262 | a subtree is still on the store if none of its own pages changed |
| PagedTree.LeafAbsorbs | internal/access/nbtree/nbtree.go:275-279 | rewriting the leaf page carries the insertion |
| PagedTree.LeafSplits | internal/access/nbtree/nbtree.go:311-324 | left page, new right page and the two next pointers carry a leaf split |
| PagedTree.BranchKeeps | internal/access/nbtree/nbtree.go:292-295 | a node whose child did not split need not be written |
| PagedTree.BranchAbsorbs | internal/access/nbtree/nbtree.go:297-302 | one write to the node carries the absorbed split |
| PagedTree.BranchSplits | internal/access/nbtree/nbtree.go:303-305 | one write and one new page carry the split of an internal node |
| PagedTree.InsertFirst | internal/access/nbtree/nbtree.go:316-321 | the leftmost leaf of a subtree survives any insertion, so pointers into it from the left stay right |
| PagedTree.GrownPages | internal/access/nbtree/nbtree.go:243-256 | after an insertion every page behind the meta page belongs to exactly one node |
| PagedTree.LeavesChained | internal/access/nbtree/node.go:25 | the next pointers link the in-order leaves, the last one to the page that follows the subtree (0 for the whole tree) |
| PagedTree.LeafPages | internal/access/nbtree/nbtree.go:158-178 | every leaf the chain visits is on a page of the tree, so the walk never leaves the index |
| PagedTree.PageCount | internal/access/nbtree/nbtree.go:308-339 | as many distinct pages as nodes |
| PagedTree.Conservation | internal/access/nbtree/nbtree.go:80-97 | pages 1 to n - 1 each in exactly one node means n is one plus the number of nodes |
| PagedTree.NodesFit | internal/access/nbtree/node.go:168-174 | every page of an index has room for one more key |
| PagedTree.SamePages | internal/access/nbtree/nbtree.go:126-145 | the pages below a page are determined by the store |
| IndexNode.KeyWrite | internal/access/nbtree/node.go:99-102 | a key write sets that key and leaves header, other keys, TIDs and children, even with capacity keys |
| IndexNode.TidWrite | internal/access/nbtree/node.go:124-128 | a TID write sets that TID and nothing else |
| IndexNode.ChildWrite | internal/access/nbtree/node.go:110-113 | a child write sets that pointer and nothing else |
| IndexNode.HeaderWrite | internal/access/nbtree/node.go:72-80 | a header write leaves keys, TIDs and children |
| IndexNode.Init | internal/access/nbtree/node.go:85-91 | any bytes become the empty node of the kind asked for, all zero but its kind |
| IndexNode.Search | internal/access/nbtree/node.go:136-147 | the 16-bit binary search finds the lower bound, and found exactly when the key is there |
| IndexNode.DescentIndex | internal/access/nbtree/node.go:152-158 | the child index of the sequence specification |
| IndexNode.LookUp | internal/access/nbtree/nbtree.go:133-141 | found exactly when some entry of the leaf has the key, with that entry's TID |
| IndexNode.Route | internal/access/nbtree/nbtree.go:142 | the child pointer stored for the key |
| IndexNode.InsertLeafAt | internal/access/nbtree/node.go:177-186 | the leaf becomes the sequence insertion at i, keys and TIDs in step, the next pointer kept |
| IndexNode.ShiftEntries | internal/access/nbtree/node.go:179-182 | the entries from i on move up by one |
| IndexNode.InsertBranchAt | internal/access/nbtree/node.go:192-203 | keys gain the separator at i, children the right child at i + 1 |
| IndexNode.ShiftKeys | internal/access/nbtree/node.go:194-196 | the keys from i on move up by one, the children stay |
| IndexNode.ShiftChildren | internal/access/nbtree/node.go:198-200 | the children from i + 1 on move up by one, the keys stay |
| IndexNode.SplitLeafNode | internal/access/nbtree/node.go:209-218 | the two pages hold the two halves of the entries |
| IndexNode.SplitBranchNode | internal/access/nbtree/node.go:225-238 | the two pages hold what is left and right of the middle key, which is returned |
| IndexNode.InitRoot | internal/access/nbtree/nbtree.go:249-254 | a page with one separator and two children |
| IndexNode.DivideLeaf | internal/access/nbtree/nbtree.go:316-321 | split and relinked leaves, and the separator |
| IndexNode.Relink | internal/access/nbtree/nbtree.go:319-320 | the right leaf inherits the successor, the left one points at it |
| IndexNode.DivideBranch | internal/access/nbtree/nbtree.go:334-336 | split internal nodes and the key pushed up |
| IndexNode.ScanLeaf | internal/access/nbtree/nbtree.go:186-197 | the calls are the entries from i on with key at most hi, cut at the first refusal; done exactly when a larger key was met |
| LruReplacer.Replacer.constructor | internal/storage/buffer/lru_replacer.go:27-32 | no candidates, empty history |
| LruReplacer.Replacer.Unpin | internal/storage/buffer/lru_replacer.go:37-42 | a new candidate goes to the front, a known one keeps its place; list, index and history agree |
| LruReplacer.Replacer.Pin | internal/storage/buffer/lru_replacer.go:46-53 | exactly that frame leaves list and index |
| LruReplacer.Replacer.Victim | internal/storage/buffer/lru_replacer.go:60-69 | fails exactly when there is no candidate; else takes the one whose adding Unpin is oldest in the whole history |
| LruReplacer.AddedAtMeaning | internal/storage/buffer/lru_replacer.go:34-36 | when a frame became a candidate, in terms of the calls alone |
| LruReplacer.BackIsOldest | internal/storage/buffer/lru_replacer.go:60-69 | in every reachable state the back of the list is the oldest candidate |
| LruReplacer.RequeueReorders | internal/storage/buffer/lru_replacer.go:60-69 | a victim taken and put back leaves the order of the candidates as it was if and only if there was one; with two or more the next victim is another frame |
| LruReplacer.RequeueExample | internal/storage/buffer/lru_replacer.go:60-69 | two candidates change places |
| BufferPool.Pool.constructor | internal/storage/buffer/buffer_pool.go:121-140 | all frames free, in order, nothing in memory, nothing registered; the invariant holds |
| BufferPool.Pool.ThreeStates | internal/storage/buffer/buffer_pool.go:82-91 | every frame is in exactly one of free, pinned and idle; free list and replacer list exactly the free and the idle ones; page table and frame keys are inverse; no resident page lies past the end of its file |
| BufferPool.Pool.Register | internal/storage/buffer/buffer_pool.go:149-156 | one more file, under the next id |
| BufferPool.Pool.Fetch | internal/storage/buffer/buffer_pool.go:212-243 | the frame has the contents of the page, with one more pin; a page already pinned stays in its frame; no free frame exactly when the page is not pinned and all frames are; any other error means a disk call failed or the page is outside its file; a failure adds no pin; the contents of every page are unchanged, save one whose last holder hid a write to it; a page in memory stops being idle, and for any other a frame is taken: where all hold pages, the one released longest ago leaves |
| BufferPool.Pool.PinResident | internal/storage/buffer/buffer_pool.go:218-224 | a hit adds one pin in the frame the page is in and takes the page out of the idle ones, whose order stays |
| BufferPool.Pool.Load | internal/storage/buffer/buffer_pool.go:226-242 | a page that is not in memory is brought there, with one pin |
| BufferPool.Pool.LoadFrame | internal/storage/buffer/buffer_pool.go:232-239 | a loaded frame has the page, and a failed read touches no other frame |
| BufferPool.Pool.NewPage | internal/storage/buffer/buffer_pool.go:251-274 | the file grows by one zero page, pinned, under the next id, which was not in memory; a full pool never grows a file; any other error means a disk call failed or the file is full; all else is unchanged, save one page whose last holder hid a write to it; a frame is taken as for a fetch |
| BufferPool.Pool.FillNew | internal/storage/buffer/buffer_pool.go:260-273 | allocation, clearing and binding of the blank frame, or no trace |
| BufferPool.Pool.Extend | internal/storage/buffer/buffer_pool.go:260-264 | the new page is a zero page that no frame holds |
| BufferPool.Pool.ClearFrame | internal/storage/buffer/buffer_pool.go:266-270 | the blank frame becomes a zero page, the others keep theirs |
| BufferPool.Pool.Unpin | internal/storage/buffer/buffer_pool.go:284-303 | for every caller: one pin less and the report recorded, contents unchanged, and errors exactly for pages not resident or not pinned, without effect; a last release that hides a write leaves the page exposed; a last release puts the page in front of the idle ones, and no other call changes their order |
| BufferPool.Pool.DropPin | internal/storage/buffer/buffer_pool.go:297-301 | the pin count and the sticky dirty flag; at zero the page is in front of the idle ones |
| BufferPool.Pool.NumPages | internal/storage/buffer/buffer_pool.go:308-313 | the page count of the file |
| BufferPool.Pool.FlushPage | internal/storage/buffer/buffer_pool.go:322-332 | contents and pins unchanged; on success the page is on disk unless a write to it is unreported |
| BufferPool.Pool.FlushFrame | internal/storage/buffer/buffer_pool.go:385-395 | the dirty flag is cleared exactly when the frame is on disk |
| BufferPool.Pool.FlushAll | internal/storage/buffer/buffer_pool.go:341-351 | in any order: on success every page without an unreported write is on disk; on failure the contents are unchanged and every page is still dirty or on disk |
| BufferPool.Pool.BindFrame | internal/storage/buffer/buffer_pool.go:377-380 | the page is resident with one pin and clean |
| BufferPool.Pool.AcquireFrame | internal/storage/buffer/buffer_pool.go:408-429 | the last free frame, else the oldest candidate's; no free frame exactly when all are pinned; a failed write-back leaves everything as it was but the order of the candidates, which is kept if and only if there was one, and with more the next victim is another |
| BufferPool.Pool.Evict | internal/storage/buffer/buffer_pool.go:415-428 | the victim is the candidate added longest ago; a dirty one is written back before it is dropped, and a page with a hidden write falls back to what the disk has; on failure the victim is put back at the most recent end and nothing else changes |
| BufferPool.Pool.SaveVictim | internal/storage/buffer/buffer_pool.go:420-427 | a clean victim needs no write; after a successful save the page can be forgotten |
| BufferPool.Pool.DropPage | internal/storage/buffer/buffer_pool.go:427-428 | the page leaves the table and the partition has its frame blank |
| BufferPool.Pool.WriteFrame | internal/storage/buffer/buffer_pool.go:385-395 | a write, failed or not, harms no other page |
| BufferPool.Pool.GiveBack | internal/storage/buffer/buffer_pool.go:236-239 | the frame is free again, at the end of the free list |
| BufferPool.Pool.ClientFacts | internal/storage/buffer/buffer_pool.go:78-91 | pinned pages never outnumber frames, frames are distinct arrays of a page each |
| BufferPool.Pool.CacheFacts | internal/storage/buffer/buffer_pool.go:82-91 | the idle pages are those in memory that nobody pins, each listed once; memory holds no more pages than frames |
| BufferPool.Pool.PinnedOnly | internal/storage/buffer/buffer_pool.go:408-418 | pinned pages are in memory, and where every frame is pinned no others are |
| BufferPool.FreeCount | internal/storage/buffer/buffer_pool.go:82-91 | a frame is free exactly when memory holds fewer pages than frames |
| BufferPool.CacheEvicted | internal/storage/buffer/buffer_pool.go:415-428 | an eviction takes the idle page at the back; a failed write-back moves it to the front |
| BufferPool.IdleWithout | internal/storage/buffer/buffer_pool.go:218-224 | pinning a page again takes just that page out of the list |
| BufferPool.Pool.PinFacts | internal/storage/buffer/buffer_pool.go:168-180 | a pinned page is in its frame and no other pinned page is |
| BufferPool.PinnedCount | internal/storage/buffer/buffer_pool.go:408-418 | as many pinned pages as frames exactly when every frame is pinned |
| BufferPool.TidyKept | internal/storage/buffer/buffer_pool.go:276-283 | where nobody hides a write, no page is ever forgotten |
| BufferPool.Pool.PinsCounted | internal/storage/buffer/buffer_pool.go:61-63 | the counter of pins is the sum of the pins on all pages |
| BufferPool.PinSumAdds | internal/storage/buffer/buffer_pool.go:218-224 | one more pin on any page is one more in the total |
| BufferPool.PinSumDrops | internal/storage/buffer/buffer_pool.go:297-301 | a release is one fewer |
| BufferPool.AllClean | internal/storage/buffer/buffer_pool.go:341-351 | no dirty frame means the disk has every page without an unreported write |
| Pages.ReadPage | internal/storage/disk/disk.go:77-95 | success delivers the page; a failed read may leave any prefix in the buffer |
| Pages.WritePage | internal/storage/disk/disk.go:102-118 | success replaces the page; a failed write may tear that page and no other |
| Pages.AllocatePage | internal/storage/disk/disk.go:151-171 | success appends a zero page under the old count; failure changes nothing; the limit is 4294967295 pages |
| Clients.Run | internal/storage/buffer/buffer_pool.go:212-303 | any clients, schedule and failures, reported writes or not: at every moment the pins of every page are the outstanding pins of all clients, and every hold is pinned in the frame its client was handed, which has the page's contents; every turn records exactly what its client asked for, and is done whenever due unless a disk call fails; where all writes are reported the files are those of a plain page store put through the same writes and allocations |
| Clients.BoundUntilReleased | internal/storage/buffer/buffer_pool.go:168-180 | a frame handed out stays bound to its page, with its contents, through every interleaving until the client has released it as often as it pinned it |
| Clients.OwnReleases | internal/storage/buffer/buffer_pool.go:284-303 | a client's pins go down by its own releases only |
| Clients.ReportedPageSafe | internal/storage/buffer/buffer_pool.go:276-283 | whoever reports keeps: a page whose writers report has the contents of a plain page store at every moment, whatever is hidden about other pages |
| Clients.ReportingRun | internal/storage/buffer/buffer_pool.go:276-283 | where every write is reported no page is ever exposed, and the files are those of a plain page store at every moment |
| Clients.NeverExposed | internal/storage/buffer/buffer_pool.go:408-429 | a page that is never exposed has the contents of a plain page store |
| Clients.ExposedExactly | internal/storage/buffer/buffer_pool.go:284-303 | a page becomes exposed if and only if its last outstanding pin is released clean while a write to it is unreported |
| Clients.TurnStores | internal/storage/buffer/buffer_pool.go:212-303 | a turn treats every page that is not exposed as a plain page store would, and all pages where none is |
| Eviction.LeastRecentlyReleased | internal/storage/buffer/buffer_pool.go:398-429 | over any run, read off the schedule: among the pages in memory that nobody pins, the one that a turn pushes out is the one whose last release lies furthest back, where no write-back failed; pages not released since the start leave first, in the order they then had |
| Eviction.LongestWaiting | internal/storage/buffer/buffer_pool.go:398-429 | the same with failed write-backs, each of which counts as a release of the page that had to stay; a page leaves only for a frame that is needed when none is free |
| Eviction.AlwaysInTurn | internal/storage/buffer/lru_replacer.go:35-66 | at every moment of a run the idle pages are listed by the turn since which they wait |
| Eviction.LeavesFromBack | internal/storage/buffer/buffer_pool.go:408-429 | one turn: what leaves memory is the last idle page, nothing else leaves, memory was full and the turn needed a frame |
| Eviction.OneLeaves | internal/storage/buffer/buffer_pool.go:408-429 | where a frame is needed, none is free and a page is idle, a turn that is done pushes the last idle page out |
| Eviction.SinceRelease | internal/storage/buffer/buffer_pool.go:298-300 | where no write-back failed a page waits since its last release |
| Clients.Perform | internal/storage/buffer/buffer_pool.go:212-332 | one turn: exactly its own pin, write or release is recorded, on the ledger, the view and the idle pages; it is done whenever the client is entitled to it and the page is resident or a frame can be had, unless a disk call fails |
| Clients.PerformFetch | internal/storage/buffer/buffer_pool.go:212-243 | a fetch adds one pin to the client's own; besides, at most one exposed page falls back to the disk's contents |
| Clients.PerformNew | internal/storage/buffer/buffer_pool.go:251-274 | an allocation adds a zero page and one pin; besides, at most one exposed page falls back to the disk's contents |
| Clients.PerformWrite | internal/storage/buffer/buffer_pool.go:191-196 | a write through a held frame changes that byte of that page only |
| Clients.PerformRelease | internal/storage/buffer/buffer_pool.go:284-303 | a release takes back one pin of the client's own, reported dirty or not, and is done exactly when the client holds the page |
| Clients.PinAgrees | internal/storage/buffer/buffer_pool.go:218-224 | totals and frames still agree after a pin |
| Clients.ReleaseAgrees | internal/storage/buffer/buffer_pool.go:284-303 | totals and frames still agree after any release of a held page |
| Clients.StillAccounted | internal/storage/buffer/buffer_pool.go:276-283 | if whoever gives up its last pin on a page reports its write, every unreported write keeps a holder that knows of it |
| Clients.NothingHeld | internal/storage/buffer/buffer_pool.go:121-140 | runs start from a pool nobody holds anything of |
| Clients.Reopen | internal/storage/buffer/buffer_pool.go:341-351 | whatever the callers did: after a flush of everything a new pool on the same disk has every page but those with a write nobody reported |
| Clients.SavedFile | internal/storage/buffer/buffer_pool.go:341-351 | a file without unreported writes is on disk as it stands |
| Bits.ReadBits | internal/util/bits.go:17-41 | fails exactly on a length outside 1 to 16 or a run outside the bytes; else the value of the run, most significant bit first |
| Bits.WriteBits | internal/util/bits.go:46-78 | fails exactly on those and on values that do not fit, without effect; else sets exactly the bits of the run |
| Bits.OutOfReach | internal/util/bits.go:25-28 | the slice bounds computed in 16 bits are reversed, so that the slice panics, exactly when a run ends past bit 65536; bytes up to a page have no such run |
| Bits.Locate | internal/util/bits.go:25-31 | the 16-bit byte positions span the run and at most three bytes |
| Bits.PackWindow | internal/util/bits.go:33-37 | the packed window, shifted in 32 bits |
| Bits.UnpackWindow | internal/util/bits.go:72-76 | the bytes of the window are those of the word |
| Bits.CutOut | internal/util/bits.go:39-40 | shift and mask of the window are the run's value |
| Bits.MergedIsWritten | internal/util/bits.go:68-76 | clear, merge and write back set the run and no other bit |
| Bits.WrittenRuns | internal/util/bits.go:43-45 | a written run reads back as its value, and every run apart from it as before |
| SlotEntry.Offset | internal/storage/page/slot_entry.go:39-42 | the first field, below 2^15 |
| SlotEntry.Length | internal/storage/page/slot_entry.go:49-52 | the second field, below 2^15 |
| SlotEntry.Flag | internal/storage/page/slot_entry.go:59-62 | the third field |
| SlotEntry.SetOffset | internal/storage/page/slot_entry.go:44-46 | only the offset changes, exactly when the value fits |
| SlotEntry.SetLength | internal/storage/page/slot_entry.go:54-56 | only the length changes, exactly when the value fits |
| SlotEntry.SetFlag | internal/storage/page/slot_entry.go:64-66 | only the flag changes, exactly when the value fits |
| TupleHeader.SetTxMin | internal/storage/page/tuple.go:77-79 | only the inserting transaction changes |
| TupleHeader.SetTxMax | internal/storage/page/tuple.go:86-88 | only the deleting transaction changes |
| TupleHeader.Flags | internal/storage/page/tuple.go:91-94 | the flags field |
| TupleHeader.SetFlags | internal/storage/page/tuple.go:96-98 | only the flags change, exactly when the value fits |
| TupleHeader.HasNull | internal/storage/page/tuple.go:101-103 | whether the flags are odd |
| TupleHeader.ColumnCount | internal/storage/page/tuple.go:106-109 | the column count, below 1024 |
| TupleHeader.SetColumnCount | internal/storage/page/tuple.go:111-113 | only the column count changes, exactly when the value fits |
| TupleHeader.Hoff | internal/storage/page/tuple.go:116-118 | the data offset |
| TupleHeader.SetHoff | internal/storage/page/tuple.go:120-122 | only the data offset changes |
| TupleHeader.HeaderDetermined | internal/storage/page/tuple.go:62-122 | the five fields and the reserved byte determine the header |
| SlottedPage.Init | internal/storage/page/slotted_page.go:113-119 | any bytes become a formatted page without tuples and 8168 bytes free: zeros but for the two boundaries and the page size |
| SlottedPage.ZeroPageUnformatted | internal/storage/page/slotted_page.go:101-112 | a merely zeroed page is not a valid one |
| SlottedPage.SlotCount | internal/storage/page/slotted_page.go:53-55 | the number of tuples of a formatted page; of any page, the size of its directory if that ends behind the header, else the 16-bit difference underflows to more slots than a page can hold |
| SlottedPage.FreeSpace | internal/storage/page/slotted_page.go:124-127 | the bytes between directory and data of any page, wrapped to 16 bits where they have crossed |
| SlottedPage.InsertTuple | internal/storage/page/slotted_page.go:138-165 | no space exactly when the length plus 4 exceeds the free space, and then no byte changes; else the tuples gain this one, the free space shrinks by as much, older slots stay, and nothing but the boundaries, the new slot's offset and length and the tuple's bytes is written |
| SlottedPage.Place | internal/storage/page/slotted_page.go:150-164 | what the writes leave, field by field: 16-bit arithmetic loses nothing |
| SlottedPage.LocateTuple | internal/storage/page/slotted_page.go:65-95 | the bytes of the tuple of an existing slot |
| SlottedPage.InsertedTuples | internal/storage/page/slotted_page.go:138-165 | those writes append one tuple and keep the format |
| SlottedPage.Tiling | internal/storage/page/slotted_page.go:121-165 | the tuples, newest first, are the data area byte for byte, and header, slots, free space and tuple lengths total 8192 |
| SlottedPage.NoOverlap | internal/storage/page/slotted_page.go:121-165 | no two tuples share a byte, and all lie inside the data area |
| HeapFile.Heap.Insert | internal/access/heap/heap.go:57-97 | the log gains exactly the tuple under the returned id, or nothing; if its bytes and 4 for a slot are free on the last page it goes there, in the next slot, and the file does not grow, else it goes to slot 0 of one new page; it is stored exactly up to 8164 bytes unless a disk call fails, no frame is to be had for the page it needs or the file is full; an oversized tuple leaves one formatted empty page |
| HeapFile.Heap.InsertAll | internal/access/heap/heap.go:57-97 | every run, failures included, logs what was stored in order and loses nothing logged before; the file grows at exactly the tuples that do not fit its last page, of whose free bytes every tuple takes its size and 4; a tuple is not stored only because it is over 8164 bytes, no frame is to be had for the page it needs, a disk call failed during that very insertion or the file is full; with a free frame and room every insertion without a failed call stores exactly up to 8164 bytes |
| HeapFile.Heap.AllStored | internal/access/heap/heap.go:57-97 | with a free frame, room in the file and no failing disk call every tuple is stored that fits an empty page |
| Engine.ReopenHeap | internal/access/heap/heap.go:47-51 | a heap flushed and taken up again by a new pool on the same disk has the same log |
| HeapFile.Heap.TryLast | internal/access/heap/heap.go:58-75 | on the last page exactly if it fits there, else no trace |
| HeapFile.TookLast | internal/access/heap/heap.go:65-68 | the last page took the tuple in its next slot, and its free bytes shrank by the size and 4 |
| HeapFile.Heap.OnNewPage | internal/access/heap/heap.go:77-96 | on slot 0 of one new formatted page, or no trace, or too large |
| HeapFile.Heap.AddTo | internal/access/heap/heap.go:65-68 | the pinned page gains the tuple exactly when it fits |
| HeapFile.Heap.FormatAndAdd | internal/access/heap/heap.go:87-94 | a fresh page is formatted and takes the tuple exactly up to 8164 bytes; 8168 are free without it |
| HeapFile.Heap.Get | internal/access/heap/heap.go:101-117 | found with the logged bytes, or no such slot exactly when the page is there and no tuple is logged under the id; fails only for a page outside the file, a failing disk call, or a page in no frame when all are pinned |
| HeapFile.Heap.Scan | internal/access/heap/heap.go:123-138 | the calls are the log, in order, each once, or end at a refusal, or are the log of the pages before one that cannot be read; pins and store untouched |
| HeapFile.Heap.ScanPage | internal/access/heap/heap.go:124-135 | one page: its contribution, released on every path |
| HeapFile.FeedPage | internal/access/heap/heap.go:142-150 | the tuples of the page in slot order up to a refusal |
| HeapFile.LogOrdered | internal/access/heap/heap.go:119-122 | ids increase along the log, page first, then slot |
| HeapFile.LogFunctional | internal/access/heap/heap.go:30-35 | one id, one tuple |
| HeapFile.LogHas | internal/access/heap/heap.go:101-117 | an id and bytes are logged exactly when the slot of that page points at them |
| HeapFile.LogAppends | internal/access/heap/heap.go:65-68 | a tuple added to the last page is added at the end of the log |
| HeapFile.LogGrows | internal/access/heap/heap.go:83-89 | a new page adds its tuples at the end of the log |
| Record.Encode | internal/record/record.go:45-127 | fails exactly if the row's length is not the schema's, the column count is 1024 or more after its cut to 16 bits, or some value is a NULL in a column that is not nullable, an integer outside an integer column, a text outside a text column or over 65535 bytes, or of another type; the result is an encoding of the row |
| Record.OneEncoding | internal/record/record.go:82-126 | a row has one encoding |
| Record.Decode | internal/record/record.go:132-184 | computes the meaning of any bytes under any schema, errors included |
| Record.Validate | internal/record/record.go:50-80 | the same of the values; whether some are NULL; the size of the column data |
| Record.BitmapBounds | internal/record/record.go:82-84 | the bitmap has as few bytes as have a bit for each column |
| Record.WriteBitmap | internal/record/record.go:100-106 | bit i of the bitmap is set exactly when column i is NULL, the header stays |
| Record.WriteColumns | internal/record/record.go:108-125 | the bytes behind the bitmap are the column data, in order |
| Record.RowDataStep | internal/record/record.go:108-125 | the data of a column follows that of the columns before it |
| Record.WriteColumn | internal/record/record.go:115-124 | one column appended to what is there |
| Record.ReadColumns | internal/record/record.go:155-183 | the parse of the columns from the data offset on |
| Record.ReadColumn | internal/record/record.go:158-181 | one column, its errors included |
| Record.RoundTrip | internal/record/record.go:45-184 | for schemas below 65536 columns an encoding followed by any bytes decodes to the row |
| Record.PrefixFails | internal/record/record.go:129-184 | and every strict prefix of it is an error |
| Record.PrefixFree | internal/record/record.go:45-184 | so no encoding under a schema is a prefix of another row's |
| Record.RoundTripExactly | internal/record/record.go:89-94 | of what Encode accepts, exactly the schemas below 65536 columns decode again; beyond, Decode reports an error |
| Record.WideRowIsLost | internal/record/record.go:89-94 | the failing case: 65536 NULLs are accepted and do not decode |
| Record.DecodesExactly | internal/record/record.go:132-184 | bytes decode to a row if and only if the header is consistent with the schema and the bytes at the data offset start with the row's column data and NULLs |
| Record.ParseData | internal/record/record.go:155-183 | column data followed by anything parses to its row |
| Record.ParseCut | internal/record/record.go:162-176 | column data cut short anywhere does not parse |
| Record.ParseBack | internal/record/record.go:155-183 | what parses is the row whose column data is there |
| Layout.BigEndianRun | internal/storage/page/tuple.go:75-81 | an integer is the value of its bytes as one run of bits, the most significant first |
| Layout.ByteRun | internal/util/bits.go:20-40 | eight bits at a byte boundary are that byte |
| Layout.RunJoin | internal/util/bits.go:20-40 | a run is its first part, shifted by the length of the second, plus the second |
| Layout.TwosComplement | internal/access/nbtree/node.go:91-98 | a signed integer is stored as its remainder modulo 2^64 |
| Layout.SlotBytes | internal/storage/page/slot_entry.go:10-14 | offset, length and flag of a slot as arithmetic on its four bytes |
| Layout.HeaderBytes | internal/storage/page/tuple.go:17-35 | the fields of a tuple header as arithmetic on its bytes; the NULL flag is the lowest flag bit |
| Layout.SlottedPageBytes | internal/storage/page/page_header.go:42-67 | the data starts where bytes 12 and 13 say, the directory ends where bytes 14 and 15 say, slots are from byte 24 on |
| Layout.NodeBytes | internal/access/nbtree/node.go:20-135 | kind, count, next leaf, keys, children and TIDs of a node at their bits |
| Layout.NodeFields | internal/access/nbtree/node.go:60-135 | the node a page stands for has exactly the fields stored there |
| Layout.MetaBytes | internal/access/nbtree/nbtree.go:29-45 | the meta page of an index: the letters nbtr, then the page of the root |
| Layout.ColumnBytes | internal/record/record.go:108-125 | an integer is eight bytes, a text its length in two bytes and its bytes, a NULL nothing |
| Layout.EncodedHead | internal/record/record.go:82-98 | the first twelve bytes of an encoded row, and the column data at the offset |
| Layout.EncodedBitmap | internal/record/record.go:100-106 | bit k of byte j of the bitmap is for column 8 j + k |
| Layout.DecodedBytes | internal/record/record.go:132-184 | which bytes decode to which row, as arithmetic on them, both ways; a NULL decodes in any column |

## Left out

- BTree.Index.Insert: after a split that was not carried through it says that no index is left, but not what later
  operations on such a file do. Pins and other files are still as before.
- Bits.ReadBits: for runs that end by bit 65536; the code panics on exactly the others (Bits.OutOfReach), which need more than 8192 bytes.
- Bits.WriteBits: for runs that end by bit 65536, as for reading.
- Operating-system file I/O, opening and closing files: a file is a sequence of pages.
- Sync, fsync and crashes: a page is on disk once its write call succeeded.
- A disk manager registered twice: files are values here, so each is registered once.
- Locks and goroutines: every pool operation is one atomic step; unlatched concurrent access to the bytes of one page is not modelled.
- The catalog: JSON persistence of a small map.
- Page header fields other than the two boundaries and the page size; hint bits other than the NULL flag; visibility of tuples.
- Slot flags beyond reading and writing them; the code never sets one.
- Files that are corrupt before they are opened, and callbacks that change the structure being scanned.
- Error texts: an error is its kind.
- The server command.
