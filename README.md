# LRU cache of file metadata, modelled in Dafny

The program keeps a fixed-capacity, least-recently-used cache of file
metadata (`LRU_cache/code.cpp`). Each entry records a path, a timestamp, a
size and an inode. The cache is a doubly linked list of heap nodes:

- `head` is the most recently used entry;
- `tail` is the least recently used entry;
- `size` counts the entries and `capacity` bounds them.

`searchLRUEntry` finds a path and promotes its node to the head.
`addEntry` promotes a cached path. For a new path it captures the file's
metadata and, when the cache is full, evicts the tail before putting the
new node first. `removeLRUEntry` finds a path, promotes its node and then
unlinks it. `printLRUCache` walks from head to tail, and `destroyLRUCache`
frees every node.

The project has four modules:

- `Metadata` (`metadata.dfy`): the entry payload and the capture step
  `createNode`. The operating-system calls are not modelled. What each call
  reported is passed in as a value, and `CreateNode` checks them in the
  source's order. Path truncation to 255 characters (a Dafny character
  stands for one C `char`) and the `size_t` cast are written out.
- `LruSpec` (`lru_spec.dfy`): what the cache means. The entries are a
  sequence, most recently used first, and each operation is a function on
  that sequence (`Lookup`, `AddEntry`, `RemoveEntry`). The lemmas state what
  the operations promise: promotion, eviction of the least recently used
  entry, removal of exactly one entry, and preservation of the invariant
  `WellFormed` (at most `capacity` entries, distinct paths, every path fits
  the buffer).
- `LruCache` (`lru_cache.dfy`): the linked list itself, as classes `Node`
  and `Cache` with mutable `prev`/`next`/`head`/`tail`/`size`. A ghost
  sequence `nodes` lists the chain from head to tail, and `Valid()` ties
  every pointer and counter to it. Every public operation keeps `Valid()`:
  the constructor and `Search`, `Add`, `Remove`, `Enumerate` and `Destroy`.
  `Search`, `Add` and `Remove` change `Entries()` exactly as `Lookup`,
  `AddEntry` and `RemoveEntry` say. `Enumerate` returns `Entries()`, and
  `Destroy` hands back the chain's nodes. The helpers `Detach` and
  `LinkFront` state only the links they leave behind; the callers restore
  `Valid()`. The walks of `searchLRUEntry`, `printLRUCache` and
  `destroyLRUCache` are `while` loops with invariants.
- `AsWritten` (`as_written.dfy`): the pointer statements of
  `createLRUCache`, `searchLRUEntry`, `addEntry` and `removeLRUEntry` as
  written. The C heap is a map from addresses to nodes, and undefined
  behaviour is a result. This module simplifies in three ways:
  - a node keeps only its path, since the rest of the metadata takes no
    part in the linking;
  - the capture always succeeds;
  - `malloc` returns the address it is given.

  `printLRUCache` and `destroyLRUCache` have no counterpart here. The
  lemmas run small caches through these functions and exhibit each defect
  listed under Findings. The other modules model the evidently intended
  behaviour.

In three places the model departs from the code or picks one reading
of it:

- `removeLRUEntry` first calls `searchLRUEntry`, so the entry is promoted
  to the head before it is unlinked (code.cpp:168). `Cache.Remove` does the
  same, and `RemoveIsLookupThenDropHead` proves it equals deleting the
  entry where it stands.
- The code ends the process on a failed capture (`exit`, code.cpp:33-72).
  The model returns `CaptureFailed` and leaves the cache unchanged. The
  capture runs before any eviction (line 142 precedes line 144), and the
  model keeps that order.
- A capacity of 0 makes line 146 dereference `NULL`. The model takes the
  capacity as a `nat` and does not forbid 0. In a cache of capacity 0 no
  insertion succeeds: a successful capture is answered with `CapacityZero`,
  a failed one with `CaptureFailed`, and the cache stays empty.

## Model

| member | source | states |
|---|---|---|
| Metadata.Truncate | LRU_cache/code.cpp:79-80 | the stored path is the longest prefix of the input of at most 255 characters; shorter paths are kept whole |
| Metadata.SizeT | LRU_cache/code.cpp:82 | the cast to `size_t` is below 2^64 and keeps every value already in range |
| Metadata.CreateNode | LRU_cache/code.cpp:32-95 | the capture succeeds exactly when stat, the directory check, open, both seeks, tell and close all succeed; the payload is the truncated path, the time, the cast size and the inode; the zero-size warning is raised exactly for an empty file; a directory fails with `IsDirectory` |
| LruSpec.Find | LRU_cache/code.cpp:111-129 | the scan returns -1 exactly when no entry has the key, and otherwise the first index whose path is the key |
| LruSpec.Lookup | LRU_cache/code.cpp:110-131 | a lookup keeps the number of entries; a miss changes nothing; a hit puts an entry with the key first, with the other entries in their old order |
| LruSpec.AddEntry | LRU_cache/code.cpp:133-165 | `AlreadyPresent` exactly when the truncated path is cached, with the entries then looked up; `CaptureFailed` exactly on a miss whose capture fails; a failure or `CapacityZero` keeps the entries; `CapacityZero` only at capacity 0; an insertion follows a successful capture at nonzero capacity, puts the captured entry first before the old entries, minus the last one exactly when the cache was full, and reports that last one as evicted |
| LruSpec.RemoveEntry | LRU_cache/code.cpp:167-190 | the result is true exactly when the truncated path is cached; a miss keeps the entries; a hit removes exactly one entry, the first with that path, as a multiset |
| LruSpec.LookupMovesHitToFront | LRU_cache/code.cpp:110-130 | a hit puts the first matching entry first, leaves the others in their relative order and keeps the multiset of entries; a miss changes nothing |
| LruSpec.LookupIdempotent | LRU_cache/code.cpp:110-127 | looking the same key up twice orders the entries as looking it up once |
| LruSpec.LookupPreservesWellFormed | LRU_cache/code.cpp:110-127 | a lookup keeps the entries within capacity, with distinct paths that fit the buffer |
| LruSpec.AddPresentOnlyPromotes | LRU_cache/code.cpp:134-138 | adding a cached path reports `AlreadyPresent`, only promotes it, and keeps the multiset of entries |
| LruSpec.AddFailureKeepsEntries | LRU_cache/code.cpp:142-144 | a failed capture or a zero capacity leaves the entries unchanged and reports which of the two happened |
| LruSpec.AddToFullEvictsLeastRecent | LRU_cache/code.cpp:144-164 | a new path in a full cache evicts exactly the last entry, which is then absent; the new entry comes first and the count stays at the capacity |
| LruSpec.AddWithRoomPrepends | LRU_cache/code.cpp:154-164 | a new path in a cache with room is put first, nothing is evicted, and the count grows by one |
| LruSpec.AddPreservesWellFormed | LRU_cache/code.cpp:133-165 | every insertion keeps the entries within capacity, with distinct paths that fit the buffer; after a hit or an insertion the truncated path is cached |
| LruSpec.CapacityZeroStaysEmpty | LRU_cache/code.cpp:144-146 | a cache of capacity 0 is empty, and no insertion ever puts anything in it |
| LruSpec.RemoveDeletesOnlyThatEntry | LRU_cache/code.cpp:167-189 | removal reports whether the path was cached; a present path's entry, and only it, is deleted with the others in order; the path is then absent; an absent path changes nothing; the invariant is kept |
| LruSpec.RemoveIsLookupThenDropHead | LRU_cache/code.cpp:168-184 | removal reports a hit exactly when the path is cached, and promoting the entry and then dropping the head gives the same entries as deleting the entry in place |
| LruSpec.ThreeEntryScenario | LRU_cache/code.cpp:133-165 | at capacity 3, adding A, B, C lists C, B, A; looking A up lists A, C, B; adding D then evicts B and lists D, A, C |
| LruCache.Node.constructor | LRU_cache/code.cpp:90-93 | a new node holds its payload and has no neighbours |
| LruCache.Cache.constructor | LRU_cache/code.cpp:97-107 | a new cache has the given capacity, size 0, null head and tail, and no entries |
| LruCache.Cache.Locate | LRU_cache/code.cpp:111-129 | the loop stops at null exactly when no entry has the key; otherwise it stops at the node of the first matching entry |
| LruCache.Cache.Search | LRU_cache/code.cpp:110-131 | the result is null exactly on a miss; the entries become `Lookup` of the old entries; a hit is returned as the new head; a miss leaves head, tail and size unchanged; no node joins the chain |
| LruCache.Cache.MoveToHead | LRU_cache/code.cpp:114-126 | promotion moves the node to the front of the chain and keeps the list valid; promoting the head changes nothing |
| LruCache.Cache.Relink | LRU_cache/code.cpp:114-126 | promoting a node that is not the head moves it to the front of the chain and keeps the list valid, with `tail` updated |
| LruCache.Cache.Detach | LRU_cache/code.cpp:114-119 | unlinking a non-head node leaves the neighbours linked to each other, with `tail` moved back when the node was the tail |
| LruCache.Cache.LinkFront | LRU_cache/code.cpp:120-125 | the node becomes the head before the old chain, and also the tail when the chain was empty |
| LruCache.Cache.EvictTail | LRU_cache/code.cpp:144-152 | the tail is unlinked and returned, the entries lose exactly their last element, and the list stays valid |
| LruCache.Cache.PushFront | LRU_cache/code.cpp:154-164 | a fresh node is linked in as the head, its entry is prepended, and the list stays valid |
| LruCache.Cache.InsertNew | LRU_cache/code.cpp:142-164 | after a miss, a full cache evicts its last entry and reports it; the new entry becomes a fresh head; every other node in the chain was already in it |
| LruCache.Cache.Add | LRU_cache/code.cpp:133-165 | the outcome and the new entries are exactly `AddEntry` of the old entries; the list stays valid; a new entry is a fresh head with the truncated path; every node in the chain was already in it or is newly allocated |
| LruCache.Cache.DropHead | LRU_cache/code.cpp:170-184 | the head is unlinked, the entries lose exactly their first element, and the list stays valid |
| LruCache.Cache.Remove | LRU_cache/code.cpp:167-190 | the result and the new entries are exactly `RemoveEntry` of the old entries, and the list stays valid; no node joins the chain |
| LruCache.Cache.Enumerate | LRU_cache/code.cpp:192-206 | the walk from head to tail yields the entries in order, each once, `size` of them |
| LruCache.Cache.Destroy | LRU_cache/code.cpp:208-217 | the walk hands back every node of the chain exactly once and in order, and the cache is left empty |
| AsWritten.SetNext | LRU_cache/code.cpp:115 | `p->next = v` is defined exactly on a live node; it changes that one field and nothing else |
| AsWritten.SetPrev | LRU_cache/code.cpp:118 | `p->prev = v` is defined exactly on a live node; it changes that one field and nothing else |
| AsWritten.Empty | LRU_cache/code.cpp:97-107 | the new cache has null ends, size 0 and the given capacity, and every walk from its head is empty |
| AsWritten.Scan | LRU_cache/code.cpp:111-129 | a hit is a live node holding exactly the argument, which the walk from the head meets; a miss means the walk meets no node with that path |
| AsWritten.Unlink | LRU_cache/code.cpp:114-119 | when defined, the old predecessor of `cur` (if any) gets `cur`'s successor as its `next` and the old successor (if any) gets `cur`'s predecessor as its `prev` (lines 115 and 118); no node is added, freed or renamed, and head, tail and size are left alone |
| AsWritten.LinkAtHead | LRU_cache/code.cpp:120-125 | when defined, the node becomes the head with no predecessor and the old head as successor; tail and size are not touched |
| AsWritten.Promote | LRU_cache/code.cpp:114-126 | when defined, the node becomes the head with no predecessor and the old head as successor, while `tail` is left as it was |
| AsWritten.Search | LRU_cache/code.cpp:110-131 | a null result means no hit, and a miss changes nothing; a hit returns a node holding exactly the argument and, when defined, makes it the head with `tail` and size unchanged |
| AsWritten.Evict | LRU_cache/code.cpp:144-152 | defined exactly when the tail and its predecessor, if any, are live; it frees the tail, moves `tail` back, decrements `size` and never changes `head` |
| AsWritten.Add | LRU_cache/code.cpp:133-165 | with `malloc` returning an address no live node holds: a hit adds no node; after a miss, when defined, the new node holds the truncated path and is the head, linked to the old head; `tail` is set; `size` grows unless an entry was evicted |
| AsWritten.Remove | LRU_cache/code.cpp:167-190 | a miss changes nothing; a hit, when defined, frees exactly the found node, decrements `size` and always leaves `tail` null |
| AsWritten.TwoEntriesIsBuiltByAdd | LRU_cache/code.cpp:133-165 | the two-entry cache used by the lemmas below is what two insertions build |
| AsWritten.PromotingHeadMakesSelfLoop | LRU_cache/code.cpp:120 | looking up the head makes it its own successor, and the other entry can no longer be reached |
| AsWritten.PromotingTailKeepsStaleTail | LRU_cache/code.cpp:114-126 | promoting the tail leaves `tail` on the new head while two entries remain |
| AsWritten.RemoveClearsTail | LRU_cache/code.cpp:168-184 | removing one entry of two leaves `tail` null although one entry remains |
| AsWritten.CapacityZeroDereferencesNull | LRU_cache/code.cpp:144-146 | the first insertion into a capacity-0 cache dereferences the null tail |
| AsWritten.CapacityOneWritesFreedHead | LRU_cache/code.cpp:144-158 | the second insertion into a capacity-1 cache writes through `head` after it has been freed |
| AsWritten.LongPathIsStoredTwice | LRU_cache/code.cpp:79-80 | a 256-character path is stored truncated, is not found again, and adding it twice stores two equal paths |

## Left out

- The operating-system calls (`stat`, `fopen`, `fseek`, `ftell`, `fclose`) and `time(NULL)`. What they report is passed in to `CreateNode` as values.
- Process exit on errors, and `malloc` failure (code.cpp:36-100). Capture failures become a `CaptureFailed` result. Allocation always succeeds here, since Dafny's `new` cannot fail.
- All printing, `displayMenu` and `main` (code.cpp:219-281), which are user interface.
- `Multithread/multithread_code.cpp` is not part of this model. It is a separate program about thread concurrency.
- Negative capacities. The source's `int` capacity is a `nat` here, so `createLRUCache` with a negative argument is not modelled.
- Freeing memory. Dafny has no deallocation, so `Cache.Destroy` hands back the nodes that the source frees (code.cpp:213-216).
- Metadata.Truncate: counts Dafny characters, each standing for one C `char` (one byte). A path in a multi-byte encoding such as UTF-8 is not modelled. The source cuts such a path at 255 bytes, possibly inside a character; the model cuts at 255 characters.
- LruCache.Cache: there is no ownership footprint (`Repr`) saying that a cache's nodes belong to it alone. Two caches that shared nodes could break each other's `Valid()`. The public operations never share: the constructor starts empty, and `Add` links only nodes it has just allocated. No contract states that a cache owns its nodes. What `Search`, `Add` and `Remove` do state is that every node in the chain afterwards was already in it or, for `Add`, is newly allocated. A caller can therefore keep calling them on a cache it created. Such a caller still pays for unfolding `AddEntry` and `RemoveEntry` at every step.
- C strings with an embedded terminator. Paths are character sequences compared as wholes, since `strcmp` and `strncpy` stop at the first NUL.
- AsWritten.Scan: the walk carries a fuel bound, because the as-written list can be cyclic. A walk that runs out of fuel counts as stuck.
- `ftell` results other than -1 that are negative are cast to `size_t` by `SizeT` (modulo 2^64), as the source does. The error path covers -1 only.

## Findings

| source | as written | input that shows it | evidently intended | confidence | as-written member | corrected member |
|---|---|---|---|---|---|---|
| LRU_cache/code.cpp:120 | on a hit at the head, `current->next = cache->head` makes the node its own successor | a cache listing a, b; search "a" | promoting the head changes nothing | not executed | AsWritten.PromotingHeadMakesSelfLoop | LruCache.Cache.MoveToHead |
| LRU_cache/code.cpp:114-126 | `tail` is not updated when the promoted node was the tail | a cache listing a, b; search "b" | `tail` moves to the promoted node's predecessor | not executed | AsWritten.PromotingTailKeepsStaleTail | LruCache.Cache.Relink |
| LRU_cache/code.cpp:170 | `tail` is set to the removed node's `prev`, which the preceding promotion has just made null | a cache listing a, b; remove "b" | `tail` changes only if the tail is removed | not executed | AsWritten.RemoveClearsTail | LruCache.Cache.DropHead |
| LRU_cache/code.cpp:144-146 | with capacity 0 the first insertion finds `size == capacity` and reads through the null tail | capacity 0; add "a" | a cache of capacity 0 stores nothing | not executed | AsWritten.CapacityZeroDereferencesNull | LruSpec.CapacityZeroStaysEmpty |
| LRU_cache/code.cpp:146-156 | evicting the only entry leaves `head` on the freed node, and line 156 writes to it | capacity 1; add "a", then add "b" | eviction of the last entry also clears `head` | not executed | AsWritten.CapacityOneWritesFreedHead | LruCache.Cache.EvictTail |
| LRU_cache/code.cpp:113 | lookup compares the stored, truncated path with the untruncated argument | add a 256-character path twice | lookup compares the truncated key, so paths stay distinct | not executed | AsWritten.LongPathIsStoredTwice | LruSpec.AddPreservesWellFormed |
