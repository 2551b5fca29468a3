/** The pointer code of LRU_cache/code.cpp (`createLRUCache`,
    `searchLRUEntry`, `addEntry`, `removeLRUEntry`) as written, on a value
    model of the C heap: a map from addresses to nodes, with `Null` and
    freed addresses both outside the map. Reading or writing through such a
    pointer is undefined behaviour, which is a result here. The functions
    follow the pointer statements one by one; a node keeps only its path
    (the other metadata plays no part in the linking), a capture always
    succeeds and `malloc` returns the address it is given. The walks of
    `printLRUCache` and `destroyLRUCache` have no counterpart here. The
    lemmas at the end run the functions on small caches and show where the
    list invariant of module LruCache breaks. The rest of the project does
    not use this module. */
module AsWritten {
  import opened Metadata

  datatype Ptr = Null | Addr(a: nat)

  datatype CNode = CNode(path: string, prev: Ptr, next: Ptr)

  datatype CCache = CCache(heap: map<nat, CNode>, head: Ptr, tail: Ptr, size: int, capacity: int)

  /** A run of a code fragment: the state it ends in, or undefined
      behaviour (a dereference of `NULL` or of freed memory). */
  datatype Run = Undefined | Done(c: CCache)

  /** What the scan of `searchLRUEntry` stops at; `Stuck` is a walk into
      freed memory or one that has not ended after `fuel` nodes. */
  datatype ScanResult = Hit(a: nat) | Miss | Stuck

  predicate Live(c: CCache, p: Ptr)
  {
    p.Addr? && p.a in c.heap
  }

  /** `d` has the nodes of `c`, at the same addresses and with the same paths. */
  predicate SameNodes(c: CCache, d: CCache)
  {
    && d.heap.Keys == c.heap.Keys
    && forall a :: a in c.heap ==> d.heap[a].path == c.heap[a].path
  }

  /** The cache fields other than the heap are those of `c`. */
  predicate SameFields(c: CCache, d: CCache)
  {
    d.head == c.head && d.tail == c.tail && d.size == c.size && d.capacity == c.capacity
  }

  /** `p->next = v`: defined exactly on a live node, whose `next` becomes `v`;
      no other field of any node or of the cache changes. */
  function SetNext(c: CCache, p: Ptr, v: Ptr): (r: Run)
    ensures r.Done? <==> Live(c, p)
    ensures r.Done? ==> SameFields(c, r.c) && r.c.heap == c.heap[p.a := c.heap[p.a].(next := v)]
  {
    if Live(c, p) then Done(c.(heap := c.heap[p.a := c.heap[p.a].(next := v)])) else Undefined
  }

  /** `p->prev = v`: defined exactly on a live node, whose `prev` becomes `v`;
      no other field of any node or of the cache changes. */
  function SetPrev(c: CCache, p: Ptr, v: Ptr): (r: Run)
    ensures r.Done? <==> Live(c, p)
    ensures r.Done? ==> SameFields(c, r.c) && r.c.heap == c.heap[p.a := c.heap[p.a].(prev := v)]
  {
    if Live(c, p) then Done(c.(heap := c.heap[p.a := c.heap[p.a].(prev := v)])) else Undefined
  }

  /** The paths met walking `next` pointers from `p`, at most `fuel` of them. */
  function Walk(c: CCache, p: Ptr, fuel: nat): seq<string>
    decreases fuel
  {
    if fuel == 0 || !Live(c, p) then [] else [c.heap[p.a].path] + Walk(c, c.heap[p.a].next, fuel - 1)
  }

  /** The loop of `searchLRUEntry` (code.cpp:111-129): compares the stored
      path with the argument as given. */
  function Scan(c: CCache, p: Ptr, path: string, fuel: nat): (r: ScanResult)
    ensures r.Hit? ==> r.a in c.heap && c.heap[r.a].path == path
    ensures r.Hit? ==> path in Walk(c, p, fuel)
    ensures r.Miss? ==> path !in Walk(c, p, fuel)
    decreases fuel
  {
    if p == Null then Miss
    else if p.a !in c.heap || fuel == 0 then Stuck
    else if c.heap[p.a].path == path then Hit(p.a)
    else Scan(c, c.heap[p.a].next, path, fuel - 1)
  }

  /** code.cpp:114-119: the neighbours of `cur` are linked to each other.
      When defined, no node is added, freed or renamed, and the cache
      fields stay as they were. */
  function Unlink(c: CCache, cur: nat): (r: Run)
    requires cur in c.heap
    ensures r.Done? ==> SameNodes(c, r.c) && SameFields(c, r.c)
    ensures var n := c.heap[cur];
            r.Done? ==> && (n.prev != Null ==> n.prev.a in r.c.heap && r.c.heap[n.prev.a].next == n.next)
                        && (n.next != Null ==> n.next.a in r.c.heap && r.c.heap[n.next.a].prev == n.prev)
  {
    var n := c.heap[cur];
    var r1 := if n.prev != Null then SetNext(c, n.prev, n.next) else Done(c);
    if r1.Undefined? then Undefined else
    var c1 := r1.c;
    var n1 := c1.heap[cur];
    if n1.next != Null then SetPrev(c1, n1.next, n1.prev) else Done(c1)
  }

  /** code.cpp:120-125: `cur` is linked in before the current head and
      becomes the head, with no predecessor; `tail` and `size` are left
      alone. */
  function LinkAtHead(c: CCache, cur: nat): (r: Run)
    requires cur in c.heap
    ensures r.Done? ==> SameNodes(c, r.c)
    ensures r.Done? ==> && r.c.head == Addr(cur) && r.c.heap[cur].prev == Null && r.c.heap[cur].next == c.head
                        && r.c.tail == c.tail && r.c.size == c.size && r.c.capacity == c.capacity
  {
    var r3 := SetNext(c, Addr(cur), c.head);
    if r3.Undefined? then Undefined else
    var c3 := r3.c;
    var r4 := if c3.head != Null then SetPrev(c3, c3.head, Addr(cur)) else Done(c3);
    if r4.Undefined? then Undefined else
    var r5 := SetPrev(r4.c, Addr(cur), Null);
    if r5.Undefined? then Undefined else
    Done(r5.c.(head := Addr(cur)))
  }

  /** code.cpp:114-126, the relinking of the matched node `cur`. When it
      is defined, `cur` becomes the head with no predecessor and the old
      head as successor, while `tail` and `size` stay as they were. */
  function Promote(c: CCache, cur: nat): (r: Run)
    requires cur in c.heap
    ensures r.Done? ==> SameNodes(c, r.c)
    ensures r.Done? ==> && r.c.head == Addr(cur) && r.c.heap[cur].prev == Null && r.c.heap[cur].next == c.head
                        && r.c.tail == c.tail && r.c.size == c.size && r.c.capacity == c.capacity
  {
    var r1 := Unlink(c, cur);
    if r1.Undefined? then Undefined else LinkAtHead(r1.c, cur)
  }

  /** `searchLRUEntry`: the final state and the returned pointer. A miss
      changes nothing; a hit returns a node holding exactly `path` and, when
      the promotion is defined, makes it the head without touching `tail`. */
  function Search(c: CCache, path: string, fuel: nat): (res: (Run, Ptr))
    ensures Scan(c, c.head, path, fuel).Miss? ==> res == (Done(c), Null)
    ensures res.1 == Null <==> !Scan(c, c.head, path, fuel).Hit?
    ensures res.1 != Null ==> res.1.a in c.heap && c.heap[res.1.a].path == path
    ensures res.1 != Null && res.0.Done? ==>
              && SameNodes(c, res.0.c) && res.0.c.head == res.1 && res.0.c.heap[res.1.a].prev == Null
              && res.0.c.tail == c.tail && res.0.c.size == c.size && res.0.c.capacity == c.capacity
  {
    match Scan(c, c.head, path, fuel)
    case Miss => (Done(c), Null)
    case Stuck => (Undefined, Null)
    case Hit(a) => (Promote(c, a), Addr(a))
  }

  /** code.cpp:144-152, run when `size == capacity`. It is defined exactly
      when the tail and its predecessor (if any) are live; it frees the
      tail, moves `tail` back, and never changes `head`. */
  function Evict(c: CCache): (r: Run)
    ensures r.Done? <==> Live(c, c.tail) && (c.heap[c.tail.a].prev == Null || Live(c, c.heap[c.tail.a].prev))
    ensures r.Done? ==>
              && r.c.heap.Keys == c.heap.Keys - {c.tail.a}
              && (forall a :: a in r.c.heap ==> r.c.heap[a].path == c.heap[a].path)
              && r.c.tail == c.heap[c.tail.a].prev && r.c.head == c.head
              && r.c.size == c.size - 1 && r.c.capacity == c.capacity
  {
    if !Live(c, c.tail) then Undefined
    else
      var last := c.tail.a;
      var c1 := c.(tail := c.heap[last].prev);
      var r2 := if c1.tail != Null then SetNext(c1, c1.tail, Null) else Done(c1);
      if r2.Undefined? then Undefined
      else Done(r2.c.(heap := r2.c.heap - {last}, size := r2.c.size - 1))
  }

  /** `addEntry` with a capture that succeeds and a `malloc` that returns
      the address `addr`, which no live node holds. A hit adds no node. After a miss, when defined,
      the new node holds the truncated path and is the head, linked to the
      old head, `tail` is set, and `size` grows unless an entry was evicted. */
  function Add(c: CCache, path: string, addr: nat, fuel: nat): (r: Run)
    requires addr !in c.heap
    ensures Scan(c, c.head, path, fuel).Hit? && r.Done? ==> SameNodes(c, r.c) && r.c.size == c.size
    ensures Scan(c, c.head, path, fuel).Miss? && r.Done? ==>
              && r.c.head == Addr(addr) && addr in r.c.heap
              && r.c.heap[addr].path == Truncate(path) && r.c.heap[addr].next == c.head
              && r.c.tail != Null
              && r.c.size == (if c.size == c.capacity then c.size else c.size + 1)
  {
    var (r, found) := Search(c, path, fuel);
    if found != Null || r.Undefined? then r
    else
      var c0 := r.c.(heap := r.c.heap[addr := CNode(Truncate(path), Null, Null)]);
      var r1 := if c0.size == c0.capacity then Evict(c0) else Done(c0);
      if r1.Undefined? then Undefined else
      var r2 := SetNext(r1.c, Addr(addr), r1.c.head);
      if r2.Undefined? then Undefined else
      var c2 := r2.c;
      var r3 := if c2.head != Null then SetPrev(c2, c2.head, Addr(addr)) else Done(c2);
      if r3.Undefined? then Undefined else
      var c4 := r3.c.(head := Addr(addr));
      var c5 := if c4.tail == Null then c4.(tail := Addr(addr)) else c4;
      Done(c5.(size := c5.size + 1))
  }

  /** `removeLRUEntry` (code.cpp:167-190). A miss changes nothing. A hit,
      when defined, frees the node and decrements `size`, and always leaves
      `tail` null, because the promotion has just cleared the node's `prev`. */
  function Remove(c: CCache, path: string, fuel: nat): (r: Run)
    ensures Scan(c, c.head, path, fuel).Miss? ==> r == Done(c)
    ensures Scan(c, c.head, path, fuel).Hit? && r.Done? ==>
              && r.c.heap.Keys == c.heap.Keys - {Scan(c, c.head, path, fuel).a}
              && r.c.size == c.size - 1 && r.c.tail == Null
  {
    var (r, found) := Search(c, path, fuel);
    if found == Null || r.Undefined? then r
    else if found.a !in r.c.heap then Undefined
    else
      var node := found.a;
      var c1 := r.c;
      var n := c1.heap[node];
      var c2 := c1.(tail := if n.prev != Null then n.prev else Null);
      var r3 := if n.prev != Null then SetNext(c2, n.prev, n.next) else Done(c2.(head := n.next));
      if r3.Undefined? then Undefined else
      var c3 := r3.c;
      var n3 := c3.heap[node];
      var r4 := if n3.next != Null then SetPrev(c3, n3.next, n3.prev) else Done(c3);
      if r4.Undefined? then Undefined
      else Done(r4.c.(heap := r4.c.heap - {node}, size := r4.c.size - 1))
  }

  /** `createLRUCache`: no node, null ends, size 0 and the given capacity,
      so every walk from the head is empty. */
  function Empty(capacity: int): (r: CCache)
    ensures r.head == Null && r.tail == Null && r.size == 0 && r.capacity == capacity
    ensures forall fuel :: Walk(r, r.head, fuel) == []
  {
    CCache(map[], Null, Null, 0, capacity)
  }

  /** The cache after adding "b" and then "a" at capacity 3: a at 1 (head), b at 2 (tail). */
  function TwoEntries(): CCache
  {
    CCache(map[1 := CNode("a", Null, Addr(2)), 2 := CNode("b", Addr(1), Null)], Addr(1), Addr(2), 2, 3)
  }

  lemma TwoEntriesIsBuiltByAdd()
    ensures Add(Empty(3), "b", 2, 4) == Done(TwoEntries().(heap := map[2 := CNode("b", Null, Null)], head := Addr(2), tail := Addr(2), size := 1))
    ensures Add(Add(Empty(3), "b", 2, 4).c, "a", 1, 4) == Done(TwoEntries())
  {
    assert "b"[0] != "a"[0];
  }

  /** code.cpp:120: looking up the head makes it its own successor; the
      walk from the head cycles on it and the other entry is lost. */
  lemma PromotingHeadMakesSelfLoop()
    ensures var (r, found) := Search(TwoEntries(), "a", 4);
            && found == Addr(1) && r.Done?
            && r.c.heap[1].next == Addr(1) && r.c.head == Addr(1)
            && Walk(r.c, r.c.head, 3) == ["a", "a", "a"]
            && Scan(r.c, r.c.head, "b", 10) == Stuck
  {
    assert "a"[0] != "b"[0];
  }

  /** code.cpp:114-126: promoting the tail leaves `tail` on the node that is
      now the head, although the list still has two entries. */
  lemma PromotingTailKeepsStaleTail()
    ensures var (r, found) := Search(TwoEntries(), "b", 4);
            && found == Addr(2) && r.Done?
            && Walk(r.c, r.c.head, 3) == ["b", "a"]
            && r.c.tail == r.c.head && r.c.size == 2
  {
    assert "a"[0] != "b"[0];
  }

  /** code.cpp:170: after the promotion the removed node has no predecessor,
      so removing sets `tail` to NULL although one entry is left. */
  lemma RemoveClearsTail()
    ensures var r := Remove(TwoEntries(), "b", 4);
            && r.Done? && r.c.size == 1 && r.c.head == Addr(1) && r.c.tail == Null
            && Walk(r.c, r.c.head, 3) == ["a"]
  {
    assert "a"[0] != "b"[0];
  }

  /** code.cpp:144-146: with capacity 0 the first insertion finds
      `size == capacity` and reads through the NULL tail. */
  lemma CapacityZeroDereferencesNull()
    ensures Add(Empty(0), "a", 1, 4) == Undefined
  {
  }

  /** code.cpp:146-156: evicting the only entry of a capacity-1 cache leaves
      `head` on the freed node, which line 156 then writes to. */
  lemma CapacityOneWritesFreedHead()
    ensures var c := Add(Empty(1), "a", 1, 4);
            && c == Done(CCache(map[1 := CNode("a", Null, Null)], Addr(1), Addr(1), 1, 1))
            && Add(c.c, "b", 2, 4) == Undefined
  {
  }

  /** code.cpp:79-80 against 113: a path longer than the buffer is stored
      truncated, so looking it up again misses and adding it twice stores
      two entries with the same path. */
  lemma LongPathIsStoredTwice()
    ensures var p := seq(MaxPathSize, _ => 'x');
            var c1 := Add(Empty(3), p, 1, 4);
            && c1.Done?
            && Search(c1.c, p, 4).1 == Null
            && var c2 := Add(c1.c, p, 2, 4);
               && c2.Done? && c2.c.size == 2
               && Walk(c2.c, c2.c.head, 3) == [Truncate(p), Truncate(p)]
  {
    var p := seq(MaxPathSize, _ => 'x');
    assert Truncate(p) != p;
  }
}
