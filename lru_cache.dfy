/** The cache itself (LRU_cache/code.cpp:19-30, 97-217): a doubly linked
    list of heap nodes with `head` (most recently used) and `tail` (least
    recently used) pointers and `size` and `capacity` counters. The ghost
    field `nodes` lists the chain from head to tail; `Valid()` ties every
    pointer and counter to it. Every public operation (the constructor,
    `Search`, `Add`, `Remove`, `Enumerate` and `Destroy`) keeps `Valid()`;
    `Search`, `Add` and `Remove` change the entries exactly as `Lookup`,
    `AddEntry` and `RemoveEntry` of LruSpec say. The helpers `Detach` and
    `LinkFront` state only the links they leave behind, and their callers
    restore `Valid()`. */
module LruCache {
  import opened Metadata
  import opened LruSpec

  /** `Node`: one entry. Its payload never changes once it is created. */
  class Node {
    const data: FileMetadata
    var prev: Node?
    var next: Node?

    constructor (data: FileMetadata)
      ensures this.data == data && prev == null && next == null
    {
      this.data := data;
      prev := null;
      next := null;
    }
  }

  /** The payloads of a chain of nodes, in order. */
  function DataOf(ns: seq<Node>): seq<FileMetadata>
  {
    seq(|ns|, i requires 0 <= i < |ns| => ns[i].data)
  }

  lemma DataOfMoveToFront(ns: seq<Node>, i: nat)
    requires i < |ns|
    ensures DataOf(MoveToFront(ns, i)) == MoveToFront(DataOf(ns), i)
  {
    forall j | 0 <= j < |ns| ensures DataOf(MoveToFront(ns, i))[j] == MoveToFront(DataOf(ns), i)[j] {
      MoveToFrontIndex(ns, i, j);
      MoveToFrontIndex(DataOf(ns), i, j);
    }
  }

  /** Promoting the `i`-th node of a chain of distinct nodes whose entries
      are well formed gives such a chain again, made of the promoted node
      before the others. */
  lemma PromotionKeepsChain(ns: seq<Node>, capacity: nat, i: nat)
    requires i < |ns| && WellFormed(DataOf(ns), capacity)
    requires forall a, b :: 0 <= a < b < |ns| ==> ns[a] != ns[b]
    ensures MoveToFront(ns, i) == [ns[i]] + RemoveAt(ns, i)
    ensures ns[i] !in RemoveAt(ns, i)
    ensures forall n :: n in RemoveAt(ns, i) ==> n in ns
    ensures var r := MoveToFront(ns, i); forall a, b :: 0 <= a < b < |r| ==> r[a] != r[b]
    ensures WellFormed(DataOf(MoveToFront(ns, i)), capacity)
  {
    var rest := RemoveAt(ns, i);
    forall j | 0 <= j < |rest| ensures rest[j] != ns[i] && rest[j] in ns {
      RemoveAtIndex(ns, i, j);
    }
    MoveToFrontDistinct(ns, i);
    DataOfMoveToFront(ns, i);
    MoveToFrontKeepsWellFormed(DataOf(ns), capacity, i);
  }

  class Cache {
    const capacity: nat
    var size: int
    var head: Node?
    var tail: Node?
    /** The chain from `head` to `tail`. */
    ghost var nodes: seq<Node>

    /** The entries, most recently used first. */
    ghost function Entries(): seq<FileMetadata>
      reads this
    {
      DataOf(nodes)
    }

    /** `head` and `tail` are the two ends of the chain `ns` (both null
        exactly when it is empty), and `prev` and `next` link neighbours. */
    ghost predicate Linked(ns: seq<Node>)
      reads this, ns
    {
      && (ns == [] ==> head == null && tail == null)
      && (ns != [] ==> head == ns[0] && tail == ns[|ns| - 1])
      && (ns != [] ==> head.prev == null && tail.next == null)
      && (forall i :: 0 < i < |ns| ==> ns[i].prev == ns[i - 1])
      && (forall i :: 0 <= i < |ns| - 1 ==> ns[i].next == ns[i + 1])
    }

    /** The list invariant: the chain links `nodes`, which are distinct,
        `size` counts them, and the entries are well formed (at most
        `capacity` of them, with distinct stored paths that fit the buffer). */
    ghost predicate Valid()
      reads this, nodes
    {
      && size == |nodes|
      && (forall i, j :: 0 <= i < j < |nodes| ==> nodes[i] != nodes[j])
      && Linked(nodes)
      && WellFormed(Entries(), capacity)
    }

    /** `createLRUCache`: an empty cache with the given capacity. */
    constructor (capacity: nat)
      ensures Valid()
      ensures this.capacity == capacity && size == 0 && head == null && tail == null
      ensures nodes == [] && Entries() == []
    {
      this.capacity := capacity;
      size := 0;
      head := null;
      tail := null;
      nodes := [];
    }

    /** Relinks the `i`-th node as the head. A node that already is the head
        stays where it is, and `tail` follows when the tail is moved. */
    method MoveToHead(node: Node, ghost i: nat)
      requires Valid() && i < |nodes| && nodes[i] == node
      modifies this, nodes
      ensures Valid()
      ensures nodes == MoveToFront(old(nodes), i) && head == node
    {
      if node == head {
        assert i == 0;
        assert MoveToFront(nodes, 0) == nodes;
      } else {
        Relink(node, i);
      }
    }

    /** Promotion of a node that is not the head: unlink it from its
        neighbours, then link it in before the old head. */
    method Relink(node: Node, ghost i: nat)
      requires Valid() && 0 < i < |nodes| && nodes[i] == node
      modifies this, nodes
      ensures Valid()
      ensures nodes == MoveToFront(old(nodes), i) && head == node
    {
      ghost var ns := nodes;
      PromotionKeepsChain(ns, capacity, i);
      Detach(node, i);
      LinkFront(node, RemoveAt(ns, i));
      nodes := MoveToFront(ns, i);
    }

    /** code.cpp:114-119 for a node that is not the head: its neighbours are
        linked to each other, and `tail` moves back when it was the tail.
        The node's own links are left as they were. */
    method Detach(node: Node, ghost i: nat)
      requires Valid() && 0 < i < |nodes| && nodes[i] == node
      modifies this, nodes
      ensures Linked(RemoveAt(old(nodes), i))
      ensures nodes == old(nodes) && size == old(size)
    {
      ghost var ns := nodes;
      var p := node.prev;
      assert p == ns[i - 1];
      assert node.next == if i == |ns| - 1 then null else ns[i + 1];
      p.next := node.next;
      if node.next != null {
        node.next.prev := p;
      } else {
        tail := p;
      }
      ghost var rest := RemoveAt(ns, i);
      forall j | 0 < j < |rest| ensures rest[j].prev == rest[j - 1] {
        RemoveAtIndex(ns, i, j);
        RemoveAtIndex(ns, i, j - 1);
      }
      forall j | 0 <= j < |rest| - 1 ensures rest[j].next == rest[j + 1] {
        RemoveAtIndex(ns, i, j);
        RemoveAtIndex(ns, i, j + 1);
      }
      RemoveAtIndex(ns, i, 0);
      RemoveAtIndex(ns, i, |rest| - 1);
    }

    /** code.cpp:120-125 and 154-162: `n` becomes the head, before the old
        head, and also the tail when the chain was empty. */
    method LinkFront(n: Node, ghost ns: seq<Node>)
      requires Linked(ns) && n !in ns
      modifies this, ns, n
      ensures Linked([n] + ns)
      ensures nodes == old(nodes) && size == old(size)
    {
      n.next := head;
      if head != null {
        head.prev := n;
      }
      n.prev := null;
      head := n;
      if tail == null {
        tail := n;
      }
      ghost var r := [n] + ns;
      assert forall j :: 1 <= j < |r| ==> r[j] == ns[j - 1];
    }

    /** The loop of `searchLRUEntry`: walks from the head to the first node
        whose stored path is `key`, or to the end of the chain. */
    method Locate(key: string) returns (current: Node?, ghost i: nat)
      requires Valid()
      ensures current == null <==> !Holds(Entries(), key)
      ensures current != null ==> i == Find(Entries(), key) && i < |nodes| && current == nodes[i]
    {
      current := head;
      i := 0;
      while current != null && current.data.filepath != key
        invariant 0 <= i <= |nodes|
        invariant current == if i < |nodes| then nodes[i] else null
        invariant forall j :: 0 <= j < i ==> nodes[j].data.filepath != key
        decreases |nodes| - i
      {
        current := current.next;
        i := i + 1;
      }
      if current != null {
        assert Entries()[i].filepath == key;
      }
    }

    /** `searchLRUEntry`: looks the (truncated) path up; a hit is promoted
        to the head and returned, a miss returns null and changes nothing. */
    method Search(path: string) returns (found: Node?)
      requires Valid()
      modifies this, nodes
      ensures Valid()
      ensures found == null <==> !Holds(old(Entries()), Truncate(path))
      ensures found != null ==> found == head && found.data.filepath == Truncate(path)
      ensures Entries() == Lookup(old(Entries()), Truncate(path))
      ensures nodes == if found == null then old(nodes)
                       else MoveToFront(old(nodes), Find(old(Entries()), Truncate(path)))
      ensures found == null ==> head == old(head) && tail == old(tail) && size == old(size)
      ensures forall n :: n in nodes ==> n in old(nodes)
    {
      ghost var ns := nodes;
      var current, i := Locate(Truncate(path));
      if current == null {
        return null;
      }
      MoveToHead(current, i);
      DataOfMoveToFront(ns, i);
      MoveToFrontMultiset(ns, i);
      found := current;
    }

    /** Unlinks the tail (the eviction step of `addEntry`) and returns it. */
    method EvictTail() returns (evicted: Node)
      requires Valid() && nodes != []
      modifies this, nodes
      ensures Valid()
      ensures evicted == old(nodes)[|old(nodes)| - 1]
      ensures nodes == old(nodes)[..|old(nodes)| - 1]
      ensures Entries() == old(Entries())[..|old(nodes)| - 1]
    {
      ghost var ns := nodes;
      assert WellFormed(DataOf(ns), capacity);
      evicted := tail;
      assert evicted.prev == if |ns| == 1 then null else ns[|ns| - 2];
      tail := evicted.prev;
      if tail != null {
        tail.next := null;
      } else {
        head := null;
      }
      size := size - 1;
      nodes := ns[..|ns| - 1];
      assert Entries() == RemoveAt(DataOf(ns), |ns| - 1);
      RemoveAtKeepsWellFormed(DataOf(ns), capacity, |ns| - 1);
    }

    /** Links a fresh node in as the new head. */
    method PushFront(n: Node)
      requires Valid() && n !in nodes
      requires |nodes| < capacity && !Holds(Entries(), n.data.filepath)
      requires |n.data.filepath| <= MaxPathLength
      modifies this, nodes, n
      ensures Valid()
      ensures nodes == [n] + old(nodes) && Entries() == [n.data] + old(Entries())
    {
      ghost var ns := nodes;
      LinkFront(n, ns);
      size := size + 1;
      nodes := [n] + ns;
      assert forall j :: 1 <= j < |nodes| ==> nodes[j] == ns[j - 1];
      assert forall j :: 1 <= j < |nodes| ==> Entries()[j] == DataOf(ns)[j - 1];
    }

    /** `addEntry`: a cached key is only promoted; otherwise the file is
        captured (a failed capture changes nothing), the tail is evicted
        when the cache is full, and the new entry becomes the head. */
    method Add(path: string, stat: StatReport, probe: FileProbe, now: int) returns (outcome: AddOutcome)
      requires Valid()
      modifies this, nodes
      ensures Valid()
      ensures (outcome, Entries()) == AddEntry(old(Entries()), capacity, path, stat, probe, now)
      ensures outcome.Inserted? ==> fresh(head) && head.data.filepath == Truncate(path)
      ensures forall n :: n in nodes ==> n in old(nodes) || fresh(n)
    {
      var existing := Search(path);
      if existing != null {
        return AlreadyPresent;
      }
      var captured := CreateNode(path, stat, probe, now);
      if captured.Failed? {
        return CaptureFailed(captured.error);
      }
      if capacity == 0 {
        return CapacityZero;
      }
      outcome := InsertNew(captured.value);
    }

    /** The part of `addEntry` after a miss and a successful capture: evict
        the tail if the cache is full, then link the new entry as the head. */
    method InsertNew(captured: Captured) returns (outcome: AddOutcome)
      requires Valid() && 0 < capacity
      requires !Holds(Entries(), captured.meta.filepath) && |captured.meta.filepath| <= MaxPathLength
      modifies this, nodes
      ensures Valid()
      ensures old(size) == capacity ==>
                && outcome == Inserted(Some(old(Entries())[capacity - 1]), captured.zeroSizeWarning)
                && Entries() == [captured.meta] + old(Entries())[..capacity - 1]
      ensures old(size) != capacity ==>
                && outcome == Inserted(None, captured.zeroSizeWarning)
                && Entries() == [captured.meta] + old(Entries())
      ensures fresh(head) && head.data == captured.meta
      ensures forall n :: n in nodes ==> n in old(nodes) || fresh(n)
    {
      var n := new Node(captured.meta);
      var evicted: Option<FileMetadata> := None;
      if size == capacity {
        var last := EvictTail();
        evicted := Some(last.data);
      }
      PushFront(n);
      outcome := Inserted(evicted, captured.zeroSizeWarning);
    }

    /** The unlinking step of `removeLRUEntry`, applied to the head that the
        preceding search has just promoted. */
    method DropHead()
      requires Valid() && nodes != []
      modifies this, nodes
      ensures Valid()
      ensures nodes == old(nodes)[1..] && Entries() == old(Entries())[1..]
    {
      ghost var ns := nodes;
      assert WellFormed(DataOf(ns), capacity);
      var node := head;
      assert node.next == if |ns| == 1 then null else ns[1];
      head := node.next;
      if head != null {
        head.prev := null;
      } else {
        tail := null;
      }
      size := size - 1;
      nodes := ns[1..];
      assert Entries() == RemoveAt(DataOf(ns), 0);
      RemoveAtKeepsWellFormed(DataOf(ns), capacity, 0);
    }

    /** `removeLRUEntry`: the entry is found (and so promoted to the head)
        and then unlinked; `removed` reports whether there was one. */
    method Remove(path: string) returns (removed: bool)
      requires Valid()
      modifies this, nodes
      ensures Valid()
      ensures (removed, Entries()) == RemoveEntry(old(Entries()), path)
      ensures forall n :: n in nodes ==> n in old(nodes)
    {
      ghost var expected := RemoveEntry(Entries(), path);
      RemoveIsLookupThenDropHead(Entries(), path);
      var node := Search(path);
      if node == null {
        assert expected == (false, Entries());
        return false;
      }
      ghost var promoted := Entries();
      ghost var chain := nodes;
      assert expected == (true, promoted[1..]);
      DropHead();
      assert forall n :: n in nodes ==> n in chain;
      removed := true;
    }

    /** `printLRUCache` without the printing: walks from head to tail and
        yields every entry once, in order. */
    method Enumerate() returns (listing: seq<FileMetadata>)
      requires Valid()
      ensures listing == Entries() && |listing| == size
    {
      listing := [];
      var current := head;
      while current != null
        invariant |listing| <= |nodes|
        invariant listing == Entries()[..|listing|]
        invariant current == if |listing| < |nodes| then nodes[|listing|] else null
        decreases |nodes| - |listing|
      {
        listing := listing + [current.data];
        current := current.next;
      }
    }

    /** `destroyLRUCache`: walks the chain once, handing back every node to
        be released, each exactly once and in order; afterwards the cache
        owns no node. */
    method Destroy() returns (released: seq<Node>)
      requires Valid()
      modifies this
      ensures released == old(nodes) && |released| == old(size)
      ensures forall i, j :: 0 <= i < j < |released| ==> released[i] != released[j]
      ensures Valid() && nodes == [] && head == null && tail == null && size == 0
    {
      released := [];
      var current := head;
      while current != null
        invariant |released| <= |nodes|
        invariant released == nodes[..|released|]
        invariant current == if |released| < |nodes| then nodes[|released|] else null
        decreases |nodes| - |released|
      {
        var next := current.next;
        released := released + [current];
        current := next;
      }
      head, tail, size := null, null, 0;
      nodes := [];
    }
  }
}
