/** The abstract meaning of the cache: the sequence of its entries, most
    recently used first, and what each operation of LRU_cache/code.cpp does
    to that sequence. The linked implementation in module LruCache is proved
    to follow these functions; the lemmas here state what the functions
    promise. */
module LruSpec {
  import opened Metadata

  datatype Option<T> = None | Some(value: T)

  /** What an insertion reports: the key was already cached (and has been
      promoted), a new entry was put at the front (possibly evicting the
      least recently used one), the capture failed, or the cache has no
      room at all. */
  datatype AddOutcome =
    | AlreadyPresent
    | Inserted(evicted: Option<FileMetadata>, zeroSizeWarning: bool)
    | CaptureFailed(error: CaptureError)
    | CapacityZero

  /** The stored paths, in order. */
  function Paths(s: seq<FileMetadata>): seq<string>
  {
    seq(|s|, i requires 0 <= i < |s| => s[i].filepath)
  }

  predicate Holds(s: seq<FileMetadata>, key: string)
  {
    exists i :: 0 <= i < |s| && s[i].filepath == key
  }

  predicate DistinctKeys(s: seq<FileMetadata>)
  {
    forall i, j :: 0 <= i < j < |s| ==> s[i].filepath != s[j].filepath
  }

  /** What every reachable cache satisfies: no more entries than the
      capacity, pairwise distinct paths, and only paths that fit the
      path buffer. */
  predicate WellFormed(s: seq<FileMetadata>, capacity: nat)
  {
    && |s| <= capacity
    && DistinctKeys(s)
    && forall i :: 0 <= i < |s| ==> |s[i].filepath| <= MaxPathLength
  }

  /** The scan from the head: the index of the first entry whose path is
      `key`, or -1. */
  function Find(s: seq<FileMetadata>, key: string): (r: int)
    ensures -1 <= r < |s|
    ensures r == -1 <==> !Holds(s, key)
    ensures 0 <= r ==> s[r].filepath == key && forall i :: 0 <= i < r ==> s[i].filepath != key
  {
    if s == [] then -1
    else if s[0].filepath == key then 0
    else
      var r := Find(s[1..], key);
      assert forall i :: 1 <= i < |s| ==> s[i] == s[1..][i - 1];
      if r < 0 then -1 else r + 1
  }

  function RemoveAt<T>(s: seq<T>, i: nat): seq<T>
    requires i < |s|
  {
    s[..i] + s[i + 1..]
  }

  function MoveToFront<T>(s: seq<T>, i: nat): seq<T>
    requires i < |s|
  {
    [s[i]] + RemoveAt(s, i)
  }

  lemma RemoveAtIndex<T>(s: seq<T>, i: nat, j: nat)
    requires i < |s| && j < |s| - 1
    ensures |RemoveAt(s, i)| == |s| - 1
    ensures RemoveAt(s, i)[j] == if j < i then s[j] else s[j + 1]
  {
  }

  lemma MoveToFrontIndex<T>(s: seq<T>, i: nat, j: nat)
    requires i < |s| && j < |s|
    ensures |MoveToFront(s, i)| == |s|
    ensures MoveToFront(s, i)[j] == if j == 0 then s[i] else if j <= i then s[j - 1] else s[j]
  {
  }

  /** Removing position `i` takes out exactly the element there. */
  lemma RemoveAtMultiset<T>(s: seq<T>, i: nat)
    requires i < |s|
    ensures multiset(RemoveAt(s, i)) == multiset(s) - multiset{s[i]}
    ensures multiset(RemoveAt(s, i)) + multiset{s[i]} == multiset(s)
  {
    assert s == s[..i] + [s[i]] + s[i + 1..];
  }

  /** Moving an element to the front neither gains nor loses one. */
  lemma MoveToFrontMultiset<T>(s: seq<T>, i: nat)
    requires i < |s|
    ensures multiset(MoveToFront(s, i)) == multiset(s)
  {
    RemoveAtMultiset(s, i);
  }

  /** Moving an element to the front keeps the elements pairwise distinct. */
  lemma MoveToFrontDistinct<T>(s: seq<T>, i: nat)
    requires i < |s|
    requires forall a, b :: 0 <= a < b < |s| ==> s[a] != s[b]
    ensures var r := MoveToFront(s, i); forall a, b :: 0 <= a < b < |r| ==> r[a] != r[b]
  {
    var r := MoveToFront(s, i);
    forall a, b | 0 <= a < b < |r| ensures r[a] != r[b] {
      MoveToFrontIndex(s, i, a);
      MoveToFrontIndex(s, i, b);
    }
  }

  lemma RemoveAtKeepsWellFormed(s: seq<FileMetadata>, capacity: nat, i: nat)
    requires WellFormed(s, capacity) && i < |s|
    ensures WellFormed(RemoveAt(s, i), capacity)
    ensures !Holds(RemoveAt(s, i), s[i].filepath)
  {
    var r := RemoveAt(s, i);
    forall a, b | 0 <= a < b < |r| ensures r[a].filepath != r[b].filepath {
      RemoveAtIndex(s, i, a);
      RemoveAtIndex(s, i, b);
    }
    forall a | 0 <= a < |r| ensures r[a].filepath != s[i].filepath && |r[a].filepath| <= MaxPathLength {
      RemoveAtIndex(s, i, a);
    }
  }

  lemma MoveToFrontKeepsWellFormed(s: seq<FileMetadata>, capacity: nat, i: nat)
    requires WellFormed(s, capacity) && i < |s|
    ensures WellFormed(MoveToFront(s, i), capacity)
  {
    var r := MoveToFront(s, i);
    forall a, b | 0 <= a < b < |r| ensures r[a].filepath != r[b].filepath {
      MoveToFrontIndex(s, i, a);
      MoveToFrontIndex(s, i, b);
    }
    forall a | 0 <= a < |r| ensures |r[a].filepath| <= MaxPathLength {
      MoveToFrontIndex(s, i, a);
    }
  }

  /** `searchLRUEntry`: a hit moves the first matching entry to the front
      and keeps the others in their order; no entry is gained or lost; a
      miss changes nothing. */
  function Lookup(s: seq<FileMetadata>, key: string): (r: seq<FileMetadata>)
    ensures |r| == |s|
    ensures !Holds(s, key) ==> r == s
    ensures Holds(s, key) ==> r[0].filepath == key && r[1..] == RemoveAt(s, Find(s, key))
  {
    var i := Find(s, key);
    if i < 0 then s else MoveToFront(s, i)
  }

  /** `addEntry`: look the key up (promoting it on a hit); otherwise capture
      the file, evict the last entry when the cache is full, and put the new
      entry first. */
  function AddEntry(s: seq<FileMetadata>, capacity: nat, path: string,
                    stat: StatReport, probe: FileProbe, now: int): (r: (AddOutcome, seq<FileMetadata>))
    ensures r.0.AlreadyPresent? <==> Holds(s, Truncate(path))
    ensures r.0.AlreadyPresent? ==> r.1 == Lookup(s, Truncate(path))
    ensures r.0.CaptureFailed? <==> !Holds(s, Truncate(path)) && CreateNode(path, stat, probe, now).Failed?
    ensures r.0.CaptureFailed? || r.0.CapacityZero? ==> r.1 == s
    ensures r.0.CapacityZero? ==> capacity == 0
    ensures r.0.Inserted? ==>
              && CreateNode(path, stat, probe, now).Ok? && 0 < capacity && |r.1| > 0
              && r.1[0] == CreateNode(path, stat, probe, now).value.meta
              && r.0.zeroSizeWarning == CreateNode(path, stat, probe, now).value.zeroSizeWarning
              && (r.0.evicted.Some? <==> |s| == capacity)
              && r.1[1..] == if |s| == capacity then s[..|s| - 1] else s
    ensures r.0.Inserted? && r.0.evicted.Some? ==> r.0.evicted.value == s[|s| - 1]
  {
    var i := Find(s, Truncate(path));
    if 0 <= i then (AlreadyPresent, MoveToFront(s, i))
    else match CreateNode(path, stat, probe, now)
      case Failed(e) => (CaptureFailed(e), s)
      case Ok(c) =>
        if capacity == 0 then (CapacityZero, s)
        else if |s| == capacity then (Inserted(Some(s[|s| - 1]), c.zeroSizeWarning), [c.meta] + s[..|s| - 1])
        else (Inserted(None, c.zeroSizeWarning), [c.meta] + s)
  }

  /** `removeLRUEntry`: delete the first entry whose path is the key, and
      report whether there was one. */
  function RemoveEntry(s: seq<FileMetadata>, path: string): (r: (bool, seq<FileMetadata>))
    ensures r.0 <==> Holds(s, Truncate(path))
    ensures !r.0 ==> r.1 == s
    ensures r.0 ==>
              && |r.1| == |s| - 1
              && multiset(r.1) + multiset{s[Find(s, Truncate(path))]} == multiset(s)
  {
    var i := Find(s, Truncate(path));
    if i < 0 then (false, s) else RemoveAtMultiset(s, i); (true, RemoveAt(s, i))
  }

  /** A hit puts the matching entry first, keeps every other entry in its
      relative order and neither gains nor loses an entry; a miss leaves
      the sequence as it was. */
  lemma LookupMovesHitToFront(s: seq<FileMetadata>, key: string)
    ensures Find(s, key) < 0 ==> Lookup(s, key) == s
    ensures 0 <= Find(s, key) ==>
              var r := Lookup(s, key);
              && |r| == |s|
              && r[0] == s[Find(s, key)] && r[0].filepath == key
              && r[1..] == RemoveAt(s, Find(s, key))
              && multiset(r) == multiset(s)
  {
    var i := Find(s, key);
    if 0 <= i {
      MoveToFrontMultiset(s, i);
    }
  }

  /** Looking the same key up twice orders the cache as looking it up once. */
  lemma LookupIdempotent(s: seq<FileMetadata>, key: string)
    ensures Lookup(Lookup(s, key), key) == Lookup(s, key)
  {
    var r := Lookup(s, key);
    if 0 <= Find(s, key) {
      assert r[0].filepath == key;
      assert Find(r, key) == 0;
      assert MoveToFront(r, 0) == [r[0]] + r[1..];
      assert [r[0]] + r[1..] == r;
    }
  }

  lemma LookupPreservesWellFormed(s: seq<FileMetadata>, capacity: nat, key: string)
    requires WellFormed(s, capacity)
    ensures WellFormed(Lookup(s, key), capacity)
  {
    var i := Find(s, key);
    if 0 <= i {
      MoveToFrontKeepsWellFormed(s, capacity, i);
    }
  }

  /** Adding a key that is already cached adds nothing: it only promotes it. */
  lemma AddPresentOnlyPromotes(s: seq<FileMetadata>, capacity: nat, path: string,
                               stat: StatReport, probe: FileProbe, now: int)
    requires Holds(s, Truncate(path))
    ensures AddEntry(s, capacity, path, stat, probe, now).0 == AlreadyPresent
    ensures AddEntry(s, capacity, path, stat, probe, now).1 == Lookup(s, Truncate(path))
    ensures multiset(AddEntry(s, capacity, path, stat, probe, now).1) == multiset(s)
  {
    MoveToFrontMultiset(s, Find(s, Truncate(path)));
  }

  /** A failed capture, or a cache of capacity 0, leaves the entries as they
      were: nothing is evicted before the capture has succeeded. */
  lemma AddFailureKeepsEntries(s: seq<FileMetadata>, capacity: nat, path: string,
                               stat: StatReport, probe: FileProbe, now: int)
    requires !Holds(s, Truncate(path))
    requires CreateNode(path, stat, probe, now).Failed? || capacity == 0
    ensures AddEntry(s, capacity, path, stat, probe, now).1 == s
    ensures CreateNode(path, stat, probe, now).Failed? ==>
              AddEntry(s, capacity, path, stat, probe, now).0 == CaptureFailed(CreateNode(path, stat, probe, now).error)
    ensures CreateNode(path, stat, probe, now).Ok? ==>
              AddEntry(s, capacity, path, stat, probe, now).0 == CapacityZero
  {
  }

  /** A new key in a full cache evicts exactly the least recently used
      entry, whose path is then no longer cached, and the new entry comes
      first; the count stays at the capacity. */
  lemma AddToFullEvictsLeastRecent(s: seq<FileMetadata>, capacity: nat, path: string,
                                   stat: StatReport, probe: FileProbe, now: int)
    requires WellFormed(s, capacity)
    requires !Holds(s, Truncate(path)) && CreateNode(path, stat, probe, now).Ok?
    requires 0 < capacity && |s| == capacity
    ensures var (outcome, r) := AddEntry(s, capacity, path, stat, probe, now);
            && outcome.Inserted? && outcome.evicted == Some(s[|s| - 1])
            && r == [CreateNode(path, stat, probe, now).value.meta] + s[..|s| - 1]
            && |r| == capacity
            && r[0].filepath == Truncate(path)
            && !Holds(r, s[|s| - 1].filepath)
            && multiset(r) == multiset(s) - multiset{s[|s| - 1]} + multiset{r[0]}
  {
    var last := |s| - 1;
    var r := AddEntry(s, capacity, path, stat, probe, now).1;
    assert s[..last] == RemoveAt(s, last);
    RemoveAtKeepsWellFormed(s, capacity, last);
    RemoveAtMultiset(s, last);
    assert forall a :: 1 <= a < |r| ==> r[a] == s[..last][a - 1];
  }

  /** A new key in a cache with room is put first and the count grows by one. */
  lemma AddWithRoomPrepends(s: seq<FileMetadata>, capacity: nat, path: string,
                            stat: StatReport, probe: FileProbe, now: int)
    requires !Holds(s, Truncate(path)) && CreateNode(path, stat, probe, now).Ok?
    requires |s| < capacity
    ensures var (outcome, r) := AddEntry(s, capacity, path, stat, probe, now);
            && outcome == Inserted(None, CreateNode(path, stat, probe, now).value.zeroSizeWarning)
            && r == [CreateNode(path, stat, probe, now).value.meta] + s
            && |r| == |s| + 1
            && r[0].filepath == Truncate(path)
  {
  }

  /** Every insertion keeps the cache well formed; after a successful one
      the (truncated) key is cached. */
  lemma AddPreservesWellFormed(s: seq<FileMetadata>, capacity: nat, path: string,
                               stat: StatReport, probe: FileProbe, now: int)
    requires WellFormed(s, capacity)
    ensures WellFormed(AddEntry(s, capacity, path, stat, probe, now).1, capacity)
    ensures AddEntry(s, capacity, path, stat, probe, now).0.AlreadyPresent?
              || AddEntry(s, capacity, path, stat, probe, now).0.Inserted?
            ==> Holds(AddEntry(s, capacity, path, stat, probe, now).1, Truncate(path))
  {
    var key := Truncate(path);
    var i := Find(s, key);
    var r := AddEntry(s, capacity, path, stat, probe, now).1;
    if 0 <= i {
      MoveToFrontKeepsWellFormed(s, capacity, i);
      assert r[0].filepath == key;
    } else if CreateNode(path, stat, probe, now).Ok? && capacity != 0 {
      var rest := if |s| == capacity then s[..|s| - 1] else s;
      assert r == [r[0]] + rest;
      assert r[0].filepath == key;
      forall a, b | 0 <= a < b < |r| ensures r[a].filepath != r[b].filepath {
        assert r[b] == rest[b - 1];
        if a > 0 {
          assert r[a] == rest[a - 1];
        }
      }
      forall a | 0 <= a < |r| ensures |r[a].filepath| <= MaxPathLength {
        if a > 0 {
          assert r[a] == rest[a - 1];
        }
      }
    }
  }

  /** A cache of capacity 0 is empty and no insertion ever puts anything in it. */
  lemma CapacityZeroStaysEmpty(s: seq<FileMetadata>, path: string,
                               stat: StatReport, probe: FileProbe, now: int)
    requires WellFormed(s, 0)
    ensures s == []
    ensures AddEntry(s, 0, path, stat, probe, now).1 == []
    ensures !AddEntry(s, 0, path, stat, probe, now).0.Inserted?
  {
  }

  /** Removing a cached key deletes exactly that entry and keeps the others
      in their relative order; removing an absent key changes nothing. */
  lemma RemoveDeletesOnlyThatEntry(s: seq<FileMetadata>, capacity: nat, path: string)
    requires WellFormed(s, capacity)
    ensures var (removed, r) := RemoveEntry(s, path);
            && (removed <==> Holds(s, Truncate(path)))
            && (!removed ==> r == s)
            && (removed ==>
                  && |r| == |s| - 1
                  && r == RemoveAt(s, Find(s, Truncate(path)))
                  && !Holds(r, Truncate(path))
                  && multiset(r) == multiset(s) - multiset{s[Find(s, Truncate(path))]})
            && WellFormed(r, capacity)
  {
    var i := Find(s, Truncate(path));
    if 0 <= i {
      RemoveAtKeepsWellFormed(s, capacity, i);
      RemoveAtMultiset(s, i);
    }
  }

  /** The source removes by promoting the entry and then unlinking the head;
      that is the same as deleting the entry where it stands. */
  lemma RemoveIsLookupThenDropHead(s: seq<FileMetadata>, path: string)
    ensures RemoveEntry(s, path) ==
              if Holds(s, Truncate(path)) then (true, Lookup(s, Truncate(path))[1..]) else (false, s)
  {
  }

  /** Looking past a first entry whose path differs shifts the index by one. */
  lemma FindPastHead(m: FileMetadata, s: seq<FileMetadata>, key: string)
    requires m.filepath != key
    ensures Find([m] + s, key) == if Find(s, key) < 0 then -1 else Find(s, key) + 1
  {
    assert ([m] + s)[1..] == s;
  }

  /** The four one-letter paths of the scenario below are pairwise distinct. */
  lemma ScenarioKeysDistinct()
    ensures "A" != "B" && "A" != "C" && "A" != "D" && "B" != "C" && "B" != "D" && "C" != "D"
  {
    assert "A"[0] != "B"[0] && "A"[0] != "C"[0] && "A"[0] != "D"[0];
    assert "B"[0] != "C"[0] && "B"[0] != "D"[0] && "C"[0] != "D"[0];
  }

  /** The entry that a successful capture of `path` stores when the OS
      calls report `stat` and `probe` at time `now`. */
  function ScenarioEntry(path: string, stat: StatReport, probe: FileProbe, now: int): FileMetadata
    requires CreateNode("A", stat, probe, now).Ok?
  {
    FileMetadata(path, now, SizeT(probe.position), stat.inode)
  }

  /** Filling an empty cache of capacity 3 with A, B, C lists C, B, A. */
  lemma ScenarioFill(stat: StatReport, probe: FileProbe, now: int)
    requires CreateNode("A", stat, probe, now).Ok?
    ensures var s1 := AddEntry([], 3, "A", stat, probe, now).1;
            var s2 := AddEntry(s1, 3, "B", stat, probe, now).1;
            AddEntry(s2, 3, "C", stat, probe, now).1
              == [ScenarioEntry("C", stat, probe, now), ScenarioEntry("B", stat, probe, now), ScenarioEntry("A", stat, probe, now)]
  {
    var mA, mB, mC := ScenarioEntry("A", stat, probe, now), ScenarioEntry("B", stat, probe, now), ScenarioEntry("C", stat, probe, now);
    ScenarioKeysDistinct();
    assert Truncate("A") == "A" && Truncate("B") == "B" && Truncate("C") == "C";
    assert CreateNode("A", stat, probe, now).value.meta == mA;
    assert CreateNode("B", stat, probe, now).value.meta == mB;
    assert CreateNode("C", stat, probe, now).value.meta == mC;
    AddWithRoomPrepends([], 3, "A", stat, probe, now);
    FindPastHead(mA, [], "B");
    AddWithRoomPrepends([mA], 3, "B", stat, probe, now);
    FindPastHead(mA, [], "C");
    FindPastHead(mB, [mA], "C");
    AddWithRoomPrepends([mB, mA], 3, "C", stat, probe, now);
  }

  /** In a cache listing C, B, A, looking A up lists A, C, B. */
  lemma ScenarioTouch(mA: FileMetadata, mB: FileMetadata, mC: FileMetadata)
    requires mA.filepath == "A" && mB.filepath == "B" && mC.filepath == "C"
    ensures Lookup([mC, mB, mA], "A") == [mA, mC, mB]
  {
    assert "B"[0] != "A"[0] && "C"[0] != "A"[0];
    assert [mC, mB, mA] == [mC] + [mB, mA];
    assert [mB, mA] == [mB] + [mA];
    FindPastHead(mB, [mA], "A");
    FindPastHead(mC, [mB, mA], "A");
    assert MoveToFront([mC, mB, mA], 2) == [mA, mC, mB];
  }

  /** Adding D to the full cache listing A, C, B evicts B and lists D, A, C. */
  lemma ScenarioEvict(stat: StatReport, probe: FileProbe, now: int)
    requires CreateNode("A", stat, probe, now).Ok?
    ensures var mA, mB, mC := ScenarioEntry("A", stat, probe, now), ScenarioEntry("B", stat, probe, now), ScenarioEntry("C", stat, probe, now);
            AddEntry([mA, mC, mB], 3, "D", stat, probe, now)
              == (Inserted(Some(mB), CreateNode("A", stat, probe, now).value.zeroSizeWarning),
                  [ScenarioEntry("D", stat, probe, now), mA, mC])
  {
    var mA, mB, mC := ScenarioEntry("A", stat, probe, now), ScenarioEntry("B", stat, probe, now), ScenarioEntry("C", stat, probe, now);
    var s4 := [mA, mC, mB];
    ScenarioKeysDistinct();
    assert Truncate("D") == "D";
    assert s4 == [mA] + ([mC] + [mB]);
    FindPastHead(mB, [], "D");
    assert [mB] == [mB] + [];
    FindPastHead(mC, [mB], "D");
    FindPastHead(mA, [mC] + [mB], "D");
    assert Find(s4, "D") == -1;
    var cD := CreateNode("D", stat, probe, now);
    assert cD.Ok? && cD.value.meta == ScenarioEntry("D", stat, probe, now);
    assert cD.value.zeroSizeWarning == CreateNode("A", stat, probe, now).value.zeroSizeWarning;
    assert s4[..2] == [mA, mC];
    assert [cD.value.meta] + s4[..2] == [cD.value.meta, mA, mC];
  }

  lemma PathsOfThree(a: FileMetadata, b: FileMetadata, c: FileMetadata)
    ensures Paths([a, b, c]) == [a.filepath, b.filepath, c.filepath]
  {
  }

  /** A run at capacity 3: adding A, B, C lists C, B, A; looking A up
      lists A, C, B; adding D then evicts B and lists D, A, C. */
  lemma ThreeEntryScenario(stat: StatReport, probe: FileProbe, now: int)
    requires CreateNode("A", stat, probe, now).Ok?
    ensures var s1 := AddEntry([], 3, "A", stat, probe, now).1;
            var s2 := AddEntry(s1, 3, "B", stat, probe, now).1;
            var s3 := AddEntry(s2, 3, "C", stat, probe, now).1;
            var s4 := Lookup(s3, "A");
            var (outcome, s5) := AddEntry(s4, 3, "D", stat, probe, now);
            && Paths(s3) == ["C", "B", "A"]
            && Paths(s4) == ["A", "C", "B"]
            && outcome.Inserted? && outcome.evicted.Some? && outcome.evicted.value.filepath == "B"
            && Paths(s5) == ["D", "A", "C"]
  {
    var mA, mB, mC, mD := ScenarioEntry("A", stat, probe, now), ScenarioEntry("B", stat, probe, now),
                          ScenarioEntry("C", stat, probe, now), ScenarioEntry("D", stat, probe, now);
    ScenarioFill(stat, probe, now);
    ScenarioTouch(mA, mB, mC);
    ScenarioEvict(stat, probe, now);
    PathsOfThree(mC, mB, mA);
    PathsOfThree(mA, mC, mB);
    PathsOfThree(mD, mA, mC);
  }
}
