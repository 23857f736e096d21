/** The open-addressed map of map.c with its insertion-order list.

    The hash function is the parameter `h` of every operation that hashes.
    Bucket positions use the arithmetic form `(a * x + 1) mod capacity` of
    `generate_index`, which `Probing.GenerateIndexIsNext` shows equal to the
    masked C expression for every power-of-two capacity and every seed
    below 2^32. */
module Maps {
  import opened Common
  import opened Bits
  import opened Probing
  import opened Values
  import opened Items
  import opened CStrings

  // ---------------------------------------------------------------------
  // Counting occupied buckets.

  function CountSome(b: seq<Option<NodeId>>): (n: nat)
    ensures n <= |b|
  {
    if |b| == 0 then 0 else CountSome(b[..|b| - 1]) + (if b[|b| - 1].Some? then 1 else 0)
  }

  lemma {:induction false} CountSomeUpdate(b: seq<Option<NodeId>>, i: nat, x: Option<NodeId>)
    requires i < |b|
    ensures CountSome(b[i := x]) == CountSome(b) - (if b[i].Some? then 1 else 0) + (if x.Some? then 1 else 0)
    decreases |b|
  {
    var c := b[i := x];
    if i < |b| - 1 {
      assert c[..|c| - 1] == b[..|b| - 1][i := x];
      CountSomeUpdate(b[..|b| - 1], i, x);
    } else {
      assert c[..|c| - 1] == b[..|b| - 1];
    }
  }

  /** A table with fewer occupied buckets than buckets has an empty one. */
  lemma {:induction false} EmptyBucketExists(b: seq<Option<NodeId>>) returns (i: nat)
    requires CountSome(b) < |b|
    ensures i < |b| && b[i].None?
    decreases |b|
  {
    if b[|b| - 1].None? {
      i := |b| - 1;
    } else {
      i := EmptyBucketExists(b[..|b| - 1]);
    }
  }

  lemma {:induction false} CountSomeEmpty(n: nat)
    ensures CountSome(EmptyBuckets(n)) == 0
  {
    if n > 0 {
      assert EmptyBuckets(n)[..n - 1] == EmptyBuckets(n - 1);
      CountSomeEmpty(n - 1);
    }
  }

  // ---------------------------------------------------------------------
  // The state invariant.

  predicate NoDup(s: seq<NodeId>) {
    forall i, j :: 0 <= i < j < |s| ==> s[i] != s[j]
  }

  predicate BucketsInHeap(m: Map) {
    forall i :: 0 <= i < |m.buckets| && m.buckets[i].Some? ==> m.buckets[i].value in m.heap
  }

  predicate BucketsDistinct(b: seq<Option<NodeId>>) {
    forall i, j :: 0 <= i < j < |b| && b[i].Some? && b[j].Some? ==> b[i].value != b[j].value
  }

  ghost predicate HeapInBuckets(m: Map) {
    forall id :: id in m.heap ==> exists i :: 0 <= i < |m.buckets| && m.buckets[i] == Some(id)
  }

  /** The anchors of the insertion-order list: `first`/`last` are its ends
      while it is non-empty; once it is empty `first` is NULL and `last`
      may still name a freed node. */
  predicate Anchored(m: Map) {
    (|m.order| > 0 ==> m.first == Some(m.order[0]) && m.last == Some(m.order[|m.order| - 1]))
    && (|m.order| == 0 ==> m.first.None?)
  }

  /** What every map the library builds satisfies: a power-of-two table of
      at least eight buckets, whose occupied buckets hold distinct nodes, one
      per node of the insertion order, with fewer nodes than buckets. */
  ghost predicate Valid(m: Map) {
    TableValid(m) && HeapValid(m)
  }

  ghost predicate TableValid(m: Map) {
    IsPowerOfTwo(|m.buckets|) && MapMinimumSize <= |m.buckets| < WordModulus
    && BucketsDistinct(m.buckets) && NoDup(m.order)
    && m.length == |m.order| == CountSome(m.buckets)
    && m.length < |m.buckets|
    && Anchored(m)
  }

  ghost predicate HeapValid(m: Map) {
    BucketsInHeap(m) && HeapInBuckets(m)
    && (forall id :: id in m.heap <==> id in m.order)
    && (forall id :: id in m.heap ==> id < m.nextId)
    && (forall id :: id in m.heap ==> m.heap[id].key.data.Bytes?)
  }

  lemma MapInitValid(seed: u32)
    ensures Valid(MapInit(seed))
  {
    var m := MapInit(seed);
    assert Pow2(3) == 8;
    CountSomeEmpty(MapMinimumSize);
  }

  // ---------------------------------------------------------------------
  // Probing.

  /** The bucket after `t` probe steps from `start`. */
  function Slot(start: nat, t: nat, cap: nat): (i: nat)
    requires start < cap
    ensures i < cap
  {
    OrbitBound(LcgMultiplier, start, t, cap);
    Probe(start, t, cap)
  }

  /** The first bucket examined for a hash (`generate_index(hash, size)`). */
  function Start(hash: u32, cap: nat): (s: nat)
    requires cap > 0
    ensures s < cap
  {
    Next(hash, cap)
  }

  /** The `size` bytes the lookups' `memcmp` reads at a stored key, when
      the copy determines them: all of them when it holds `size` bytes, and
      the copy followed by the NUL `string_copy` wrote when a string was
      cut one byte short. A string cut earlier leaves bytes of its buffer
      unwritten, and then there is none. */
  function KeyView(k: Item): (r: Option<seq<byte>>)
    ensures r.Some? ==> |r.value| == k.size
    ensures k.data.Bytes? && |k.data.bytes| >= k.size ==> r == Some(k.data.bytes[..k.size])
    ensures !(k.data.Bytes? && |k.data.bytes| + 1 >= k.size) ==> r.None?
  {
    if k.data.Bytes? && |k.data.bytes| >= k.size then Some(k.data.bytes[..k.size])
    else if k.data.Bytes? && |k.data.bytes| + 1 == k.size then Some(k.data.bytes + [Nul])
    else None
  }

  /** A node carries the key with these bytes and this hash: the hashes
      are equal and `memcmp` over the stored key's `size` bytes matches. */
  predicate IsKeyOf(n: Node, hash: u32, key: seq<byte>) {
    n.hash == hash && KeyView(n.key) == Some(key)
  }

  /** The node in bucket `i` has hash `hash` and key bytes `key`. */
  predicate MatchAt(m: Map, i: nat, hash: u32, key: seq<byte>)
    requires i < |m.buckets|
  {
    m.buckets[i].Some? && m.buckets[i].value in m.heap
    && IsKeyOf(m.heap[m.buckets[i].value], hash, key)
  }

  /** The lookup loop of `get_node_index` (map.c:334-343) from step `t`:
      every one of the `capacity` buckets on the path is examined, empty
      ones included, and the first match wins. The result is the number of
      steps taken. */
  function FindFrom(m: Map, hash: u32, key: seq<byte>, start: nat, t: nat): (r: Option<nat>)
    requires start < |m.buckets| && t <= |m.buckets|
    ensures r.Some? ==> t <= r.value < |m.buckets| && MatchAt(m, Slot(start, r.value, |m.buckets|), hash, key)
    ensures r.Some? ==> forall u :: t <= u < r.value ==> !MatchAt(m, Slot(start, u, |m.buckets|), hash, key)
    ensures r.None? ==> forall u :: t <= u < |m.buckets| ==> !MatchAt(m, Slot(start, u, |m.buckets|), hash, key)
    decreases |m.buckets| - t
  {
    if t == |m.buckets| then None
    else if MatchAt(m, Slot(start, t, |m.buckets|), hash, key) then Some(t)
    else FindFrom(m, hash, key, start, t + 1)
  }

  /** `get_node_index` (map.c:306-359): the bucket of the first node on the
      key's probe path with the key's hash and bytes; `None` for a NULL key
      or when no bucket matches. */
  function FindBucket(m: Map, h: Hasher, key: Option<seq<byte>>): (r: Option<nat>)
    requires |m.buckets| > 0
    ensures r.Some? ==>
      (key.Some? && r.value < |m.buckets| && MatchAt(m, r.value, h(m.seed, key.value), key.value))
  {
    if key.None? then None
    else
      var hash := h(m.seed, key.value);
      var s := Start(hash, |m.buckets|);
      match FindFrom(m, hash, key.value, s, 0)
      case None => None
      case Some(t) => Some(Slot(s, t, |m.buckets|))
  }

  /** Lookup finds every stored key: because the probe sequence visits all
      buckets (Hull–Dobell), a miss means no bucket holds a node with that
      hash and those bytes. */
  lemma FindBucketComplete(m: Map, h: Hasher, key: seq<byte>, i: nat)
    requires IsPowerOfTwo(|m.buckets|)
    requires i < |m.buckets| && MatchAt(m, i, h(m.seed, key), key)
    ensures FindBucket(m, h, Some(key)).Some?
  {
    var hash := h(m.seed, key);
    var s := Start(hash, |m.buckets|);
    var u := ProbeReaches(s, i, |m.buckets|);
    assert Slot(s, u, |m.buckets|) == i;
  }

  /** So a lookup reports a miss exactly when no bucket matches. */
  lemma FindBucketMissIff(m: Map, h: Hasher, key: seq<byte>)
    requires IsPowerOfTwo(|m.buckets|)
    ensures FindBucket(m, h, Some(key)).None? <==>
      forall i :: 0 <= i < |m.buckets| ==> !MatchAt(m, i, h(m.seed, key), key)
  {
    if FindBucket(m, h, Some(key)).None? {
      forall i | 0 <= i < |m.buckets|
        ensures !MatchAt(m, i, h(m.seed, key), key)
      {
        if MatchAt(m, i, h(m.seed, key), key) {
          FindBucketComplete(m, h, key, i);
        }
      }
    }
  }

  // ---------------------------------------------------------------------
  // Reachability: the property lookups and inserts rely on. Each stored
  // node sits on its own probe path with no empty bucket before it.

  /** The number of probe steps from `start` to bucket `i`; it exists and
      is unique because the probe sequence is a full cycle. */
  ghost function StepsTo(start: nat, i: nat, cap: nat): (u: nat)
    requires IsPowerOfTwo(cap) && start < cap && i < cap
    ensures u < cap && Slot(start, u, cap) == i
  {
    SlotReaches(start, i, cap);
    var u :| 0 <= u < cap && Slot(start, u, cap) == i;
    u
  }

  lemma SlotReaches(start: nat, i: nat, cap: nat)
    requires IsPowerOfTwo(cap) && start < cap && i < cap
    ensures exists u :: 0 <= u < cap && Slot(start, u, cap) == i
  {
    var j := ProbeReaches(start, i, cap);
    assert Slot(start, j, cap) == i;
  }

  /** Distinct step counts below the capacity reach distinct buckets. */
  lemma SlotInjective(start: nat, v: nat, w: nat, cap: nat)
    requires IsPowerOfTwo(cap) && start < cap && v < cap && w < cap && v != w
    ensures Slot(start, v, cap) != Slot(start, w, cap)
  {
    FullPeriod(start, cap);
    if v < w {
      assert Probe(start, v, cap) != Probe(start, w, cap);
    } else {
      assert Probe(start, w, cap) != Probe(start, v, cap);
    }
  }

  lemma StepsToUnique(start: nat, u: nat, cap: nat)
    requires IsPowerOfTwo(cap) && start < cap && u < cap
    ensures StepsTo(start, Slot(start, u, cap), cap) == u
  {
    FullPeriod(start, cap);
    var v := StepsTo(start, Slot(start, u, cap), cap);
    assert Probe(start, v, cap) == Probe(start, u, cap);
  }

  /** The first `u` buckets of the path from `start` are occupied. */
  ghost predicate PathOccupied(b: seq<Option<NodeId>>, start: nat, u: nat)
    requires start < |b|
  {
    forall v :: 0 <= v < u ==> b[Slot(start, v, |b|)].Some?
  }

  /** Every node in the table is reached from its hash's first bucket
      without crossing an empty bucket. */
  ghost predicate Reachable(b: seq<Option<NodeId>>, heap: map<NodeId, Node>)
  {
    IsPowerOfTwo(|b|)
    && forall i :: 0 <= i < |b| && b[i].Some? && b[i].value in heap ==>
         PathOccupied(b, Start(heap[b[i].value].hash, |b|), StepsTo(Start(heap[b[i].value].hash, |b|), i, |b|))
  }

  ghost predicate ReachInv(m: Map) {
    Reachable(m.buckets, m.heap)
  }

  /** Filling an empty bucket at the end of an occupied path keeps every
      node reachable, the new one included. */
  lemma OccupyReachable(b: seq<Option<NodeId>>, heap: map<NodeId, Node>, heap': map<NodeId, Node>,
                        id: NodeId, start: nat, u: nat)
    requires Reachable(b, heap) && start < |b| && u < |b|
    requires b[Slot(start, u, |b|)].None? && PathOccupied(b, start, u)
    requires id in heap' && Start(heap'[id].hash, |b|) == start
    requires forall x :: x in heap && x != id ==> x in heap' && heap'[x].hash == heap[x].hash
    requires forall i :: 0 <= i < |b| && b[i].Some? ==> b[i].value in heap && b[i].value != id
    ensures Reachable(b[Slot(start, u, |b|) := Some(id)], heap')
  {
    var e := Slot(start, u, |b|);
    var b' := b[e := Some(id)];
    forall i | 0 <= i < |b'| && b'[i].Some? && b'[i].value in heap'
      ensures PathOccupied(b', Start(heap'[b'[i].value].hash, |b'|), StepsTo(Start(heap'[b'[i].value].hash, |b'|), i, |b'|))
    {
      if i == e {
        StepsToUnique(start, u, |b|);
      } else {
        var s := Start(heap[b[i].value].hash, |b|);
        assert PathOccupied(b, s, StepsTo(s, i, |b|));
      }
    }
  }

  /** Replacing the node of one bucket by a node with the same hash keeps
      every node reachable. */
  lemma SameHashReachable(b: seq<Option<NodeId>>, heap: map<NodeId, Node>, id: NodeId, n: Node)
    requires Reachable(b, heap) && id in heap && heap[id].hash == n.hash
    ensures Reachable(b, heap[id := n])
  {
    var heap' := heap[id := n];
    forall i | 0 <= i < |b| && b[i].Some? && b[i].value in heap'
      ensures PathOccupied(b, Start(heap'[b[i].value].hash, |b|), StepsTo(Start(heap'[b[i].value].hash, |b|), i, |b|))
    {
      assert heap'[b[i].value].hash == heap[b[i].value].hash;
    }
  }

  // ---------------------------------------------------------------------
  // map_resize, growing (map.c:514-600).

  /** The inner loop of the rehash: the number of steps to the first empty
      bucket on the path, or the table size when every bucket is full. */
  function EmptyScan(b: seq<Option<NodeId>>, start: nat, t: nat): (u: nat)
    requires start < |b| && t <= |b|
    ensures t <= u <= |b|
    ensures u < |b| ==> b[Slot(start, u, |b|)].None?
    ensures forall v :: t <= v < u ==> b[Slot(start, v, |b|)].Some?
    decreases |b| - t
  {
    if t == |b| || b[Slot(start, t, |b|)].None? then t else EmptyScan(b, start, t + 1)
  }

  /** Put node `id` with hash `hash` into the first empty bucket of its path
      (into the bucket after a full cycle when there is none). */
  function Place(b: seq<Option<NodeId>>, id: NodeId, hash: u32): (r: seq<Option<NodeId>>)
    requires |b| > 0
    ensures |r| == |b|
  {
    var s := Start(hash, |b|);
    b[Slot(s, EmptyScan(b, s, 0), |b|) := Some(id)]
  }

  /** The rehash loop from old bucket `k` on, filling the new table `b`. */
  function RehashFrom(m: Map, k: nat, b: seq<Option<NodeId>>): (r: seq<Option<NodeId>>)
    requires BucketsInHeap(m) && k <= |m.buckets| && |b| > 0
    ensures |r| == |b|
    decreases |m.buckets| - k
  {
    if k == |m.buckets| then b
    else if m.buckets[k].None? then RehashFrom(m, k + 1, b)
    else RehashFrom(m, k + 1, Place(b, m.buckets[k].value, m.heap[m.buckets[k].value].hash))
  }

  /** The table after `map_resize(m, size)` for a size at least the current
      one: every node re-placed, old buckets in index order. (The branch
      that frees nodes whose old index exceeds `size` cannot fire here.) */
  function Rehash(m: Map, size: nat): (r: Map)
    requires BucketsInHeap(m) && size > 0
    ensures |r.buckets| == size
    ensures r.heap == m.heap && r.order == m.order && r.length == m.length
    ensures r.first == m.first && r.last == m.last && r.nextId == m.nextId && r.seed == m.seed
  {
    m.(buckets := RehashFrom(m, 0, EmptyBuckets(size)))
  }

  /** The node identities a table holds. */
  ghost function Ids(b: seq<Option<NodeId>>): set<NodeId> {
    set i | 0 <= i < |b| && b[i].Some? :: b[i].value
  }

  lemma IdsOfUpdate(b: seq<Option<NodeId>>, e: nat, id: NodeId)
    requires e < |b| && b[e].None?
    ensures Ids(b[e := Some(id)]) == Ids(b) + {id}
  {
    var b' := b[e := Some(id)];
    assert b'[e].value == id;
    forall x | x in Ids(b)
      ensures x in Ids(b')
    {
      var i :| 0 <= i < |b| && b[i].Some? && b[i].value == x;
      assert b'[i] == b[i];
    }
  }

  lemma IdsOfPrefix(b: seq<Option<NodeId>>, k: nat)
    requires k < |b|
    ensures Ids(b[..k + 1]) == Ids(b[..k]) + (if b[k].Some? then {b[k].value} else {})
  {
    var p := b[..k + 1];
    if b[k].Some? {
      assert p[k].value == b[k].value;
    }
    forall x | x in Ids(b[..k])
      ensures x in Ids(p)
    {
      var i :| 0 <= i < k && b[..k][i].Some? && b[..k][i].value == x;
      assert p[i] == b[i];
    }
  }

  lemma CountSomePrefix(b: seq<Option<NodeId>>, k: nat)
    requires k < |b|
    ensures CountSome(b[..k + 1]) == CountSome(b[..k]) + (if b[k].Some? then 1 else 0)
  {
    assert b[..k + 1][..k] == b[..k];
  }

  lemma {:induction false} CountSomePrefixBound(b: seq<Option<NodeId>>, k: nat)
    requires k <= |b|
    ensures CountSome(b[..k]) <= CountSome(b)
    decreases |b| - k
  {
    if k < |b| {
      CountSomePrefix(b, k);
      CountSomePrefixBound(b, k + 1);
    } else {
      assert b[..k] == b;
    }
  }

  /** In a table of distinct nodes, a node is not among those of the
      buckets before its own. */
  lemma NotInEarlierIds(b: seq<Option<NodeId>>, k: nat)
    requires BucketsDistinct(b) && k < |b| && b[k].Some?
    ensures b[k].value !in Ids(b[..k])
  {
    forall x | x in Ids(b[..k])
      ensures x != b[k].value
    {
      var j :| 0 <= j < k && b[..k][j].Some? && b[..k][j].value == x;
      assert b[j] == b[..k][j];
    }
  }

  /** What the rehash loop keeps: the new table holds exactly the nodes of
      the old buckets seen so far, each once, each reachable. */
  ghost predicate RehashInv(m: Map, k: nat, b: seq<Option<NodeId>>)
    requires k <= |m.buckets|
  {
    Ids(b) == Ids(m.buckets[..k]) && BucketsDistinct(b)
    && CountSome(b) == CountSome(m.buckets[..k])
    && Reachable(b, m.heap)
    && (forall i :: 0 <= i < |b| && b[i].Some? ==> b[i].value in m.heap)
  }

  /** What the rehash loop needs of the old table: stored, distinct nodes,
      and at least one empty bucket. */
  predicate Rehashable(m: Map) {
    BucketsInHeap(m) && BucketsDistinct(m.buckets) && CountSome(m.buckets) < |m.buckets|
  }

  /** One step of the rehash loop on an occupied old bucket. */
  lemma PlaceKeeps(m: Map, k: nat, b: seq<Option<NodeId>>)
    requires Rehashable(m) && k < |m.buckets| && |m.buckets| <= |b| && m.buckets[k].Some?
    requires RehashInv(m, k, b)
    ensures RehashInv(m, k + 1, Place(b, m.buckets[k].value, m.heap[m.buckets[k].value].hash))
  {
    var id := m.buckets[k].value;
    var hash := m.heap[id].hash;
    var s := Start(hash, |b|);
    CountSomePrefix(m.buckets, k);
    IdsOfPrefix(m.buckets, k);
    CountSomePrefixBound(m.buckets, k);
    var e0 := EmptyBucketExists(b);
    var w := ProbeReaches(s, e0, |b|);
    var u := EmptyScan(b, s, 0);
    assert b[Slot(s, w, |b|)].None?;
    var e := Slot(s, u, |b|);
    NotInEarlierIds(m.buckets, k);
    var b' := Place(b, id, hash);
    assert b' == b[e := Some(id)];
    IdsOfUpdate(b, e, id);
    CountSomeUpdate(b, e, Some(id));
    OccupyReachable(b, m.heap, m.heap, id, s, u);
    assert BucketsDistinct(b') by {
      forall i, j | 0 <= i < j < |b'| && b'[i].Some? && b'[j].Some?
        ensures b'[i].value != b'[j].value
      {
        if i == e {
          assert b'[j].value in Ids(b);
        } else if j == e {
          assert b'[i].value in Ids(b);
        }
      }
    }
  }

  lemma {:induction false} RehashFromKeeps(m: Map, k: nat, b: seq<Option<NodeId>>)
    requires Rehashable(m) && k <= |m.buckets| && |m.buckets| <= |b|
    requires RehashInv(m, k, b)
    ensures RehashInv(m, |m.buckets|, RehashFrom(m, k, b))
    decreases |m.buckets| - k
  {
    if k < |m.buckets| {
      if m.buckets[k].Some? {
        PlaceKeeps(m, k, b);
        RehashFromKeeps(m, k + 1, Place(b, m.buckets[k].value, m.heap[m.buckets[k].value].hash));
      } else {
        CountSomePrefix(m.buckets, k);
        IdsOfPrefix(m.buckets, k);
        RehashFromKeeps(m, k + 1, b);
      }
    } else {
      assert m.buckets[..k] == m.buckets;
    }
  }

  lemma DoublePowerOfTwo(n: nat)
    requires IsPowerOfTwo(n)
    ensures IsPowerOfTwo(2 * n)
  {
    var k: nat :| Pow2(k) == n;
    assert Pow2(k + 1) == 2 * n;
  }

  /** A table holding the same nodes as a table that holds every node of
      the heap also holds every node of the heap. */
  lemma SameIdsCoverHeap(m: Map, b: seq<Option<NodeId>>)
    requires HeapInBuckets(m) && Ids(b) == Ids(m.buckets)
    ensures HeapInBuckets(m.(buckets := b))
  {
    forall id | id in m.heap
      ensures exists i :: 0 <= i < |b| && b[i] == Some(id)
    {
      var j :| 0 <= j < |m.buckets| && m.buckets[j] == Some(id);
      assert id in Ids(m.buckets);
      var i :| 0 <= i < |b| && b[i].Some? && b[i].value == id;
    }
  }

  /** The rehash loop run over the whole old table keeps its invariant. */
  lemma RehashKeeps(m: Map, size: nat)
    requires Valid(m) && IsPowerOfTwo(size) && |m.buckets| <= size
    ensures RehashInv(m, |m.buckets|, Rehash(m, size).buckets)
  {
    var b0 := EmptyBuckets(size);
    CountSomeEmpty(size);
    assert m.buckets[..0] == [];
    assert Ids(b0) == {};
    assert Ids(m.buckets[..0]) == {};
    RehashFromKeeps(m, 0, b0);
  }

  /** Rehashing into a table at least as large keeps the map valid and makes
      every node reachable again. */
  lemma RehashValid(m: Map, size: nat)
    requires Valid(m) && IsPowerOfTwo(size) && |m.buckets| <= size < WordModulus
    ensures Valid(Rehash(m, size)) && ReachInv(Rehash(m, size))
  {
    RehashKeeps(m, size);
    assert m.buckets[..|m.buckets|] == m.buckets;
    RehashTable(m, size);
    RehashHeap(m, size);
  }

  lemma RehashTable(m: Map, size: nat)
    requires Valid(m) && IsPowerOfTwo(size) && |m.buckets| <= size < WordModulus
    requires RehashInv(m, |m.buckets|, Rehash(m, size).buckets)
    ensures TableValid(Rehash(m, size))
  {
    assert m.buckets[..|m.buckets|] == m.buckets;
  }

  lemma RehashHeap(m: Map, size: nat)
    requires Valid(m) && |m.buckets| <= size
    requires RehashInv(m, |m.buckets|, Rehash(m, size).buckets)
    ensures HeapValid(Rehash(m, size))
  {
    assert m.buckets[..|m.buckets|] == m.buckets;
    SameIdsCoverHeap(m, Rehash(m, size).buckets);
  }

  /** `check_availability` (map.c:44-69): before an insert, a map whose load
      has reached 0.8 doubles its table; doubling fails when the new size
      overflows `size_t`. */
  function MapCheckAvailability(m: Map): (r: Option<Map>)
    requires BucketsInHeap(m) && 0 < |m.buckets| < WordModulus
    ensures r.None? <==> 5 * m.length >= 4 * |m.buckets| && 2 * |m.buckets| >= WordModulus
    ensures r.Some? && 5 * m.length < 4 * |m.buckets| ==> r.value == m
    ensures r.Some? && 5 * m.length >= 4 * |m.buckets| ==> r.value == Rehash(m, 2 * |m.buckets|)
  {
    if 5 * m.length >= 4 * |m.buckets| then
      var newsize := (2 * |m.buckets|) % WordModulus;
      if newsize <= |m.buckets| then None else Some(Rehash(m, newsize))
    else Some(m)
  }

  /** After a successful check the load is below 0.8 and the map is still
      valid; a grown map has every node reachable. */
  lemma CheckAvailabilityValid(m: Map)
    requires Valid(m) && MapCheckAvailability(m).Some?
    ensures var g := MapCheckAvailability(m).value;
      Valid(g) && 5 * g.length < 4 * |g.buckets|
      && g.heap == m.heap && g.order == m.order && g.first == m.first && g.last == m.last
      && g.nextId == m.nextId && g.seed == m.seed
      && (ReachInv(m) ==> ReachInv(g))
  {
    if 5 * m.length >= 4 * |m.buckets| {
      DoublePowerOfTwo(|m.buckets|);
      RehashValid(m, 2 * |m.buckets|);
    }
  }

  function ClampSize(size: nat): nat {
    if size < MapMinimumSize then MapMinimumSize else size
  }

  /** A resize request the model covers: one that is rejected, or one that
      does not shrink the table. */
  predicate ResizeGrows(m: Map, size: nat) {
    (size < MapMinimumSize || IsPowerOfTwoC(size)) ==> ClampSize(size) >= |m.buckets|
  }

  /** `map_resize` (map.c:514-600): sizes below eight become eight; other
      sizes must be powers of two; every node is then re-placed. */
  function MapResize(m: Map, size: nat): (r: Outcome<Map>)
    requires BucketsInHeap(m) && size < WordModulus && ResizeGrows(m, size)
    ensures r.ok <==> size < MapMinimumSize || IsPowerOfTwoC(size)
    ensures !r.ok ==> r.state == m
    ensures r.ok ==>
      (|r.state.buckets| == ClampSize(size)
       && r.state.heap == m.heap && r.state.order == m.order && r.state.length == m.length)
  {
    if size < MapMinimumSize then Outcome(true, Rehash(m, MapMinimumSize))
    else if !IsPowerOfTwoC(size) then Outcome(false, m)
    else Outcome(true, Rehash(m, size))
  }

  lemma MapResizeValid(m: Map, size: nat)
    requires Valid(m) && size < WordModulus && ResizeGrows(m, size)
    ensures MapResize(m, size).ok ==> Valid(MapResize(m, size).state) && ReachInv(MapResize(m, size).state)
  {
    if size < MapMinimumSize {
      assert Pow2(3) == 8;
      RehashValid(m, MapMinimumSize);
    } else if IsPowerOfTwoC(size) {
      PowerOfTwoC(size);
      RehashValid(m, size);
    }
  }

  // ---------------------------------------------------------------------
  // map_set (map.c:978-1101).

  /** Where the insert loop of `map_set` stops: at an empty bucket, at a
      node with the key, or after a full cycle. */
  datatype Scan = Vacant(steps: nat) | Hit(steps: nat) | Full

  function SetScan(m: Map, hash: u32, key: seq<byte>, start: nat, t: nat): (r: Scan)
    requires start < |m.buckets| && t <= |m.buckets|
    ensures r.Vacant? ==> t <= r.steps < |m.buckets| && m.buckets[Slot(start, r.steps, |m.buckets|)].None?
    ensures r.Hit? ==> t <= r.steps < |m.buckets| && MatchAt(m, Slot(start, r.steps, |m.buckets|), hash, key)
    ensures !r.Full? ==> forall v :: t <= v < r.steps ==>
      m.buckets[Slot(start, v, |m.buckets|)].Some? && !MatchAt(m, Slot(start, v, |m.buckets|), hash, key)
    ensures r.Full? ==> forall v :: t <= v < |m.buckets| ==>
      m.buckets[Slot(start, v, |m.buckets|)].Some? && !MatchAt(m, Slot(start, v, |m.buckets|), hash, key)
    decreases |m.buckets| - t
  {
    if t == |m.buckets| then Full
    else if m.buckets[Slot(start, t, |m.buckets|)].None? then Vacant(t)
    else if MatchAt(m, Slot(start, t, |m.buckets|), hash, key) then Hit(t)
    else SetScan(m, hash, key, start, t + 1)
  }

  /** A key whose stored copy `memcmp` sees as the key itself: a string
      key has no NUL, or only its last byte is NUL (as the `sizeof` of a
      string literal counts). */
  predicate ExactKey(key: KeyArg) {
    ByteKind(key.kind)
    && (key.kind.StringKind? ==>
          NulFree(key.bytes)
          || (|key.bytes| > 0 && NulFree(key.bytes[..|key.bytes| - 1]) && key.bytes[|key.bytes| - 1] == Nul))
  }

  /** The item `node_init` makes of a key: a copy of its bytes, which the
      lookups see as the key exactly when it is an exact key. */
  function KeyItem(key: KeyArg): (r: Item)
    requires ByteKind(key.kind)
    ensures r.kind == key.kind && r.size == |key.bytes| && r.data.Bytes?
    ensures KeyView(r) == if ExactKey(key) then Some(key.bytes) else None
  {
    var a := ItemArg(key.kind, |key.bytes|, NoData, Bytes(key.bytes), key.destructor);
    if !key.kind.StringKind? then
      assert key.bytes[..|key.bytes|] == key.bytes;
      Store(a).value
    else if NulFree(key.bytes) then
      StrLenOfNulFree(key.bytes);
      Store(a).value
    else
      KeyStringView(key.bytes);
      Store(a).value
  }

  /** The string copy of a key with a NUL: one byte short, followed by the
      terminator, exactly when the NUL is the last byte; shorter otherwise. */
  lemma KeyStringView(b: seq<byte>)
    requires !NulFree(b)
    ensures StrLen(b) < |b|
    ensures StrLen(b) + 1 == |b| <==> NulFree(b[..|b| - 1]) && b[|b| - 1] == Nul
    ensures StrLen(b) + 1 == |b| ==> b[..StrLen(b)] + [Nul] == b
  {
    var n := StrLen(b);
    if n + 1 == |b| {
      assert b[..n] + [Nul] == b;
    }
    if |b| > 0 && NulFree(b[..|b| - 1]) && b[|b| - 1] == Nul {
      StrLenUnique(b, |b| - 1);
    }
  }

  /** A string key passed with the `sizeof` of its literal, such as "ab"
      with size 3, is stored as "ab" and its terminator: the lookups compare
      all three bytes and match the key. */
  lemma LiteralKeyMatches(destructor: nat)
    ensures var key := KeyArg(StringKind, [97, 98, 0], false, destructor);
      ExactKey(key) && KeyItem(key).data == Bytes([97, 98]) && KeyView(KeyItem(key)) == Some([97, 98, 0])
  {
    var key := KeyArg(StringKind, [97, 98, 0], false, destructor);
    assert key.bytes[..2] == [97, 98];
    StrLenUnique(key.bytes, 2);
  }

  /** A string key with a NUL before its last byte leaves unwritten bytes
      in its copy, so no query matches it: "a", NUL, "b" with size 3 is
      stored as "a". */
  lemma InnerNulKeyUnmatched(destructor: nat, hash: u32, query: seq<byte>, v: Item)
    ensures var key := KeyArg(StringKind, [97, 0, 98], false, destructor);
      !ExactKey(key) && KeyItem(key).data == Bytes([97]) && !IsKeyOf(Node(hash, KeyItem(key), v), hash, query)
  {
    var key := KeyArg(StringKind, [97, 0, 98], false, destructor);
    assert key.bytes[..2][1] == 0;
    assert key.bytes[..1] == [97];
    StrLenUnique(key.bytes, 1);
  }

  /** The map with node `n` linked in under a fresh identity: in bucket `e`
      and at the end of the insertion order. */
  function Linked(g: Map, e: nat, n: Node): (r: Map)
    requires e < |g.buckets|
    ensures r.order == g.order + [g.nextId] && r.heap == g.heap[g.nextId := n]
    ensures r.buckets == g.buckets[e := Some(g.nextId)] && r.length == g.length + 1
  {
    var id := g.nextId;
    Map(g.seed, g.buckets[e := Some(id)], g.heap[id := n], g.order + [id], g.length + 1,
        if g.first.Some? then g.first else Some(id), Some(id), id + 1)
  }

  /** Create the node for a key and value and link it in. */
  function AddNode(g: Map, e: nat, hash: u32, key: KeyArg, value: ItemArg): (r: Outcome<Map>)
    requires e < |g.buckets| && ByteKind(key.kind) && ArgShape(value)
    ensures r.ok <==> Store(value).Some?
    ensures !r.ok ==> r.state == g
    ensures r.ok ==>
      (r.state.order == g.order + [g.nextId] && r.state.length == g.length + 1
       && r.state.heap == g.heap[g.nextId := Node(hash, KeyItem(key), Store(value).value)]
       && r.state.buckets == g.buckets[e := Some(g.nextId)] && r.state.last == Some(g.nextId))
  {
    match Store(value)
    case None => Outcome(false, g)
    case Some(v) => Outcome(true, Linked(g, e, Node(hash, KeyItem(key), v)))
  }

  /** The insert loop of `map_set` (map.c:1040-1100) on a map with room:
      replace the value of the first node on the key's path with the key's
      hash and bytes, or add a node in the first empty bucket on the path.
      A failed copy of the value leaves the map unchanged. */
  function SetInto(g: Map, h: Hasher, key: KeyArg, value: ItemArg): (r: Outcome<Map>)
    requires |g.buckets| > 0 && ByteKind(key.kind) && ArgShape(value)
    ensures r.ok <==> Store(value).Some?
    ensures !r.ok ==> r.state == g
    ensures r.state.seed == g.seed && |r.state.buckets| == |g.buckets|
    ensures r.ok ==> r.state.order == g.order || r.state.order == g.order + [g.nextId]
    ensures SetScan(g, h(g.seed, key.bytes), key.bytes, Start(h(g.seed, key.bytes), |g.buckets|), 0).Hit? ==>
      r.state.order == g.order && r.state.length == g.length && r.state.buckets == g.buckets
  {
    var cap := |g.buckets|;
    var hash := h(g.seed, key.bytes);
    var s := Start(hash, cap);
    match SetScan(g, hash, key.bytes, s, 0)
    case Hit(u) =>
      var id := g.buckets[Slot(s, u, cap)].value;
      (match Store(value)
       case None => Outcome(false, g)
       case Some(v) => Outcome(true, g.(heap := g.heap[id := g.heap[id].(value := v)])))
    case Vacant(u) => AddNode(g, Slot(s, u, cap), hash, key, value)
    case Full => AddNode(g, Slot(s, cap, cap), hash, key, value)
  }

  /** `map_set`: refuse a key that supplies `data`; make room; then run
      the insert loop. A failed copy of the value leaves the (possibly
      grown) map otherwise unchanged. */
  function MapSet(m: Map, h: Hasher, key: KeyArg, value: ItemArg): (r: Outcome<Map>)
    requires Valid(m) && ByteKind(key.kind) && ArgShape(value)
    ensures key.adopts ==> r == Outcome(false, m)
    ensures r.ok ==> Store(value).Some?
    ensures r.state.seed == m.seed && |r.state.buckets| >= |m.buckets|
    ensures !key.adopts ==>
      |r.state.buckets| == (if 5 * m.length >= 4 * |m.buckets| && 2 * |m.buckets| < WordModulus then 2 * |m.buckets| else |m.buckets|)
    ensures !r.ok ==> r.state.heap == m.heap && r.state.order == m.order
    ensures r.ok ==> r.state.order == m.order || r.state.order == m.order + [m.nextId]
  {
    if key.adopts then Outcome(false, m)
    else
      match MapCheckAvailability(m)
      case None => Outcome(false, m)
      case Some(g) => SetInto(g, h, key, value)
  }

  /** A power-of-two table with an empty bucket. */
  ghost predicate HasRoom(b: seq<Option<NodeId>>) {
    IsPowerOfTwo(|b|) && CountSome(b) < |b|
  }

  /** What the insert loop needs of a map: room in the table, stored
      nodes in the buckets, and identities below the next one. */
  ghost predicate Insertable(g: Map) {
    HasRoom(g.buckets) && BucketsInHeap(g) && forall id :: id in g.heap ==> id < g.nextId
  }

  /** In a table with room the insert loop always stops before a full
      cycle: there is an empty bucket, and the probe path reaches it. */
  lemma ScanStops(g: Map, hash: u32, key: seq<byte>, s: nat)
    requires HasRoom(g.buckets) && s < |g.buckets|
    ensures !SetScan(g, hash, key, s, 0).Full?
  {
    var e0 := EmptyBucketExists(g.buckets);
    var w := ProbeReaches(s, e0, |g.buckets|);
    assert g.buckets[Slot(s, w, |g.buckets|)].None?;
  }

  lemma LinkedValid(g: Map, e: nat, n: Node)
    requires Valid(g) && e < |g.buckets| && g.buckets[e].None? && g.length + 1 < |g.buckets|
    requires n.key.data.Bytes?
    ensures Valid(Linked(g, e, n))
  {
    LinkedTable(g, e, n);
    LinkedHeap(g, e, n);
  }

  lemma LinkedTable(g: Map, e: nat, n: Node)
    requires Valid(g) && e < |g.buckets| && g.buckets[e].None? && g.length + 1 < |g.buckets|
    ensures TableValid(Linked(g, e, n))
  {
    var id := g.nextId;
    CountSomeUpdate(g.buckets, e, Some(id));
    assert id !in g.heap && id !in g.order;
  }

  lemma LinkedHeap(g: Map, e: nat, n: Node)
    requires Valid(g) && e < |g.buckets| && g.buckets[e].None?
    requires n.key.data.Bytes?
    ensures HeapValid(Linked(g, e, n))
  {
    var id := g.nextId;
    var r := Linked(g, e, n);
    assert id !in g.heap;
    forall x | x in r.heap
      ensures exists i :: 0 <= i < |r.buckets| && r.buckets[i] == Some(x)
    {
      if x == id {
        assert r.buckets[e] == Some(id);
      } else {
        var j :| 0 <= j < |g.buckets| && g.buckets[j] == Some(x);
        assert r.buckets[j] == Some(x);
      }
    }
  }

  lemma AddNodeValid(g: Map, e: nat, hash: u32, key: KeyArg, value: ItemArg)
    requires Valid(g) && e < |g.buckets| && g.buckets[e].None? && 5 * g.length < 4 * |g.buckets|
    requires ByteKind(key.kind) && ArgShape(value)
    ensures AddNode(g, e, hash, key, value).ok ==> Valid(AddNode(g, e, hash, key, value).state)
  {
    if Store(value).Some? {
      LinkedValid(g, e, Node(hash, KeyItem(key), Store(value).value));
    }
  }

  lemma AddNodeReach(g: Map, s: nat, u: nat, hash: u32, key: KeyArg, value: ItemArg)
    requires Valid(g) && ReachInv(g) && s == Start(hash, |g.buckets|) && u < |g.buckets|
    requires g.buckets[Slot(s, u, |g.buckets|)].None? && PathOccupied(g.buckets, s, u)
    requires ByteKind(key.kind) && ArgShape(value)
    ensures var r := AddNode(g, Slot(s, u, |g.buckets|), hash, key, value);
      r.ok ==> ReachInv(r.state)
  {
    var r := AddNode(g, Slot(s, u, |g.buckets|), hash, key, value);
    if r.ok {
      OccupyReachable(g.buckets, g.heap, r.state.heap, g.nextId, s, u);
    }
  }

  /** A map with the table, order and anchors of a valid map, and the
      same node identities each with a byte key, is valid too. */
  lemma SameTableValid(g: Map, n: Map)
    requires Valid(g)
    requires n.buckets == g.buckets && n.order == g.order && n.length == g.length
    requires n.first == g.first && n.last == g.last && n.nextId == g.nextId
    requires forall x :: x in n.heap <==> x in g.heap
    requires forall x :: x in n.heap ==> n.heap[x].key.data.Bytes?
    ensures Valid(n)
  {
    SameTableHeap(g, n);
  }

  lemma SameTableHeap(g: Map, n: Map)
    requires HeapValid(g)
    requires n.buckets == g.buckets && n.order == g.order && n.nextId == g.nextId
    requires forall x :: x in n.heap <==> x in g.heap
    requires forall x :: x in n.heap ==> n.heap[x].key.data.Bytes?
    ensures HeapValid(n)
  {
    forall x | x in n.heap
      ensures exists i :: 0 <= i < |n.buckets| && n.buckets[i] == Some(x)
    {
      var j :| 0 <= j < |g.buckets| && g.buckets[j] == Some(x);
      assert n.buckets[j] == Some(x);
    }
  }

  /** Replacing a node's value changes nothing the invariants look at. */
  lemma ReplaceValueValid(g: Map, id: NodeId, v: Item)
    requires Valid(g) && id in g.heap
    ensures Valid(g.(heap := g.heap[id := g.heap[id].(value := v)]))
  {
    var n := g.(heap := g.heap[id := g.heap[id].(value := v)]);
    assert forall x :: x in n.heap ==> n.heap[x].key == g.heap[x].key;
    SameTableValid(g, n);
  }

  lemma ReplaceValueReach(g: Map, id: NodeId, v: Item)
    requires ReachInv(g) && id in g.heap
    ensures ReachInv(g.(heap := g.heap[id := g.heap[id].(value := v)]))
  {
    SameHashReachable(g.buckets, g.heap, id, g.heap[id].(value := v));
  }

  /** The insert loop keeps a map with room valid, and keeps every node
      reachable when all were before. */
  lemma SetIntoValid(g: Map, h: Hasher, key: KeyArg, value: ItemArg)
    requires Valid(g) && 5 * g.length < 4 * |g.buckets| && ByteKind(key.kind) && ArgShape(value)
    ensures Valid(SetInto(g, h, key, value).state)
    ensures ReachInv(g) ==> ReachInv(SetInto(g, h, key, value).state)
  {
    var cap := |g.buckets|;
    var hash := h(g.seed, key.bytes);
    var s := Start(hash, cap);
    ScanStops(g, hash, key.bytes, s);
    var scan := SetScan(g, hash, key.bytes, s, 0);
    if scan.Hit? {
      var id := g.buckets[Slot(s, scan.steps, cap)].value;
      if Store(value).Some? {
        ReplaceValueValid(g, id, Store(value).value);
        if ReachInv(g) {
          ReplaceValueReach(g, id, Store(value).value);
        }
      }
    } else {
      assert scan.Vacant?;
      AddNodeValid(g, Slot(s, scan.steps, cap), hash, key, value);
      if ReachInv(g) {
        AddNodeReach(g, s, scan.steps, hash, key, value);
      }
    }
  }

  /** `map_set` keeps a map valid, and keeps every node reachable when all
      were before. */
  lemma MapSetValid(m: Map, h: Hasher, key: KeyArg, value: ItemArg)
    requires Valid(m) && ByteKind(key.kind) && ArgShape(value)
    ensures Valid(MapSet(m, h, key, value).state)
    ensures ReachInv(m) ==> ReachInv(MapSet(m, h, key, value).state)
  {
    if !key.adopts && MapCheckAvailability(m).Some? {
      CheckAvailabilityValid(m);
      SetIntoValid(MapCheckAvailability(m).value, h, key, value);
    }
  }

  /** The first match on a path is where it is. */
  lemma FindFromIs(m: Map, hash: u32, key: seq<byte>, s: nat, u: nat)
    requires s < |m.buckets| && u < |m.buckets|
    requires MatchAt(m, Slot(s, u, |m.buckets|), hash, key)
    requires forall v :: 0 <= v < u ==> !MatchAt(m, Slot(s, v, |m.buckets|), hash, key)
    ensures FindFrom(m, hash, key, s, 0) == Some(u)
  {
  }

  // ---------------------------------------------------------------------
  // Lookups (map.c:861-976).

  /** The value item stored under a key: `get_node` followed by reading
      `n->value`. The requested kind only selects a log message, so the
      stored item comes back whatever its kind. */
  function MapGet(m: Map, h: Hasher, key: Option<seq<byte>>, kind: Kind): (r: Option<Item>)
    requires BucketsInHeap(m) && |m.buckets| > 0
    ensures r.Some? <==> FindBucket(m, h, key).Some?
    ensures r.Some? ==> exists id :: id in m.heap && m.heap[id].value == r.value && IsKeyOf(m.heap[id], h(m.seed, key.value), key.value)
    ensures r.Some? ==> r.value == m.heap[m.buckets[FindBucket(m, h, key).value].value].value
  {
    match FindBucket(m, h, key)
    case None => None
    case Some(i) => Some(m.heap[m.buckets[i].value].value)
  }

  /** `map_contains`. */
  function MapContains(m: Map, h: Hasher, key: Option<seq<byte>>): (r: bool)
    requires |m.buckets| > 0
    ensures r <==> FindBucket(m, h, key).Some?
  {
    FindBucket(m, h, key).Some?
  }

  /** `map_get_type`: the stored value's kind, or the error kind on a miss. */
  function MapGetType(m: Map, h: Hasher, key: Option<seq<byte>>): (r: Kind)
    requires BucketsInHeap(m) && |m.buckets| > 0
    ensures FindBucket(m, h, key).None? ==> r == ReservedError
    ensures FindBucket(m, h, key).Some? ==> r == MapGet(m, h, key, ReservedEmpty).value.kind
  {
    match FindBucket(m, h, key)
    case None => ReservedError
    case Some(i) => m.heap[m.buckets[i].value].value.kind
  }

  /** Some node of the map has this hash and these key bytes. */
  ghost predicate HasKey(m: Map, hash: u32, key: seq<byte>) {
    exists id :: id in m.heap && IsKeyOf(m.heap[id], hash, key)
  }

  /** In a valid map a key is found exactly when some node carries it. */
  lemma ContainsIffHasKey(m: Map, h: Hasher, key: seq<byte>)
    requires Valid(m)
    ensures MapContains(m, h, Some(key)) <==> HasKey(m, h(m.seed, key), key)
  {
    var hash := h(m.seed, key);
    if HasKey(m, hash, key) {
      var id :| id in m.heap && IsKeyOf(m.heap[id], hash, key);
      var i :| 0 <= i < |m.buckets| && m.buckets[i] == Some(id);
      FindBucketComplete(m, h, key, i);
    }
  }

  // ---------------------------------------------------------------------
  // What map_set promises.

  /** After an in-place update, the lookup stops where the insert loop did. */
  lemma HitFound(g: Map, id: NodeId, v: Item, hash: u32, key: seq<byte>, s: nat, u: nat)
    requires s < |g.buckets| && u < |g.buckets| && id in g.heap
    requires g.buckets[Slot(s, u, |g.buckets|)] == Some(id) && MatchAt(g, Slot(s, u, |g.buckets|), hash, key)
    requires forall v :: 0 <= v < u ==> !MatchAt(g, Slot(s, v, |g.buckets|), hash, key)
    ensures FindFrom(g.(heap := g.heap[id := g.heap[id].(value := v)]), hash, key, s, 0) == Some(u)
  {
    var n := g.(heap := g.heap[id := g.heap[id].(value := v)]);
    forall w | 0 <= w < u
      ensures !MatchAt(n, Slot(s, w, |g.buckets|), hash, key)
    {
      assert !MatchAt(g, Slot(s, w, |g.buckets|), hash, key);
    }
    FindFromIs(n, hash, key, s, u);
  }

  /** After an insert, the lookup stops at the new node. */
  lemma VacantFound(g: Map, nd: Node, hash: u32, key: seq<byte>, s: nat, u: nat)
    requires IsPowerOfTwo(|g.buckets|) && s < |g.buckets| && u < |g.buckets|
    requires BucketsInHeap(g) && g.nextId !in g.heap && IsKeyOf(nd, hash, key)
    requires forall v :: 0 <= v < u ==> !MatchAt(g, Slot(s, v, |g.buckets|), hash, key)
    ensures FindFrom(Linked(g, Slot(s, u, |g.buckets|), nd), hash, key, s, 0) == Some(u)
  {
    var cap := |g.buckets|;
    var e := Slot(s, u, cap);
    var n := Linked(g, e, nd);
    forall w | 0 <= w < u
      ensures !MatchAt(n, Slot(s, w, cap), hash, key)
    {
      SlotInjective(s, w, u, cap);
      assert n.buckets[Slot(s, w, cap)] == g.buckets[Slot(s, w, cap)];
      assert !MatchAt(g, Slot(s, w, cap), hash, key);
    }
    assert n.buckets[e] == Some(g.nextId);
    assert MatchAt(n, e, hash, key);
    FindFromIs(n, hash, key, s, u);
  }

  /** Where a successful insert loop leaves the value: in a bucket that a
      lookup of the same key finds. */
  lemma SetIntoLands(g: Map, h: Hasher, key: KeyArg, value: ItemArg) returns (e: nat)
    requires Insertable(g) && ExactKey(key) && ArgShape(value)
    requires SetInto(g, h, key, value).ok
    ensures var n := SetInto(g, h, key, value).state;
      e < |n.buckets| && n.buckets[e].Some? && n.buckets[e].value in n.heap
      && n.heap[n.buckets[e].value].value == Store(value).value
      && FindBucket(n, h, Some(key.bytes)) == Some(e)
  {
    var cap := |g.buckets|;
    var hash := h(g.seed, key.bytes);
    var s := Start(hash, cap);
    ScanStops(g, hash, key.bytes, s);
    var scan := SetScan(g, hash, key.bytes, s, 0);
    var n := SetInto(g, h, key, value).state;
    var u := scan.steps;
    var v := Store(value).value;
    e := Slot(s, u, cap);
    if scan.Hit? {
      var id := g.buckets[e].value;
      assert n == g.(heap := g.heap[id := g.heap[id].(value := v)]);
      HitFound(g, id, v, hash, key.bytes, s, u);
      assert n.buckets[e] == Some(id) && n.heap[id].value == v;
    } else {
      assert scan.Vacant?;
      var nd := Node(hash, KeyItem(key), v);
      assert n == Linked(g, e, nd);
      VacantFound(g, nd, hash, key.bytes, s, u);
      assert n.buckets[e] == Some(g.nextId) && n.heap[g.nextId].value == v;
    }
  }

  /** Where a successful `map_set` leaves the value: in a bucket that a
      lookup of the same key finds. */
  lemma SetLands(m: Map, h: Hasher, key: KeyArg, value: ItemArg) returns (e: nat)
    requires Valid(m) && ExactKey(key) && ArgShape(value)
    requires MapSet(m, h, key, value).ok
    ensures var n := MapSet(m, h, key, value).state;
      e < |n.buckets| && n.buckets[e].Some? && n.buckets[e].value in n.heap
      && n.heap[n.buckets[e].value].value == Store(value).value
      && FindBucket(n, h, Some(key.bytes)) == Some(e)
  {
    CheckAvailabilityValid(m);
    e := SetIntoLands(MapCheckAvailability(m).value, h, key, value);
  }

  /** Setting a key and reading it back yields the stored value, for a key
      whose stored copy equals its bytes. */
  lemma SetThenGet(m: Map, h: Hasher, key: KeyArg, value: ItemArg, kind: Kind)
    requires Valid(m) && ExactKey(key) && ArgShape(value)
    requires MapSet(m, h, key, value).ok
    ensures var n := MapSet(m, h, key, value).state;
      BucketsInHeap(n) && MapGet(n, h, Some(key.bytes), kind) == Some(Store(value).value)
  {
    MapSetValid(m, h, key, value);
    var e := SetLands(m, h, key, value);
  }

  /** When the node for a key is reachable, the insert loop reaches it (or
      an earlier node with the key) before any empty bucket. */
  lemma ScanHits(g: Map, hash: u32, key: seq<byte>, i: nat)
    requires Reachable(g.buckets, g.heap) && i < |g.buckets| && MatchAt(g, i, hash, key)
    requires !SetScan(g, hash, key, Start(hash, |g.buckets|), 0).Full?
    ensures SetScan(g, hash, key, Start(hash, |g.buckets|), 0).Hit?
  {
    var cap := |g.buckets|;
    var s := Start(hash, cap);
    var w := StepsTo(s, i, cap);
    assert PathOccupied(g.buckets, s, w);
    assert MatchAt(g, Slot(s, w, cap), hash, key);
  }

  /** When every node is reachable, the insert loop for a key the map holds
      replaces a value in place. */
  lemma SetIntoExisting(g: Map, h: Hasher, key: KeyArg, value: ItemArg)
    requires HasRoom(g.buckets) && HeapInBuckets(g) && ReachInv(g) && ByteKind(key.kind) && ArgShape(value)
    requires HasKey(g, h(g.seed, key.bytes), key.bytes)
    ensures SetInto(g, h, key, value).state.order == g.order
    ensures SetInto(g, h, key, value).state.length == g.length
  {
    var cap := |g.buckets|;
    var hash := h(g.seed, key.bytes);
    var s := Start(hash, cap);
    var id :| id in g.heap && IsKeyOf(g.heap[id], hash, key.bytes);
    var i :| 0 <= i < cap && g.buckets[i] == Some(id);
    ScanStops(g, hash, key.bytes, s);
    ScanHits(g, hash, key.bytes, i);
  }

  /** When every node is reachable, setting a key the map holds replaces a
      value in place: no node is added, and the order is unchanged. */
  lemma SetExistingInPlace(m: Map, h: Hasher, key: KeyArg, value: ItemArg)
    requires Valid(m) && ReachInv(m) && ByteKind(key.kind) && ArgShape(value) && !key.adopts
    requires HasKey(m, h(m.seed, key.bytes), key.bytes)
    ensures MapSet(m, h, key, value).state.order == m.order
    ensures MapSet(m, h, key, value).state.length == m.length
  {
    if MapCheckAvailability(m).Some? {
      CheckAvailabilityValid(m);
      SetIntoExisting(MapCheckAvailability(m).value, h, key, value);
    }
  }

  /** The insert loop for a key the map does not hold appends a node. */
  lemma SetIntoNew(g: Map, h: Hasher, key: KeyArg, value: ItemArg)
    requires HasRoom(g.buckets) && ByteKind(key.kind) && ArgShape(value)
    requires !HasKey(g, h(g.seed, key.bytes), key.bytes)
    requires SetInto(g, h, key, value).ok
    ensures SetInto(g, h, key, value).state.order == g.order + [g.nextId]
    ensures SetInto(g, h, key, value).state.length == g.length + 1
  {
    var cap := |g.buckets|;
    var hash := h(g.seed, key.bytes);
    var s := Start(hash, cap);
    ScanStops(g, hash, key.bytes, s);
    assert SetScan(g, hash, key.bytes, s, 0).Vacant?;
  }

  /** Setting a key the map does not hold appends one node with a fresh
      identity at the end of the insertion order. */
  lemma SetNewAppends(m: Map, h: Hasher, key: KeyArg, value: ItemArg)
    requires Valid(m) && ByteKind(key.kind) && ArgShape(value)
    requires !HasKey(m, h(m.seed, key.bytes), key.bytes)
    requires MapSet(m, h, key, value).ok
    ensures MapSet(m, h, key, value).state.order == m.order + [m.nextId]
    ensures MapSet(m, h, key, value).state.length == m.length + 1
  {
    CheckAvailabilityValid(m);
    SetIntoNew(MapCheckAvailability(m).value, h, key, value);
  }

  /** The insert loop keeps every node's key and hash, and any node it
      adds carries the new key. */
  lemma SetIntoHeapShape(g: Map, h: Hasher, key: KeyArg, value: ItemArg)
    requires Insertable(g) && ByteKind(key.kind) && ArgShape(value)
    ensures var n := SetInto(g, h, key, value).state;
      (forall id :: id in g.heap ==> id in n.heap && n.heap[id].key == g.heap[id].key && n.heap[id].hash == g.heap[id].hash)
      && (forall id :: id in n.heap && id !in g.heap ==> n.heap[id].key == KeyItem(key))
  {
    var cap := |g.buckets|;
    var hash := h(g.seed, key.bytes);
    var s := Start(hash, cap);
    ScanStops(g, hash, key.bytes, s);
    var scan := SetScan(g, hash, key.bytes, s, 0);
    var n := SetInto(g, h, key, value).state;
    if Store(value).Some? {
      var v := Store(value).value;
      if scan.Hit? {
        var id := g.buckets[Slot(s, scan.steps, cap)].value;
        assert n.heap == g.heap[id := g.heap[id].(value := v)];
      } else {
        assert n.heap == g.heap[g.nextId := Node(hash, KeyItem(key), v)];
        assert g.nextId !in g.heap;
      }
    }
  }

  /** `map_set` keeps every node's key and hash, and any node it adds
      carries the new key. */
  lemma SetHeapShape(m: Map, h: Hasher, key: KeyArg, value: ItemArg)
    requires Valid(m) && ByteKind(key.kind) && ArgShape(value)
    ensures var n := MapSet(m, h, key, value).state;
      (forall id :: id in m.heap ==> id in n.heap && n.heap[id].key == m.heap[id].key && n.heap[id].hash == m.heap[id].hash)
      && (forall id :: id in n.heap && id !in m.heap ==> n.heap[id].key == KeyItem(key))
  {
    if !key.adopts && MapCheckAvailability(m).Some? {
      CheckAvailabilityValid(m);
      SetIntoHeapShape(MapCheckAvailability(m).value, h, key, value);
    }
  }

  /** Setting one key does not add or drop any other key. */
  lemma SetKeepsOtherKeys(m: Map, h: Hasher, key: KeyArg, value: ItemArg, hash: u32, other: seq<byte>)
    requires Valid(m) && ByteKind(key.kind) && ArgShape(value) && other != key.bytes
    ensures HasKey(MapSet(m, h, key, value).state, hash, other) <==> HasKey(m, hash, other)
  {
    var n := MapSet(m, h, key, value).state;
    SetHeapShape(m, h, key, value);
    if HasKey(m, hash, other) {
      var id :| id in m.heap && IsKeyOf(m.heap[id], hash, other);
      assert IsKeyOf(n.heap[id], hash, other);
    }
    if HasKey(n, hash, other) {
      var id :| id in n.heap && IsKeyOf(n.heap[id], hash, other);
      assert id in m.heap;
      assert IsKeyOf(m.heap[id], hash, other);
    }
  }

  /** With the initial eight buckets, the set that finds seven keys stored
      doubles the table and one that finds six does not. */
  lemma EighthKeyGrows(m: Map, h: Hasher, key: KeyArg, value: ItemArg)
    requires Valid(m) && |m.buckets| == MapMinimumSize && ByteKind(key.kind) && ArgShape(value) && !key.adopts
    ensures |MapSet(m, h, key, value).state.buckets| == if m.length == 7 then 16 else 8
  {
  }

  // ---------------------------------------------------------------------
  // The insertion-order list.

  /** The position of a node in the insertion order. */
  function IndexOf(order: seq<NodeId>, id: NodeId): (k: nat)
    requires id in order
    ensures k < |order| && order[k] == id
    ensures forall j :: 0 <= j < k ==> order[j] != id
  {
    if order[0] == id then 0 else 1 + IndexOf(order[1..], id)
  }

  lemma IndexOfDistinct(order: seq<NodeId>, k: nat)
    requires NoDup(order) && k < |order|
    ensures IndexOf(order, order[k]) == k
  {
  }

  /** `n->next`: the node after `id` in the insertion order. */
  function Succ(order: seq<NodeId>, id: NodeId): Option<NodeId>
    requires id in order
  {
    var k := IndexOf(order, id);
    if k + 1 < |order| then Some(order[k + 1]) else None
  }

  /** `n->prev`: the node before `id` in the insertion order. */
  function Pred(order: seq<NodeId>, id: NodeId): Option<NodeId>
    requires id in order
  {
    var k := IndexOf(order, id);
    if k > 0 then Some(order[k - 1]) else None
  }

  /** The order with `id` unlinked. */
  function Unlink(order: seq<NodeId>, id: NodeId): (r: seq<NodeId>)
    requires id in order
    ensures |r| == |order| - 1
  {
    var k := IndexOf(order, id);
    order[..k] + order[k + 1..]
  }

  lemma UnlinkFacts(order: seq<NodeId>, id: NodeId)
    requires NoDup(order) && id in order
    ensures NoDup(Unlink(order, id))
    ensures forall x :: x in Unlink(order, id) <==> x in order && x != id
  {
    var k := IndexOf(order, id);
    var r := Unlink(order, id);
    assert forall j :: 0 <= j < |r| ==> r[j] == if j < k then order[j] else order[j + 1];
    forall x | x in order && x != id
      ensures x in r
    {
      var j :| 0 <= j < |order| && order[j] == x;
      if j < k {
        assert r[j] == x;
      } else {
        assert r[j - 1] == x;
      }
    }
  }

  // ---------------------------------------------------------------------
  // map_remove (map.c:1135-1185) and map_pop (map.c:1103-1133).

  /** The map with the node `id` of bucket `i` freed: bucket emptied, node
      unlinked, length decremented, and the given anchors. */
  function Detach(m: Map, i: nat, id: NodeId, first: Option<NodeId>, last: Option<NodeId>): (r: Map)
    requires i < |m.buckets| && id in m.order && m.length > 0
  {
    Map(m.seed, m.buckets[i := None], m.heap - {id}, Unlink(m.order, id), m.length - 1, first, last, m.nextId)
  }

  lemma DetachValid(m: Map, i: nat, id: NodeId, first: Option<NodeId>, last: Option<NodeId>)
    requires Valid(m) && i < |m.buckets| && m.buckets[i] == Some(id)
    requires Anchored(Detach(m, i, id, first, last))
    ensures Valid(Detach(m, i, id, first, last))
  {
    DetachTable(m, i, id, first, last);
    DetachHeap(m, i, id, first, last);
  }

  lemma DetachTable(m: Map, i: nat, id: NodeId, first: Option<NodeId>, last: Option<NodeId>)
    requires Valid(m) && i < |m.buckets| && m.buckets[i] == Some(id)
    requires Anchored(Detach(m, i, id, first, last))
    ensures TableValid(Detach(m, i, id, first, last))
  {
    UnlinkFacts(m.order, id);
    CountSomeUpdate(m.buckets, i, None);
  }

  lemma DetachHeap(m: Map, i: nat, id: NodeId, first: Option<NodeId>, last: Option<NodeId>)
    requires HeapValid(m) && BucketsDistinct(m.buckets) && NoDup(m.order)
    requires i < |m.buckets| && m.buckets[i] == Some(id) && m.length > 0
    ensures HeapValid(Detach(m, i, id, first, last))
  {
    UnlinkFacts(m.order, id);
    DetachCovered(m, i, id, first, last);
  }

  /** Every node left after freeing `id` is still in a bucket. */
  lemma DetachCovered(m: Map, i: nat, id: NodeId, first: Option<NodeId>, last: Option<NodeId>)
    requires HeapInBuckets(m) && i < |m.buckets| && m.buckets[i] == Some(id)
    requires id in m.order && m.length > 0
    ensures HeapInBuckets(Detach(m, i, id, first, last))
  {
    var r := Detach(m, i, id, first, last);
    forall x | x in r.heap
      ensures exists j :: 0 <= j < |r.buckets| && r.buckets[j] == Some(x)
    {
      var j :| 0 <= j < |m.buckets| && m.buckets[j] == Some(x);
      assert r.buckets[j] == Some(x);
    }
  }

  /** The anchors after unlinking `id`, for either rule below: `first`
      moves on when it was `id`, and `last` steps back when it was `id` and
      something is left. */
  lemma UnlinkAnchors(m: Map, id: NodeId)
    requires NoDup(m.order) && id in m.order && Anchored(m)
    ensures var o := Unlink(m.order, id);
      (|o| > 0 ==> FirstAfter(m, id) == Some(o[0]))
      && (|o| > 0 && m.last == Some(id) ==> Pred(m.order, id) == Some(o[|o| - 1]))
      && (|o| > 0 && m.last != Some(id) ==> m.last == Some(o[|o| - 1]))
      && (|o| == 0 ==> FirstAfter(m, id).None?)
  {
    var k := IndexOf(m.order, id);
    IndexOfDistinct(m.order, 0);
    IndexOfDistinct(m.order, |m.order| - 1);
  }

  /** `first` after unlinking `id`: its successor when `id` was first. */
  function FirstAfter(m: Map, id: NodeId): Option<NodeId>
    requires id in m.order
  {
    if m.first == Some(id) then Succ(m.order, id) else m.first
  }

  /** `last` after unlinking `id`: its predecessor when `id` was last. */
  function LastAfter(m: Map, id: NodeId): Option<NodeId>
    requires id in m.order
  {
    if m.last == Some(id) then Pred(m.order, id) else m.last
  }

  /** `last` as `map_remove` leaves it: the `else if` only reaches the
      `last` case when `id` was not also first. */
  function LastAsWritten(m: Map, id: NodeId): (r: Option<NodeId>)
    requires id in m.order
    ensures r == LastAfter(m, id) || (m.first == Some(id) && m.last == Some(id) && r == Some(id))
  {
    if m.first == Some(id) then m.last else LastAfter(m, id)
  }

  /** `map_remove` as written: `last` is moved only when the node is not
      also `first`, so removing the only node leaves `last` naming it. */
  function MapRemoveAsWritten(m: Map, h: Hasher, key: Option<seq<byte>>): (r: Map)
    requires Valid(m)
    ensures FindBucket(m, h, key).None? ==> r == m
    ensures FindBucket(m, h, key).Some? ==>
      var id := m.buckets[FindBucket(m, h, key).value].value;
      r.heap == m.heap - {id} && r.order == Unlink(m.order, id) && r.length == m.length - 1
      && r.buckets == m.buckets[FindBucket(m, h, key).value := None]
    ensures FindBucket(m, h, key).Some? && m.first == m.last ==> r.last == m.last
  {
    match FindBucket(m, h, key)
    case None => m
    case Some(i) =>
      var id := m.buckets[i].value;
      Detach(m, i, id, FirstAfter(m, id), LastAsWritten(m, id))
  }

  /** `map_remove` with `last` moved whenever it names the removed node, so
      an emptied map has no `last`. */
  function MapRemove(m: Map, h: Hasher, key: Option<seq<byte>>): (r: Map)
    requires Valid(m)
    ensures FindBucket(m, h, key).None? ==> r == m
    ensures FindBucket(m, h, key).Some? ==>
      var id := m.buckets[FindBucket(m, h, key).value].value;
      r.heap == m.heap - {id} && r.order == Unlink(m.order, id) && r.length == m.length - 1
      && r.buckets == m.buckets[FindBucket(m, h, key).value := None]
  {
    match FindBucket(m, h, key)
    case None => m
    case Some(i) =>
      var id := m.buckets[i].value;
      Detach(m, i, id, FirstAfter(m, id), LastAfter(m, id))
  }

  /** The corrected removal keeps the map valid. */
  lemma RemoveValid(m: Map, h: Hasher, key: Option<seq<byte>>)
    requires Valid(m)
    ensures Valid(MapRemove(m, h, key))
  {
    if FindBucket(m, h, key).Some? {
      var i := FindBucket(m, h, key).value;
      var id := m.buckets[i].value;
      UnlinkAnchors(m, id);
      DetachValid(m, i, id, FirstAfter(m, id), LastAfter(m, id));
    }
  }

  /** So does the removal as written. */
  lemma RemoveAsWrittenValid(m: Map, h: Hasher, key: Option<seq<byte>>)
    requires Valid(m)
    ensures Valid(MapRemoveAsWritten(m, h, key))
  {
    if FindBucket(m, h, key).Some? {
      var i := FindBucket(m, h, key).value;
      var id := m.buckets[i].value;
      UnlinkAnchors(m, id);
      DetachValid(m, i, id, FirstAfter(m, id), LastAsWritten(m, id));
    }
  }

  /** `map_pop` (map.c:1103-1133): hand out the value stored under the key,
      then remove the node with `map_remove` as written. A miss returns
      nothing and leaves the map alone. */
  function MapPop(m: Map, h: Hasher, key: Option<seq<byte>>): (r: (Option<Item>, Map))
    requires Valid(m)
    ensures r.0.Some? <==> MapContains(m, h, key)
    ensures r.0.None? ==> r.1 == m
    ensures r.0.Some? ==>
      var id := m.buckets[FindBucket(m, h, key).value].value;
      id in m.heap && r.0.value == m.heap[id].value
      && r.1 == MapRemoveAsWritten(m, h, key)
  {
    (MapGet(m, h, key, ReservedEmpty), MapRemoveAsWritten(m, h, key))
  }

  /** Popping the only key of a map hands out its value and, through the
      removal as written, leaves `last` on the freed node. */
  lemma PopLeavesLast(m: Map, h: Hasher, key: seq<byte>)
    requires Valid(m) && |m.order| == 1 && MapContains(m, h, Some(key))
    ensures var r := MapPop(m, h, Some(key));
      r.0.Some? && |r.1.order| == 0 && r.1.last.Some? && r.1.last.value !in r.1.heap
  {
    DanglingLast(m, h, key);
  }

  /** At most one node carries the key. */
  ghost predicate UniqueKey(m: Map, hash: u32, key: seq<byte>) {
    forall a, b :: a in m.heap && b in m.heap && IsKeyOf(m.heap[a], hash, key) && IsKeyOf(m.heap[b], hash, key) ==> a == b
  }

  /** Removing a key held by one node makes it absent. */
  lemma RemoveThenMiss(m: Map, h: Hasher, key: seq<byte>)
    requires Valid(m) && UniqueKey(m, h(m.seed, key), key)
    ensures var r := MapRemove(m, h, Some(key));
      Valid(r) && !MapContains(r, h, Some(key))
  {
    RemoveValid(m, h, Some(key));
    var r := MapRemove(m, h, Some(key));
    ContainsIffHasKey(r, h, key);
    forall x | x in r.heap
      ensures !IsKeyOf(r.heap[x], h(m.seed, key), key)
    {
      if FindBucket(m, h, Some(key)).Some? {
        var i := FindBucket(m, h, Some(key)).value;
        assert x != m.buckets[i].value && r.heap[x] == m.heap[x];
      } else {
        ContainsIffHasKey(m, h, key);
      }
    }
  }

  /** No two nodes carry the same hash and key bytes. */
  ghost predicate KeysUnique(m: Map) {
    UniqueIn(m.heap)
  }

  ghost predicate UniqueIn(heap: map<NodeId, Node>) {
    forall a, b :: a in heap && b in heap && a != b ==>
      heap[a].hash != heap[b].hash || KeyView(heap[a].key).None? || KeyView(heap[a].key) != KeyView(heap[b].key)
  }

  lemma KeysUniqueHasUniqueKey(m: Map, hash: u32, key: seq<byte>)
    requires KeysUnique(m)
    ensures UniqueKey(m, hash, key)
  {
  }

  /** A new map has every node reachable and no key twice. */
  lemma MapInitUnique(seed: u32)
    ensures ReachInv(MapInit(seed)) && KeysUnique(MapInit(seed))
  {
    assert Pow2(3) == 8;
  }

  lemma UniqueAfterValue(heap: map<NodeId, Node>, id: NodeId, v: Item)
    requires UniqueIn(heap) && id in heap
    ensures UniqueIn(heap[id := heap[id].(value := v)])
  {
  }

  lemma UniqueAfterAdd(heap: map<NodeId, Node>, id: NodeId, n: Node)
    requires UniqueIn(heap) && id !in heap
    requires KeyView(n.key).Some? ==>
      forall x :: x in heap ==> heap[x].hash != n.hash || KeyView(heap[x].key) != KeyView(n.key)
    ensures UniqueIn(heap[id := n])
  {
  }

  /** With every node reachable, an insert loop that stops at an empty
      bucket has passed every node carrying the key: there is none. */
  lemma VacantMeansAbsent(g: Map, hash: u32, key: seq<byte>)
    requires HeapInBuckets(g) && ReachInv(g) && |g.buckets| > 0
    requires SetScan(g, hash, key, Start(hash, |g.buckets|), 0).Vacant?
    ensures forall x :: x in g.heap ==> !IsKeyOf(g.heap[x], hash, key)
  {
    forall x | x in g.heap
      ensures !IsKeyOf(g.heap[x], hash, key)
    {
      if IsKeyOf(g.heap[x], hash, key) {
        var i :| 0 <= i < |g.buckets| && g.buckets[i] == Some(x);
        ScanHits(g, hash, key, i);
      }
    }
  }

  /** With every node reachable, the insert loop adds a node only for a key
      no node carries, so it keeps keys unique. */
  lemma SetIntoKeepsUnique(g: Map, h: Hasher, key: KeyArg, value: ItemArg)
    requires Insertable(g) && HeapInBuckets(g) && ReachInv(g) && KeysUnique(g)
    requires ExactKey(key) && ArgShape(value)
    ensures KeysUnique(SetInto(g, h, key, value).state)
  {
    var cap := |g.buckets|;
    var hash := h(g.seed, key.bytes);
    var s := Start(hash, cap);
    ScanStops(g, hash, key.bytes, s);
    var scan := SetScan(g, hash, key.bytes, s, 0);
    if Store(value).Some? {
      var v := Store(value).value;
      if scan.Hit? {
        var id := g.buckets[Slot(s, scan.steps, cap)].value;
        UniqueAfterValue(g.heap, id, v);
      } else {
        VacantMeansAbsent(g, hash, key.bytes);
        UniqueAfterAdd(g.heap, g.nextId, Node(hash, KeyItem(key), v));
      }
    }
  }

  /** `map_set` of a key its copy reproduces keeps every node reachable and
      no key twice; so does growing the table. Every map built from
      `map_init` by such sets is therefore one `RemoveThenMiss` covers. */
  lemma SetKeepsUnique(m: Map, h: Hasher, key: KeyArg, value: ItemArg)
    requires Valid(m) && ReachInv(m) && KeysUnique(m) && ExactKey(key) && ArgShape(value)
    ensures var r := MapSet(m, h, key, value).state;
      Valid(r) && ReachInv(r) && KeysUnique(r)
  {
    MapSetValid(m, h, key, value);
    if !key.adopts && MapCheckAvailability(m).Some? {
      CheckAvailabilityValid(m);
      SetIntoKeepsUnique(MapCheckAvailability(m).value, h, key, value);
    }
  }

  lemma ResizeKeepsUnique(m: Map, size: nat)
    requires Valid(m) && KeysUnique(m) && size < WordModulus && ResizeGrows(m, size)
    ensures KeysUnique(MapResize(m, size).state)
  {
  }

  /** Setting a key and then removing it leaves the key absent, for every
      map with unique, reachable keys. */
  lemma SetThenRemoveMisses(m: Map, h: Hasher, key: KeyArg, value: ItemArg)
    requires Valid(m) && ReachInv(m) && KeysUnique(m) && ExactKey(key) && ArgShape(value)
    ensures Valid(MapSet(m, h, key, value).state)
    ensures !MapContains(MapRemove(MapSet(m, h, key, value).state, h, Some(key.bytes)), h, Some(key.bytes))
  {
    SetKeepsUnique(m, h, key, value);
    RemoveOnUnique(MapSet(m, h, key, value).state, h, key.bytes);
  }

  lemma RemoveOnUnique(r: Map, h: Hasher, key: seq<byte>)
    requires Valid(r) && KeysUnique(r)
    ensures !MapContains(MapRemove(r, h, Some(key)), h, Some(key))
  {
    KeysUniqueHasUniqueKey(r, h(r.seed, key), key);
    RemoveThenMiss(r, h, key);
  }

  /** Removing one key leaves every other key where it was. */
  lemma RemoveKeepsOtherKeys(m: Map, h: Hasher, key: seq<byte>, hash: u32, other: seq<byte>)
    requires Valid(m) && other != key
    ensures HasKey(MapRemove(m, h, Some(key)), hash, other) <==> HasKey(m, hash, other)
  {
    var r := MapRemove(m, h, Some(key));
    if HasKey(m, hash, other) {
      var id :| id in m.heap && IsKeyOf(m.heap[id], hash, other);
      if FindBucket(m, h, Some(key)).Some? {
        var i := FindBucket(m, h, Some(key)).value;
        assert IsKeyOf(m.heap[m.buckets[i].value], h(m.seed, key), key);
        assert id in r.heap;
      }
      assert IsKeyOf(r.heap[id], hash, other);
    }
    if HasKey(r, hash, other) {
      var id :| id in r.heap && IsKeyOf(r.heap[id], hash, other);
      assert IsKeyOf(m.heap[id], hash, other);
    }
  }

  /** Setting a key whose first bucket is empty adds a node there, whatever
      else the map holds. */
  lemma SetIntoEmptyStart(m: Map, h: Hasher, key: KeyArg, value: ItemArg)
    requires Valid(m) && ByteKind(key.kind) && !key.adopts && ArgShape(value)
    requires 5 * m.length < 4 * |m.buckets|
    requires m.buckets[Start(h(m.seed, key.bytes), |m.buckets|)].None?
    ensures var r := MapSet(m, h, key, value);
      r.ok ==> r.state.order == m.order + [m.nextId] && m.nextId in r.state.heap
               && r.state.heap[m.nextId] == Node(h(m.seed, key.bytes), KeyItem(key), Store(value).value)
  {
    var hash := h(m.seed, key.bytes);
    var s := Start(hash, |m.buckets|);
    assert Slot(s, 0, |m.buckets|) == s;
    assert SetScan(m, hash, key.bytes, s, 0) == Vacant(0);
  }

  /** A hole left by a removal ends the insert loop early: when the node in
      the first bucket of a stored key's path is removed, setting that key
      again adds a second node for it instead of updating the first. */
  lemma DuplicateAfterHole(m: Map, h: Hasher, key: KeyArg, other: seq<byte>, value: ItemArg)
    requires Valid(m) && ExactKey(key) && !key.adopts && ArgShape(value) && other != key.bytes
    requires HasKey(m, h(m.seed, key.bytes), key.bytes)
    requires FindBucket(m, h, Some(other)) == Some(Start(h(m.seed, key.bytes), |m.buckets|))
    requires 5 * (m.length - 1) < 4 * |m.buckets|
    ensures Valid(MapRemove(m, h, Some(other)))
    ensures var m2 := MapRemove(m, h, Some(other));
      var r := MapSet(m2, h, key, value);
      HasKey(m2, h(m.seed, key.bytes), key.bytes) && m2.nextId !in m2.heap
      && (r.ok ==> r.state.order == m2.order + [m2.nextId] && m2.nextId in r.state.heap
                   && IsKeyOf(r.state.heap[m2.nextId], h(m.seed, key.bytes), key.bytes))
  {
    var hash := h(m.seed, key.bytes);
    var m2 := MapRemove(m, h, Some(other));
    RemoveValid(m, h, Some(other));
    RemoveKeepsOtherKeys(m, h, other, hash, key.bytes);
    SetIntoEmptyStart(m2, h, key, value);
  }

  // ---------------------------------------------------------------------
  // Iterators (map.c:632-844).

  /** A `mapiter`: the node it stands on, or none before the first step. */
  datatype MapIter = MapIter(node: Option<NodeId>)

  /** `map_iter_init`: an iterator standing before the first node. */
  function IterInit(): (it: MapIter)
    ensures it.node.None?
  {
    MapIter(None)
  }

  /** `map_iter_next`: from no node to `first`, otherwise to the next node;
      true when it stands on a node. */
  function IterNext(m: Map, it: MapIter): (r: (bool, MapIter))
    requires it.node.Some? ==> it.node.value in m.order
    ensures r.0 <==> r.1.node.Some?
  {
    var n := if it.node.Some? then Succ(m.order, it.node.value) else m.first;
    (n.Some?, MapIter(n))
  }

  /** `map_iter_prev`: from no node to `last`, otherwise to the previous node. */
  function IterPrev(m: Map, it: MapIter): (r: (bool, MapIter))
    requires it.node.Some? ==> it.node.value in m.order
    ensures r.0 <==> r.1.node.Some?
  {
    var n := if it.node.Some? then Pred(m.order, it.node.value) else m.last;
    (n.Some?, MapIter(n))
  }

  /** `map_iter_is_last`: false before the first step. */
  function IterIsLast(m: Map, it: MapIter): (r: bool)
    ensures r <==> it.node.Some? && it.node == m.last
  {
    it.node.Some? && it.node == m.last
  }

  /** `map_iter_get_key` / `map_iter_get_value`: the current node's items. */
  function IterGet(m: Map, it: MapIter): (r: Option<(Item, Item)>)
    requires it.node.Some? ==> it.node.value in m.heap
    ensures r.None? <==> it.node.None?
    ensures r.Some? ==> r.value == (m.heap[it.node.value].key, m.heap[it.node.value].value)
  {
    if it.node.None? then None else Some((m.heap[it.node.value].key, m.heap[it.node.value].value))
  }

  /** The entries of a map in insertion order. */
  function Entries(m: Map): (r: seq<(Item, Item)>)
    requires forall x :: x in m.order ==> x in m.heap
    ensures |r| == |m.order|
  {
    seq(|m.order|, i requires 0 <= i < |m.order| => (m.heap[m.order[i]].key, m.heap[m.order[i]].value))
  }

  /** What the iterators rely on, and every valid map has: a duplicate-free
      insertion order of stored nodes, anchored at both ends. */
  predicate Walkable(m: Map) {
    NoDup(m.order) && Anchored(m) && forall x :: x in m.order ==> x in m.heap
  }

  lemma ValidWalkable(m: Map)
    requires Valid(m)
    ensures Walkable(m)
  {
  }

  /** A forward walk visits the nodes in insertion order. */
  lemma NextStep(m: Map, k: nat)
    requires NoDup(m.order) && Anchored(m) && k < |m.order|
    ensures IterNext(m, MapIter(Some(m.order[k]))).1.node == if k + 1 < |m.order| then Some(m.order[k + 1]) else None
  {
    IndexOfDistinct(m.order, k);
  }

  lemma PrevStep(m: Map, k: nat)
    requires NoDup(m.order) && Anchored(m) && k < |m.order|
    ensures IterPrev(m, MapIter(Some(m.order[k]))).1.node == if k > 0 then Some(m.order[k - 1]) else None
  {
    IndexOfDistinct(m.order, k);
  }

  /** The loop `while (map_iter_next(it)) { get key and value }` collects the
      entries in insertion order. */
  method EntriesForward(m: Map) returns (entries: seq<(Item, Item)>)
    requires Walkable(m)
    ensures entries == Entries(m)
  {
    var it := IterInit();
    var step := IterNext(m, it);
    it := step.1;
    entries := [];
    while step.0
      invariant |entries| <= |m.order|
      invariant step.0 <==> |entries| < |m.order|
      invariant step.0 ==> it.node == Some(m.order[|entries|])
      invariant forall i :: 0 <= i < |entries| ==> entries[i] == Entries(m)[i]
      decreases |m.order| - |entries|
    {
      entries := entries + [IterGet(m, it).value];
      NextStep(m, |entries| - 1);
      step := IterNext(m, it);
      it := step.1;
    }
  }

  /** The anchor rule the corrected removal keeps: an empty map has no
      `last` either. */
  predicate LastCleared(m: Map) {
    |m.order| == 0 ==> m.last.None?
  }

  /** The loop `while (map_iter_prev(it)) { ... }` collects the entries in
      reverse insertion order, provided an empty map has no `last`. */
  method EntriesBackward(m: Map) returns (entries: seq<(Item, Item)>)
    requires Walkable(m) && LastCleared(m)
    ensures |entries| == |m.order|
    ensures forall i :: 0 <= i < |entries| ==> entries[i] == Entries(m)[|m.order| - 1 - i]
  {
    var it := IterInit();
    var step := IterPrev(m, it);
    it := step.1;
    entries := [];
    while step.0
      invariant |entries| <= |m.order|
      invariant step.0 <==> |entries| < |m.order|
      invariant step.0 ==> it.node == Some(m.order[|m.order| - 1 - |entries|])
      invariant forall i :: 0 <= i < |entries| ==> entries[i] == Entries(m)[|m.order| - 1 - i]
      decreases |m.order| - |entries|
    {
      entries := entries + [IterGet(m, it).value];
      PrevStep(m, |m.order| - |entries|);
      step := IterPrev(m, it);
      it := step.1;
    }
  }

  lemma MapInitLastCleared(seed: u32)
    ensures LastCleared(MapInit(seed))
  {
  }

  /** Every operation keeps `LastCleared` once removal clears `last`. */
  lemma LastClearedKept(m: Map, h: Hasher, key: KeyArg, value: ItemArg, k: Option<seq<byte>>, size: nat)
    requires Valid(m) && LastCleared(m) && ByteKind(key.kind) && ArgShape(value)
    ensures LastCleared(MapSet(m, h, key, value).state)
    ensures LastCleared(MapRemove(m, h, k))
    ensures size < WordModulus && ResizeGrows(m, size) ==> LastCleared(MapResize(m, size).state)
  {
    if FindBucket(m, h, k).Some? {
      var id := m.buckets[FindBucket(m, h, k).value].value;
      if |m.order| == 1 {
        assert m.order == [id];
        IndexOfDistinct(m.order, 0);
      }
    }
  }

  /** With the removal as written, removing the only key of a map leaves
      `last` on the freed node: `map_iter_prev` from a fresh iterator then
      reports a node although the map is empty. */
  lemma DanglingLast(m: Map, h: Hasher, key: seq<byte>)
    requires Valid(m) && |m.order| == 1 && MapContains(m, h, Some(key))
    ensures var r := MapRemoveAsWritten(m, h, Some(key));
      var step := IterPrev(r, IterInit());
      |r.order| == 0 && step.0 && step.1.node.value !in r.heap
  {
    var i := FindBucket(m, h, Some(key)).value;
    var id := m.buckets[i].value;
    assert m.order == [id];
  }

  /** With the corrected removal the same walk reports no node. */
  lemma NoDanglingLast(m: Map, h: Hasher, key: seq<byte>)
    requires Valid(m) && |m.order| == 1 && MapContains(m, h, Some(key))
    ensures var r := MapRemove(m, h, Some(key));
      |r.order| == 0 && !IterPrev(r, IterInit()).0
  {
    var i := FindBucket(m, h, Some(key)).value;
    var id := m.buckets[i].value;
    assert m.order == [id];
    IndexOfDistinct(m.order, 0);
  }
}
