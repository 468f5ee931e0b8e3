/** The media cache on the heap: a map of entries and a doubly linked list of nodes. */
module MediaCaching {
  import opened LruHistory
  import opened LruSpec
  import opened Types
  import opened Wrappers

  class CacheEntry {
    const chunkID: string
    var data: Bytes
    var size: int
    var accessCount: int
    var priority: Priority
    var node: LRUNode?

    constructor (chunkID: string, data: Bytes, priority: Priority)
      ensures AsSlot() == Slot(chunkID, data, |data|, 1, priority) && node == null
    {
      this.chunkID := chunkID;
      this.data, size := data, |data|;
      accessCount, this.priority, node := 1, priority, null;
    }

    ghost function AsSlot(): Slot
      reads this
    {
      Slot(chunkID, data, size, accessCount, priority)
    }
  }

  class LRUNode {
    const entry: CacheEntry
    var prev: LRUNode?
    var next: LRUNode?

    constructor (entry: CacheEntry)
      ensures this.entry == entry && prev == null && next == null
    {
      this.entry := entry;
      prev, next := null, null;
    }
  }

  // ---------------------------------------------------------------- the order of nodes

  function Without(nodes: seq<LRUNode>, k: nat): (r: seq<LRUNode>)
    requires k < |nodes|
    ensures |r| == |nodes| - 1 && forall i | 0 <= i < |r| :: r[i] == nodes[if i < k then i else i + 1]
  {
    nodes[..k] + nodes[k + 1..]
  }

  function Front(nodes: seq<LRUNode>, k: nat): (r: seq<LRUNode>)
    requires k < |nodes|
    ensures |r| == |nodes| && r[0] == nodes[k]
    ensures forall i | 0 < i < |r| :: r[i] == if i <= k then nodes[i - 1] else nodes[i]
  {
    [nodes[k]] + Without(nodes, k)
  }

  lemma FrontElements(nodes: seq<LRUNode>, k: nat)
    requires k < |nodes|
    ensures (set n | n in Front(nodes, k)) == (set n | n in nodes)
  {
    assert nodes == nodes[..k] + [nodes[k]] + nodes[k + 1..];
  }

  predicate Differ(nodes: seq<LRUNode>, i: nat, j: nat)
    requires i < j < |nodes|
  {
    nodes[i] != nodes[j]
  }

  ghost predicate DistinctNodes(nodes: seq<LRUNode>) {
    forall i, j {:trigger Differ(nodes, i, j)} | 0 <= i < j < |nodes| :: Differ(nodes, i, j)
  }

  lemma OnlyAt(nodes: seq<LRUNode>, k: nat)
    requires DistinctNodes(nodes) && k < |nodes|
    ensures forall i | 0 <= i < |nodes| && i != k :: nodes[i] != nodes[k]
  {
    forall i | 0 <= i < |nodes| && i != k ensures nodes[i] != nodes[k] {
      assert if i < k then Differ(nodes, i, k) else Differ(nodes, k, i);
    }
  }

  lemma DistinctWithout(nodes: seq<LRUNode>, k: nat)
    requires DistinctNodes(nodes) && k < |nodes|
    ensures DistinctNodes(Without(nodes, k)) && nodes[k] !in Without(nodes, k)
  {
    OnlyAt(nodes, k);
    forall i, j | 0 <= i < j < |nodes| - 1 ensures Differ(Without(nodes, k), i, j) {
      assert Differ(nodes, if i < k then i else i + 1, if j < k then j else j + 1);
    }
  }

  lemma DistinctPush(nodes: seq<LRUNode>, n: LRUNode)
    requires DistinctNodes(nodes) && n !in nodes
    ensures DistinctNodes([n] + nodes)
  {
    forall i, j | 0 <= i < j < |[n] + nodes| ensures Differ([n] + nodes, i, j) {
      if i > 0 { assert Differ(nodes, i - 1, j - 1); }
    }
  }

  class LRUList {
    var head: LRUNode?
    var tail: LRUNode?
    ghost var nodes: seq<LRUNode>

    /** The links of the node at position `i` are its neighbours. */
    ghost predicate LinkedAt(i: nat)
      requires i < |nodes|
      reads this, nodes
    {
      && nodes[i].next == (if i == |nodes| - 1 then null else nodes[i + 1])
      && nodes[i].prev == (if i == 0 then null else nodes[i - 1])
    }

    /** `nodes` is the chain from `head` to `tail`, and `prev` and `next` are each other's inverses. */
    ghost predicate Valid()
      reads this, nodes
    {
      && DistinctNodes(nodes)
      && head == (if nodes == [] then null else nodes[0])
      && tail == (if nodes == [] then null else nodes[|nodes| - 1])
      && forall i {:trigger LinkedAt(i)} | 0 <= i < |nodes| :: LinkedAt(i)
    }

    ghost function Elements(): set<LRUNode>
      reads this
    {
      set n | n in nodes
    }

    constructor ()
      ensures Valid() && nodes == []
    {
      head, tail := null, null;
      nodes := [];
    }

    method PushFront(entry: CacheEntry) returns (node: LRUNode)
      requires Valid()
      modifies this, nodes
      ensures Valid() && fresh(node) && node.entry == entry && nodes == [node] + old(nodes)
      ensures Elements() == old(Elements()) + {node}
    {
      node := new LRUNode(entry);
      DistinctPush(nodes, node);
      if head == null {
        head := node;
        tail := node;
      } else {
        OnlyAt(nodes, 0);
        node.next := head;
        head.prev := node;
        head := node;
      }
      nodes := [node] + nodes;
      forall i | 0 <= i < |nodes| ensures LinkedAt(i) {
        if i > 0 { assert old(LinkedAt(i - 1)); }
      }
    }

    /** Unlinks `node`, which sits at position `k`; its own links are left as they were. */
    method Remove(node: LRUNode, ghost k: nat)
      requires Valid() && k < |nodes| && nodes[k] == node
      modifies this, nodes
      ensures Valid() && nodes == Without(old(nodes), k)
    {
      DistinctWithout(nodes, k);
      OnlyAt(nodes, k);
      assert LinkedAt(k);
      if node.prev != null {
        OnlyAt(nodes, k - 1);
        node.prev.next := node.next;
      } else {
        head := node.next;
      }
      if node.next != null {
        OnlyAt(nodes, k + 1);
        node.next.prev := node.prev;
      } else {
        tail := node.prev;
      }
      nodes := Without(nodes, k);
      forall i | 0 <= i < |nodes| ensures LinkedAt(i) {
        assert old(LinkedAt(if i < k then i else i + 1));
      }
    }

    method MoveToFront(node: LRUNode, ghost k: nat)
      requires Valid() && k < |nodes| && nodes[k] == node
      modifies this, nodes
      ensures Valid() && nodes == Front(old(nodes), k)
    {
      OnlyAt(nodes, k);
      if node == head {
        assert Front(nodes, 0) == nodes;
        return;
      }
      DistinctWithout(nodes, k);
      Remove(node, k);
      label Removed:
      DistinctPush(nodes, node);
      OnlyAt(nodes, 0);
      node.prev := null;
      node.next := head;
      head.prev := node;
      head := node;
      nodes := [node] + nodes;
      forall i | 0 <= i < |nodes| ensures LinkedAt(i) {
        if i > 0 { assert old@Removed(LinkedAt(i - 1)); }
      }
    }
  }

  // ---------------------------------------------------------------- the cache

  /** The slot at position `i`, the node there and the map's entry for its chunk belong together. */
  ghost predicate At(entries: map<string, CacheEntry>, nodes: seq<LRUNode>, slots: seq<Slot>, i: nat)
    requires i < |nodes| == |slots|
    reads entries.Values
  {
    var id := slots[i].id;
    id in entries && entries[id] == nodes[i].entry && entries[id].node == nodes[i] && entries[id].AsSlot() == slots[i]
  }

  ghost predicate AllAt(entries: map<string, CacheEntry>, nodes: seq<LRUNode>, slots: seq<Slot>)
    reads entries.Values
  {
    && |nodes| == |slots|
    && forall i {:trigger At(entries, nodes, slots, i)} | 0 <= i < |slots| :: At(entries, nodes, slots, i)
  }

  lemma FindAt(slots: seq<Slot>, i: nat)
    requires i < |slots|
    ensures Find(slots, slots[i].id) <= i
  {
  }

  lemma FoundInFront(slots: seq<Slot>, k: nat, slot: Slot, ids: set<string>)
    requires k < |slots| && slot.id == slots[k].id
    requires forall id {:trigger Find(slots, id)} | id in ids :: Find(slots, id) < |slots|
    ensures var f := ToFront(slots, k, slot);
            && |f| == |slots| && f[0] == slot
            && (forall i | 0 < i < |f| :: f[i] == if i <= k then slots[i - 1] else slots[i])
            && (forall id {:trigger Find(f, id)} | id in ids :: Find(f, id) < |f|)
  {
    var f := ToFront(slots, k, slot);
    forall id | id in ids ensures Find(f, id) < |f| {
      var j := Find(slots, id);
      FindAt(f, if j == k then 0 else if j < k then j + 1 else j);
    }
  }

  lemma AtInFront(entries: map<string, CacheEntry>, nodes: seq<LRUNode>, slots: seq<Slot>, k: nat, slot: Slot)
    requires k < |slots| == |nodes|
    requires slot.id in entries && entries[slot.id] == nodes[k].entry && entries[slot.id].node == nodes[k]
    requires entries[slot.id].AsSlot() == slot
    requires forall i {:trigger At(entries, nodes, slots, i)} | 0 <= i < |slots| && i != k :: At(entries, nodes, slots, i)
    ensures |ToFront(slots, k, slot)| == |slots|
    ensures forall i {:trigger At(entries, Front(nodes, k), ToFront(slots, k, slot), i)} | 0 <= i < |slots| ::
              At(entries, Front(nodes, k), ToFront(slots, k, slot), i)
  {
    forall i | 0 <= i < |slots| ensures At(entries, Front(nodes, k), ToFront(slots, k, slot), i) {
      if i > 0 { assert At(entries, nodes, slots, if i <= k then i - 1 else i); }
    }
  }

  lemma FoundInNew(slots: seq<Slot>, slot: Slot, ids: set<string>)
    requires forall id {:trigger Find(slots, id)} | id in ids :: Find(slots, id) < |slots|
    ensures forall id {:trigger Find([slot] + slots, id)} | id == slot.id || id in ids ::
              Find([slot] + slots, id) < |[slot] + slots|
  {
    var f := [slot] + slots;
    FindAt(f, 0);
    forall id | id in ids && id != slot.id ensures Find(f, id) < |f| { FindAt(f, Find(slots, id) + 1); }
  }

  lemma AtInNew(entries: map<string, CacheEntry>, nodes: seq<LRUNode>, slots: seq<Slot>, entry: CacheEntry, slot: Slot)
    requires slot.id !in entries && entry.AsSlot() == slot
    requires entry.node != null && entry.node.entry == entry && AllAt(entries, nodes, slots)
    ensures AllAt(entries[slot.id := entry], [entry.node] + nodes, [slot] + slots)
  {
    var (e, n, s) := (entries[slot.id := entry], [entry.node] + nodes, [slot] + slots);
    forall i | 0 <= i < |s| ensures At(e, n, s, i) {
      if i > 0 { assert At(entries, nodes, slots, i - 1); }
    }
  }

  lemma FindInDrop(slots: seq<Slot>, k: nat, id: string)
    requires k < |slots| && id != slots[k].id && Find(slots, id) < |slots|
    ensures Find(DropAt(slots, k), id) < |slots| - 1
  {
    var d, j := DropAt(slots, k), Find(slots, id);
    FindAt(d, if j < k then j else j - 1);
  }

  class MediaCache {
    var entries: map<string, CacheEntry>
    const lru: LRUList
    const maxSize: int
    var currentSize: int
    var hits: int
    var misses: int

    /** The cache as a value, kept up to date by every method. */
    ghost var slots: seq<Slot>

    /** Slots, nodes and map entries are in bijection. */
    ghost predicate Valid()
      reads this, lru, lru.nodes, entries.Values
    {
      && lru.Valid() && AllAt(entries, lru.nodes, slots)
      && (forall id {:trigger Find(slots, id)} | id in entries :: Find(slots, id) < |slots|)
    }

    ghost function Abs(): Cache
      reads this
    {
      Cache(slots, currentSize, maxSize)
    }

    /** The list, its nodes and the entries: what belongs to this cache besides itself. */
    ghost function Parts(): set<object>
      reads this, lru
    {
      var list: set<object> := {lru};
      list + lru.Elements() + entries.Values
    }

    constructor (maxSize: int)
      ensures Valid() && Abs() == EmptyCache(maxSize) && entries == map[] && fresh(Parts())
    {
      entries := map[];
      lru := new LRUList();
      this.maxSize := maxSize;
      currentSize, hits, misses := 0, 0, 0;
      slots := [];
    }

    lemma Missing(id: string)
      requires Valid() && id !in entries
      ensures Find(slots, id) == |slots|
    {
      var k := Find(slots, id);
      assert k < |slots| ==> At(entries, lru.nodes, slots, k);
    }

    lemma NonEmpty()
      requires Valid()
      ensures |entries| > 0 <==> slots != []
    {
      if slots != [] {
        assert At(entries, lru.nodes, slots, 0);
        assert entries != map[];
      }
      if |entries| > 0 {
        var id :| id in entries;
        assert Find(slots, id) < |slots|;
      }
    }

    /** Chunks at different positions are different, and so are their entries. */
    lemma OthersDiffer(k: nat)
      requires Valid() && k < |slots|
      ensures At(entries, lru.nodes, slots, k)
      ensures forall i | 0 <= i < |slots| && i != k ::
                && At(entries, lru.nodes, slots, i) && slots[i].id != slots[k].id
                && entries[slots[i].id] != entries[slots[k].id]
    {
      OnlyAt(lru.nodes, k);
      assert At(entries, lru.nodes, slots, k);
      forall i | 0 <= i < |slots| && i != k
        ensures At(entries, lru.nodes, slots, i) && slots[i].id != slots[k].id
        ensures entries[slots[i].id] != entries[slots[k].id]
      {
        assert At(entries, lru.nodes, slots, i);
      }
    }

    method Get(chunkID: string) returns (r: Option<Bytes>)
      requires Valid()
      modifies this`hits, this`misses, this`slots, lru, lru.nodes, entries.Values
      ensures Valid() && Abs() == LruSpec.Get(old(Abs()), chunkID)
      ensures var k := Find(old(slots), chunkID);
              r == if k < |old(slots)| then Some(old(slots)[k].data) else None
      ensures hits == old(hits) + (if r.Some? then 1 else 0) && misses == old(misses) + (if r.None? then 1 else 0)
      ensures Parts() == old(Parts())
    {
      if chunkID !in entries {
        Missing(chunkID);
        misses := misses + 1;
        r := None;
      } else {
        var data := Hit(chunkID);
        hits := hits + 1;
        r := Some(data);
      }
    }

    /** Counts the access and makes the entry the most recent. */
    method Hit(chunkID: string) returns (data: Bytes)
      requires Valid() && chunkID in entries
      modifies this`slots, lru, lru.nodes, entries[chunkID]
      ensures Valid() && Abs() == LruSpec.Get(old(Abs()), chunkID)
      ensures var k := Find(old(slots), chunkID); k < |old(slots)| && data == old(slots)[k].data
      ensures Parts() == old(Parts())
    {
      ghost var k := Find(slots, chunkID);
      OthersDiffer(k);
      var entry := entries[chunkID];
      entry.accessCount := entry.accessCount + 1;
      BringToFront(entry, k, slots[k].(accessCount := entry.accessCount));
      data := entry.data;
    }

    /** Makes the entry, changed to `slot` since `Valid` last held, the most recent. */
    method BringToFront(entry: CacheEntry, ghost k: nat, ghost slot: Slot)
      requires lru.Valid() && k < |slots| == |lru.nodes| && slot.id == slots[k].id
      requires slot.id in entries && entries[slot.id] == entry == lru.nodes[k].entry && entry.node == lru.nodes[k]
      requires entry.AsSlot() == slot
      requires forall i {:trigger At(entries, lru.nodes, slots, i)} | 0 <= i < |slots| && i != k ::
                 At(entries, lru.nodes, slots, i)
      requires forall id {:trigger Find(slots, id)} | id in entries :: Find(slots, id) < |slots|
      modifies this`slots, lru, lru.nodes
      ensures Valid() && slots == ToFront(old(slots), k, slot)
      ensures lru.Elements() == old(lru.Elements())
    {
      FoundInFront(slots, k, slot, entries.Keys);
      AtInFront(entries, lru.nodes, slots, k, slot);
      slots := ToFront(slots, k, slot);
      lru.MoveToFront(entry.node, k);
      assert lru.Elements() == old(lru.Elements()) by { FrontElements(old(lru.nodes), k); }
    }

    /** Evicts the least recent unpinned entry, or the tail when all are pinned. */
    method EvictLRU()
      requires Valid()
      modifies this`entries, this`currentSize, this`slots, lru, lru.nodes
      ensures Valid() && entries.Keys <= old(entries.Keys) && entries.Values <= old(entries.Values)
      ensures forall i | 0 <= i < |lru.nodes| :: lru.nodes[i] in old(lru.nodes)
      ensures Abs() == Evicted(old(Abs()))
    {
      if lru.tail != null {
        var node := lru.tail;
        ghost var i: int := |lru.nodes| - 1;
        while node != null && node.entry.priority == Pinned
          invariant -1 <= i < |lru.nodes|
          invariant node == if i < 0 then null else lru.nodes[i]
          invariant forall j | i < j < |lru.nodes| :: slots[j].priority == Pinned
          decreases i
        {
          assert lru.LinkedAt(i) && At(entries, lru.nodes, slots, i);
          node := node.prev;
          i := i - 1;
        }
        if node == null {
          node := lru.tail;
          i := |lru.nodes| - 1;
        }
        assert At(entries, lru.nodes, slots, i);
        EvictionDrops(Abs(), i);
        Drop(node, i);
      }
    }

    /** Takes the node at position `k` out of the list and its entry out of the map. */
    method Drop(node: LRUNode, ghost k: nat)
      requires Valid() && k < |lru.nodes| && lru.nodes[k] == node
      modifies this`entries, this`currentSize, this`slots, lru, lru.nodes
      ensures Valid() && entries.Keys <= old(entries.Keys) && entries.Values <= old(entries.Values)
      ensures forall i | 0 <= i < |lru.nodes| :: lru.nodes[i] in old(lru.nodes)
      ensures slots == DropAt(old(slots), k) && currentSize == old(currentSize) - old(slots)[k].size
    {
      OthersDiffer(k);
      var entry := node.entry;
      lru.Remove(node, k);
      entries := entries - {entry.chunkID};
      currentSize := currentSize - entry.size;
      slots := DropAt(slots, k);
      forall i | 0 <= i < |slots| ensures At(entries, lru.nodes, slots, i) {
        assert old(At(entries, lru.nodes, slots, if i < k then i else i + 1));
      }
      forall id | id in entries ensures Find(slots, id) < |slots| {
        FindInDrop(old(slots), k, id);
      }
    }

    method Put(chunkID: string, data: Bytes, priority: Priority)
      requires Valid()
      modifies this`entries, this`currentSize, this`slots, lru, lru.nodes, entries.Values
      ensures Valid() && Abs() == LruSpec.Put(old(Abs()), chunkID, data, priority)
      ensures fresh(Parts() - old(Parts()))
    {
      if chunkID in entries {
        Replace(chunkID, data, priority);
      } else {
        PutNew(chunkID, data, priority);
      }
    }

    /** Makes room for a chunk that is not cached and inserts it. */
    method PutNew(chunkID: string, data: Bytes, priority: Priority)
      requires Valid() && chunkID !in entries
      modifies this`entries, this`currentSize, this`slots, lru, lru.nodes
      ensures Valid() && Abs() == LruSpec.Put(old(Abs()), chunkID, data, priority)
      ensures fresh(Parts() - old(Parts()))
    {
      Missing(chunkID);
      PutInserts(Abs(), chunkID, data, priority);
      MakeRoom(|data|);
      assert Parts() <= old(Parts());
      Insert(chunkID, data, priority);
    }

    /** New data and priority for a cached chunk, made the most recent; `currentSize` is not told. */
    method Replace(chunkID: string, data: Bytes, priority: Priority)
      requires Valid() && chunkID in entries
      modifies this`slots, lru, lru.nodes, entries[chunkID]
      ensures Valid() && Abs() == LruSpec.Put(old(Abs()), chunkID, data, priority)
      ensures Parts() == old(Parts())
    {
      ghost var k := Find(slots, chunkID);
      OthersDiffer(k);
      var existing := entries[chunkID];
      existing.data := data;
      existing.size := |data|;
      existing.priority := priority;
      BringToFront(existing, k, slots[k].(data := data, size := |data|, priority := priority));
    }

    /** Evicts until `size` more fits or nothing is left. */
    method MakeRoom(size: int)
      requires Valid()
      modifies this`entries, this`currentSize, this`slots, lru, lru.nodes
      ensures Valid() && Abs() == EvictUntil(old(Abs()), size)
      ensures entries.Keys <= old(entries.Keys) && entries.Values <= old(entries.Values)
      ensures forall i | 0 <= i < |lru.nodes| :: lru.nodes[i] in old(lru.nodes)
    {
      NonEmpty();
      while currentSize + size > maxSize && |entries| > 0
        modifies this`entries, this`currentSize, this`slots, lru, lru.nodes
        invariant Valid() && EvictUntil(Abs(), size) == EvictUntil(old(Abs()), size)
        invariant |entries| > 0 <==> slots != []
        invariant entries.Keys <= old(entries.Keys) && entries.Values <= old(entries.Values)
        invariant forall i | 0 <= i < |lru.nodes| :: lru.nodes[i] in old(lru.nodes)
        decreases |slots|
      {
        EvictUnfolds(Abs(), size);
        EvictLRU();
        NonEmpty();
      }
    }

    /** A fresh entry with a fresh node in front of the list. */
    method NewEntry(chunkID: string, data: Bytes, priority: Priority) returns (entry: CacheEntry)
      requires lru.Valid()
      modifies lru, lru.nodes
      ensures fresh(entry) && entry.AsSlot() == Slot(chunkID, data, |data|, 1, priority)
      ensures entry.node != null && fresh(entry.node) && entry.node.entry == entry
      ensures lru.Valid() && lru.nodes == [entry.node] + old(lru.nodes)
      ensures fresh(lru.Elements() - old(lru.Elements()))
    {
      entry := new CacheEntry(chunkID, data, priority);
      var node := lru.PushFront(entry);
      entry.node := node;
    }

    /** A fresh entry for a chunk that is not cached, in front of the list. */
    method Insert(chunkID: string, data: Bytes, priority: Priority)
      requires Valid() && chunkID !in entries
      modifies this`entries, this`currentSize, this`slots, lru, lru.nodes
      ensures Valid()
      ensures Abs() == WithNew(old(Abs()), Slot(chunkID, data, |data|, 1, priority))
      ensures fresh(Parts() - old(Parts()))
    {
      var entry := NewEntry(chunkID, data, priority);
      ghost var slot := Slot(chunkID, data, |data|, 1, priority);
      AtInNew(entries, old(lru.nodes), slots, entry, slot);
      FoundInNew(slots, slot, entries.Keys);
      entries := entries[chunkID := entry];
      currentSize := currentSize + |data|;
      slots := [slot] + slots;
      assert entries.Values <= old(entries.Values) + {entry};
    }
  }

  /** Performs one operation of a run. */
  method Perform(c: MediaCache, op: Op)
    requires c.Valid()
    modifies c, c.Parts()
    ensures c.Valid() && c.Abs() == Step(old(c.Abs()), op)
    ensures fresh(c.Parts() - old(c.Parts()))
  {
    match op
    case GetOp(id) => var _ := c.Get(id);
    case PutOp(id, data, priority) => c.Put(id, data, priority);
  }

  /** A new cache performing a run ends in the state the run ends in. */
  method PerformAll(maxSize: int, ops: seq<Op>) returns (c: MediaCache)
    ensures fresh(c) && fresh(c.Parts())
    ensures c.Valid() && c.Abs() == Run(EmptyCache(maxSize), ops)
  {
    if ops == [] {
      c := new MediaCache(maxSize);
    } else {
      c := PerformAll(maxSize, ops[..|ops| - 1]);
      ghost var parts := c.Parts();
      Perform(c, ops[|ops| - 1]);
      assert fresh(parts) && fresh(c.Parts() - parts);
    }
  }

  /** A read after a run gives the bytes last written to the chunk, if it is still cached. */
  method ReadAfter(maxSize: int, ops: seq<Op>, id: string) returns (r: Option<Bytes>)
    ensures r.Some? <==> Cached(Run(EmptyCache(maxSize), ops), id)
    ensures r.Some? ==> LastBytes(ops, id, r.value)
  {
    FoundIsLastWrite(maxSize, ops, id);
    var c := PerformAll(maxSize, ops);
    r := Read(c, id);
  }

  method Read(c: MediaCache, id: string) returns (r: Option<Bytes>)
    requires c.Valid()
    modifies c, c.Parts()
    ensures var (slots, k) := (old(c.slots), Find(old(c.slots), id));
            r == if k < |slots| then Some(slots[k].data) else None
  {
    r := c.Get(id);
  }

  // ---------------------------------------------------------------- values

  function WithNew(c: Cache, slot: Slot): Cache {
    c.(slots := [slot] + c.slots, currentSize := c.currentSize + slot.size)
  }

  lemma PutInserts(c: Cache, id: string, data: Bytes, priority: Priority)
    requires Find(c.slots, id) == |c.slots|
    ensures Put(c, id, data, priority) == WithNew(EvictUntil(c, |data|), Slot(id, data, |data|, 1, priority))
  {
  }

  function Evicted(c: Cache): Cache {
    if c.slots == [] then c else EvictOne(c)
  }

  lemma EvictUnfolds(c: Cache, size: int)
    requires TooBig(c, size)
    ensures EvictUntil(c, size) == EvictUntil(Evicted(c), size) && |Evicted(c).slots| < |c.slots|
  {
  }

  lemma EvictionDrops(c: Cache, k: nat)
    requires k < |c.slots| && forall i | k < i < |c.slots| :: c.slots[i].priority == Pinned
    requires c.slots[k].priority == Pinned ==>
               k == |c.slots| - 1 && forall i | 0 <= i < k :: c.slots[i].priority == Pinned
    ensures Evicted(c) == Cache(DropAt(c.slots, k), c.currentSize - c.slots[k].size, c.maxSize)
  {
    var v := Victim(c.slots);
    assert c.slots[k] in c.slots;
  }
}
