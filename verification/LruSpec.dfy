/** A pin-aware least-recently-used cache as a sequence, most recent slot first. */
module LruSpec {
  import opened Sequences
  import opened Types

  datatype Priority = Low | Normal | High | Pinned

  datatype Slot = Slot(id: string, data: Bytes, size: int, accessCount: int, priority: Priority)

  datatype Cache = Cache(slots: seq<Slot>, currentSize: int, maxSize: int)

  // ---------------------------------------------------------------- operations

  /** Index of the slot with the given id, or the number of slots. */
  function Find(slots: seq<Slot>, id: string): (k: nat)
    ensures k <= |slots| && (k < |slots| ==> slots[k].id == id)
    ensures forall i | 0 <= i < k :: slots[i].id != id
  {
    IndexWhere(slots, (s: Slot) => s.id == id)
  }

  function DropAt(slots: seq<Slot>, k: nat): seq<Slot>
    requires k < |slots|
  {
    slots[..k] + slots[k + 1..]
  }

  function ToFront(slots: seq<Slot>, k: nat, slot: Slot): seq<Slot>
    requires k < |slots|
  {
    [slot] + DropAt(slots, k)
  }

  function Get(c: Cache, id: string): Cache {
    var k := Find(c.slots, id);
    if k == |c.slots| then c
    else c.(slots := ToFront(c.slots, k, c.slots[k].(accessCount := c.slots[k].accessCount + 1)))
  }

  function Put(c: Cache, id: string, data: Bytes, priority: Priority): Cache {
    var k := Find(c.slots, id);
    if k < |c.slots| then
      c.(slots := ToFront(c.slots, k, c.slots[k].(data := data, size := |data|, priority := priority)))
    else
      var e := EvictUntil(c, |data|);
      e.(slots := [Slot(id, data, |data|, 1, priority)] + e.slots, currentSize := e.currentSize + |data|)
  }

  /** The least recent unpinned slot, or the least recent of all when every slot is pinned. */
  function Victim(slots: seq<Slot>): (v: nat)
    requires slots != []
    ensures v < |slots|
    ensures slots[v].priority == Pinned ==> v == |slots| - 1 && forall s <- slots :: s.priority == Pinned
    ensures slots[v].priority != Pinned ==> forall i | v < i < |slots| :: slots[i].priority == Pinned
  {
    var k := LastUnpinned(slots, |slots|);
    if k == 0 then |slots| - 1 else k - 1
  }

  /** One more than the greatest index below `n` of an unpinned slot, or zero. */
  function LastUnpinned(slots: seq<Slot>, n: nat): (k: nat)
    requires n <= |slots|
    ensures k <= n && (k > 0 ==> slots[k - 1].priority != Pinned)
    ensures forall i | k <= i < n :: slots[i].priority == Pinned
  {
    if n == 0 || slots[n - 1].priority != Pinned then n else LastUnpinned(slots, n - 1)
  }

  function EvictOne(c: Cache): Cache
    requires c.slots != []
  {
    var v := Victim(c.slots);
    c.(slots := DropAt(c.slots, v), currentSize := c.currentSize - c.slots[v].size)
  }

  predicate TooBig(c: Cache, size: int) {
    c.currentSize + size > c.maxSize && c.slots != []
  }

  function EvictUntil(c: Cache, size: int): (e: Cache)
    ensures !TooBig(e, size) && e.maxSize == c.maxSize
    decreases |c.slots|
  {
    if TooBig(c, size) then EvictUntil(EvictOne(c), size) else c
  }

  // ---------------------------------------------------------------- identity

  predicate DistinctIds(slots: seq<Slot>) {
    forall i, j | 0 <= i < j < |slots| :: slots[i].id != slots[j].id
  }

  lemma DropKeepsDistinct(slots: seq<Slot>, k: nat)
    requires DistinctIds(slots) && k < |slots|
    ensures DistinctIds(DropAt(slots, k))
    ensures forall s <- DropAt(slots, k) :: s in slots && s.id != slots[k].id
    ensures forall i | 0 <= i < |slots| && i != k :: slots[i] in DropAt(slots, k)
  {
    var d := DropAt(slots, k);
    forall i | 0 <= i < |slots| && i != k ensures slots[i] in d {
      assert d[if i < k then i else i - 1] == slots[i];
    }
  }

  lemma {:induction false} EvictKeepsDistinct(c: Cache, size: int)
    requires DistinctIds(c.slots)
    ensures DistinctIds(EvictUntil(c, size).slots)
    ensures forall s <- EvictUntil(c, size).slots :: s in c.slots
    decreases |c.slots|
  {
    if TooBig(c, size) {
      DropKeepsDistinct(c.slots, Victim(c.slots));
      EvictKeepsDistinct(EvictOne(c), size);
    }
  }

  // ---------------------------------------------------------------- eviction order

  lemma VictimIsLast(slots: seq<Slot>, i: nat)
    requires i < |slots| && i != Victim(slots)
    ensures slots[Victim(slots)].priority == Pinned ==> slots[i].priority == Pinned && i < Victim(slots)
    ensures slots[Victim(slots)].priority != Pinned && slots[i].priority != Pinned ==> i < Victim(slots)
  {
    assert slots[i] in slots;
  }

  /** Evicted slots are less recent than surviving ones of their kind, and a pinned slot goes only
      after every unpinned one. */
  lemma {:induction false} EvictionOrder(c: Cache, size: int, i: nat, j: nat)
    requires DistinctIds(c.slots) && i < |c.slots| && j < |c.slots|
    requires c.slots[i] in EvictUntil(c, size).slots && c.slots[j] !in EvictUntil(c, size).slots
    ensures c.slots[j].priority == Pinned ==> c.slots[i].priority == Pinned && i < j
    ensures c.slots[j].priority != Pinned && c.slots[i].priority != Pinned ==> i < j
    decreases |c.slots|
  {
    var v := Victim(c.slots);
    DropKeepsDistinct(c.slots, v);
    EvictKeepsDistinct(EvictOne(c), size);
    if j == v {
      VictimIsLast(c.slots, i);
    } else {
      var i', j' := AfterDrop(c.slots, v, i), AfterDrop(c.slots, v, j);
      EvictionOrder(EvictOne(c), size, i', j');
    }
  }

  /** Where a slot is once the one at `k` has been dropped. */
  function AfterDrop(slots: seq<Slot>, k: nat, i: nat): (r: nat)
    requires k < |slots| && i < |slots| && i != k
    ensures r < |DropAt(slots, k)| && DropAt(slots, k)[r] == slots[i]
    ensures r == if i < k then i else i - 1
  {
    if i < k then i else i - 1
  }

  function EvictTimes(c: Cache, n: nat): Cache
    requires n <= |c.slots|
    decreases n
  {
    if n == 0 then c else EvictTimes(EvictOne(c), n - 1)
  }

  /** No slot is evicted that did not have to be: one eviction fewer would still not make room. */
  lemma {:induction false} EvictionIsMinimal(c: Cache, size: int) returns (n: nat)
    ensures n <= |c.slots| && EvictUntil(c, size) == EvictTimes(c, n)
    ensures |EvictUntil(c, size).slots| == |c.slots| - n
    ensures forall k | 0 <= k < n :: TooBig(EvictTimes(c, k), size)
    decreases |c.slots|
  {
    if TooBig(c, size) {
      var m := EvictionIsMinimal(EvictOne(c), size);
      n := m + 1;
      forall k | 0 <= k < n ensures TooBig(EvictTimes(c, k), size) {
        if k > 0 { assert TooBig(EvictTimes(EvictOne(c), k - 1), size); }
      }
    } else {
      n := 0;
    }
  }

  // ---------------------------------------------------------------- size accounting

  function TotalSize(slots: seq<Slot>): int {
    if slots == [] then 0 else TotalSize(slots[..|slots| - 1]) + slots[|slots| - 1].size
  }

  /** `currentSize` is the sum of the sizes of the slots. */
  predicate Accounted(c: Cache) {
    c.currentSize == TotalSize(c.slots)
  }

  lemma {:induction false} TotalAppend(a: seq<Slot>, b: seq<Slot>)
    ensures TotalSize(a + b) == TotalSize(a) + TotalSize(b)
  {
    if b == [] {
      assert a + b == a;
    } else {
      TotalAppend(a, b[..|b| - 1]);
      assert (a + b)[..|a + b| - 1] == a + b[..|b| - 1];
    }
  }

  lemma TotalOne(s: Slot)
    ensures TotalSize([s]) == s.size
  {
    assert [s][..0] == [];
  }

  lemma SplitAround(slots: seq<Slot>, k: nat)
    requires k < |slots|
    ensures slots == slots[..k] + ([slots[k]] + slots[k + 1..])
  {
  }

  lemma TotalDrop(slots: seq<Slot>, k: nat)
    requires k < |slots|
    ensures TotalSize(DropAt(slots, k)) == TotalSize(slots) - slots[k].size
  {
    var a, x, b := slots[..k], [slots[k]], slots[k + 1..];
    SplitAround(slots, k);
    TotalAppend(a, x + b);
    TotalAppend(x, b);
    TotalOne(slots[k]);
    TotalAppend(a, b);
  }

  lemma {:induction false} EvictAccounted(c: Cache, size: int)
    requires Accounted(c)
    ensures Accounted(EvictUntil(c, size))
    decreases |c.slots|
  {
    if TooBig(c, size) {
      TotalDrop(c.slots, Victim(c.slots));
      EvictAccounted(EvictOne(c), size);
    }
  }

  lemma TotalToFront(slots: seq<Slot>, k: nat, slot: Slot)
    requires k < |slots|
    ensures TotalSize(ToFront(slots, k, slot)) == TotalSize(slots) - slots[k].size + slot.size
  {
    TotalDrop(slots, k);
    TotalAppend([slot], DropAt(slots, k));
    TotalOne(slot);
  }

  lemma GetAccounted(c: Cache, id: string)
    requires Accounted(c)
    ensures Accounted(Get(c, id))
  {
    var k := Find(c.slots, id);
    if k < |c.slots| { TotalToFront(c.slots, k, c.slots[k].(accessCount := c.slots[k].accessCount + 1)); }
  }

  /** `Put` keeps the accounting exactly when it does not change the length of a cached chunk. */
  lemma PutAccountedIff(c: Cache, id: string, data: Bytes, priority: Priority)
    requires Accounted(c)
    ensures Accounted(Put(c, id, data, priority)) <==>
              var k := Find(c.slots, id); k < |c.slots| ==> |data| == c.slots[k].size
  {
    var k := Find(c.slots, id);
    if k < |c.slots| {
      TotalToFront(c.slots, k, c.slots[k].(data := data, size := |data|, priority := priority));
    } else {
      EvictAccounted(c, |data|);
      var e := EvictUntil(c, |data|);
      TotalAppend([Slot(id, data, |data|, 1, priority)], e.slots);
      TotalOne(Slot(id, data, |data|, 1, priority));
    }
  }

  /** Inserting a new chunk leaves the cache within its limit, or holding that chunk alone. */
  lemma PutFits(c: Cache, id: string, data: Bytes, priority: Priority)
    requires Find(c.slots, id) == |c.slots|
    ensures var p := Put(c, id, data, priority);
            p.slots[0].id == id && (p.currentSize <= p.maxSize || |p.slots| == 1)
  {
  }

  // ---------------------------------------------------------------- runs

  datatype Op =
    | GetOp(id: string)
    | PutOp(id: string, data: Bytes, priority: Priority)

  function Step(c: Cache, op: Op): Cache {
    match op
    case GetOp(id) => Get(c, id)
    case PutOp(id, data, priority) => Put(c, id, data, priority)
  }

  function Run(c: Cache, ops: seq<Op>): Cache {
    if ops == [] then c else Step(Run(c, ops[..|ops| - 1]), ops[|ops| - 1])
  }

  function EmptyCache(maxSize: int): Cache {
    Cache([], 0, maxSize)
  }

  /** The position after the last operation on `id`, or zero. */
  function LastUse(ops: seq<Op>, id: string): nat {
    if ops == [] then 0
    else if ops[|ops| - 1].id == id then |ops|
    else LastUse(ops[..|ops| - 1], id)
  }

  predicate ByRecency(slots: seq<Slot>, ops: seq<Op>) {
    forall i, j | 0 <= i < j < |slots| :: LastUse(ops, slots[i].id) > LastUse(ops, slots[j].id)
  }

  lemma ByRecencyIsDistinct(slots: seq<Slot>, ops: seq<Op>)
    requires ByRecency(slots, ops)
    ensures DistinctIds(slots)
  {
    forall i, j | 0 <= i < j < |slots| ensures slots[i].id != slots[j].id {
      assert LastUse(ops, slots[i].id) > LastUse(ops, slots[j].id);
    }
  }

  lemma {:induction false} EvictKeepsRecency(c: Cache, size: int, ops: seq<Op>)
    requires ByRecency(c.slots, ops)
    ensures ByRecency(EvictUntil(c, size).slots, ops)
    decreases |c.slots|
  {
    if TooBig(c, size) { EvictKeepsRecency(EvictOne(c), size, ops); }
  }

  lemma {:induction false} LastUseBound(ops: seq<Op>, id: string)
    ensures LastUse(ops, id) <= |ops|
  {
    if ops != [] { LastUseBound(ops[..|ops| - 1], id); }
  }

  /** Using `slot` now puts it before every other. */
  lemma UseToFront(slot: Slot, rest: seq<Slot>, ops: seq<Op>, op: Op)
    requires ByRecency(rest, ops) && op.id == slot.id && forall s <- rest :: s.id != slot.id
    ensures ByRecency([slot] + rest, ops + [op])
  {
    var slots := [slot] + rest;
    assert (ops + [op])[..|ops|] == ops;
    forall i, j | 0 <= i < j < |slots| ensures LastUse(ops + [op], slots[i].id) > LastUse(ops + [op], slots[j].id) {
      assert slots[j] in rest;
      LastUseBound(ops, slots[j].id);
      if i > 0 { assert slots[i] in rest && slots[i] == rest[i - 1] && slots[j] == rest[j - 1]; }
    }
  }

  lemma StepKeepsRecency(c: Cache, ops: seq<Op>, op: Op)
    requires ByRecency(c.slots, ops)
    ensures ByRecency(Step(c, op).slots, ops + [op])
  {
    var k := Find(c.slots, op.id);
    if k < |c.slots| {
      HitKeepsRecency(c.slots, k, Step(c, op).slots[0], ops, op);
    } else if op.PutOp? {
      MissKeepsRecency(c, |op.data|, Step(c, op).slots[0], ops, op);
    } else {
      MissedGetKeepsRecency(c.slots, ops, op);
    }
  }

  lemma HitKeepsRecency(slots: seq<Slot>, k: nat, slot: Slot, ops: seq<Op>, op: Op)
    requires ByRecency(slots, ops) && k < |slots| && slots[k].id == op.id == slot.id
    ensures ByRecency([slot] + DropAt(slots, k), ops + [op])
  {
    ByRecencyIsDistinct(slots, ops);
    DropKeepsDistinct(slots, k);
    DropKeepsRecency(slots, k, ops);
    UseToFront(slot, DropAt(slots, k), ops, op);
  }

  lemma DropKeepsRecency(slots: seq<Slot>, k: nat, ops: seq<Op>)
    requires ByRecency(slots, ops) && k < |slots|
    ensures ByRecency(DropAt(slots, k), ops)
  {
  }

  lemma MissKeepsRecency(c: Cache, size: int, slot: Slot, ops: seq<Op>, op: Op)
    requires ByRecency(c.slots, ops) && slot.id == op.id && forall s <- c.slots :: s.id != op.id
    ensures ByRecency([slot] + EvictUntil(c, size).slots, ops + [op])
  {
    ByRecencyIsDistinct(c.slots, ops);
    EvictKeepsDistinct(c, size);
    EvictKeepsRecency(c, size, ops);
    UseToFront(slot, EvictUntil(c, size).slots, ops, op);
  }

  lemma MissedGetKeepsRecency(slots: seq<Slot>, ops: seq<Op>, op: Op)
    requires ByRecency(slots, ops) && forall s <- slots :: s.id != op.id
    ensures ByRecency(slots, ops + [op])
  {
    assert (ops + [op])[..|ops|] == ops;
    forall s <- slots ensures LastUse(ops + [op], s.id) == LastUse(ops, s.id) {}
  }

  /** After any run the slots are in order of use, most recent first. */
  lemma {:induction false} RunIsByRecency(maxSize: int, ops: seq<Op>)
    ensures ByRecency(Run(EmptyCache(maxSize), ops).slots, ops)
    ensures DistinctIds(Run(EmptyCache(maxSize), ops).slots)
  {
    if ops != [] {
      RunIsByRecency(maxSize, ops[..|ops| - 1]);
      StepKeepsRecency(Run(EmptyCache(maxSize), ops[..|ops| - 1]), ops[..|ops| - 1], ops[|ops| - 1]);
      assert ops == ops[..|ops| - 1] + [ops[|ops| - 1]];
    }
    ByRecencyIsDistinct(Run(EmptyCache(maxSize), ops).slots, ops);
  }

  /** No step rewrites a cached chunk with data of another length. */
  predicate KeepsLengths(c: Cache, ops: seq<Op>) {
    ops == [] || (
      var (front, op) := (ops[..|ops| - 1], ops[|ops| - 1]);
      && KeepsLengths(c, front)
      && (op.PutOp? ==>
            var d := Run(c, front);
            var k := Find(d.slots, op.id);
            k < |d.slots| ==> |op.data| == d.slots[k].size))
  }

  predicate AccountedThroughout(c: Cache, ops: seq<Op>) {
    Accounted(Run(c, ops)) && (ops == [] || AccountedThroughout(c, ops[..|ops| - 1]))
  }

  /** A run keeps `currentSize` equal to the sum of sizes precisely when no rewrite changes a length. */
  lemma {:induction false} AccountedRunIff(maxSize: int, ops: seq<Op>)
    ensures AccountedThroughout(EmptyCache(maxSize), ops) <==> KeepsLengths(EmptyCache(maxSize), ops)
  {
    if ops != [] {
      var (front, op) := (ops[..|ops| - 1], ops[|ops| - 1]);
      AccountedRunIff(maxSize, front);
      var c := Run(EmptyCache(maxSize), front);
      if AccountedThroughout(EmptyCache(maxSize), front) {
        assert Accounted(c);
        match op
        case GetOp(id) => GetAccounted(c, id);
        case PutOp(id, data, priority) => PutAccountedIff(c, id, data, priority);
      }
    }
  }
}
