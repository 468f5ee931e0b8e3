/** What a cached chunk holds after a run: the bytes last written under its identifier. */
module LruHistory {
  import opened LruSpec
  import opened Types

  /** Step `k` is the last to write the chunk, with these bytes and this priority. */
  ghost predicate LastWrite(ops: seq<Op>, k: nat, id: string, data: Bytes, priority: Priority) {
    && k < |ops| && ops[k] == PutOp(id, data, priority)
    && forall l | k < l < |ops| :: !(ops[l].PutOp? && ops[l].id == id)
  }

  predicate Cached(c: Cache, id: string) {
    exists s <- c.slots :: s.id == id
  }

  /** Step `j` inserted the chunk, and it has been cached ever since. */
  ghost predicate InsertedAt(maxSize: int, ops: seq<Op>, j: nat, id: string) {
    && j < |ops| && ops[j].PutOp? && ops[j].id == id && !Cached(Run(EmptyCache(maxSize), ops[..j]), id)
    && forall m | j < m <= |ops| :: Cached(Run(EmptyCache(maxSize), ops[..m]), id)
  }

  /** How often the chunk is read. */
  function Reads(ops: seq<Op>, id: string): nat {
    if ops == [] then 0
    else Reads(ops[..|ops| - 1], id) + if ops[|ops| - 1] == GetOp(id) then 1 else 0
  }

  /** A slot holds the last bytes and the last priority written, their length, and one more than the reads since it was
      inserted. */
  ghost predicate Holds(maxSize: int, ops: seq<Op>, slot: Slot) {
    && (exists k :: LastWrite(ops, k, slot.id, slot.data, slot.priority))
    && slot.size == |slot.data|
    && exists j :: InsertedAt(maxSize, ops, j, slot.id) && slot.accessCount == 1 + Reads(ops[j + 1..], slot.id)
  }

  // ---------------------------------------------------------------- one step

  /** Where a slot comes from: it is another chunk's, as it was, or the one used, read or rewritten or new. */
  lemma StepSlot(c: Cache, op: Op, slot: Slot)
    requires DistinctIds(c.slots) && slot in Step(c, op).slots
    ensures var k := Find(c.slots, op.id);
      if slot.id != op.id then slot in c.slots
      else if k == |c.slots| then op.PutOp? && slot == Slot(op.id, op.data, |op.data|, 1, op.priority)
      else if op.GetOp? then slot == c.slots[k].(accessCount := c.slots[k].accessCount + 1)
      else slot == c.slots[k].(data := op.data, size := |op.data|, priority := op.priority)
  {
    var k := Find(c.slots, op.id);
    if k < |c.slots| {
      DropKeepsDistinct(c.slots, k);
    } else if op.PutOp? {
      EvictKeepsDistinct(c, |op.data|);
    }
  }

  lemma RunNext(maxSize: int, ops: seq<Op>, op: Op)
    ensures Run(EmptyCache(maxSize), ops + [op]) == Step(Run(EmptyCache(maxSize), ops), op)
  {
    assert (ops + [op])[..|ops|] == ops;
  }

  lemma WriteStays(ops: seq<Op>, op: Op, k: nat, id: string, data: Bytes, priority: Priority)
    requires LastWrite(ops, k, id, data, priority) && (op.GetOp? || op.id != id)
    ensures LastWrite(ops + [op], k, id, data, priority)
  {
  }

  lemma InsertionStays(maxSize: int, ops: seq<Op>, op: Op, j: nat, id: string)
    requires InsertedAt(maxSize, ops, j, id) && Cached(Run(EmptyCache(maxSize), ops + [op]), id)
    ensures InsertedAt(maxSize, ops + [op], j, id)
    ensures Reads((ops + [op])[j + 1..], id) == Reads(ops[j + 1..], id) + if op == GetOp(id) then 1 else 0
  {
    var longer := ops + [op];
    assert longer[..j] == ops[..j];
    forall m | j < m <= |longer| ensures Cached(Run(EmptyCache(maxSize), longer[..m]), id) {
      if m <= |ops| { assert longer[..m] == ops[..m]; } else { assert longer[..m] == longer; }
    }
    ReadsNext(ops[j + 1..], op, id);
    assert longer[j + 1..] == ops[j + 1..] + [op];
  }

  lemma ReadsNext(ops: seq<Op>, op: Op, id: string)
    ensures Reads(ops + [op], id) == Reads(ops, id) + if op == GetOp(id) then 1 else 0
  {
    assert (ops + [op])[..|ops|] == ops;
  }

  /** A slot that was there before, perhaps read or rewritten. */
  lemma OldHolds(maxSize: int, ops: seq<Op>, op: Op, was: Slot, slot: Slot)
    requires Holds(maxSize, ops, was) && slot in Run(EmptyCache(maxSize), ops + [op]).slots
    requires if op.id != was.id then slot == was
             else if op.GetOp? then slot == was.(accessCount := was.accessCount + 1)
             else slot == was.(data := op.data, size := |op.data|, priority := op.priority)
    ensures Holds(maxSize, ops + [op], slot)
  {
    var k :| LastWrite(ops, k, was.id, was.data, was.priority);
    var j :| InsertedAt(maxSize, ops, j, was.id) && was.accessCount == 1 + Reads(ops[j + 1..], was.id);
    InsertionStays(maxSize, ops, op, j, was.id);
    if op.PutOp? && op.id == was.id {
      JustWritten(ops, op);
      HoldsBy(maxSize, ops + [op], slot, |ops|, j);
    } else {
      WriteStays(ops, op, k, was.id, was.data, was.priority);
      HoldsBy(maxSize, ops + [op], slot, k, j);
    }
  }

  lemma NewHolds(maxSize: int, ops: seq<Op>, op: Op, slot: Slot)
    requires op.PutOp? && slot == Slot(op.id, op.data, |op.data|, 1, op.priority)
    requires !Cached(Run(EmptyCache(maxSize), ops), op.id) && slot in Run(EmptyCache(maxSize), ops + [op]).slots
    ensures Holds(maxSize, ops + [op], slot)
  {
    JustInserted(maxSize, ops, op, slot);
    JustWritten(ops, op);
    HoldsBy(maxSize, ops + [op], slot, |ops|, |ops|);
  }

  lemma HoldsBy(maxSize: int, ops: seq<Op>, slot: Slot, k: nat, j: nat)
    requires LastWrite(ops, k, slot.id, slot.data, slot.priority) && slot.size == |slot.data|
    requires InsertedAt(maxSize, ops, j, slot.id) && slot.accessCount == 1 + Reads(ops[j + 1..], slot.id)
    ensures Holds(maxSize, ops, slot)
  {
  }

  lemma JustWritten(ops: seq<Op>, op: Op)
    requires op.PutOp?
    ensures LastWrite(ops + [op], |ops|, op.id, op.data, op.priority)
  {
  }

  lemma {:induction false} JustInserted(maxSize: int, ops: seq<Op>, op: Op, slot: Slot)
    requires op.PutOp? && slot.id == op.id
    requires !Cached(Run(EmptyCache(maxSize), ops), op.id) && slot in Run(EmptyCache(maxSize), ops + [op]).slots
    ensures InsertedAt(maxSize, ops + [op], |ops|, op.id) && Reads((ops + [op])[|ops| + 1..], op.id) == 0
  {
    var longer := ops + [op];
    assert longer[..|ops|] == ops && longer[|ops| + 1..] == [] && longer[..|longer|] == longer;
    assert Cached(Run(EmptyCache(maxSize), longer), op.id);
  }

  // ---------------------------------------------------------------- whole runs

  ghost predicate AllHold(maxSize: int, ops: seq<Op>, c: Cache) {
    forall slot <- c.slots :: Holds(maxSize, ops, slot)
  }

  /** After any run each slot holds what was last written under its identifier. */
  lemma {:induction false} RunHolds(maxSize: int, ops: seq<Op>)
    ensures AllHold(maxSize, ops, Run(EmptyCache(maxSize), ops))
  {
    if ops != [] {
      var front, op := ops[..|ops| - 1], ops[|ops| - 1];
      var c := Run(EmptyCache(maxSize), front);
      RunHolds(maxSize, front);
      RunIsByRecency(maxSize, front);
      AllHoldNext(maxSize, front, op, c);
      assert ops == front + [op];
    }
  }

  lemma AllHoldNext(maxSize: int, ops: seq<Op>, op: Op, c: Cache)
    requires c == Run(EmptyCache(maxSize), ops) && DistinctIds(c.slots) && AllHold(maxSize, ops, c)
    ensures AllHold(maxSize, ops + [op], Run(EmptyCache(maxSize), ops + [op]))
  {
    forall slot <- Run(EmptyCache(maxSize), ops + [op]).slots ensures Holds(maxSize, ops + [op], slot) {
      NextHolds(maxSize, ops, op, c, slot);
    }
  }

  lemma NextHolds(maxSize: int, ops: seq<Op>, op: Op, c: Cache, slot: Slot)
    requires c == Run(EmptyCache(maxSize), ops) && DistinctIds(c.slots)
    requires slot in Run(EmptyCache(maxSize), ops + [op]).slots
    requires slot in c.slots ==> Holds(maxSize, ops, slot)
    requires Find(c.slots, op.id) < |c.slots| ==> Holds(maxSize, ops, c.slots[Find(c.slots, op.id)])
    ensures Holds(maxSize, ops + [op], slot)
  {
    var k := Find(c.slots, op.id);
    RunNext(maxSize, ops, op);
    StepSlot(c, op, slot);
    if slot.id != op.id {
      OldHolds(maxSize, ops, op, slot, slot);
    } else if k < |c.slots| {
      OldHolds(maxSize, ops, op, c.slots[k], slot);
    } else {
      NewHolds(maxSize, ops, op, slot);
    }
  }

  lemma LastWriteIsOne(ops: seq<Op>, k: nat, l: nat, id: string, data: Bytes, priority: Priority, data': Bytes,
                       priority': Priority)
    requires LastWrite(ops, k, id, data, priority) && LastWrite(ops, l, id, data', priority')
    ensures k == l && data == data' && priority == priority'
  {
  }

  /** A chunk that is cached holds the bytes last written to it, with their length and priority. */
  lemma HitIsLastWrite(maxSize: int, ops: seq<Op>, id: string, k: nat, data: Bytes, priority: Priority)
    requires LastWrite(ops, k, id, data, priority)
    ensures var slots := Run(EmptyCache(maxSize), ops).slots;
            var i := Find(slots, id);
            i < |slots| ==> slots[i].data == data && slots[i].size == |data| && slots[i].priority == priority
  {
    var slots := Run(EmptyCache(maxSize), ops).slots;
    var i := Find(slots, id);
    if i < |slots| {
      RunHolds(maxSize, ops);
      SlotIsLastWrite(maxSize, ops, slots[i], k, data, priority);
    }
  }

  lemma SlotIsLastWrite(maxSize: int, ops: seq<Op>, slot: Slot, k: nat, data: Bytes, priority: Priority)
    requires Holds(maxSize, ops, slot) && LastWrite(ops, k, slot.id, data, priority)
    ensures slot.data == data && slot.size == |data| && slot.priority == priority
  {
    var l :| LastWrite(ops, l, slot.id, slot.data, slot.priority);
    LastWriteIsOne(ops, k, l, slot.id, data, priority, slot.data, slot.priority);
  }

  /** A chunk just written is cached, and first. */
  lemma WrittenIsCached(c: Cache, id: string, data: Bytes, priority: Priority)
    ensures var slots := Step(c, PutOp(id, data, priority)).slots; slots != [] && slots[0].id == id
  {
  }

  ghost predicate LastBytes(ops: seq<Op>, id: string, data: Bytes) {
    exists k, priority :: LastWrite(ops, k, id, data, priority)
  }

  /** What a read after the run finds. */
  lemma FoundIsLastWrite(maxSize: int, ops: seq<Op>, id: string)
    ensures var slots := Run(EmptyCache(maxSize), ops).slots;
            var i := Find(slots, id);
            && (i < |slots| <==> Cached(Run(EmptyCache(maxSize), ops), id))
            && (i < |slots| ==> LastBytes(ops, id, slots[i].data))
  {
    var c := Run(EmptyCache(maxSize), ops);
    var i := Find(c.slots, id);
    RunHolds(maxSize, ops);
    FoundIsCached(c, id);
    if i < |c.slots| { HeldIsLast(maxSize, ops, c.slots[i]); }
  }

  lemma FoundIsCached(c: Cache, id: string)
    ensures Find(c.slots, id) < |c.slots| <==> Cached(c, id)
  {
    var i := Find(c.slots, id);
    if i < |c.slots| { assert c.slots[i] in c.slots; }
  }

  lemma HeldIsLast(maxSize: int, ops: seq<Op>, slot: Slot)
    requires Holds(maxSize, ops, slot)
    ensures LastBytes(ops, slot.id, slot.data)
  {
    var k :| LastWrite(ops, k, slot.id, slot.data, slot.priority);
  }
}
