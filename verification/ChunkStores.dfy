/** Concurrent stores of the chunks of one upload, under every interleaving, and reading them back. */
module ChunkStores {
  import opened Chunking
  import opened Types
  import opened Wrappers

  /** One attempt to store a chunk on a node; an `Unacknowledged` store reached the node all the same. */
  datatype Attempt = Acked | Unacknowledged | Failed

  /** A chunk and the nodes allocated to it; each task is one goroutine. */
  datatype Task = Task(chunk: Chunk, nodes: seq<NodeID>)

  /** How far a task has come. */
  datatype Progress = Progress(next: nat, successCount: nat, finished: bool)

  datatype World = World(held: map<(NodeID, ChunkID), Bytes>, allocations: map<ChunkID, seq<NodeID>>,
                         progress: seq<Progress>)

  /** How attempt `j` of task `i` comes out. */
  type Fates = (nat, nat) -> Attempt

  // ---------------------------------------------------------------- interleavings

  function Fresh(held: map<(NodeID, ChunkID), Bytes>, allocations: map<ChunkID, seq<NodeID>>, tasks: seq<Task>): World {
    World(held, allocations, seq(|tasks|, _ => Progress(0, 0, false)))
  }

  /** The next action of task `i`: one store attempt, or recording the allocation at the end. */
  function Step(w: World, tasks: seq<Task>, fates: Fates, i: nat): World
    requires i < |tasks| == |w.progress|
  {
    var (p, t) := (w.progress[i], tasks[i]);
    if p.finished then w
    else if p.next < |t.nodes| then
      var fate := fates(i, p.next);
      w.(held := if fate.Failed? then w.held else w.held[(t.nodes[p.next], t.chunk.id) := t.chunk.data],
         progress := w.progress[i := Progress(p.next + 1, p.successCount + (if fate.Acked? then 1 else 0), false)])
    else
      w.(allocations := if p.successCount > 0 then w.allocations[t.chunk.id := t.nodes] else w.allocations,
         progress := w.progress[i := p.(finished := true)])
  }

  predicate ScheduleFor(schedule: seq<nat>, tasks: seq<Task>) {
    forall k | 0 <= k < |schedule| :: schedule[k] < |tasks|
  }

  function Run(w: World, tasks: seq<Task>, fates: Fates, schedule: seq<nat>): (r: World)
    requires |tasks| == |w.progress| && ScheduleFor(schedule, tasks)
    ensures |r.progress| == |tasks|
  {
    if schedule == [] then w
    else Step(Run(w, tasks, fates, schedule[..|schedule| - 1]), tasks, fates, schedule[|schedule| - 1])
  }

  predicate AllFinished(w: World) {
    forall p <- w.progress :: p.finished
  }

  // ---------------------------------------------------------------- what a task has done

  function AckCount(fates: Fates, i: nat, n: nat): nat {
    if n == 0 then 0 else AckCount(fates, i, n - 1) + if fates(i, n - 1).Acked? then 1 else 0
  }

  /** Some attempt among the first `n` of task `i` reached node `node`. */
  predicate Reached(tasks: seq<Task>, fates: Fates, i: nat, n: nat, node: NodeID)
    requires i < |tasks| && n <= |tasks[i].nodes|
  {
    exists j | 0 <= j < n :: tasks[i].nodes[j] == node && !fates(i, j).Failed?
  }

  predicate DistinctIds(tasks: seq<Task>) {
    forall i, j | 0 <= i < j < |tasks| :: tasks[i].chunk.id != tasks[j].chunk.id
  }

  predicate Owned(tasks: seq<Task>, id: ChunkID) {
    exists t <- tasks :: t.chunk.id == id
  }

  ghost predicate ProgressOk(w: World, tasks: seq<Task>, fates: Fates, i: nat)
    requires i < |tasks| == |w.progress|
  {
    var p := w.progress[i];
    && p.next <= |tasks[i].nodes| && p.successCount == AckCount(fates, i, p.next)
    && (p.finished ==> p.next == |tasks[i].nodes|)
  }

  /** The allocation of task `i`'s chunk: recorded when the task has finished with some success. */
  ghost predicate AllocationOk(w0: World, w: World, tasks: seq<Task>, i: nat)
    requires i < |tasks| == |w.progress|
  {
    var (p, id) := (w.progress[i], tasks[i].chunk.id);
    if p.finished && p.successCount > 0 then id in w.allocations && w.allocations[id] == tasks[i].nodes
    else SameAt(w0.allocations, w.allocations, id)
  }

  ghost predicate HeldOk(w0: World, w: World, tasks: seq<Task>, fates: Fates, i: nat, node: NodeID)
    requires i < |tasks| == |w.progress|
  {
    var (p, key) := (w.progress[i], (node, tasks[i].chunk.id));
    && p.next <= |tasks[i].nodes|
    && if Reached(tasks, fates, i, p.next, node) then key in w.held && w.held[key] == tasks[i].chunk.data
       else SameAt(w0.held, w.held, key)
  }

  ghost predicate SameAt<K, V>(a: map<K, V>, b: map<K, V>, k: K) {
    (k in a <==> k in b) && (k in a ==> a[k] == b[k])
  }

  /** The world is the initial one changed by what each task has done so far, and by nothing else. */
  ghost predicate Explained(w0: World, w: World, tasks: seq<Task>, fates: Fates) {
    && |w.progress| == |tasks|
    && (forall i | 0 <= i < |tasks| :: ProgressOk(w, tasks, fates, i))
    && (forall i | 0 <= i < |tasks| :: AllocationOk(w0, w, tasks, i))
    && (forall i, node | 0 <= i < |tasks| :: HeldOk(w0, w, tasks, fates, i, node))
    && (forall id | !Owned(tasks, id) :: SameAt(w0.allocations, w.allocations, id))
    && (forall id, node {:trigger (node, id)} | !Owned(tasks, id) :: SameAt(w0.held, w.held, (node, id)))
  }

  lemma ReachedNext(tasks: seq<Task>, fates: Fates, i: nat, n: nat, node: NodeID)
    requires i < |tasks| && n < |tasks[i].nodes|
    ensures Reached(tasks, fates, i, n + 1, node) <==>
              Reached(tasks, fates, i, n, node) || (tasks[i].nodes[n] == node && !fates(i, n).Failed?)
  {
  }

  lemma StepExplained(w0: World, w: World, tasks: seq<Task>, fates: Fates, i: nat)
    requires Explained(w0, w, tasks, fates) && DistinctIds(tasks) && i < |tasks|
    ensures Explained(w0, Step(w, tasks, fates, i), tasks, fates)
  {
    var w' := Step(w, tasks, fates, i);
    assert Owned(tasks, tasks[i].chunk.id);
    assert ProgressOk(w, tasks, fates, i);
    forall k | 0 <= k < |tasks| ensures ProgressOk(w', tasks, fates, k) {
      assert ProgressOk(w, tasks, fates, k);
    }
    forall k | 0 <= k < |tasks| ensures AllocationOk(w0, w', tasks, k) {
      assert AllocationOk(w0, w, tasks, k);
    }
    forall k, node | 0 <= k < |tasks| ensures HeldOk(w0, w', tasks, fates, k, node) {
      assert HeldOk(w0, w, tasks, fates, k, node);
      if k == i && w.progress[i].next < |tasks[i].nodes| { ReachedNext(tasks, fates, i, w.progress[i].next, node); }
    }
  }

  lemma {:induction false} RunExplained(w0: World, tasks: seq<Task>, fates: Fates, schedule: seq<nat>)
    requires w0 == Fresh(w0.held, w0.allocations, tasks) && DistinctIds(tasks) && ScheduleFor(schedule, tasks)
    ensures Explained(w0, Run(w0, tasks, fates, schedule), tasks, fates)
  {
    if schedule != [] {
      var front, i := schedule[..|schedule| - 1], schedule[|schedule| - 1];
      RunExplained(w0, tasks, fates, front);
      StepExplained(w0, Run(w0, tasks, fates, front), tasks, fates, i);
    }
  }

  /** Once every task has finished, what the nodes hold and what is allocated depend on which stores
      succeeded alone, not on the interleaving. */
  lemma OutcomeIgnoresSchedule(w0: World, tasks: seq<Task>, fates: Fates, schedule: seq<nat>, schedule': seq<nat>)
    requires w0 == Fresh(w0.held, w0.allocations, tasks) && DistinctIds(tasks)
    requires ScheduleFor(schedule, tasks) && ScheduleFor(schedule', tasks)
    requires AllFinished(Run(w0, tasks, fates, schedule)) && AllFinished(Run(w0, tasks, fates, schedule'))
    ensures Run(w0, tasks, fates, schedule).held == Run(w0, tasks, fates, schedule').held
    ensures Run(w0, tasks, fates, schedule).allocations == Run(w0, tasks, fates, schedule').allocations
  {
    RunExplained(w0, tasks, fates, schedule);
    RunExplained(w0, tasks, fates, schedule');
    SameOutcome(w0, Run(w0, tasks, fates, schedule), Run(w0, tasks, fates, schedule'), tasks, fates);
  }

  lemma SameOutcome(w0: World, w: World, w': World, tasks: seq<Task>, fates: Fates)
    requires Explained(w0, w, tasks, fates) && Explained(w0, w', tasks, fates) && AllFinished(w) && AllFinished(w')
    ensures w.held == w'.held && w.allocations == w'.allocations
  {
    forall id ensures SameAt(w.allocations, w'.allocations, id) {
      if Owned(tasks, id) {
        var i :| 0 <= i < |tasks| && tasks[i].chunk.id == id;
        BothFinished(w, w', tasks, fates, i);
        assert AllocationOk(w0, w, tasks, i) && AllocationOk(w0, w', tasks, i);
      }
    }
    forall key: (NodeID, ChunkID) ensures SameAt(w.held, w'.held, key) {
      var (node, id) := key;
      assert key == (node, id);
      if Owned(tasks, id) {
        var i :| 0 <= i < |tasks| && tasks[i].chunk.id == id;
        BothFinished(w, w', tasks, fates, i);
        assert HeldOk(w0, w, tasks, fates, i, node) && HeldOk(w0, w', tasks, fates, i, node);
      }
    }
    SameMaps(w.allocations, w'.allocations);
    SameMaps(w.held, w'.held);
  }

  lemma BothFinished(w: World, w': World, tasks: seq<Task>, fates: Fates, i: nat)
    requires i < |tasks| == |w.progress| == |w'.progress| && AllFinished(w) && AllFinished(w')
    requires ProgressOk(w, tasks, fates, i) && ProgressOk(w', tasks, fates, i)
    ensures w.progress[i] == w'.progress[i] == Progress(|tasks[i].nodes|, AckCount(fates, i, |tasks[i].nodes|), true)
  {
    assert w.progress[i] in w.progress && w'.progress[i] in w'.progress;
  }

  lemma SameMaps<K(!new), V>(a: map<K, V>, b: map<K, V>)
    requires forall k :: SameAt(a, b, k)
    ensures a == b
  {
    forall k ensures (k in a <==> k in b) && (k in a ==> a[k] == b[k]) { assert SameAt(a, b, k); }
  }

  // ---------------------------------------------------------------- reading back

  /** Whether a node can be asked for a chunk and answers. */
  type Reachable = (NodeID, ChunkID) -> bool

  /** The chunk from the first of the nodes that answers with it. */
  function FetchFrom(held: map<(NodeID, ChunkID), Bytes>, up: Reachable, nodes: seq<NodeID>, id: ChunkID): Option<Bytes> {
    if nodes == [] then None
    else if up(nodes[0], id) && (nodes[0], id) in held then Some(held[(nodes[0], id)])
    else FetchFrom(held, up, nodes[1..], id)
  }

  function Fetch(w: World, up: Reachable, id: ChunkID): Option<Bytes> {
    if id in w.allocations then FetchFrom(w.held, up, w.allocations[id], id) else None
  }

  /** What a download of the chunks sends, `sends(k)` saying whether the `k`-th send goes through, and
      whether it ends well. */
  function Download(w: World, up: Reachable, sends: nat -> bool, ids: seq<ChunkID>): (seq<Bytes>, bool) {
    if ids == [] then ([], true)
    else
      var (sent, ok) := Download(w, up, sends, ids[..|ids| - 1]);
      var data := Fetch(w, up, ids[|ids| - 1]);
      if ok && data.Some? && sends(|ids| - 1) then (sent + [data.value], true) else (sent, false)
  }

  /** The file entry's list: every chunk in order, whether or not it was stored. */
  function Ids(chunks: seq<Chunk>): (ids: seq<ChunkID>)
    ensures |ids| == |chunks|
  {
    seq(|chunks|, i requires 0 <= i < |chunks| => chunks[i].id)
  }

  /** Chunk `i` was acknowledged by a node, and a node that has it answers. */
  predicate Retrievable(tasks: seq<Task>, fates: Fates, up: Reachable, i: nat)
    requires i < |tasks|
  {
    && AckCount(fates, i, |tasks[i].nodes|) > 0
    && exists j | 0 <= j < |tasks[i].nodes| ::
         up(tasks[i].nodes[j], tasks[i].chunk.id) && Reached(tasks, fates, i, |tasks[i].nodes|, tasks[i].nodes[j])
  }

  /** Nothing is known of the chunk IDs before the upload. */
  predicate FreshIds(w0: World, tasks: seq<Task>) {
    forall t <- tasks :: t.chunk.id !in w0.allocations && forall k <- w0.held :: k.1 != t.chunk.id
  }

  lemma {:induction false} FetchFromIff(held: map<(NodeID, ChunkID), Bytes>, up: Reachable, nodes: seq<NodeID>,
                                        id: ChunkID, data: Bytes)
    requires forall node | (node, id) in held :: held[(node, id)] == data
    ensures var r := FetchFrom(held, up, nodes, id);
            && (r.Some? ==> r.value == data)
            && (r.Some? <==> exists j | 0 <= j < |nodes| :: up(nodes[j], id) && (nodes[j], id) in held)
  {
    if nodes != [] && !(up(nodes[0], id) && (nodes[0], id) in held) {
      FetchFromIff(held, up, nodes[1..], id, data);
      forall j | 0 <= j < |nodes| && up(nodes[j], id) && (nodes[j], id) in held
        ensures exists k | 0 <= k < |nodes[1..]| :: up(nodes[1..][k], id) && (nodes[1..][k], id) in held
      {
        assert nodes[1..][j - 1] == nodes[j];
      }
      assert forall k | 0 <= k < |nodes[1..]| :: nodes[1..][k] == nodes[k + 1];
    }
  }

  /** After the stores, a chunk is fetched exactly when it is retrievable, and then unchanged. */
  lemma FetchIff(w0: World, w: World, tasks: seq<Task>, fates: Fates, up: Reachable, i: nat)
    requires Explained(w0, w, tasks, fates) && AllFinished(w) && FreshIds(w0, tasks) && i < |tasks|
    ensures var r := Fetch(w, up, tasks[i].chunk.id);
            (r.Some? <==> Retrievable(tasks, fates, up, i)) && (r.Some? ==> r.value == tasks[i].chunk.data)
  {
    var id, nodes := tasks[i].chunk.id, tasks[i].nodes;
    assert tasks[i] in tasks;
    BothFinished(w, w, tasks, fates, i);
    assert AllocationOk(w0, w, tasks, i);
    forall node
      ensures (node, id) in w.held <==> Reached(tasks, fates, i, |nodes|, node)
      ensures (node, id) in w.held ==> w.held[(node, id)] == tasks[i].chunk.data
    {
      assert HeldOk(w0, w, tasks, fates, i, node);
      assert (node, id) !in w0.held;
    }
    FetchFromIff(w.held, up, nodes, id, tasks[i].chunk.data);
  }

  function ChunksOf(tasks: seq<Task>): (cs: seq<Chunk>)
    ensures |cs| == |tasks|
  {
    seq(|tasks|, i requires 0 <= i < |tasks| => tasks[i].chunk)
  }

  /** Every chunk is retrievable and sent. */
  ghost predicate GoesThrough(tasks: seq<Task>, fates: Fates, up: Reachable, sends: nat -> bool) {
    forall i | 0 <= i < |tasks| :: Retrievable(tasks, fates, up, i) && sends(i)
  }

  lemma {:induction false} DownloadIs(w: World, up: Reachable, sends: nat -> bool, ids: seq<ChunkID>, parts: seq<Bytes>)
    requires |parts| == |ids|
    requires forall i | 0 <= i < |ids| :: Fetch(w, up, ids[i]) in {None, Some(parts[i])}
    ensures var (sent, ok) := Download(w, up, sends, ids);
            && |sent| <= |parts| && sent == parts[..|sent|] && (ok ==> sent == parts)
            && (ok <==> forall i | 0 <= i < |ids| :: Fetch(w, up, ids[i]).Some? && sends(i))
  {
    if ids != [] {
      var n := |ids| - 1;
      DownloadIs(w, up, sends, ids[..n], parts[..n]);
      assert forall i | 0 <= i < n :: ids[..n][i] == ids[i];
      assert parts == parts[..n] + [parts[n]];
    }
  }

  lemma {:induction false} ConcatPrefix(parts: seq<Bytes>, n: nat)
    requires n <= |parts|
    ensures Concat(parts[..n]) <= Concat(parts)
  {
    assert parts == parts[..n] + parts[n..];
    ConcatAppend(parts[..n], parts[n..]);
  }

  lemma FetchAll(w0: World, w: World, tasks: seq<Task>, fates: Fates, up: Reachable, ids: seq<ChunkID>, parts: seq<Bytes>)
    requires Explained(w0, w, tasks, fates) && AllFinished(w) && FreshIds(w0, tasks)
    requires ids == Ids(ChunksOf(tasks)) && parts == Parts(ChunksOf(tasks))
    ensures forall i | 0 <= i < |tasks| ::
              && Fetch(w, up, ids[i]) in {None, Some(parts[i])}
              && (Fetch(w, up, ids[i]).Some? <==> Retrievable(tasks, fates, up, i))
  {
    forall i | 0 <= i < |tasks|
      ensures Fetch(w, up, ids[i]) in {None, Some(parts[i])}
      ensures Fetch(w, up, ids[i]).Some? <==> Retrievable(tasks, fates, up, i)
    {
      FetchIff(w0, w, tasks, fates, up, i);
    }
  }

  /** Write, then read: whatever the interleaving of the stores, a download of the uploaded file sends a
      prefix of the uploaded bytes; it sends them all and ends well exactly when every chunk was
      acknowledged somewhere, a node that has it answers, and every send goes through. */
  lemma WriteThenRead(w0: World, tasks: seq<Task>, fates: Fates, schedule: seq<nat>, up: Reachable, sends: nat -> bool,
                      uploaded: Bytes)
    requires w0 == Fresh(w0.held, w0.allocations, tasks) && DistinctIds(tasks) && FreshIds(w0, tasks)
    requires ScheduleFor(schedule, tasks) && AllFinished(Run(w0, tasks, fates, schedule))
    requires Parts(ChunksOf(tasks)) == Chunked(uploaded)
    ensures var (sent, ok) := Download(Run(w0, tasks, fates, schedule), up, sends, Ids(ChunksOf(tasks)));
            && Concat(sent) <= uploaded
            && (ok ==> Concat(sent) == uploaded)
            && (ok <==> GoesThrough(tasks, fates, up, sends))
  {
    var w, parts, ids := Run(w0, tasks, fates, schedule), Parts(ChunksOf(tasks)), Ids(ChunksOf(tasks));
    RunExplained(w0, tasks, fates, schedule);
    DownloadAfter(w0, w, tasks, fates, up, sends, ids, parts);
    PartsAreBytes(parts, Download(w, up, sends, ids).0, uploaded);
  }

  lemma DownloadAfter(w0: World, w: World, tasks: seq<Task>, fates: Fates, up: Reachable, sends: nat -> bool,
                      ids: seq<ChunkID>, parts: seq<Bytes>)
    requires Explained(w0, w, tasks, fates) && AllFinished(w) && FreshIds(w0, tasks)
    requires ids == Ids(ChunksOf(tasks)) && parts == Parts(ChunksOf(tasks))
    ensures var (sent, ok) := Download(w, up, sends, ids);
            && |sent| <= |parts| && sent == parts[..|sent|] && (ok ==> sent == parts)
            && (ok <==> GoesThrough(tasks, fates, up, sends))
  {
    FetchAll(w0, w, tasks, fates, up, ids, parts);
    DownloadIs(w, up, sends, ids, parts);
  }

  lemma PartsAreBytes(parts: seq<Bytes>, sent: seq<Bytes>, uploaded: Bytes)
    requires parts == Chunked(uploaded) && |sent| <= |parts| && sent == parts[..|sent|]
    ensures Concat(sent) <= uploaded && (sent == parts ==> Concat(sent) == uploaded)
  {
    ChunkedIsWellCut(uploaded);
    ConcatPrefix(parts, |sent|);
  }

  // ---------------------------------------------------------------- identifiers used before

  /** What a node holds of chunk `i` after the stores: the new bytes if an attempt reached it, and what
      it held before if not. */
  function HeldAfter(w0: World, tasks: seq<Task>, fates: Fates, i: nat, node: NodeID): Option<Bytes>
    requires i < |tasks|
  {
    var (t, key) := (tasks[i], (node, tasks[i].chunk.id));
    if Reached(tasks, fates, i, |t.nodes|, node) then Some(t.chunk.data)
    else if key in w0.held then Some(w0.held[key])
    else None
  }

  /** The nodes a download asks for chunk `i`: this upload's once one acknowledged, an earlier one's if none did. */
  function Asked(w0: World, tasks: seq<Task>, fates: Fates, i: nat): seq<NodeID>
    requires i < |tasks|
  {
    var t := tasks[i];
    if AckCount(fates, i, |t.nodes|) > 0 then t.nodes
    else if t.chunk.id in w0.allocations then w0.allocations[t.chunk.id]
    else []
  }

  function FirstAnswer(w0: World, tasks: seq<Task>, fates: Fates, up: Reachable, i: nat, nodes: seq<NodeID>)
    : Option<Bytes>
    requires i < |tasks|
  {
    if nodes == [] then None
    else
      var data := HeldAfter(w0, tasks, fates, i, nodes[0]);
      if up(nodes[0], tasks[i].chunk.id) && data.Some? then data
      else FirstAnswer(w0, tasks, fates, up, i, nodes[1..])
  }

  /** What a download gets for chunk `i`, new or old. */
  function Answer(w0: World, tasks: seq<Task>, fates: Fates, up: Reachable, i: nat): Option<Bytes>
    requires i < |tasks|
  {
    FirstAnswer(w0, tasks, fates, up, i, Asked(w0, tasks, fates, i))
  }

  lemma {:induction false} FetchFromIs(w0: World, w: World, tasks: seq<Task>, fates: Fates, up: Reachable, i: nat,
                                       nodes: seq<NodeID>)
    requires Explained(w0, w, tasks, fates) && AllFinished(w) && i < |tasks|
    ensures FetchFrom(w.held, up, nodes, tasks[i].chunk.id) == FirstAnswer(w0, tasks, fates, up, i, nodes)
  {
    if nodes != [] {
      BothFinished(w, w, tasks, fates, i);
      assert HeldOk(w0, w, tasks, fates, i, nodes[0]);
      FetchFromIs(w0, w, tasks, fates, up, i, nodes[1..]);
    }
  }

  lemma FetchIs(w0: World, w: World, tasks: seq<Task>, fates: Fates, up: Reachable, i: nat)
    requires Explained(w0, w, tasks, fates) && AllFinished(w) && i < |tasks|
    ensures Fetch(w, up, tasks[i].chunk.id) == Answer(w0, tasks, fates, up, i)
  {
    BothFinished(w, w, tasks, fates, i);
    assert AllocationOk(w0, w, tasks, i);
    FetchFromIs(w0, w, tasks, fates, up, i, Asked(w0, tasks, fates, i));
  }

  function Answers(w0: World, tasks: seq<Task>, fates: Fates, up: Reachable): (r: seq<Option<Bytes>>)
    ensures |r| == |tasks| && forall i | 0 <= i < |tasks| :: r[i] == Answer(w0, tasks, fates, up, i)
  {
    seq(|tasks|, i requires 0 <= i < |tasks| => Answer(w0, tasks, fates, up, i))
  }

  /** The answers are sent in order up to the first that is missing or does not go through. */
  predicate Delivers(answers: seq<Option<Bytes>>, sends: nat -> bool, sent: seq<Bytes>, ok: bool) {
    && |sent| <= |answers| && (forall k | 0 <= k < |sent| :: answers[k] == Some(sent[k]) && sends(k))
    && if ok then |sent| == |answers| else |sent| < |answers| && (answers[|sent|].None? || !sends(|sent|))
  }

  lemma {:induction false} DownloadAnswers(w: World, up: Reachable, sends: nat -> bool, ids: seq<ChunkID>,
                                           answers: seq<Option<Bytes>>)
    requires |answers| == |ids| && forall i | 0 <= i < |ids| :: Fetch(w, up, ids[i]) == answers[i]
    ensures var (sent, ok) := Download(w, up, sends, ids); Delivers(answers, sends, sent, ok)
  {
    if ids != [] {
      var n := |ids| - 1;
      assert forall i | 0 <= i < n :: ids[..n][i] == ids[i];
      DownloadAnswers(w, up, sends, ids[..n], answers[..n]);
    }
  }

  /** Whatever was stored before under the same identifiers, and whatever the interleaving: a download
      sends the answers of the chunks in order, up to the first that is missing or not sent. */
  lemma ReadAfterWrite(w0: World, tasks: seq<Task>, fates: Fates, schedule: seq<nat>, up: Reachable,
                       sends: nat -> bool)
    requires w0 == Fresh(w0.held, w0.allocations, tasks) && DistinctIds(tasks)
    requires ScheduleFor(schedule, tasks) && AllFinished(Run(w0, tasks, fates, schedule))
    ensures var (sent, ok) := Download(Run(w0, tasks, fates, schedule), up, sends, Ids(ChunksOf(tasks)));
            Delivers(Answers(w0, tasks, fates, up), sends, sent, ok)
  {
    var w, ids := Run(w0, tasks, fates, schedule), Ids(ChunksOf(tasks));
    RunExplained(w0, tasks, fates, schedule);
    forall i | 0 <= i < |ids| ensures Fetch(w, up, ids[i]) == Answers(w0, tasks, fates, up)[i] {
      FetchIs(w0, w, tasks, fates, up, i);
    }
    DownloadAnswers(w, up, sends, ids, Answers(w0, tasks, fates, up));
  }

  // ---------------------------------------------------------------- never other bytes

  /** Some node asked for chunk `i` holds bytes under its identifier. */
  predicate Obtainable(w0: World, tasks: seq<Task>, fates: Fates, i: nat)
    requires i < |tasks|
  {
    exists node <- Asked(w0, tasks, fates, i) :: HeldAfter(w0, tasks, fates, i, node).Some?
  }

  /** Every node asked for chunk `i` holds the uploaded bytes under its identifier, or none: it was reached
      by this upload, or held nothing, or the same bytes, before. */
  predicate CleanAt(w0: World, tasks: seq<Task>, fates: Fates, i: nat)
    requires i < |tasks|
  {
    forall node <- Asked(w0, tasks, fates, i) ::
      HeldAfter(w0, tasks, fates, i, node) in {None, Some(tasks[i].chunk.data)}
  }

  /** Every chunk a download can come to is clean. */
  predicate Safe(w0: World, tasks: seq<Task>, fates: Fates) {
    forall i | 0 <= i < |tasks| && (forall j | 0 <= j < i :: Obtainable(w0, tasks, fates, j)) ::
      CleanAt(w0, tasks, fates, i)
  }

  lemma {:induction false} FirstAnswerIs(w0: World, tasks: seq<Task>, fates: Fates, up: Reachable, i: nat,
                                         nodes: seq<NodeID>)
    requires i < |tasks|
    ensures var r := FirstAnswer(w0, tasks, fates, up, i, nodes);
            && (r.Some? ==> exists node <- nodes ::
                  up(node, tasks[i].chunk.id) && HeldAfter(w0, tasks, fates, i, node) == r)
            && (r.None? ==> forall node <- nodes | up(node, tasks[i].chunk.id) ::
                  HeldAfter(w0, tasks, fates, i, node).None?)
  {
    if nodes != [] {
      FirstAnswerIs(w0, tasks, fates, up, i, nodes[1..]);
      assert nodes == [nodes[0]] + nodes[1..];
    }
  }

  /** Whoever answers and whatever is sent, a download of a safe upload sends none but its bytes. */
  lemma SafeDelivers(w0: World, tasks: seq<Task>, fates: Fates, up: Reachable, sends: nat -> bool, sent: seq<Bytes>,
                     ok: bool)
    requires Safe(w0, tasks, fates) && Delivers(Answers(w0, tasks, fates, up), sends, sent, ok)
    ensures sent <= Parts(ChunksOf(tasks))
  {
    var answers := Answers(w0, tasks, fates, up);
    forall k | 0 <= k < |sent| ensures Obtainable(w0, tasks, fates, k) {
      assert answers[k] == Answer(w0, tasks, fates, up, k) == Some(sent[k]);
      FirstAnswerIs(w0, tasks, fates, up, k, Asked(w0, tasks, fates, k));
    }
    forall k | 0 <= k < |sent| ensures sent[k] == Parts(ChunksOf(tasks))[k] {
      assert CleanAt(w0, tasks, fates, k) && answers[k] == Some(sent[k]);
      FirstAnswerIs(w0, tasks, fates, up, k, Asked(w0, tasks, fates, k));
    }
  }

  /** Every node answers, but for chunk `i` only one does. */
  function OnlyFor(tasks: seq<Task>, i: nat, node: NodeID): Reachable
    requires i < |tasks|
  {
    (n: NodeID, id: ChunkID) => id != tasks[i].chunk.id || n == node
  }

  /** Of an upload that is not safe, some download sends other bytes. */
  lemma UnsafeDelivers(w0: World, tasks: seq<Task>, fates: Fates)
      returns (up: Reachable, sends: nat -> bool, i: nat, other: Bytes)
    requires !Safe(w0, tasks, fates) && DistinctIds(tasks)
    ensures i < |tasks| && other != tasks[i].chunk.data
    ensures forall sent, ok :: Delivers(Answers(w0, tasks, fates, up), sends, sent, ok) ==>
              |sent| > i && sent[i] == other
  {
    i :| i < |tasks| && (forall j | 0 <= j < i :: Obtainable(w0, tasks, fates, j)) && !CleanAt(w0, tasks, fates, i);
    var node :| node in Asked(w0, tasks, fates, i)
                && HeldAfter(w0, tasks, fates, i, node) !in {None, Some(tasks[i].chunk.data)};
    up, sends, other := OnlyFor(tasks, i, node), (_ => true), HeldAfter(w0, tasks, fates, i, node).value;
    forall j | 0 <= j < i ensures Answer(w0, tasks, fates, up, j).Some? {
      AnswersBefore(w0, tasks, fates, i, node, j);
    }
    AnswersOnly(w0, tasks, fates, i, node);
  }

  lemma AnswersBefore(w0: World, tasks: seq<Task>, fates: Fates, i: nat, node: NodeID, j: nat)
    requires j < i < |tasks| && DistinctIds(tasks) && Obtainable(w0, tasks, fates, j)
    ensures Answer(w0, tasks, fates, OnlyFor(tasks, i, node), j).Some?
  {
    assert tasks[j].chunk.id != tasks[i].chunk.id;
    FirstAnswerIs(w0, tasks, fates, OnlyFor(tasks, i, node), j, Asked(w0, tasks, fates, j));
  }

  lemma AnswersOnly(w0: World, tasks: seq<Task>, fates: Fates, i: nat, node: NodeID)
    requires i < |tasks| && node in Asked(w0, tasks, fates, i) && HeldAfter(w0, tasks, fates, i, node).Some?
    ensures Answer(w0, tasks, fates, OnlyFor(tasks, i, node), i) == HeldAfter(w0, tasks, fates, i, node)
  {
    FirstAnswerIs(w0, tasks, fates, OnlyFor(tasks, i, node), i, Asked(w0, tasks, fates, i));
  }

  /** Once the stores are done, in whatever interleaving: no download ever sends other bytes than the
      uploaded ones exactly when the upload is safe. */
  lemma SafeIff(w0: World, tasks: seq<Task>, fates: Fates, schedule: seq<nat>)
    requires w0 == Fresh(w0.held, w0.allocations, tasks) && DistinctIds(tasks)
    requires ScheduleFor(schedule, tasks) && AllFinished(Run(w0, tasks, fates, schedule))
    ensures Safe(w0, tasks, fates) <==> NeverOther(Run(w0, tasks, fates, schedule), tasks)
  {
    var w, ids, parts := Run(w0, tasks, fates, schedule), Ids(ChunksOf(tasks)), Parts(ChunksOf(tasks));
    if Safe(w0, tasks, fates) {
      forall up, sends ensures Download(w, up, sends, ids).0 <= parts {
        ReadAfterWrite(w0, tasks, fates, schedule, up, sends);
        SafeDelivers(w0, tasks, fates, up, sends, Download(w, up, sends, ids).0, Download(w, up, sends, ids).1);
      }
    } else {
      var up, sends, i, other := UnsafeDelivers(w0, tasks, fates);
      ReadAfterWrite(w0, tasks, fates, schedule, up, sends);
      assert Download(w, up, sends, ids).0[i] != parts[i];
    }
  }

  /** Every download of the chunks sends a prefix of their bytes. */
  ghost predicate NeverOther(w: World, tasks: seq<Task>) {
    forall up, sends {:trigger Download(w, up, sends, Ids(ChunksOf(tasks)))} ::
      Download(w, up, sends, Ids(ChunksOf(tasks))).0 <= Parts(ChunksOf(tasks))
  }

  /** With identifiers that were not used before, every upload is safe. */
  lemma FreshIsSafe(w0: World, tasks: seq<Task>, fates: Fates)
    requires FreshIds(w0, tasks)
    ensures Safe(w0, tasks, fates)
  {
    forall i | 0 <= i < |tasks| ensures CleanAt(w0, tasks, fates, i) { assert tasks[i] in tasks; }
  }

  /** A node that answers for chunk `i` and holds bytes under its identifier is among those asked. */
  predicate Readable(w0: World, tasks: seq<Task>, fates: Fates, up: Reachable, i: nat)
    requires i < |tasks|
  {
    exists node <- Asked(w0, tasks, fates, i) ::
      up(node, tasks[i].chunk.id) && HeldAfter(w0, tasks, fates, i, node).Some?
  }

  /** A download ends well exactly when every chunk is readable and sent. */
  lemma EndsWellIff(w0: World, tasks: seq<Task>, fates: Fates, up: Reachable, sends: nat -> bool, sent: seq<Bytes>,
                    ok: bool)
    requires Delivers(Answers(w0, tasks, fates, up), sends, sent, ok)
    ensures ok <==> forall i | 0 <= i < |tasks| :: Readable(w0, tasks, fates, up, i) && sends(i)
  {
    forall i | 0 <= i < |tasks| ensures Answer(w0, tasks, fates, up, i).Some? <==> Readable(w0, tasks, fates, up, i) {
      FirstAnswerIs(w0, tasks, fates, up, i, Asked(w0, tasks, fates, i));
    }
  }

  /** An upload whose every store fails changes neither what nodes hold nor what is allocated. */
  lemma {:induction false} FailedStoresChangeNothing(w0: World, tasks: seq<Task>, fates: Fates, schedule: seq<nat>)
    requires w0 == Fresh(w0.held, w0.allocations, tasks) && ScheduleFor(schedule, tasks)
    requires forall i, j :: fates(i, j).Failed?
    ensures var w := Run(w0, tasks, fates, schedule);
            w.held == w0.held && w.allocations == w0.allocations && forall p <- w.progress :: p.successCount == 0
  {
    if schedule != [] {
      var front, i := schedule[..|schedule| - 1], schedule[|schedule| - 1];
      FailedStoresChangeNothing(w0, tasks, fates, front);
      var w := Run(w0, tasks, fates, front);
      assert w.progress[i] in w.progress;
    }
  }
}
