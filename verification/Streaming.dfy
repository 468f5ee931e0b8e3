/** The coordinator's side of streamed uploads and downloads: the processor loop, the file entry, the read. */
module Streaming {
  import opened ChunkIDs
  import opened ChunkStores
  import opened Chunking
  import opened Types
  import opened Wrappers

  datatype ReadError = NoSuchFile | HeaderNotSent | NoNodes(id: ChunkID) | NotRetrieved(id: ChunkID) | NotSent(index: nat)

  class FileEntry {
    var size: int
    var chunkIDs: seq<ChunkID>

    constructor ()
      ensures size == 0 && chunkIDs == []
    {
      size, chunkIDs := 0, [];
    }
  }

  class StreamCoordinator {
    var fileEntries: map<string, FileEntry>
    var chunkAllocations: map<ChunkID, seq<NodeID>>

    constructor ()
      ensures fileEntries == map[] && chunkAllocations == map[]
    {
      fileEntries, chunkAllocations := map[], map[];
    }

    /** Different paths have different entry objects. */
    ghost predicate Valid()
      reads this`fileEntries
    {
      forall p, q | p in fileEntries && q in fileEntries && p != q :: fileEntries[p] != fileEntries[q]
    }

    method UpdateFileMetadata(path: string, chunkIDs: seq<ChunkID>, size: int)
      requires Valid()
      modifies fileEntries.Values
      ensures path in fileEntries ==> fileEntries[path].chunkIDs == chunkIDs && fileEntries[path].size == size
      ensures forall p | p in fileEntries && p != path :: unchanged(fileEntries[p])
    {
      if path in fileEntries {
        var entry := fileEntries[path];
        entry.size := size;
        entry.chunkIDs := chunkIDs;
      }
    }

    /** Asks the allocated nodes one after another. */
    method RetrieveChunk(held: map<(NodeID, ChunkID), Bytes>, up: Reachable, nodes: seq<NodeID>, id: ChunkID)
        returns (data: Option<Bytes>)
      ensures data == FetchFrom(held, up, nodes, id)
    {
      assert nodes[0..] == nodes;
      for j := 0 to |nodes|
        invariant FetchFrom(held, up, nodes, id) == FetchFrom(held, up, nodes[j..], id)
      {
        assert nodes[j..][1..] == nodes[j + 1..];
        if up(nodes[j], id) && (nodes[j], id) in held {
          return Some(held[(nodes[j], id)]);
        }
      }
      return None;
    }

    /** `sends(0)` is the header's fate and `sends(k + 1)` chunk `k`'s. */
    method ReadFileStream(path: string, held: map<(NodeID, ChunkID), Bytes>, up: Reachable, sends: nat -> bool)
        returns (sent: seq<Bytes>, r: Result<(), ReadError>)
      ensures path !in fileEntries || !sends(0) ==> sent == [] && r.Failure?
      ensures path in fileEntries && sends(0) ==>
                (sent, r.Success?) == Download(World(held, chunkAllocations, []), up, Later(sends),
                                               fileEntries[path].chunkIDs)
      ensures r.Failure? && r.error.NotRetrieved? ==>
                Fetch(World(held, chunkAllocations, []), up, r.error.id).None? && r.error.id in chunkAllocations
    {
      sent := [];
      if path !in fileEntries {
        r := Failure(NoSuchFile);
      } else if !sends(0) {
        r := Failure(HeaderNotSent);
      } else {
        sent, r := SendChunks(fileEntries[path].chunkIDs, held, up, sends);
      }
    }

    method SendChunks(chunkIDs: seq<ChunkID>, held: map<(NodeID, ChunkID), Bytes>, up: Reachable, sends: nat -> bool)
        returns (sent: seq<Bytes>, r: Result<(), ReadError>)
      ensures (sent, r.Success?) == Download(World(held, chunkAllocations, []), up, Later(sends), chunkIDs)
      ensures r.Failure? && r.error.NotRetrieved? ==>
                Fetch(World(held, chunkAllocations, []), up, r.error.id).None? && r.error.id in chunkAllocations
    {
      sent := [];
      ghost var w := World(held, chunkAllocations, []);
      for i := 0 to |chunkIDs|
        invariant Download(w, up, Later(sends), chunkIDs[..i]) == (sent, true)
      {
        var data, failure := SendChunk(chunkIDs, i, held, up, sends, sent);
        if failure.Some? {
          StuckAt(w, up, Later(sends), chunkIDs, i + 1);
          return sent, Failure(failure.value);
        }
        sent := sent + [data];
      }
      assert chunkIDs[..|chunkIDs|] == chunkIDs;
      return sent, Success(());
    }

    /** One chunk: its bytes, or why it is not sent. */
    method SendChunk(chunkIDs: seq<ChunkID>, i: nat, held: map<(NodeID, ChunkID), Bytes>, up: Reachable,
                     sends: nat -> bool, ghost sent: seq<Bytes>)
        returns (data: Bytes, failure: Option<ReadError>)
      requires i < |chunkIDs|
      requires Download(World(held, chunkAllocations, []), up, Later(sends), chunkIDs[..i]) == (sent, true)
      ensures Download(World(held, chunkAllocations, []), up, Later(sends), chunkIDs[..i + 1])
              == if failure.None? then (sent + [data], true) else (sent, false)
      ensures failure.Some? && failure.value.NotRetrieved? ==>
                && failure.value.id in chunkAllocations
                && Fetch(World(held, chunkAllocations, []), up, failure.value.id).None?
    {
      assert chunkIDs[..i + 1][..i] == chunkIDs[..i];
      var chunkID := chunkIDs[i];
      data, failure := [], None;
      if chunkID !in chunkAllocations || chunkAllocations[chunkID] == [] {
        failure := Some(NoNodes(chunkID));
      } else {
        var retrieved := RetrieveChunk(held, up, chunkAllocations[chunkID], chunkID);
        if retrieved.None? {
          failure := Some(NotRetrieved(chunkID));
        } else if !sends(i + 1) {
          failure := Some(NotSent(i));
        } else {
          data := retrieved.value;
        }
      }
    }

    /** The next action of one store goroutine: an attempt on a node, or recording the allocation. */
    method StoreStep(tasks: seq<Task>, fates: Fates, i: nat, held: map<(NodeID, ChunkID), Bytes>,
                     progress: seq<Progress>)
        returns (held': map<(NodeID, ChunkID), Bytes>, progress': seq<Progress>)
      requires i < |tasks| == |progress| && !progress[i].finished
      modifies this`chunkAllocations
      ensures World(held', chunkAllocations, progress')
              == Step(World(held, old(chunkAllocations), progress), tasks, fates, i)
    {
      var (p, t) := (progress[i], tasks[i]);
      held' := held;
      if p.next < |t.nodes| {
        var fate := fates(i, p.next);
        var successCount := p.successCount;
        if !fate.Failed? {
          held' := held[(t.nodes[p.next], t.chunk.id) := t.chunk.data];
        }
        if fate.Acked? {
          successCount := successCount + 1;
        }
        progress' := progress[i := Progress(p.next + 1, successCount, false)];
      } else {
        if p.successCount > 0 {
          chunkAllocations := chunkAllocations[t.chunk.id := t.nodes];
        }
        progress' := progress[i := p.(finished := true)];
      }
    }

    /** Runs the store goroutines to the end, in any interleaving. */
    method StoreChunks(tasks: seq<Task>, fates: Fates, held: map<(NodeID, ChunkID), Bytes>)
        returns (held': map<(NodeID, ChunkID), Bytes>, ghost schedule: seq<nat>)
      modifies this`chunkAllocations
      ensures ScheduleFor(schedule, tasks)
      ensures var w := Run(Fresh(held, old(chunkAllocations), tasks), tasks, fates, schedule);
              AllFinished(w) && w.held == held' && w.allocations == chunkAllocations
    {
      var progress := seq(|tasks|, _ => Progress(0, 0, false));
      ghost var w0 := Fresh(held, chunkAllocations, tasks);
      held', schedule := held, [];
      while exists p <- progress :: !p.finished
        invariant |progress| == |tasks| && ScheduleFor(schedule, tasks)
        invariant World(held', chunkAllocations, progress) == Run(w0, tasks, fates, schedule)
        decreases Left(tasks, progress)
      {
        var i: nat :| i < |progress| && !progress[i].finished;
        StepLeaves(World(held', chunkAllocations, progress), tasks, fates, i);
        RunNext(w0, tasks, fates, schedule, i);
        held', progress := StoreStep(tasks, fates, i, held', progress);
        schedule := schedule + [i];
      }
    }

    /** A streamed upload: the loop, the processor's tasks with their stores, and the file entry, which
        changes only when the loop completed, some node is healthy, every chunk found nodes, and the
        stream was not cancelled in the final wait. */
    method WriteFileStream(ms: seq<Message>, stops: nat -> bool, healthy: bool,
                           allocate: Chunk -> Option<seq<NodeID>>, fates: Fates,
                           held: map<(NodeID, ChunkID), Bytes>, cancelled: bool)
        returns (outcome: Outcome, stored: bool, totalReceived: nat, held': map<(NodeID, ChunkID), Bytes>,
                 ghost chunks: seq<Chunk>, ghost tasks: seq<Task>, ghost schedule: seq<nat>)
      requires Valid()
      modifies this`chunkAllocations, fileEntries.Values
      ensures Valid() && Ended(ms, fileEntries.Keys, stops, outcome, chunks, totalReceived)
      ensures outcome.Complete? ==> chunks == Numbered(Chunked(Payload(ms)), ChunkIDOf, outcome.path)
      ensures stored <==> outcome.Complete? && healthy && |tasks| == |chunks| && !cancelled
      ensures ChunksOf(tasks) <= chunks && forall t <- tasks :: allocate(t.chunk) == Some(t.nodes)
      ensures if healthy then |tasks| < |chunks| ==> allocate(chunks[|tasks|]).None? else tasks == []
      ensures ScheduleFor(schedule, tasks)
      ensures var w := Run(Fresh(held, old(chunkAllocations), tasks), tasks, fates, schedule);
              AllFinished(w) && w.held == held' && w.allocations == chunkAllocations
      ensures stored && outcome.path in fileEntries ==>
                fileEntries[outcome.path].chunkIDs == Ids(chunks) && fileEntries[outcome.path].size == |Payload(ms)|
      ensures forall p | p in fileEntries && !(stored && p == outcome.path) :: unchanged(fileEntries[p])
    {
      var received, started, listed;
      outcome, received, totalReceived := ReceiveUpload(ms, fileEntries.Keys, ChunkIDOf, stops);
      started, listed := ProcessStreamingChunks(received, healthy, allocate);
      chunks, tasks := received, started;
      held', schedule := StoreChunks(started, fates, held);
      stored := outcome.Complete? && listed.Some? && !cancelled;
      assert ms[..|ms|] == ms;
      if stored {
        UpdateFileMetadata(outcome.path, listed.value, totalReceived);
      }
    }
  }

  /** What is left to do for the tasks: their attempts, and one action to finish. */
  function Left(tasks: seq<Task>, progress: seq<Progress>): nat
    requires |tasks| == |progress|
  {
    if tasks == [] then 0
    else
      var (t, p) := (tasks[|tasks| - 1], progress[|tasks| - 1]);
      Left(tasks[..|tasks| - 1], progress[..|tasks| - 1])
      + (if p.finished then 0 else 1 + if p.next < |t.nodes| then |t.nodes| - p.next else 0)
  }

  lemma {:induction false} LessLeft(tasks: seq<Task>, progress: seq<Progress>, i: nat, p: Progress)
    requires i < |tasks| == |progress| && !progress[i].finished
    requires p.finished || progress[i].next < p.next <= |tasks[i].nodes|
    ensures Left(tasks, progress[i := p]) < Left(tasks, progress)
  {
    var n := |tasks| - 1;
    if i == n {
      assert progress[i := p][..n] == progress[..n];
    } else {
      assert progress[i := p][..n] == progress[..n][i := p];
      LessLeft(tasks[..n], progress[..n], i, p);
    }
  }

  /** Each action of a task that has not finished leaves less to do. */
  lemma StepLeaves(w: World, tasks: seq<Task>, fates: Fates, i: nat)
    requires i < |tasks| == |w.progress| && !w.progress[i].finished
    ensures var w' := Step(w, tasks, fates, i);
            |w'.progress| == |tasks| && Left(tasks, w'.progress) < Left(tasks, w.progress)
  {
    LessLeft(tasks, w.progress, i, Step(w, tasks, fates, i).progress[i]);
  }

  lemma RunNext(w: World, tasks: seq<Task>, fates: Fates, schedule: seq<nat>, i: nat)
    requires |tasks| == |w.progress| && ScheduleFor(schedule, tasks) && i < |tasks|
    ensures ScheduleFor(schedule + [i], tasks)
    ensures Run(w, tasks, fates, schedule + [i]) == Step(Run(w, tasks, fates, schedule), tasks, fates, i)
  {
    assert (schedule + [i])[..|schedule|] == schedule;
  }

  /** A download that fails sends nothing more. */
  lemma {:induction false} StuckAt(w: World, up: Reachable, sends: nat -> bool, ids: seq<ChunkID>, n: nat)
    requires n <= |ids| && !Download(w, up, sends, ids[..n]).1
    ensures Download(w, up, sends, ids) == Download(w, up, sends, ids[..n])
    decreases |ids|
  {
    if n < |ids| {
      assert ids[..|ids| - 1][..n] == ids[..n];
      StuckAt(w, up, sends, ids[..|ids| - 1], n);
    } else {
      assert ids[..n] == ids;
    }
  }

  /** The processor: refuses when no node is healthy; otherwise allocates nodes to each chunk and launches
      its task, until an allocation fails. The list it returns names every chunk, however its stores come
      out. */
  method ProcessStreamingChunks(chunks: seq<Chunk>, healthy: bool, allocate: Chunk -> Option<seq<NodeID>>)
      returns (tasks: seq<Task>, r: Option<seq<ChunkID>>)
    ensures r.Some? ==> healthy && ChunksOf(tasks) == chunks && r.value == Ids(chunks)
    ensures r.None? ==> if healthy then ChunksOf(tasks) < chunks && allocate(chunks[|tasks|]).None? else tasks == []
    ensures forall t <- tasks :: allocate(t.chunk) == Some(t.nodes)
  {
    tasks := [];
    if !healthy {
      return tasks, None;
    }
    var storedChunks: seq<ChunkID> := [];
    for i := 0 to |chunks|
      invariant |tasks| == i && ChunksOf(tasks) == chunks[..i] && storedChunks == Ids(chunks[..i])
      invariant forall t <- tasks :: allocate(t.chunk) == Some(t.nodes)
    {
      var allocation := allocate(chunks[i]);
      if allocation.None? {
        return tasks, None;
      }
      tasks := tasks + [Task(chunks[i], allocation.value)];
      storedChunks := storedChunks + [chunks[i].id];
    }
    assert chunks[..|chunks|] == chunks;
    return tasks, Some(storedChunks);
  }

  /** The chunks of one upload have different identifiers. */
  lemma NumberedDistinct(tasks: seq<Task>, parts: seq<Bytes>, path: string)
    requires ChunksOf(tasks) == Numbered(parts, ChunkIDOf, path)
    ensures DistinctIds(tasks) && Parts(ChunksOf(tasks)) == parts
  {
    assert forall i | 0 <= i < |tasks| :: tasks[i].chunk == ChunksOf(tasks)[i];
    forall i, j | 0 <= i < j < |tasks| ensures tasks[i].chunk.id != tasks[j].chunk.id {
      SameIDIff(path, i, path, j);
    }
    PartsOfNumbered(parts, ChunkIDOf, path);
  }

  /** A download after an upload's stores, in any interleaving. It ends well exactly when every chunk is
      readable and sent, and then it has sent one part for each. If the upload is safe, it sends a prefix
      of the uploaded bytes; with identifiers not used before, it is, and every chunk is readable exactly
      when it is retrievable. */
  lemma UploadThenDownload(ms: seq<Message>, path: string, w0: World, tasks: seq<Task>, fates: Fates,
                           schedule: seq<nat>, up: Reachable, sends: nat -> bool)
    requires ChunksOf(tasks) == Numbered(Chunked(Payload(ms)), ChunkIDOf, path)
    requires w0 == Fresh(w0.held, w0.allocations, tasks)
    requires ScheduleFor(schedule, tasks) && AllFinished(Run(w0, tasks, fates, schedule))
    ensures var (sent, ok) := Download(Run(w0, tasks, fates, schedule), up, sends, Ids(ChunksOf(tasks)));
            && (ok <==> AllReadable(w0, tasks, fates, up, sends)) && (ok ==> |sent| == |tasks|)
            && (Safe(w0, tasks, fates) ==>
                  Concat(sent) <= Payload(ms) && (ok ==> Concat(sent) == Payload(ms)))
            && (FreshIds(w0, tasks) ==>
                  Safe(w0, tasks, fates) && (ok <==> GoesThrough(tasks, fates, up, sends)))
  {
    NumberedDistinct(tasks, Chunked(Payload(ms)), path);
    ReadAfterWrite(w0, tasks, fates, schedule, up, sends);
    var (sent, ok) := Download(Run(w0, tasks, fates, schedule), up, sends, Ids(ChunksOf(tasks)));
    EndsWellIff(w0, tasks, fates, up, sends, sent, ok);
    if Safe(w0, tasks, fates) {
      SafeDelivers(w0, tasks, fates, up, sends, sent, ok);
      PrefixOfPayload(Payload(ms), sent);
    }
    if FreshIds(w0, tasks) {
      FreshIsSafe(w0, tasks, fates);
      WriteThenRead(w0, tasks, fates, schedule, up, sends, Payload(ms));
    }
  }

  lemma PrefixOfPayload(payload: Bytes, sent: seq<Bytes>)
    requires sent <= Chunked(payload)
    ensures Concat(sent) <= payload && (|sent| == |Chunked(payload)| ==> Concat(sent) == payload)
  {
    ChunkedIsWellCut(payload);
    PrefixConcat(Chunked(payload), sent);
  }

  lemma {:induction false} PrefixConcat(parts: seq<Bytes>, sent: seq<Bytes>)
    requires sent <= parts
    ensures Concat(sent) <= Concat(parts) && (|sent| == |parts| ==> Concat(sent) == Concat(parts))
  {
    if sent != [] {
      PrefixConcat(parts[1..], sent[1..]);
    }
  }

  /** Every chunk is readable, and sent. */
  predicate AllReadable(w0: World, tasks: seq<Task>, fates: Fates, up: Reachable, sends: nat -> bool) {
    forall i | 0 <= i < |tasks| :: Readable(w0, tasks, fates, up, i) && sends(i)
  }

  function Later(sends: nat -> bool): nat -> bool {
    (k: nat) => sends(k + 1)
  }

  /** A streamed upload followed by a download of its file. Whether any download from then on can send
      other bytes is decided by what the nodes held before and which stores reached them. */
  method WriteThenReadStream(c: StreamCoordinator, ms: seq<Message>, stops: nat -> bool, healthy: bool,
                             allocate: Chunk -> Option<seq<NodeID>>, fates: Fates,
                             held: map<(NodeID, ChunkID), Bytes>, cancelled: bool, up: Reachable, sends: nat -> bool)
      returns (outcome: Outcome, stored: bool, held': map<(NodeID, ChunkID), Bytes>, sent: seq<Bytes>,
               r: Result<(), ReadError>, ghost tasks: seq<Task>)
    requires c.Valid()
    modifies c`chunkAllocations, c.fileEntries.Values
    ensures c.Valid() && forall t <- tasks :: allocate(t.chunk) == Some(t.nodes)
    ensures stored ==> outcome.Complete? && ChunksOf(tasks) == Numbered(Chunked(Payload(ms)), ChunkIDOf, outcome.path)
    ensures stored ==> (Safe(Fresh(held, old(c.chunkAllocations), tasks), tasks, fates)
                        <==> NeverOther(World(held', c.chunkAllocations, []), tasks))
    ensures stored && outcome.path in c.fileEntries ==> c.fileEntries[outcome.path].chunkIDs == Ids(ChunksOf(tasks))
    ensures stored && outcome.path in c.fileEntries && sends(0) ==>
              var w0 := Fresh(held, old(c.chunkAllocations), tasks);
              && (r.Success? <==> AllReadable(w0, tasks, fates, up, Later(sends)))
              && (Safe(w0, tasks, fates) ==>
                    Concat(sent) <= Payload(ms) && (r.Success? ==> Concat(sent) == Payload(ms)))
              && (FreshIds(w0, tasks) ==>
                    Safe(w0, tasks, fates) && (r.Success? <==> GoesThrough(tasks, fates, up, Later(sends))))
  {
    var total;
    ghost var chunks, schedule;
    ghost var before := c.chunkAllocations;
    outcome, stored, total, held', chunks, tasks, schedule :=
      c.WriteFileStream(ms, stops, healthy, allocate, fates, held, cancelled);
    var path := if outcome.Complete? then outcome.path else "";
    sent, r := c.ReadFileStream(path, held', up, sends);
    if stored {
      ghost var w0 := Fresh(held, before, tasks);
      ghost var w := Run(w0, tasks, fates, schedule);
      UploadThenDownload(ms, path, w0, tasks, fates, schedule, up, Later(sends));
      DownloadByParts(w, World(held', c.chunkAllocations, []), up, Later(sends), Ids(chunks));
      NumberedDistinct(tasks, Chunked(Payload(ms)), path);
      SafeIff(w0, tasks, fates, schedule);
      NeverOtherByParts(w, World(held', c.chunkAllocations, []), tasks);
    }
  }

  /** A download looks only at what nodes hold and what is allocated. */
  lemma {:induction false} DownloadByParts(w: World, w': World, up: Reachable, sends: nat -> bool, ids: seq<ChunkID>)
    requires w.held == w'.held && w.allocations == w'.allocations
    ensures Download(w, up, sends, ids) == Download(w', up, sends, ids)
  {
    if ids != [] { DownloadByParts(w, w', up, sends, ids[..|ids| - 1]); }
  }

  lemma NeverOtherByParts(w: World, w': World, tasks: seq<Task>)
    requires w.held == w'.held && w.allocations == w'.allocations
    ensures NeverOther(w, tasks) <==> NeverOther(w', tasks)
  {
    forall up, sends
      ensures Download(w, up, sends, Ids(ChunksOf(tasks))) == Download(w', up, sends, Ids(ChunksOf(tasks)))
    {
      DownloadByParts(w, w', up, sends, Ids(ChunksOf(tasks)));
    }
  }

  // ---------------------------------------------------------------- old bytes

  function Everyone(): Reachable {
    (node: NodeID, id: ChunkID) => true
  }

  function Always(): nat -> bool {
    (k: nat) => true
  }

  function Every(attempt: Attempt): Fates {
    (i: nat, j: nat) => attempt
  }

  /** The messages of an upload of one byte. */
  function OneByte(path: string, b: Byte): seq<Message> {
    [Header(path), ChunkData([b])]
  }

  function TaskOfByte(path: string, b: Byte, node: NodeID): Task {
    Task(Chunk(ChunkIDOf(path, 0), path, 0, [b]), [node])
  }

  lemma ChunksOfByte(path: string, b: Byte, node: NodeID)
    ensures ChunksOf([TaskOfByte(path, b, node)]) == Numbered(Chunked(Payload(OneByte(path, b))), ChunkIDOf, path)
  {
    assert OneByte(path, b)[..1] == [Header(path)] && [Header(path)][..0] == [];
    assert Payload([Header(path)]) == [];
    assert Payload(OneByte(path, b)) == [] + [b] == [b];
    assert Chunked([b]) == [[b]];
  }

  /** The two actions of a task with one node. */
  lemma OneStore(w: World, t: Task, fates: Fates)
    requires w == Fresh(w.held, w.allocations, [t]) && |t.nodes| == 1
    ensures var (r, fate) := (Run(w, [t], fates, [0, 0]), fates(0, 0));
      && AllFinished(r)
      && r.held == (if fate.Failed? then w.held else w.held[(t.nodes[0], t.chunk.id) := t.chunk.data])
      && r.allocations == if fate.Acked? then w.allocations[t.chunk.id := t.nodes] else w.allocations
  {
    assert w.progress == [Progress(0, 0, false)];
    assert [0, 0][..1] == [0] && [0][..0] == [];
    assert Run(w, [t], fates, [0]) == Step(w, [t], fates, 0);
  }

  /** A byte is uploaded and acknowledged, then another to the same path with every store failing: a
      download ends well and sends the first. */
  lemma StaleDownloadHappens(path: string, node: NodeID)
    ensures var (first, second) := ([TaskOfByte(path, 1, node)], [TaskOfByte(path, 2, node)]);
            var w := Run(Fresh(map[], map[], first), first, Every(Acked), [0, 0]);
            var w' := Run(Fresh(w.held, w.allocations, second), second, Every(Failed), [0, 0]);
            && ChunksOf(first) == Numbered(Chunked(Payload(OneByte(path, 1))), ChunkIDOf, path)
            && ChunksOf(second) == Numbered(Chunked(Payload(OneByte(path, 2))), ChunkIDOf, path)
            && AllFinished(w) && AllFinished(w')
            && Download(w', Everyone(), Always(), Ids(ChunksOf(second))) == ([[1]], true)
  {
    var t, t', id := TaskOfByte(path, 1, node), TaskOfByte(path, 2, node), ChunkIDOf(path, 0);
    ChunksOfByte(path, 1, node);
    ChunksOfByte(path, 2, node);
    OneStore(Fresh(map[], map[], [t]), t, Every(Acked));
    var w := Run(Fresh(map[], map[], [t]), [t], Every(Acked), [0, 0]);
    OneStore(Fresh(w.held, w.allocations, [t']), t', Every(Failed));
    var w' := Run(Fresh(w.held, w.allocations, [t']), [t'], Every(Failed), [0, 0]);
    assert Ids(ChunksOf([t'])) == [id];
    OneFetched(w', id, node, [1]);
  }

  lemma OneFetched(w: World, id: ChunkID, node: NodeID, data: Bytes)
    requires id in w.allocations && w.allocations[id] == [node] && (node, id) in w.held && w.held[(node, id)] == data
    ensures Download(w, Everyone(), Always(), [id]) == ([data], true)
  {
    var ids := [id];
    assert FetchFrom(w.held, Everyone(), [node], id) == Some(data);
    assert ids[..|ids| - 1] == [];
    assert Download(w, Everyone(), Always(), []) == ([], true);
    assert Always()(0);
    assert [] + [data] == [data];
  }
}
