/** Cutting a streamed upload into chunks, whatever the boundaries of its messages. */
module Chunking {
  import opened Types
  import opened Wrappers

  const STREAM_BUFFER_SIZE: nat := 3 * 1024 * 1024

  datatype Chunk = Chunk(id: ChunkID, fileID: string, index: nat, data: Bytes)

  /** What the stream delivers before it ends; `Fault` is a receive error. */
  datatype Message = Header(path: string) | ChunkData(data: Bytes) | Fault

  datatype Outcome =
    | Complete(path: string)
    | DuplicateHeader | HeaderMissing | FileMissing | ReceiveError | ProcessorStopped

  // ---------------------------------------------------------------- cutting bytes

  function Concat(parts: seq<Bytes>): Bytes {
    if parts == [] then [] else parts[0] + Concat(parts[1..])
  }

  /** The full chunks of `b`, in order. */
  function FullChunks(b: Bytes): seq<Bytes> {
    if |b| < STREAM_BUFFER_SIZE then [] else [b[..STREAM_BUFFER_SIZE]] + FullChunks(b[STREAM_BUFFER_SIZE..])
  }

  /** What the full chunks leave over. */
  function Rest(b: Bytes): (r: Bytes)
    ensures |r| < STREAM_BUFFER_SIZE
  {
    if |b| < STREAM_BUFFER_SIZE then b else Rest(b[STREAM_BUFFER_SIZE..])
  }

  function Chunked(b: Bytes): seq<Bytes> {
    FullChunks(b) + if Rest(b) == [] then [] else [Rest(b)]
  }

  /** Full chunks followed by one shorter, non-empty chunk at most. */
  predicate WellCut(parts: seq<Bytes>) {
    && (forall i | 0 <= i < |parts| - 1 :: |parts[i]| == STREAM_BUFFER_SIZE)
    && (parts != [] ==> 0 < |parts[|parts| - 1]| <= STREAM_BUFFER_SIZE)
  }

  lemma {:induction false} ConcatAppend(a: seq<Bytes>, b: seq<Bytes>)
    ensures Concat(a + b) == Concat(a) + Concat(b)
  {
    if a == [] {
      assert a + b == b;
    } else {
      var c := a + b;
      assert c[0] == a[0] && c[1..] == a[1..] + b;
      ConcatAppend(a[1..], b);
      assert a[0] + Concat(a[1..]) + Concat(b) == a[0] + (Concat(a[1..]) + Concat(b));
    }
  }

  lemma {:induction false} CutAndRest(b: Bytes)
    ensures Concat(FullChunks(b)) + Rest(b) == b
    ensures forall p <- FullChunks(b) :: |p| == STREAM_BUFFER_SIZE
  {
    if |b| >= STREAM_BUFFER_SIZE {
      var head, tail := b[..STREAM_BUFFER_SIZE], b[STREAM_BUFFER_SIZE..];
      CutAndRest(tail);
      assert FullChunks(b)[1..] == FullChunks(tail);
      assert b == head + tail;
    }
  }

  lemma {:induction false} CutLength(b: Bytes)
    ensures |b| == |FullChunks(b)| * STREAM_BUFFER_SIZE + |Rest(b)|
  {
    if |b| >= STREAM_BUFFER_SIZE {
      var tail := b[STREAM_BUFFER_SIZE..];
      CutLength(tail);
      OneMore(|FullChunks(tail)|, |Rest(tail)|);
    }
  }

  lemma OneMore(n: nat, r: nat)
    ensures (1 + n) * STREAM_BUFFER_SIZE + r == STREAM_BUFFER_SIZE + n * STREAM_BUFFER_SIZE + r
  {
  }

  /** Chunking loses nothing, is well cut, and takes as few chunks as possible. */
  lemma ChunkedIsWellCut(b: Bytes)
    ensures Concat(Chunked(b)) == b && WellCut(Chunked(b))
    ensures |Chunked(b)| == (|b| + STREAM_BUFFER_SIZE - 1) / STREAM_BUFFER_SIZE
  {
    CutAndRest(b);
    CutLength(b);
    var full, rest := FullChunks(b), Rest(b);
    if rest == [] {
      assert Chunked(b) == full;
    } else {
      ConcatAppend(full, [rest]);
      assert Concat([rest]) == rest + Concat([]);
      assert rest + [] == rest;
    }
    CeilingOf(|full|, |rest|);
  }

  lemma CeilingOf(n: nat, r: nat)
    requires r < STREAM_BUFFER_SIZE
    ensures (n * STREAM_BUFFER_SIZE + r + STREAM_BUFFER_SIZE - 1) / STREAM_BUFFER_SIZE == n + if r == 0 then 0 else 1
  {
  }

  /** There is only one way to cut bytes well. */
  lemma {:induction false} WellCutIsUnique(parts: seq<Bytes>)
    requires WellCut(parts)
    ensures Chunked(Concat(parts)) == parts
  {
    if parts != [] {
      var head, tail := parts[0], parts[1..];
      WellCutIsUnique(tail);
      var b := Concat(parts);
      assert b == head + Concat(tail);
      if |parts| == 1 {
        assert b == head;
      }
      if |head| == STREAM_BUFFER_SIZE {
        assert b[..STREAM_BUFFER_SIZE] == head && b[STREAM_BUFFER_SIZE..] == Concat(tail);
        assert FullChunks(b) == [head] + FullChunks(Concat(tail)) && Rest(b) == Rest(Concat(tail));
      }
    }
  }

  /** More bytes only add to what the bytes before left over. */
  lemma {:induction false} CutAppend(a: Bytes, b: Bytes)
    ensures FullChunks(a + b) == FullChunks(a) + FullChunks(Rest(a) + b)
    ensures Rest(a + b) == Rest(Rest(a) + b)
  {
    if |a| >= STREAM_BUFFER_SIZE {
      var head, tail := a[..STREAM_BUFFER_SIZE], a[STREAM_BUFFER_SIZE..];
      CutAppend(tail, b);
      assert (a + b)[..STREAM_BUFFER_SIZE] == head && (a + b)[STREAM_BUFFER_SIZE..] == tail + b;
    }
  }

  // ---------------------------------------------------------------- a stream of messages

  function Payload(ms: seq<Message>): Bytes {
    if ms == [] then []
    else
      var last := ms[|ms| - 1];
      Payload(ms[..|ms| - 1]) + if last.ChunkData? then last.data else []
  }

  /** How the stream ends, once `header` has been received, if it has. A stream that ends without any
      message completes for the empty path. */
  function Verdict(ms: seq<Message>, header: Option<string>, files: set<string>): Outcome {
    if ms == [] then Complete(if header.Some? then header.value else "")
    else match ms[0]
      case Fault => ReceiveError
      case Header(p) =>
        if header.Some? then DuplicateHeader
        else if p !in files then FileMissing
        else Verdict(ms[1..], Some(p), files)
      case ChunkData(_) =>
        if header.None? then HeaderMissing else Verdict(ms[1..], header, files)
  }

  /** The number of messages taken in before the stream ends or fails. */
  function Taken(ms: seq<Message>, header: Option<string>, files: set<string>): (n: nat)
    ensures n <= |ms|
    ensures n < |ms| <==> !Verdict(ms, header, files).Complete?
  {
    if ms == [] then 0
    else match ms[0]
      case Fault => 0
      case Header(p) => if header.Some? || p !in files then 0 else 1 + Taken(ms[1..], Some(p), files)
      case ChunkData(_) => if header.None? then 0 else 1 + Taken(ms[1..], header, files)
  }

  /** The parts as chunks of the file, numbered from zero. */
  function Numbered(parts: seq<Bytes>, idOf: (string, nat) -> ChunkID, fileID: string): (cs: seq<Chunk>)
    ensures |cs| == |parts|
  {
    seq(|parts|, i requires 0 <= i < |parts| => Chunk(idOf(fileID, i), fileID, i, parts[i]))
  }

  lemma NumberedPush(parts: seq<Bytes>, part: Bytes, idOf: (string, nat) -> ChunkID, fileID: string)
    ensures Numbered(parts + [part], idOf, fileID)
            == Numbered(parts, idOf, fileID) + [Chunk(idOf(fileID, |parts|), fileID, |parts|, part)]
  {
  }

  /** The state of the upload loop after `i` messages. */
  ghost predicate Received(ms: seq<Message>, i: nat, files: set<string>, idOf: (string, nat) -> ChunkID, path: string,
                           headerReceived: bool, buffer: Bytes, chunks: seq<Chunk>, totalReceived: nat)
  {
    var header := if headerReceived then Some(path) else None;
    && i <= |ms|
    && Verdict(ms, None, files) == Verdict(ms[i..], header, files)
    && Taken(ms, None, files) == i + Taken(ms[i..], header, files)
    && totalReceived == |Payload(ms[..i])| && buffer == Rest(Payload(ms[..i]))
    && chunks == Numbered(FullChunks(Payload(ms[..i])), idOf, path)
    && (!headerReceived ==> path == "" && Payload(ms[..i]) == [])
  }

  lemma StartOfStream(ms: seq<Message>, files: set<string>, idOf: (string, nat) -> ChunkID)
    ensures Received(ms, 0, files, idOf, "", false, [], [], 0)
  {
    assert ms[0..] == ms && ms[..0] == [];
  }

  lemma AfterHeader(ms: seq<Message>, i: nat, files: set<string>, idOf: (string, nat) -> ChunkID, buffer: Bytes,
                    chunks: seq<Chunk>, totalReceived: nat)
    requires Received(ms, i, files, idOf, "", false, buffer, chunks, totalReceived)
    requires i < |ms| && ms[i].Header? && ms[i].path in files
    ensures Received(ms, i + 1, files, idOf, ms[i].path, true, buffer, chunks, totalReceived)
  {
    assert ms[..i + 1][..i] == ms[..i] && ms[i..][1..] == ms[i + 1..];
  }

  lemma AfterData(ms: seq<Message>, i: nat, files: set<string>, idOf: (string, nat) -> ChunkID, path: string,
                  buffer: Bytes, chunks: seq<Chunk>, totalReceived: nat)
    requires Received(ms, i, files, idOf, path, true, buffer, chunks, totalReceived)
    requires i < |ms| && ms[i].ChunkData?
    ensures var full := buffer + ms[i].data;
            && Received(ms, i + 1, files, idOf, path, true, Rest(full),
                        Numbered(FullChunks(Payload(ms[..i])) + FullChunks(full), idOf, path),
                        totalReceived + |ms[i].data|)
            && FullChunks(Payload(ms[..i])) + FullChunks(full) == FullChunks(Payload(ms[..i + 1]))
  {
    assert ms[..i + 1][..i] == ms[..i] && ms[i..][1..] == ms[i + 1..];
    CutAppend(Payload(ms[..i]), ms[i].data);
  }

  /** The error with which the loop ends at a message, if it does. */
  function Refused(m: Message, headerReceived: bool, files: set<string>): Option<Outcome> {
    match m
    case Fault => Some(ReceiveError)
    case Header(p) => if headerReceived then Some(DuplicateHeader) else if p !in files then Some(FileMissing) else None
    case ChunkData(_) => if headerReceived then None else Some(HeaderMissing)
  }

  /** Where the loop fails, the chunks handed over are the full chunks of what was taken in. */
  lemma AtFailure(ms: seq<Message>, i: nat, files: set<string>, idOf: (string, nat) -> ChunkID, path: string,
                  headerReceived: bool, buffer: Bytes, chunks: seq<Chunk>, totalReceived: nat)
    requires Received(ms, i, files, idOf, path, headerReceived, buffer, chunks, totalReceived)
    requires i < |ms|
    ensures var r := Refused(ms[i], headerReceived, files);
            r.Some? ==> !r.value.Complete? && Ended(ms, files, _ => true, r.value, chunks, totalReceived)
  {
    PartsOfNumbered(FullChunks(Payload(ms[..i])), idOf, path);
  }

  lemma AtEnd(ms: seq<Message>, files: set<string>, idOf: (string, nat) -> ChunkID, path: string,
              headerReceived: bool, buffer: Bytes, chunks: seq<Chunk>, totalReceived: nat)
    requires Received(ms, |ms|, files, idOf, path, headerReceived, buffer, chunks, totalReceived)
    ensures Verdict(ms, None, files) == Complete(path) && Taken(ms, None, files) == |ms|
    ensures totalReceived == |Payload(ms)| && buffer == Rest(Payload(ms)) && Parts(chunks) == FullChunks(Payload(ms))
    ensures var all := if buffer == [] then chunks else chunks + [Chunk(idOf(path, |chunks|), path, |chunks|, buffer)];
            all == Numbered(Chunked(Payload(ms)), idOf, path) && Parts(all) == Chunked(Payload(ms))
            && Ended(ms, files, _ => true, Complete(path), all, totalReceived)
            && (buffer != [] ==> Parts(chunks) < Chunked(Payload(ms)))
  {
    assert ms[..|ms|] == ms && ms[|ms|..] == [];
    var full := FullChunks(Payload(ms));
    PartsOfNumbered(full, idOf, path);
    PartsOfNumbered(Chunked(Payload(ms)), idOf, path);
    NumberedPush(full, buffer, idOf, path);
    assert full + [] == full;
  }

  /** The processor took each of the first `n` chunks. */
  ghost predicate RanFreely(stops: nat -> bool, n: nat) {
    forall k | 0 <= k < n :: !stops(k)
  }

  /** How an upload ends: as its messages say, with the chunks of the bytes it took in, or, where the
      processor stopped it, with some of the chunks of all its bytes. */
  ghost predicate Ended(ms: seq<Message>, files: set<string>, stops: nat -> bool, outcome: Outcome, chunks: seq<Chunk>,
                        totalReceived: nat)
  {
    if outcome.ProcessorStopped? then stops(|chunks|) && Parts(chunks) < Chunked(Payload(ms))
    else
      var got := Payload(ms[..Taken(ms, None, files)]);
      && outcome == Verdict(ms, None, files)
      && totalReceived == |got|
      && Parts(chunks) == if outcome.Complete? then Chunked(got) else FullChunks(got)
  }

  /** The upload loop. `stops(k)` says that the processor fails, or the stream is cancelled, where chunk `k`
      would be handed over. Without that, the chunks handed over are those of the bytes received. */
  method ReceiveUpload(ms: seq<Message>, files: set<string>, idOf: (string, nat) -> ChunkID, stops: nat -> bool)
      returns (outcome: Outcome, chunks: seq<Chunk>, totalReceived: nat)
    ensures Ended(ms, files, stops, outcome, chunks, totalReceived)
    ensures outcome.Complete? ==> chunks == Numbered(Chunked(Payload(ms)), idOf, outcome.path)
    ensures RanFreely(stops, |chunks|)
  {
    var path := "";
    var headerReceived := false;
    var buffer: Bytes := [];
    chunks, totalReceived := [], 0;
    StartOfStream(ms, files, idOf);
    var ending: Option<Outcome> := None;
    var i := 0;
    while i < |ms| && ending.None?
      invariant 0 <= i <= |ms| && RanFreely(stops, |chunks|)
      invariant ending.None? ==> Received(ms, i, files, idOf, path, headerReceived, buffer, chunks, totalReceived)
      invariant ending.Some? ==> !ending.value.Complete? && Ended(ms, files, stops, ending.value, chunks, totalReceived)
    {
      path, headerReceived, buffer, chunks, totalReceived, ending :=
        TakeMessage(ms, i, files, idOf, stops, path, headerReceived, buffer, chunks, totalReceived);
      i := i + 1;
    }
    if ending.Some? {
      outcome := ending.value;
    } else {
      AtEnd(ms, files, idOf, path, headerReceived, buffer, chunks, totalReceived);
      var stopped;
      chunks, stopped := HandOverRest(buffer, chunks, idOf, path, stops);
      outcome := if stopped then ProcessorStopped else Complete(path);
    }
  }

  /** One message: its error ends the upload, its header is kept, its data joins the buffer. */
  method TakeMessage(ms: seq<Message>, i: nat, files: set<string>, idOf: (string, nat) -> ChunkID, stops: nat -> bool,
                     path: string, headerReceived: bool, buffer: Bytes, chunks: seq<Chunk>, totalReceived: nat)
      returns (path': string, headerReceived': bool, buffer': Bytes, chunks': seq<Chunk>, totalReceived': nat,
               ending: Option<Outcome>)
    requires Received(ms, i, files, idOf, path, headerReceived, buffer, chunks, totalReceived) && i < |ms|
    requires RanFreely(stops, |chunks|)
    ensures RanFreely(stops, |chunks'|)
    ensures ending.None? ==> Received(ms, i + 1, files, idOf, path', headerReceived', buffer', chunks', totalReceived')
    ensures ending.Some? ==> !ending.value.Complete? && Ended(ms, files, stops, ending.value, chunks', totalReceived')
  {
    path', headerReceived', buffer', chunks', totalReceived' := path, headerReceived, buffer, chunks, totalReceived;
    ending := None;
    AtFailure(ms, i, files, idOf, path, headerReceived, buffer, chunks, totalReceived);
    match ms[i]
    case Fault =>
      ending := Some(ReceiveError);
    case Header(p) =>
      if headerReceived {
        ending := Some(DuplicateHeader);
      } else if p !in files {
        ending := Some(FileMissing);
      } else {
        AfterHeader(ms, i, files, idOf, buffer, chunks, totalReceived);
        path', headerReceived' := p, true;
      }
    case ChunkData(data) =>
      if !headerReceived {
        ending := Some(HeaderMissing);
      } else {
        AfterData(ms, i, files, idOf, path, buffer, chunks, totalReceived);
        totalReceived' := totalReceived + |data|;
        var stopped;
        buffer', chunks', stopped := Drain(buffer + data, chunks, FullChunks(Payload(ms[..i])), idOf, path, stops);
        if stopped {
          PayloadGrows(ms, i + 1);
          ending := Some(ProcessorStopped);
        }
      }
  }

  /** The last chunk, when the buffer holds one. */
  method HandOverRest(buffer: Bytes, before: seq<Chunk>, idOf: (string, nat) -> ChunkID, path: string,
                      stops: nat -> bool) returns (chunks: seq<Chunk>, stopped: bool)
    requires RanFreely(stops, |before|)
    ensures RanFreely(stops, |chunks|)
    ensures stopped ==> chunks == before && buffer != [] && stops(|before|)
    ensures !stopped ==> chunks == if buffer == [] then before
                                   else before + [Chunk(idOf(path, |before|), path, |before|, buffer)]
  {
    chunks, stopped := before, false;
    if |buffer| > 0 {
      if stops(|chunks|) {
        stopped := true;
      } else {
        chunks := chunks + [Chunk(idOf(path, |chunks|), path, |chunks|, buffer)];
      }
    }
  }

  function Parts(chunks: seq<Chunk>): (r: seq<Bytes>)
    ensures |r| == |chunks|
  {
    seq(|chunks|, i requires 0 <= i < |chunks| => chunks[i].data)
  }

  lemma PartsOfNumbered(parts: seq<Bytes>, idOf: (string, nat) -> ChunkID, fileID: string)
    ensures Parts(Numbered(parts, idOf, fileID)) == parts
  {
  }

  /** What was received first is cut first. */
  lemma {:induction false} PayloadGrows(ms: seq<Message>, n: nat)
    requires n <= |ms|
    ensures Payload(ms[..n]) <= Payload(ms) && FullChunks(Payload(ms[..n])) <= FullChunks(Payload(ms))
    decreases |ms| - n
  {
    if n == |ms| {
      assert ms[..n] == ms;
    } else {
      assert ms[..n + 1][..n] == ms[..n];
      PayloadGrows(ms, n + 1);
      var last := ms[n];
      CutAppend(Payload(ms[..n]), if last.ChunkData? then last.data else []);
    }
  }

  /** Hands over full chunks from the front of the buffer until less than one is left. */
  method Drain(full: Bytes, before: seq<Chunk>, ghost parts: seq<Bytes>, idOf: (string, nat) -> ChunkID, path: string,
               stops: nat -> bool) returns (buffer: Bytes, chunks: seq<Chunk>, stopped: bool)
    requires before == Numbered(parts, idOf, path) && RanFreely(stops, |before|)
    ensures !stopped ==> buffer == Rest(full) && chunks == Numbered(parts + FullChunks(full), idOf, path)
    ensures stopped ==> stops(|chunks|) && Parts(chunks) < parts + FullChunks(full)
    ensures RanFreely(stops, |chunks|)
  {
    buffer, chunks := full, before;
    ghost var done := parts;
    while |buffer| >= STREAM_BUFFER_SIZE
      invariant chunks == Numbered(done, idOf, path)
      invariant done + FullChunks(buffer) == parts + FullChunks(full) && Rest(buffer) == Rest(full)
      invariant RanFreely(stops, |chunks|)
    {
      var chunkData := buffer[..STREAM_BUFFER_SIZE];
      ghost var whole := done + FullChunks(buffer);
      buffer := buffer[STREAM_BUFFER_SIZE..];
      assert whole == (done + [chunkData]) + FullChunks(buffer);
      if stops(|chunks|) {
        PartsOfNumbered(done, idOf, path);
        assert done == whole[..|done|];
        return buffer, chunks, true;
      }
      NumberedPush(done, chunkData, idOf, path);
      chunks := chunks + [Chunk(idOf(path, |chunks|), path, |chunks|, chunkData)];
      done := done + [chunkData];
    }
    assert done + [] == done;
    return buffer, chunks, false;
  }
}
