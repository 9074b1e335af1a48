// What the chunks of messages add up to: the data of a content type, in order, and
// how much of it the jobs finished so far have carried.
module Payloads {
  import opened Bytes
  import opened Downlink
  import opened Sequences

  function DataOf(m: Message, c: byte): seq<byte> {
    if m.content == c then m.data else []
  }

  // The data of all messages of one content type, joined.
  function Data(ms: seq<Message>, c: byte): seq<byte>
    decreases |ms|
  {
    if |ms| == 0 then []
    else
      var n := |ms| - 1;
      Data(ms[..n], c) + DataOf(ms[n], c)
  }

  lemma {:induction false} DataConcat(a: seq<Message>, b: seq<Message>, c: byte)
    ensures Data(a + b, c) == Data(a, c) + Data(b, c)
    decreases |b|
  {
    if |b| == 0 {
      assert a + b == a;
    } else {
      var n := |b| - 1;
      assert (a + b)[..|a| + n] == a + b[..n];
      DataConcat(a, b[..n], c);
      Regroup(Data(a, c), Data(b[..n], c), DataOf(b[n], c));
    }
  }

  // A chunk of this message: of its content, not empty, and of at most 214 octets
  // unless it is a resend.
  predicate ChunkOf(chunk: Message, m: Message) {
    && chunk.content == m.content && |chunk.data| > 0
    && (m.content != RAW_FRAME ==> |chunk.data| <= MAX_CHUNK)
  }

  lemma DataOfOne(m: Message, c: byte)
    ensures Data([m], c) == DataOf(m, c)
  {
    assert [m][..0] == [];
  }

  lemma DataOfFront(m: Message, rest: seq<Message>, c: byte)
    ensures Data([m] + rest, c) == DataOf(m, c) + Data(rest, c)
  {
    DataConcat([m], rest, c);
    DataOfOne(m, c);
  }

  // The chunks are full but for the last, and a resend is one chunk.
  predicate Cut(chunks: seq<Message>, m: Message) {
    && (forall i :: 0 <= i < |chunks| ==> ChunkOf(chunks[i], m))
    && (m.content != RAW_FRAME ==> forall i :: 0 <= i < |chunks| - 1 ==> |chunks[i].data| == MAX_CHUNK)
    && (m.content == RAW_FRAME && |m.data| > 0 ==> chunks == [m])
  }

  lemma CutOneMore(m: Message, chunks: seq<Message>)
    requires |m.data| > 0 && Cut(chunks, AfterChunk(m)) && (|AfterChunk(m).data| == 0 ==> |chunks| == 0)
    ensures Cut([FirstChunk(m)] + chunks, m)
  {
    var all := [FirstChunk(m)] + chunks;
    forall i | 0 <= i < |all|
      ensures ChunkOf(all[i], m)
      ensures m.content != RAW_FRAME && i < |all| - 1 ==> |all[i].data| == MAX_CHUNK
    {
      if i > 0 {
        assert ChunkOf(chunks[i - 1], AfterChunk(m));
      }
    }
  }

  lemma JoinOneMore(m: Message, chunks: seq<Message>)
    requires Data(chunks, m.content) == AfterChunk(m).data
    ensures Data([FirstChunk(m)] + chunks, m.content) == m.data
  {
    var first, rest := FirstChunk(m), AfterChunk(m);
    DataOfFront(first, chunks, m.content);
    assert first.data + rest.data == m.data;
  }

  // The chunks of a message join to its data.
  lemma {:induction false} ChunksJoin(m: Message)
    ensures Cut(Chunks(m), m) && (|m.data| == 0 ==> |Chunks(m)| == 0)
    ensures Data(Chunks(m), m.content) == m.data
    decreases |m.data|
  {
    if m.data != [] {
      var rest := AfterChunk(m);
      ChunksJoin(rest);
      CutOneMore(m, Chunks(rest));
      JoinOneMore(m, Chunks(rest));
    }
  }

  lemma {:induction false} OtherContent(ms: seq<Message>, c: byte)
    requires forall i :: 0 <= i < |ms| ==> ms[i].content != c
    ensures Data(ms, c) == []
    decreases |ms|
  {
    if |ms| > 0 {
      OtherContent(ms[..|ms| - 1], c);
    }
  }

  predicate NoneEmpty(ms: seq<Message>) {
    forall i :: 0 <= i < |ms| ==> |ms[i].data| > 0
  }

  lemma ChunksOf(m: Message, c: byte)
    ensures Data(Chunks(m), c) == DataOf(m, c)
    ensures NoneEmpty(Chunks(m))
  {
    ChunksJoin(m);
    assert forall i :: 0 <= i < |Chunks(m)| ==> ChunkOf(Chunks(m)[i], m);
    if m.content != c {
      OtherContent(Chunks(m), c);
    }
  }

  lemma NoneEmptyConcat(a: seq<Message>, b: seq<Message>)
    requires NoneEmpty(a) && NoneEmpty(b)
    ensures NoneEmpty(a + b)
  {
  }

  // So cutting messages up neither loses nor reorders data.
  lemma {:induction false} AllChunksJoin(ms: seq<Message>, c: byte)
    ensures Data(AllChunks(ms), c) == Data(ms, c)
    ensures NoneEmpty(AllChunks(ms))
    decreases |ms|
  {
    if |ms| > 0 {
      var m, rest := ms[0], ms[1..];
      assert ms == [m] + rest;
      AllChunksJoin(rest, c);
      ChunksOf(m, c);
      NoneEmptyConcat(Chunks(m), AllChunks(rest));
      DataConcat(Chunks(m), AllChunks(rest), c);
      DataOfFront(m, rest, c);
    }
  }

  // ----- the part that was sent -----

  // The data of a content type in the chunks that were sent.
  function SentData(jobs: seq<Job>, c: byte): seq<byte>
    decreases |jobs|
  {
    if |jobs| == 0 then []
    else
      var n := |jobs| - 1;
      SentData(jobs[..n], c) + if jobs[n].sent then DataOf(jobs[n].chunk, c) else []
  }

  lemma SentOneMore(jobs: seq<Job>, job: Job, c: byte)
    ensures SentData(jobs + [job], c) == SentData(jobs, c) + if job.sent then DataOf(job.chunk, c) else []
  {
    assert (jobs + [job])[..|jobs|] == jobs;
  }

  predicate AllSent(jobs: seq<Job>, c: byte) {
    forall i :: 0 <= i < |jobs| && jobs[i].chunk.content == c ==> jobs[i].sent
  }

  lemma {:induction false} SentOrLess(jobs: seq<Job>, c: byte)
    requires NoneEmpty(JobChunks(jobs))
    ensures if AllSent(jobs, c) then SentData(jobs, c) == Data(JobChunks(jobs), c)
            else |SentData(jobs, c)| < |Data(JobChunks(jobs), c)|
    decreases |jobs|
  {
    if |jobs| > 0 {
      var n := |jobs| - 1;
      var before, last := jobs[..n], jobs[n];
      assert JobChunks(jobs)[..n] == JobChunks(before);
      assert JobChunks(jobs)[n] == last.chunk;
      SentOrLess(before, c);
      assert AllSent(jobs, c) <==> AllSent(before, c) && (last.chunk.content == c ==> last.sent);
    }
  }

  predicate NoneFrom(ms: seq<Message>, n: nat, c: byte) {
    forall i :: n <= i < |ms| ==> ms[i].content != c
  }

  lemma NoneFromStep(ms: seq<Message>, n: nat, c: byte)
    requires n < |ms|
    ensures NoneFrom(ms, n, c) <==> NoneFrom(ms[..|ms| - 1], n, c) && ms[|ms| - 1].content != c
  {
    var k := |ms| - 1;
    assert forall i :: 0 <= i < k ==> ms[..k][i] == ms[i];
  }

  lemma {:induction false} FrontOrLess(chunks: seq<Message>, n: nat, c: byte)
    requires NoneEmpty(chunks) && n <= |chunks|
    ensures if NoneFrom(chunks, n, c) then Data(chunks[..n], c) == Data(chunks, c)
            else |Data(chunks[..n], c)| < |Data(chunks, c)|
    decreases |chunks|
  {
    if n == |chunks| {
      assert chunks[..n] == chunks;
    } else {
      var k := |chunks| - 1;
      FrontOrLess(chunks[..k], n, c);
      NoneFromStep(chunks, n, c);
      assert chunks[..k][..n] == chunks[..n];
    }
  }

  // Every chunk of this content has had its job, and was sent.
  predicate AllDone(jobs: seq<Job>, chunks: seq<Message>, c: byte) {
    forall i :: 0 <= i < |chunks| && chunks[i].content == c ==> i < |jobs| && jobs[i].sent
  }

  // What was sent is all the data if and only if every chunk was sent.
  lemma AllDataIffAllDone(jobs: seq<Job>, chunks: seq<Message>, c: byte)
    requires NoneEmpty(chunks) && JobChunks(jobs) <= chunks
    ensures SentData(jobs, c) == Data(chunks, c) <==> AllDone(jobs, chunks, c)
  {
    var n := |jobs|;
    assert chunks[..n] == JobChunks(jobs);
    assert forall i :: 0 <= i < n ==> JobChunks(jobs)[i] == jobs[i].chunk == chunks[i];
    FrontOrLess(chunks, n, c);
    SentOrLess(jobs, c);
  }
}
