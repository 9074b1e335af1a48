// The transmit queue, the packet format and the receiver put together: what any
// interleaving of pushes, resends, send attempts and failures puts on the air,
// and what the deframer makes of it.
module EndToEnd {
  import opened Bytes
  import opened Options
  import SP = SpacePacket
  import P = Profile
  import G = GreedyScan
  import S = Scanner
  import opened Downlink
  import opened PacketFraming
  import opened Radio
  import opened Payloads
  import RadioQueue

  // ----- what is on the air -----

  lemma OriginalIsCarried(w: World, i: nat)
    requires Inv(ProfileFraming, w) && i < |w.log| && Original(w.log[i])
    ensures Carries(PacketBytes(ProfileFraming, w.log[i]), w.log[i])
  {
    var job := w.log[i];
    assert Ended(ProfileFraming, job);
    assert Jobs(w)[i] == job && Jobs(w)[..i] == w.log[..i] && JobOk(ProfileFraming, Jobs(w)[i], Jobs(w)[..i]);
    BuiltPacket(job.chunk.content, job.count, job.chunk.data);
    P.Routes(job.chunk.content as nat);
  }

  lemma LogStep(w: World, n: nat)
    requires 0 < n <= |w.log|
    ensures var job, before := w.log[n - 1], w.log[..n - 1];
            && Originals(ProfileFraming, w.log[..n])
               == Originals(ProfileFraming, before) + (if Original(job) then [PacketBytes(ProfileFraming, job)] else [])
            && Air(ProfileFraming, w.log[..n])
               == Air(ProfileFraming, before) + (if job.sent then [PacketBytes(ProfileFraming, job)] else [])
            && w.log[..n] == before + [job]
  {
    assert w.log[..n] == w.log[..n - 1] + [w.log[n - 1]];
    OriginalsStep(ProfileFraming, w.log[..n - 1], w.log[n - 1]);
  }

  ghost predicate Receivable(p: seq<byte>) {
    P.Valid(p) && |p| <= MAX_PACKET
  }

  ghost predicate AllReceivable(packets: seq<seq<byte>>) {
    forall p :: p in packets ==> Receivable(p)
  }

  lemma ReceivableOneMore(packets: seq<seq<byte>>, p: seq<byte>)
    requires AllReceivable(packets) && Receivable(p)
    ensures AllReceivable(packets + [p])
  {
  }

  lemma {:induction false} OriginalsAreValid(w: World, n: nat)
    requires Inv(ProfileFraming, w) && n <= |w.log|
    ensures AllReceivable(Originals(ProfileFraming, w.log[..n]))
    decreases n
  {
    if n > 0 {
      OriginalsAreValid(w, n - 1);
      LogStep(w, n);
      if Original(w.log[n - 1]) {
        OriginalIsCarried(w, n - 1);
        ReceivableOneMore(Originals(ProfileFraming, w.log[..n - 1]), PacketBytes(ProfileFraming, w.log[n - 1]));
      }
    }
  }

  lemma SentIsReceivable(w: World, i: nat)
    requires Inv(ProfileFraming, w) && i < |w.log| && w.log[i].sent
    ensures Receivable(PacketBytes(ProfileFraming, w.log[i]))
  {
    if Original(w.log[i]) {
      OriginalIsCarried(w, i);
    } else {
      ResendsAreCopies(ProfileFraming, w, i);
      OriginalsAreValid(w, i);
    }
  }

  lemma {:induction false} AirIsValid(w: World, n: nat)
    requires Inv(ProfileFraming, w) && n <= |w.log|
    ensures AllReceivable(Air(ProfileFraming, w.log[..n]))
    decreases n
  {
    if n > 0 {
      AirIsValid(w, n - 1);
      LogStep(w, n);
      if w.log[n - 1].sent {
        SentIsReceivable(w, n - 1);
        ReceivableOneMore(Air(ProfileFraming, w.log[..n - 1]), PacketBytes(ProfileFraming, w.log[n - 1]));
      }
    }
  }

  // After any run, the packets that were sent, fed to the receiver back to back,
  // come out as exactly those packets in order, with no octet skipped and none
  // left over, drained after any grouping or called once per octet.
  lemma SentIsReceived(actions: seq<Action>)
    ensures var air := Air(ProfileFraming, Run(ProfileFraming, actions).log);
            && G.Scan(S.Judge, G.Concat(air)) == G.Scanned(G.AsPieces(air), [])
            && G.RunOnce(S.Judge, [], G.Concat(air)) == G.Scanned(G.AsPieces(air), [])
            && G.Packets(G.AsPieces(air)) == air && G.SkipCount(G.AsPieces(air)) == 0
  {
    var w := Run(ProfileFraming, actions);
    ProfileFramingOk();
    RunInv(ProfileFraming, actions);
    AirIsValid(w, |w.log|);
    assert w.log[..|w.log|] == w.log;
    assert forall p :: p in Air(ProfileFraming, w.log) ==> Receivable(p);
    S.CleanStreamDelivered(Air(ProfileFraming, w.log));
  }

  // ----- what the packets carry -----

  function OriginalJobs(jobs: seq<Job>): seq<Job> {
    if jobs == [] then []
    else
      var n := |jobs| - 1;
      OriginalJobs(jobs[..n]) + if Original(jobs[n]) then [jobs[n]] else []
  }

  // The packet carries the job's chunk, content type and payload, under its number.
  ghost predicate Carries(p: seq<byte>, job: Job) {
    && P.Valid(p) && |p| <= MAX_PACKET
    && P.Parse(p).value.content == job.chunk.content as nat && P.Parse(p).value.payload == job.chunk.data
    && P.Parse(p).value.count == job.count && P.Parse(p).value.items == 1
    && P.Parse(p).value.packet.header == SP.Header(if job.chunk.content == 3 then 1 else 0, true,
                                                   ApidOf(job.chunk.content), 3, job.count)
  }

  // The APID that the mission assigned to each content type
  function ApidOf(content: byte): nat {
    if content == 0 then 1 else if content == 1 then 2 else if content == 2 then 3 else 256
  }

  // The packets carry these jobs' chunks, in this order.
  ghost predicate Carry(packets: seq<seq<byte>>, jobs: seq<Job>) {
    |packets| == |jobs| && forall k :: 0 <= k < |packets| ==> Carries(packets[k], jobs[k])
  }

  lemma CarryOneMore(packets: seq<seq<byte>>, jobs: seq<Job>, p: seq<byte>, job: Job)
    requires Carry(packets, jobs) && Carries(p, job)
    ensures Carry(packets + [p], jobs + [job])
  {
  }

  lemma OriginalJobsStep(jobs: seq<Job>, job: Job)
    ensures OriginalJobs(jobs + [job]) == OriginalJobs(jobs) + if Original(job) then [job] else []
  {
    assert (jobs + [job])[..|jobs|] == jobs;
  }

  lemma {:induction false} OriginalsCarryChunks(w: World, n: nat, jobs: seq<Job>)
    requires Inv(ProfileFraming, w) && n <= |w.log| && jobs == w.log[..n]
    ensures Carry(Originals(ProfileFraming, jobs), OriginalJobs(jobs))
    decreases n
  {
    if n > 0 {
      var job, before := w.log[n - 1], w.log[..n - 1];
      OriginalsCarryChunks(w, n - 1, before);
      LogStep(w, n);
      OriginalJobsStep(before, job);
      if Original(job) {
        OriginalIsCarried(w, n - 1);
        CarryOneMore(Originals(ProfileFraming, before), OriginalJobs(before), PacketBytes(ProfileFraming, job), job);
      }
    }
  }

  // Every chunk of every accepted message was, in the order of acceptance, either
  // sent or dropped, until the ones still pending; the original packets carry
  // the sent ones. A chunk was dropped because three attempts failed, or because
  // its content is compressed telemetry, which is never sent.
  lemma PayloadsInOrder(actions: seq<Action>)
    ensures var w := Run(ProfileFraming, actions);
            && JobChunks(w.log) <= AllChunks(w.accepted)
            && Carry(Originals(ProfileFraming, w.log), OriginalJobs(w.log))
            && (Pending(w) == 0 <==> AllChunks(w.accepted) == JobChunks(w.log))
            && forall i :: 0 <= i < |w.log| ==>
                 && (w.log[i].chunk.content as nat == COMPRESSED ==> !w.log[i].sent)
                 && (!w.log[i].sent ==>
                       w.log[i].chunk.content as nat == COMPRESSED || w.log[i].attempts == SEND_ATTEMPTS)
  {
    var w := Run(ProfileFraming, actions);
    ProfileFramingOk();
    RunInv(ProfileFraming, actions);
    FinishedInOrder(ProfileFraming, w);
    PendingZeroIffDone(ProfileFraming, w);
    assert w.log[..|w.log|] == w.log;
    OriginalsCarryChunks(w, |w.log|, w.log);
    forall i | 0 <= i < |w.log|
      ensures w.log[i].chunk.content as nat == COMPRESSED ==> !w.log[i].sent
      ensures !w.log[i].sent ==>
                w.log[i].chunk.content as nat == COMPRESSED || w.log[i].attempts == SEND_ATTEMPTS
    {
      JobOutcome(w, i);
    }
  }

  lemma JobOutcome(w: World, i: nat)
    requires Inv(ProfileFraming, w) && i < |w.log|
    ensures w.log[i].chunk.content as nat == COMPRESSED ==> !w.log[i].sent
    ensures !w.log[i].sent ==>
              w.log[i].chunk.content as nat == COMPRESSED || w.log[i].attempts == SEND_ATTEMPTS
  {
    var job := w.log[i];
    assert Jobs(w)[i] == job && Jobs(w)[..i] == w.log[..i];
    assert JobOk(ProfileFraming, Jobs(w)[i], Jobs(w)[..i]);
    assert Ended(ProfileFraming, job);
    if job.chunk.content != RAW_FRAME {
      FramedIffNotCompressed(job.chunk.content, job.count, job.chunk.data);
    }
  }

  // ----- the data -----

  function PayloadOf(p: seq<byte>, c: byte): seq<byte> {
    if P.Valid(p) && P.Parse(p).value.content == c as nat then P.Parse(p).value.payload else []
  }

  // What a receiver that joins the payloads of one content type has.
  function Joined(packets: seq<seq<byte>>, c: byte): seq<byte>
    decreases |packets|
  {
    if |packets| == 0 then []
    else
      var n := |packets| - 1;
      Joined(packets[..n], c) + PayloadOf(packets[n], c)
  }

  lemma JoinedOneMore(packets: seq<seq<byte>>, p: seq<byte>, c: byte)
    ensures Joined(packets + [p], c) == Joined(packets, c) + PayloadOf(p, c)
  {
    assert (packets + [p])[..|packets|] == packets;
  }

  lemma CarriedPayload(p: seq<byte>, job: Job, c: byte)
    requires Carries(p, job)
    ensures PayloadOf(p, c) == DataOf(job.chunk, c)
  {
  }

  lemma OneMoreJoins(packets: seq<seq<byte>>, jobs: seq<Job>, job: Job, c: byte)
    requires Joined(packets, c) == SentData(jobs, c) && c != RAW_FRAME
    requires Original(job) ==> Carries(PacketBytes(ProfileFraming, job), job)
    ensures Joined(packets + (if Original(job) then [PacketBytes(ProfileFraming, job)] else []), c)
            == SentData(jobs + [job], c)
  {
    SentOneMore(jobs, job, c);
    if Original(job) {
      var p := PacketBytes(ProfileFraming, job);
      JoinedOneMore(packets, p, c);
      CarriedPayload(p, job, c);
    } else {
      assert packets + [] == packets;
    }
  }

  lemma {:induction false} OriginalsJoin(w: World, n: nat, jobs: seq<Job>, c: byte)
    requires Inv(ProfileFraming, w) && n <= |w.log| && jobs == w.log[..n] && c != RAW_FRAME
    ensures Joined(Originals(ProfileFraming, jobs), c) == SentData(jobs, c)
    decreases n
  {
    if n > 0 {
      var job, before := w.log[n - 1], w.log[..n - 1];
      OriginalsJoin(w, n - 1, before, c);
      LogStep(w, n);
      if Original(job) {
        OriginalIsCarried(w, n - 1);
      }
      OneMoreJoins(Originals(ProfileFraming, before), before, job, c);
    }
  }

  // After any run, for any content type, the payloads of the original packets join
  // to exactly the data of the messages accepted, in order, if and only if every
  // chunk of them has been sent.
  lemma DataArrives(actions: seq<Action>, c: byte)
    requires c != RAW_FRAME
    ensures var w := Run(ProfileFraming, actions);
            Joined(Originals(ProfileFraming, w.log), c) == Data(w.accepted, c) <==>
            AllDone(w.log, AllChunks(w.accepted), c)
  {
    var w := Run(ProfileFraming, actions);
    ProfileFramingOk();
    RunInv(ProfileFraming, actions);
    FinishedInOrder(ProfileFraming, w);
    assert w.log[..|w.log|] == w.log;
    OriginalsJoin(w, |w.log|, w.log, c);
    AllChunksJoin(w.accepted, c);
    AllDataIffAllDone(w.log, AllChunks(w.accepted), c);
  }

  // ----- resends -----

  lemma ParsedHeader(p: seq<byte>)
    requires P.Valid(p)
    ensures SP.ReadHeader(p) == P.Parse(p).value.packet.header && |p| >= SP.HEADER_SIZE
  {
  }

  // A packet answers to the APID of its content type and to its own number, and to
  // nothing else.
  lemma MatchesTells(actions: seq<Action>, i: nat, apid: nat, count: nat)
    ensures var w := Run(ProfileFraming, actions);
            var packets, jobs := Originals(ProfileFraming, w.log), OriginalJobs(w.log);
            && |packets| == |jobs|
            && (i < |packets| ==>
                  (Matches(packets[i], apid, count) <==>
                   apid == ApidOf(jobs[i].chunk.content) && count == jobs[i].count))
  {
    var w := Run(ProfileFraming, actions);
    ProfileFramingOk();
    RunInv(ProfileFraming, actions);
    assert w.log[..|w.log|] == w.log;
    OriginalsCarryChunks(w, |w.log|, w.log);
    var packets := Originals(ProfileFraming, w.log);
    if i < |packets| {
      assert Carries(packets[i], OriginalJobs(w.log)[i]);
      ParsedHeader(packets[i]);
    }
  }

  // ----- the queue as it is written -----

  // All of this holds of the object after whatever calls have been made of it.
  lemma QueueDelivers(q: RadioQueue.Queue, c: byte)
    requires q.Represents() && q.Reached() && q.record.f == ProfileFraming && c != RAW_FRAME
    ensures var air := Air(ProfileFraming, q.record.log);
            && G.Scan(S.Judge, G.Concat(air)) == G.Scanned(G.AsPieces(air), [])
            && G.RunOnce(S.Judge, [], G.Concat(air)) == G.Scanned(G.AsPieces(air), [])
    ensures q.record.history.sent == Originals(ProfileFraming, q.record.log)
    ensures Joined(q.record.history.sent, c) == Data(q.w.accepted, c) <==>
            AllDone(q.record.log, AllChunks(q.w.accepted), c)
    ensures var air, stats := Air(ProfileFraming, q.record.log), q.record.stats;
            && stats.sent == |air| && stats.dropped == |q.record.log| - |air|
            && stats.resent == |air| - |q.record.history.sent|
            && stats.retried == Attempts(q.record.log) - Tried(q.record.log)
  {
    RetriesTell(q.record.log);
    SentIsReceived(q.actions);
    DataArrives(q.actions, c);
  }
}
