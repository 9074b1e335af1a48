// The transmit queue of platform/common/radio_queue.c as a state machine over
// messages: what one lock-held region, or one attempt to send outside the lock,
// does to the waiting messages, the packet in flight and the jobs finished.
//
// How a chunk becomes a packet is a parameter, so that everything here holds of
// any framing.
module Downlink {
  import opened Bytes
  import opened Options
  import opened Radio
  import opened Sequences
  import opened SpacePacket

  const MESSAGE_HEADER: nat := 5
  const MAX_CHUNK: nat := 214
  const SEND_ATTEMPTS: nat := 3
  const CONTENT_TYPES: nat := 4
  const HISTORY_SIZE: nat := 600
  const RAW_FRAME: byte := 0xFF
  const COUNT_MODULUS: nat := 0x4000

  // A message that waits, what is left of one, or one chunk of it. RAW_FRAME
  // marks a packet that is to be sent again as it is.
  datatype Message = Message(content: byte, data: seq<byte>)

  // A chunk taken out for sending: its number, and how sending it went so far.
  datatype Job = Job(chunk: Message, count: nat, attempts: nat, sent: bool)

  // `accepted` and `log` are history: the messages queued so far and the jobs
  // finished so far.
  datatype World = World(
    started: bool,
    current: Message,
    waiting: seq<Message>,
    counts: seq<nat>,
    flight: Option<Job>,
    accepted: seq<Message>,
    log: seq<Job>,
    rejects: nat,
    highWater: nat)

  const INITIAL := World(false, Message(0, []), [], [0, 0, 0, 0], None, [], [], 0, 0)

  predicate IsInitial(w: World) {
    && !w.started && w.current == Message(0, []) && |w.waiting| == 0 && w.counts == [0, 0, 0, 0]
    && w.flight.None? && |w.accepted| == 0 && |w.log| == 0 && w.rejects == 0 && w.highWater == 0
  }

  lemma OnlyInitial(w: World)
    requires IsInitial(w)
    ensures w == INITIAL
  {
  }

  // What lg_ccsds_profile_build makes of a content type, a sequence count and a
  // chunk.
  type Framing = (byte, nat, seq<byte>) -> Option<seq<byte>>

  // ----- sizes -----

  function MessageSize(m: Message): nat {
    MESSAGE_HEADER + |m.data|
  }

  function TotalSize(ms: seq<Message>): nat {
    if ms == [] then 0 else MessageSize(ms[0]) + TotalSize(ms[1..])
  }

  // count: the octets waiting, message headers included.
  function Count(w: World): nat {
    |w.current.data| + TotalSize(w.waiting)
  }

  // radio_queue_pending
  function Pending(w: World): nat {
    Count(w) + if w.flight.Some? then |w.flight.value.chunk.data| else 0
  }

  // ----- chunks and packets -----

  function FirstChunk(m: Message): Message {
    if m.content == RAW_FRAME || |m.data| <= MAX_CHUNK then m else m.(data := m.data[..MAX_CHUNK])
  }

  function AfterChunk(m: Message): Message {
    m.(data := m.data[|FirstChunk(m).data|..])
  }

  // The chunks a message is cut into.
  function Chunks(m: Message): seq<Message>
    decreases |m.data|
  {
    if m.data == [] then [] else [FirstChunk(m)] + Chunks(AfterChunk(m))
  }

  function AllChunks(ms: seq<Message>): seq<Message> {
    if ms == [] then [] else Chunks(ms[0]) + AllChunks(ms[1..])
  }

  // The packet that carries a job.
  function PacketOf(f: Framing, job: Job): Option<seq<byte>> {
    if job.chunk.content == RAW_FRAME then Some(job.chunk.data)
    else f(job.chunk.content, job.count, job.chunk.data)
  }

  predicate Original(job: Job) {
    job.sent && job.chunk.content != RAW_FRAME
  }

  function PacketBytes(f: Framing, job: Job): seq<byte> {
    match PacketOf(f, job)
    case Some(p) => p
    case None => []
  }

  // The packets put on the air, in order.
  function Air(f: Framing, jobs: seq<Job>): seq<seq<byte>> {
    if jobs == [] then []
    else
      var n := |jobs| - 1;
      Air(f, jobs[..n]) + if jobs[n].sent then [PacketBytes(f, jobs[n])] else []
  }

  // Those of them that were not resends.
  function Originals(f: Framing, jobs: seq<Job>): seq<seq<byte>> {
    if jobs == [] then []
    else
      var n := |jobs| - 1;
      Originals(f, jobs[..n]) + if Original(jobs[n]) then [PacketBytes(f, jobs[n])] else []
  }

  // Send attempts after each job's first.
  function Retries(jobs: seq<Job>): nat {
    if jobs == [] then 0
    else
      var n := |jobs| - 1;
      Retries(jobs[..n]) + if jobs[n].attempts > 1 then jobs[n].attempts - 1 else 0
  }

  // How many jobs carry a chunk of this content type.
  function Taken(jobs: seq<Job>, content: byte): nat {
    if jobs == [] then 0
    else
      var n := |jobs| - 1;
      Taken(jobs[..n], content) + if jobs[n].chunk.content == content then 1 else 0
  }

  function JobChunks(jobs: seq<Job>): (cs: seq<Message>)
    ensures |cs| == |jobs|
  {
    seq(|jobs|, i requires 0 <= i < |jobs| => jobs[i].chunk)
  }

  // All jobs begun, the unfinished one last.
  function Jobs(w: World): seq<Job> {
    w.log + match w.flight case None => [] case Some(job) => [job]
  }

  // ----- the resend history -----

  function PacketCount(p: seq<byte>): nat {
    if |p| >= HEADER_SIZE then ReadHeader(p).count else 0
  }

  predicate Matches(p: seq<byte>, apid: nat, count: nat) {
    |p| >= HEADER_SIZE && ReadHeader(p).apid == apid && ReadHeader(p).count == count
  }

  // The last 600 packets.
  function Recent(packets: seq<seq<byte>>): (r: seq<seq<byte>>)
    ensures |r| <= HISTORY_SIZE && |r| <= |packets|
  {
    if |packets| <= HISTORY_SIZE then packets else packets[|packets| - HISTORY_SIZE..]
  }

  // The newest packet that matches.
  function Newest(packets: seq<seq<byte>>, apid: nat, count: nat): Option<seq<byte>>
    decreases |packets|
  {
    if packets == [] then None
    else
      var n := |packets| - 1;
      if Matches(packets[n], apid, count) then Some(packets[n]) else Newest(packets[..n], apid, count)
  }

  // ----- steps -----

  function Accept(w: World, m: Message): World {
    var count := Count(w) + MessageSize(m);
    w.(waiting := w.waiting + [m], accepted := w.accepted + [m],
       highWater := if count > w.highWater then count else w.highWater)
  }

  // push_locked: all or nothing.
  function PushLocked(w: World, m: Message): (World, bool) {
    if MessageSize(m) > QUEUE_SIZE - Count(w) then (w, false) else (Accept(w, m), true)
  }

  predicate BadArguments(pointers: bool, content: nat, data: seq<byte>) {
    !pointers || |data| == 0 || |data| >= U32 || content >= CONTENT_TYPES
    || (content == SSDV as nat && |data| % MAX_CHUNK != 0)
  }

  // The part of radio_queue_push that may refuse; `pointers` says that neither
  // pointer is NULL, `thread` whether a thread could be created.
  function TryPush(w: World, pointers: bool, content: nat, data: seq<byte>, thread: bool): (World, bool) {
    if BadArguments(pointers, content, data) || !(w.started || thread) then (w, false)
    else PushLocked(w.(started := true), Message(content, data))
  }

  // radio_queue_push: every refusal is counted.
  function Push(w: World, pointers: bool, content: nat, data: seq<byte>, thread: bool): (World, bool) {
    var (v, ok) := TryPush(w, pointers, content, data, thread);
    if ok then (v, true) else (v.(rejects := v.rejects + 1), false)
  }

  // radio_resend
  function Resend(f: Framing, w: World, apid: nat, count: nat): (World, bool) {
    match Newest(Recent(Originals(f, w.log)), apid, count)
    case None => (w, false)
    case Some(p) => if w.started then PushLocked(w, Message(RAW_FRAME, p)) else (w, false)
  }

  // The message under way: the current one, or the next when none is left of it.
  function Head(w: World): Message
    requires w.current.data != [] || w.waiting != []
  {
    if w.current.data == [] then w.waiting[0] else w.current
  }

  function Behind(w: World): seq<Message>
    requires w.current.data != [] || w.waiting != []
  {
    if w.current.data == [] then w.waiting[1..] else w.waiting
  }

  predicate CanTake(w: World) {
    w.started && w.flight.None? && Count(w) > 0
  }

  lemma CountPositive(w: World)
    requires Count(w) > 0
    ensures w.current.data != [] || w.waiting != []
  {
  }

  // tx_thread, first lock-held region
  function Take(w: World): World
    requires CanTake(w) && |w.counts| == CONTENT_TYPES
  {
    CountPositive(w);
    var m := Head(w);
    var chunk := FirstChunk(m);
    var v := w.(current := AfterChunk(m), waiting := Behind(w));
    if m.content == RAW_FRAME then
      v.(flight := Some(Job(chunk, PacketCount(chunk.data), 0, false)))
    else if m.content as nat < CONTENT_TYPES then
      v.(flight := Some(Job(chunk, w.counts[m.content], 0, false)),
         counts := w.counts[m.content := (w.counts[m.content] + 1) % COUNT_MODULUS])
    else v
  }

  predicate CanAttempt(f: Framing, w: World) {
    w.flight.Some? && var job := w.flight.value;
    !job.sent && job.attempts < SEND_ATTEMPTS && PacketOf(f, job).Some?
  }

  // One call of the sender, outside the lock.
  function Attempt(w: World, ok: bool): World
    requires w.flight.Some?
  {
    var job := w.flight.value;
    w.(flight := Some(job.(attempts := job.attempts + 1, sent := ok)))
  }

  predicate CanFinish(f: Framing, w: World) {
    w.flight.Some? && !CanAttempt(f, w)
  }

  // tx_thread, second lock-held region
  function Finish(w: World): World
    requires w.flight.Some?
  {
    w.(flight := None, log := w.log + [w.flight.value])
  }

  // The calls of the sender for one packet, given what they answer
  function Sending(f: Framing, w: World, answers: seq<bool>): (v: World)
    requires w.flight.Some?
    ensures v.flight.Some? && v == w.(flight := v.flight)
    decreases |answers|
  {
    if answers == [] || !CanAttempt(f, w) then w else Sending(f, Attempt(w, answers[0]), answers[1..])
  }

  datatype Action =
    | PushAction(pointers: bool, content: nat, data: seq<byte>, thread: bool)
    | ResendAction(apid: nat, count: nat)
    | TakeAction
    | AttemptAction(ok: bool)
    | FinishAction

  // A step that is not enabled changes nothing.
  function Apply(f: Framing, w: World, a: Action): World {
    match a
    case PushAction(pointers, content, data, thread) => Push(w, pointers, content, data, thread).0
    case ResendAction(apid, count) => Resend(f, w, apid, count).0
    case TakeAction => if CanTake(w) && |w.counts| == CONTENT_TYPES then Take(w) else w
    case AttemptAction(ok) => if CanAttempt(f, w) then Attempt(w, ok) else w
    case FinishAction => if CanFinish(f, w) then Finish(w) else w
  }

  // Any interleaving of producers, the thread and the radio.
  function Run(f: Framing, actions: seq<Action>): World {
    if actions == [] then INITIAL
    else Apply(f, Run(f, actions[..|actions| - 1]), actions[|actions| - 1])
  }

  lemma NothingRun(f: Framing, actions: seq<Action>)
    requires |actions| == 0
    ensures Run(f, actions) == INITIAL
  {
  }

  lemma RunOneMore(f: Framing, actions: seq<Action>, a: Action)
    ensures Run(f, actions + [a]) == Apply(f, Run(f, actions), a)
  {
    assert (actions + [a])[..|actions|] == actions;
  }

  // ----- the invariant -----

  ghost predicate Framed(f: Framing, content: byte, count: nat, data: seq<byte>) {
    f(content, count, data).Some? ==>
      var p := f(content, count, data).value;
      HEADER_SIZE <= |p| <= MAX_PACKET && PacketCount(p) == count
  }

  // What the queue relies on: a packet fits the 240-octet buffer and carries its
  // number.
  ghost predicate FramingOk(f: Framing) {
    forall content: byte, count: nat, data: seq<byte> ::
      content as nat < CONTENT_TYPES && count < COUNT_MODULUS && |data| <= MAX_CHUNK
      ==> Framed(f, content, count, data)
  }

  // A message that may wait, given the packets that can be asked for again.
  ghost predicate MessageOk(m: Message, originals: seq<seq<byte>>) {
    && m.data != []
    && (m.content as nat < CONTENT_TYPES || (m.content == RAW_FRAME && m.data in originals))
    && (m.content == SSDV ==> |m.data| % MAX_CHUNK == 0)
  }

  ghost predicate CurrentOk(m: Message) {
    m.data != [] ==>
      m.content as nat < CONTENT_TYPES && (m.content == SSDV ==> |m.data| % MAX_CHUNK == 0)
  }

  // The chunk of a job begun after the jobs `before`, and the number it got.
  ghost predicate JobOk(f: Framing, job: Job, before: seq<Job>) {
    && job.chunk.data != []
    && if job.chunk.content == RAW_FRAME
       then job.chunk.data in Originals(f, before) && job.count == PacketCount(job.chunk.data)
       else
         && job.chunk.content as nat < CONTENT_TYPES
         && |job.chunk.data| <= MAX_CHUNK
         && (job.chunk.content == SSDV ==> |job.chunk.data| == MAX_CHUNK)
         && job.count == Taken(before, job.chunk.content) % COUNT_MODULUS
  }

  ghost predicate Progress(f: Framing, job: Job) {
    && job.attempts <= SEND_ATTEMPTS
    && (job.sent ==> job.attempts > 0)
    && (job.attempts > 0 ==> PacketOf(f, job).Some?)
  }

  ghost predicate Ended(f: Framing, job: Job) {
    Progress(f, job) && (job.sent || job.attempts == SEND_ATTEMPTS || PacketOf(f, job).None?)
  }

  ghost predicate QueueInv(f: Framing, w: World) {
    && |w.counts| == CONTENT_TYPES
    && Count(w) <= QUEUE_SIZE
    && CurrentOk(w.current)
    && forall m :: m in w.waiting ==> MessageOk(m, Originals(f, w.log))
  }

  ghost predicate Numbered(w: World) {
    |w.counts| == CONTENT_TYPES
    && forall c: byte :: c as nat < CONTENT_TYPES ==> w.counts[c] == Taken(Jobs(w), c) % COUNT_MODULUS
  }

  ghost predicate JobsInv(f: Framing, w: World) {
    && (forall i :: 0 <= i < |Jobs(w)| ==> JobOk(f, Jobs(w)[i], Jobs(w)[..i]))
    && (forall i :: 0 <= i < |w.log| ==> Ended(f, w.log[i]))
    && (w.flight.Some? ==> Progress(f, w.flight.value))
  }

  // Every chunk of every accepted message is in a job, in what is left of the
  // current message or in a waiting one, in order.
  ghost predicate Conserved(w: World) {
    AllChunks(w.accepted) == JobChunks(Jobs(w)) + (Chunks(w.current) + AllChunks(w.waiting))
  }

  ghost predicate Inv(f: Framing, w: World) {
    QueueInv(f, w) && Numbered(w) && JobsInv(f, w) && Conserved(w)
  }

  lemma InitialInv(f: Framing)
    ensures Inv(f, INITIAL)
  {
    assert Jobs(INITIAL) == [] && JobChunks([]) == [];
    assert QueueInv(f, INITIAL);
    assert Numbered(INITIAL);
    assert JobsInv(f, INITIAL);
    assert Conserved(INITIAL);
  }

  // ----- sequences of messages -----

  lemma {:induction false} AllChunksAppend(ms: seq<Message>, m: Message)
    ensures AllChunks(ms + [m]) == AllChunks(ms) + Chunks(m)
    decreases |ms|
  {
    if ms == [] {
      assert [] + [m] == [m];
    } else {
      assert (ms + [m])[1..] == ms[1..] + [m];
      AllChunksAppend(ms[1..], m);
      Regroup(Chunks(ms[0]), AllChunks(ms[1..]), Chunks(m));
    }
  }

  lemma {:induction false} TotalSizeAppend(ms: seq<Message>, m: Message)
    ensures TotalSize(ms + [m]) == TotalSize(ms) + MessageSize(m)
    decreases |ms|
  {
    if ms != [] {
      assert (ms + [m])[1..] == ms[1..] + [m];
      TotalSizeAppend(ms[1..], m);
    } else {
      assert [] + [m] == [m];
    }
  }

  lemma CountAfterPut(w: World, m: Message)
    ensures |w.current.data| + TotalSize(w.waiting + [m]) == Count(w) + MessageSize(m)
  {
    TotalSizeAppend(w.waiting, m);
  }

  // ----- pushing keeps the invariant -----

  lemma AcceptKeepsInv(f: Framing, w: World, m: Message)
    requires Inv(f, w) && MessageOk(m, Originals(f, w.log))
    requires MessageSize(m) <= QUEUE_SIZE - Count(w)
    ensures Inv(f, Accept(w, m)) && Count(Accept(w, m)) == Count(w) + MessageSize(m)
  {
    var v := Accept(w, m);
    TotalSizeAppend(w.waiting, m);
    AllChunksAppend(w.accepted, m);
    AllChunksAppend(w.waiting, m);
    assert Jobs(v) == Jobs(w);
    Regroup(Chunks(w.current), AllChunks(w.waiting), Chunks(m));
    Regroup(JobChunks(Jobs(w)), Chunks(w.current) + AllChunks(w.waiting), Chunks(m));
  }

  lemma SameQueueSameInv(f: Framing, w: World, v: World)
    requires Inv(f, w) && v == w.(started := v.started, rejects := v.rejects)
    ensures Inv(f, v)
  {
    assert Jobs(v) == Jobs(w);
  }

  lemma PushKeepsInv(f: Framing, w: World, pointers: bool, content: nat, data: seq<byte>, thread: bool)
    requires Inv(f, w)
    ensures Inv(f, Push(w, pointers, content, data, thread).0)
  {
    var v := Push(w, pointers, content, data, thread).0;
    if !BadArguments(pointers, content, data) && (w.started || thread) {
      var u := w.(started := true);
      SameQueueSameInv(f, w, u);
      var m := Message(content, data);
      if MessageSize(m) <= QUEUE_SIZE - Count(u) {
        AcceptKeepsInv(f, u, m);
      } else {
        SameQueueSameInv(f, u, v);
      }
    } else {
      SameQueueSameInv(f, w, v);
    }
  }

  lemma {:induction false} NewestIsIn(packets: seq<seq<byte>>, apid: nat, count: nat)
    ensures var r := Newest(packets, apid, count); r.Some? ==> r.value in packets
    decreases |packets|
  {
    if packets != [] && !Matches(packets[|packets| - 1], apid, count) {
      NewestIsIn(packets[..|packets| - 1], apid, count);
    }
  }

  lemma OriginalFits(f: Framing, job: Job, before: seq<Job>)
    requires FramingOk(f) && JobOk(f, job, before) && Progress(f, job) && Original(job)
    ensures HEADER_SIZE <= |PacketBytes(f, job)| <= MAX_PACKET
  {
    assert Framed(f, job.chunk.content, job.count, job.chunk.data);
  }

  lemma OriginalIsNonempty(f: Framing, jobs: seq<Job>, p: seq<byte>)
    requires forall i :: 0 <= i < |jobs| ==> JobOk(f, jobs[i], jobs[..i])
    requires forall i :: 0 <= i < |jobs| ==> Progress(f, jobs[i])
    requires FramingOk(f) && p in Originals(f, jobs)
    ensures HEADER_SIZE <= |p| <= MAX_PACKET
    decreases |jobs|
  {
    var n := |jobs| - 1;
    var before := jobs[..n];
    assert forall i :: 0 <= i < n ==> before[i] == jobs[i] && before[..i] == jobs[..i];
    if p in Originals(f, before) {
      OriginalIsNonempty(f, before, p);
    } else {
      assert JobOk(f, jobs[n], jobs[..n]) && Progress(f, jobs[n]);
      OriginalFits(f, jobs[n], before);
    }
  }

  // What a resend finds may wait in the queue.
  lemma FoundIsOriginal(f: Framing, w: World, apid: nat, count: nat)
    requires FramingOk(f) && Inv(f, w)
    ensures var originals := Originals(f, w.log);
            var r := Newest(Recent(originals), apid, count);
            r.Some? ==> MessageOk(Message(RAW_FRAME, r.value), originals) && HEADER_SIZE <= |r.value| <= MAX_PACKET
  {
    var originals := Originals(f, w.log);
    var r := Newest(Recent(originals), apid, count);
    if r.Some? {
      NewestIsIn(Recent(originals), apid, count);
      assert r.value in originals;
      assert forall i :: 0 <= i < |w.log| ==> Jobs(w)[i] == w.log[i] && Jobs(w)[..i] == w.log[..i];
      OriginalIsNonempty(f, w.log, r.value);
    }
  }

  lemma ResendKeepsInv(f: Framing, w: World, apid: nat, count: nat)
    requires FramingOk(f) && Inv(f, w)
    ensures Inv(f, Resend(f, w, apid, count).0)
  {
    var r := Newest(Recent(Originals(f, w.log)), apid, count);
    FoundIsOriginal(f, w, apid, count);
    if r.Some? && w.started && MessageSize(Message(RAW_FRAME, r.value)) <= QUEUE_SIZE - Count(w) {
      AcceptKeepsInv(f, w, Message(RAW_FRAME, r.value));
    }
  }

  // ----- the thread's steps keep the invariant -----

  lemma TakeParts(w: World)
    requires Count(w) > 0
    ensures w.current.data != [] || w.waiting != []
    ensures Chunks(w.current) + AllChunks(w.waiting) == Chunks(Head(w)) + AllChunks(Behind(w))
    ensures Count(w) >= |Head(w).data| + TotalSize(Behind(w))
  {
    CountPositive(w);
    if w.current.data == [] {
      assert [] + AllChunks(w.waiting) == AllChunks(w.waiting);
    }
  }

  lemma HeadOk(f: Framing, w: World)
    requires QueueInv(f, w) && Count(w) > 0
    ensures w.current.data != [] || w.waiting != []
    ensures MessageOk(Head(w), Originals(f, w.log))
    ensures forall m :: m in Behind(w) ==> MessageOk(m, Originals(f, w.log))
  {
    CountPositive(w);
  }

  // The thread can always read the message under way.
  lemma HeadReady(f: Framing, w: World)
    requires FramingOk(f) && Inv(f, w) && CanTake(w)
    ensures w.current.data != [] || w.waiting != []
    ensures var m := Head(w);
            && m.data != [] && |m.data| < U32
            && (m.content as nat < CONTENT_TYPES || m.content == RAW_FRAME)
            && (m.content == RAW_FRAME ==> HEADER_SIZE <= |m.data| <= MAX_PACKET)
  {
    HeadOk(f, w);
    TakeParts(w);
    var m := Head(w);
    if m.content == RAW_FRAME {
      assert Jobs(w) == w.log;
      OriginalIsNonempty(f, w.log, m.data);
    }
  }

  // What taking the first chunk of m does, field by field.
  ghost predicate TakesFrom(w: World, m: Message, v: World) {
    && v.current == AfterChunk(m)
    && v.started == w.started && v.log == w.log && v.rejects == w.rejects && v.highWater == w.highWater
    && (m.content == RAW_FRAME ==>
          v.counts == w.counts
          && v.flight == Some(Job(FirstChunk(m), PacketCount(FirstChunk(m).data), 0, false)))
    && (m.content != RAW_FRAME ==>
          && m.content as nat < |w.counts|
          && v.counts == w.counts[m.content := (w.counts[m.content] + 1) % COUNT_MODULUS]
          && v.flight == Some(Job(FirstChunk(m), w.counts[m.content], 0, false)))
  }

  lemma TakeShape(f: Framing, w: World)
    requires FramingOk(f) && Inv(f, w) && CanTake(w)
    ensures w.current.data != [] || w.waiting != []
    ensures TakesFrom(w, Head(w), Take(w)) && Take(w).waiting == Behind(w)
  {
    HeadReady(f, w);
  }

  // A packet that was sent for the first time carries its job's number.
  lemma SentPacketNumber(f: Framing, w: World)
    requires FramingOk(f) && Inv(f, w) && w.flight.Some?
    ensures var job := w.flight.value;
            && job.count < COUNT_MODULUS
            && (Original(job) ==>
                  && PacketOf(f, job).Some?
                  && HEADER_SIZE <= |PacketOf(f, job).value|
                  && ReadHeader(PacketOf(f, job).value).count == job.count)
  {
    var job, n := w.flight.value, |w.log|;
    assert Jobs(w)[n] == job && Jobs(w)[..n] == w.log;
    assert JobOk(f, Jobs(w)[n], Jobs(w)[..n]);
    if Original(job) {
      assert Framed(f, job.chunk.content, job.count, job.chunk.data);
    }
  }

  // A job whose packet was sent did have a packet.
  lemma EndedWhenDone(f: Framing, w: World)
    requires Inv(f, w) && w.flight.Some?
    ensures w.flight.value.sent ==> PacketOf(f, w.flight.value).Some?
  {
  }

  // A chunk is never empty; of an SSDV message it is exactly one SSDV packet.
  lemma ChunkOk(m: Message, originals: seq<seq<byte>>)
    requires MessageOk(m, originals)
    ensures var c := FirstChunk(m);
            && c.content == m.content && 0 < |c.data| <= |m.data|
            && (m.content != RAW_FRAME ==> |c.data| <= MAX_CHUNK)
            && (m.content == RAW_FRAME ==> c == m)
            && (m.content == SSDV ==> |c.data| == MAX_CHUNK)
    ensures CurrentOk(AfterChunk(m))
    ensures |AfterChunk(m).data| == |m.data| - |FirstChunk(m).data|
    ensures Chunks(m) == [FirstChunk(m)] + Chunks(AfterChunk(m))
  {
  }

  lemma TakenStep(jobs: seq<Job>, job: Job, content: byte)
    ensures Taken(jobs + [job], content) == Taken(jobs, content) + if job.chunk.content == content then 1 else 0
  {
    assert (jobs + [job])[..|jobs|] == jobs;
  }

  lemma JobsAppend(f: Framing, jobs: seq<Job>, job: Job)
    requires forall i :: 0 <= i < |jobs| ==> JobOk(f, jobs[i], jobs[..i])
    requires JobOk(f, job, jobs)
    ensures forall i :: 0 <= i < |jobs| + 1 ==> JobOk(f, (jobs + [job])[i], (jobs + [job])[..i])
    ensures JobChunks(jobs + [job]) == JobChunks(jobs) + [job.chunk]
  {
    var all := jobs + [job];
    forall i | 0 <= i < |jobs| + 1
      ensures JobOk(f, all[i], all[..i])
    {
      if i < |jobs| {
        assert all[..i] == jobs[..i];
      } else {
        assert all[..i] == jobs;
      }
    }
  }

  lemma CountSucc(n: nat)
    ensures (n % COUNT_MODULUS + 1) % COUNT_MODULUS == (n + 1) % COUNT_MODULUS
  {
  }

  lemma NumberedAfterTake(w: World, v: World, job: Job)
    requires Numbered(w) && Jobs(v) == Jobs(w) + [job]
    requires if job.chunk.content as nat < CONTENT_TYPES
             then v.counts == w.counts[job.chunk.content := (w.counts[job.chunk.content] + 1) % COUNT_MODULUS]
             else v.counts == w.counts
    ensures Numbered(v)
  {
    forall c: byte | c as nat < CONTENT_TYPES
      ensures v.counts[c] == Taken(Jobs(v), c) % COUNT_MODULUS
    {
      TakenStep(Jobs(w), job, c);
      CountSucc(Taken(Jobs(w), c));
      assert w.counts[c] == Taken(Jobs(w), c) % COUNT_MODULUS;
    }
  }

  lemma ConservedAfterTake(w: World, v: World, job: Job)
    requires Conserved(w) && Count(w) > 0 && (w.current.data != [] || w.waiting != [])
    requires Jobs(v) == Jobs(w) + [job] && v.accepted == w.accepted
    requires v.current == AfterChunk(Head(w)) && v.waiting == Behind(w) && job.chunk == FirstChunk(Head(w))
    requires Chunks(Head(w)) == [job.chunk] + Chunks(v.current)
    ensures Conserved(v)
  {
    TakeParts(w);
    assert JobChunks(Jobs(v)) == JobChunks(Jobs(w)) + [job.chunk];
    Regroup([job.chunk], Chunks(v.current), AllChunks(v.waiting));
    Regroup(JobChunks(Jobs(w)), [job.chunk], Chunks(v.current) + AllChunks(v.waiting));
  }

  lemma TakenJobOk(f: Framing, w: World, m: Message, v: World)
    requires QueueInv(f, w) && Numbered(w) && w.flight.None? && TakesFrom(w, m, v)
    requires MessageOk(m, Originals(f, w.log))
    ensures v.flight.Some? && JobOk(f, v.flight.value, w.log)
  {
    ChunkOk(m, Originals(f, w.log));
    assert Jobs(w) == w.log;
  }

  lemma JobsAfterTake(f: Framing, w: World, v: World, job: Job)
    requires JobsInv(f, w) && w.flight.None? && v.log == w.log && v.flight == Some(job)
    requires JobOk(f, job, w.log) && job.attempts == 0 && !job.sent
    ensures JobsInv(f, v) && Jobs(w) == w.log && Jobs(v) == w.log + [job]
  {
    assert Jobs(w) == w.log;
    JobsAppend(f, w.log, job);
  }

  lemma QueueAfterTake(f: Framing, w: World, m: Message, v: World)
    requires QueueInv(f, w) && TakesFrom(w, m, v) && MessageOk(m, Originals(f, w.log))
    requires v.waiting == w.waiting || (w.waiting != [] && v.waiting == w.waiting[1..])
    requires |m.data| + TotalSize(v.waiting) <= Count(w)
    ensures QueueInv(f, v)
  {
    ChunkOk(m, Originals(f, w.log));
  }

  lemma TakeKeepsInv(f: Framing, w: World)
    requires FramingOk(f) && Inv(f, w) && CanTake(w)
    ensures Inv(f, Take(w)) && Take(w).flight.Some?
  {
    HeadOk(f, w);
    TakeParts(w);
    TakeShape(f, w);
    var m, v := Head(w), Take(w);
    ChunkOk(m, Originals(f, w.log));
    TakenJobOk(f, w, m, v);
    JobsAfterTake(f, w, v, v.flight.value);
    QueueAfterTake(f, w, m, v);
    NumberedAfterTake(w, v, v.flight.value);
    ConservedAfterTake(w, v, v.flight.value);
  }

  lemma OriginalsStep(f: Framing, jobs: seq<Job>, job: Job)
    ensures Originals(f, jobs + [job]) == Originals(f, jobs) + if Original(job) then [PacketBytes(f, job)] else []
    ensures Air(f, jobs + [job]) == Air(f, jobs) + if job.sent then [PacketBytes(f, job)] else []
    ensures Retries(jobs + [job]) == Retries(jobs) + if job.attempts > 1 then job.attempts - 1 else 0
  {
    assert (jobs + [job])[..|jobs|] == jobs;
  }

  // What JobOk says of a job does not depend on how sending it goes.
  lemma AttemptKeepsJobs(f: Framing, w: World, ok: bool)
    requires JobsInv(f, w) && CanAttempt(f, w)
    ensures JobsInv(f, Attempt(w, ok)) && JobChunks(Jobs(Attempt(w, ok))) == JobChunks(Jobs(w))
  {
    var v := Attempt(w, ok);
    var n := |w.log|;
    assert Jobs(w)[n] == w.flight.value && Jobs(v)[n] == v.flight.value;
    forall i | 0 <= i < |Jobs(v)|
      ensures JobOk(f, Jobs(v)[i], Jobs(v)[..i])
    {
      assert JobOk(f, Jobs(w)[i], Jobs(w)[..i]);
      assert Jobs(w)[..i] == w.log[..i] == Jobs(v)[..i];
    }
  }

  lemma AttemptKeepsNumbers(f: Framing, w: World, ok: bool)
    requires Numbered(w) && CanAttempt(f, w)
    ensures Numbered(Attempt(w, ok))
  {
    var v := Attempt(w, ok);
    forall c: byte | c as nat < CONTENT_TYPES
      ensures v.counts[c] == Taken(Jobs(v), c) % COUNT_MODULUS
    {
      TakenStep(w.log, w.flight.value, c);
      TakenStep(v.log, v.flight.value, c);
      assert w.counts[c] == Taken(Jobs(w), c) % COUNT_MODULUS;
    }
  }

  lemma AttemptKeepsInv(f: Framing, w: World, ok: bool)
    requires Inv(f, w) && CanAttempt(f, w)
    ensures Inv(f, Attempt(w, ok))
  {
    AttemptKeepsJobs(f, w, ok);
    AttemptKeepsNumbers(f, w, ok);
  }

  lemma FinishKeepsInv(f: Framing, w: World)
    requires Inv(f, w) && CanFinish(f, w)
    ensures Inv(f, Finish(w))
  {
    var v, job := Finish(w), w.flight.value;
    assert Jobs(v) == Jobs(w);
    OriginalsStep(f, w.log, job);
    forall i | 0 <= i < |v.log|
      ensures Ended(f, v.log[i])
    {
      if i < |w.log| {
        assert Ended(f, w.log[i]);
      }
    }
  }

  lemma StepKeepsInv(f: Framing, w: World, a: Action)
    requires FramingOk(f) && Inv(f, w)
    ensures Inv(f, Apply(f, w, a))
  {
    match a
    case PushAction(pointers, content, data, thread) => PushKeepsInv(f, w, pointers, content, data, thread);
    case ResendAction(apid, count) => ResendKeepsInv(f, w, apid, count);
    case TakeAction =>
      if CanTake(w) {
        TakeKeepsInv(f, w);
      }
    case AttemptAction(ok) =>
      if CanAttempt(f, w) {
        AttemptKeepsInv(f, w, ok);
      }
    case FinishAction =>
      if CanFinish(f, w) {
        FinishKeepsInv(f, w);
      }
  }

  // In every state that any interleaving can reach, the invariant holds.
  lemma {:induction false} RunInv(f: Framing, actions: seq<Action>)
    requires FramingOk(f)
    ensures Inv(f, Run(f, actions))
    decreases |actions|
  {
    if actions == [] {
      InitialInv(f);
    } else {
      RunInv(f, actions[..|actions| - 1]);
      StepKeepsInv(f, Run(f, actions[..|actions| - 1]), actions[|actions| - 1]);
    }
  }

  // ----- pushing -----

  // A push queues the whole message, or nothing and is counted; it succeeds exactly
  // when its arguments are good, the thread runs or can be started, and there is
  // room for message and header.
  // The arguments that radio_queue_push takes: of known content, not empty, and for
  // SSDV whole packets of 214 octets.
  ghost predicate Pushable(pointers: bool, content: nat, data: seq<byte>) {
    && pointers && 0 < |data| < 0x1_0000_0000 && content < 4
    && (content == 2 ==> exists photos: nat :: |data| == 214 * photos)
  }

  lemma WholePackets(n: nat)
    ensures n % 214 == 0 <==> exists photos: nat :: n == 214 * photos
  {
    if n % 214 == 0 {
      assert n == 214 * (n / 214);
    }
  }

  // A push succeeds exactly if it has such arguments, the thread runs or can be
  // started, and the message fits with its header; and then all of it waits. The
  // thread is started if arguments are good, and every refusal is counted.
  lemma PushAllOrNothing(w: World, pointers: bool, content: nat, data: seq<byte>, thread: bool)
    ensures var (v, ok) := Push(w, pointers, content, data, thread);
            && (ok <==> Pushable(pointers, content, data) && (w.started || thread)
                        && Count(w) + 5 + |data| <= 131072)
            && (ok ==> Count(v) == Count(w) + 5 + |data|
                       && v == w.(started := true, waiting := w.waiting + [Message(content, data)],
                                  accepted := w.accepted + [Message(content, data)],
                                  highWater := if Count(v) > w.highWater then Count(v) else w.highWater))
            && (!ok ==> Count(v) == Count(w)
                        && v == w.(started := w.started || (Pushable(pointers, content, data) && thread),
                                   rejects := w.rejects + 1))
  {
    WholePackets(|data|);
    if Pushable(pointers, content, data) {
      CountAfterPut(w, Message(content, data));
    }
  }

  lemma TakeLowersCount(f: Framing, w: World)
    requires FramingOk(f) && Inv(f, w) && CanTake(w)
    ensures Count(Take(w)) <= Count(w) && Take(w).highWater == w.highWater
  {
    TakeParts(w);
    TakeShape(f, w);
  }

  lemma StepRaisesHighWater(f: Framing, w: World, a: Action)
    requires FramingOk(f) && Inv(f, w) && Count(w) <= w.highWater
    ensures var v := Apply(f, w, a);
            && Count(v) <= v.highWater && w.highWater <= v.highWater
            && (v.highWater == w.highWater || v.highWater == Count(v))
  {
    match a
    case PushAction(pointers, content, data, thread) =>
      if content < CONTENT_TYPES {
        CountAfterPut(w, Message(content, data));
      }
    case ResendAction(apid, count) =>
      var found := Newest(Recent(Originals(f, w.log)), apid, count);
      if found.Some? {
        CountAfterPut(w, Message(RAW_FRAME, found.value));
      }
    case TakeAction =>
      if CanTake(w) {
        TakeLowersCount(f, w);
      }
    case AttemptAction(ok) =>
    case FinishAction =>
  }

  function WaitingAfter(f: Framing, actions: seq<Action>): nat {
    Count(Run(f, actions))
  }

  function MostAfter(f: Framing, actions: seq<Action>): nat {
    Run(f, actions).highWater
  }

  lemma OneMoreAction(f: Framing, actions: seq<Action>)
    requires FramingOk(f) && actions != []
    requires var before := actions[..|actions| - 1]; WaitingAfter(f, before) <= MostAfter(f, before)
    ensures var before, most := actions[..|actions| - 1], MostAfter(f, actions);
            && WaitingAfter(f, actions) <= most && MostAfter(f, before) <= most
            && most in {MostAfter(f, before), WaitingAfter(f, actions)}
  {
    var before := actions[..|actions| - 1];
    RunInv(f, before);
    StepRaisesHighWater(f, Run(f, before), actions[|actions| - 1]);
  }

  ghost predicate NeverAbove(f: Framing, actions: seq<Action>, most: nat) {
    forall k :: 0 <= k <= |actions| ==> WaitingAfter(f, actions[..k]) <= most
  }

  lemma StillNotAbove(f: Framing, actions: seq<Action>, low: nat, most: nat)
    requires actions != [] && NeverAbove(f, actions[..|actions| - 1], low) && low <= most
    requires WaitingAfter(f, actions) <= most
    ensures NeverAbove(f, actions, most)
  {
    var before := actions[..|actions| - 1];
    forall k | 0 <= k <= |actions|
      ensures WaitingAfter(f, actions[..k]) <= most
    {
      if k < |actions| {
        assert before[..k] == actions[..k];
      } else {
        assert actions[..k] == actions;
      }
    }
  }

  // queue_high_water is the most octets that ever waited, at whatever time in the
  // run that was.
  lemma {:induction false} HighWaterIsMost(f: Framing, actions: seq<Action>) returns (at: nat)
    requires FramingOk(f)
    ensures at <= |actions| && WaitingAfter(f, actions[..at]) == MostAfter(f, actions)
    ensures NeverAbove(f, actions, MostAfter(f, actions))
    decreases |actions|
  {
    var n := |actions|;
    assert actions[..n] == actions;
    if n == 0 {
      at := 0;
    } else {
      var before := actions[..n - 1];
      at := HighWaterIsMost(f, before);
      assert before[..n - 1] == before && before[..at] == actions[..at];
      OneMoreAction(f, actions);
      StillNotAbove(f, actions, MostAfter(f, before), MostAfter(f, actions));
      if MostAfter(f, actions) != MostAfter(f, before) {
        at := n;
      }
    }
  }

  // ----- what the invariant says of a finished run -----

  lemma {:induction false} TakenConcat(a: seq<Job>, b: seq<Job>, content: byte)
    ensures Taken(a + b, content) == Taken(a, content) + Taken(b, content)
    decreases |b|
  {
    if b == [] {
      assert a + b == a;
    } else {
      var n := |b| - 1;
      assert (a + b)[..|a| + n] == a + b[..n];
      TakenConcat(a, b[..n], content);
    }
  }

  lemma JobNumber(f: Framing, w: World, i: nat)
    requires JobsInv(f, w) && i < |w.log| && w.log[i].chunk.content as nat < CONTENT_TYPES
    ensures w.log[i].count == Taken(w.log[..i], w.log[i].chunk.content) % COUNT_MODULUS
  {
    assert Jobs(w)[..i] == w.log[..i] && Jobs(w)[i] == w.log[i];
    assert JobOk(f, Jobs(w)[i], Jobs(w)[..i]);
  }

  lemma TakenBetween(log: seq<Job>, i: nat, j: nat, content: byte)
    requires i < j <= |log| && log[i].chunk.content == content
    ensures Taken(log[..j], content) == Taken(log[..i], content) + (1 + Taken(log[i + 1..j], content))
  {
    assert log[..i] + [log[i]] == log[..i + 1];
    assert log[..i + 1] + log[i + 1..j] == log[..j];
    TakenConcat(log[..i + 1], log[i + 1..j], content);
    TakenStep(log[..i], log[i], content);
  }

  // Between two chunks of one content type the sequence counts differ by one
  // more than the chunks of that type between them, whatever became of those.
  lemma CountGap(f: Framing, w: World, i: nat, j: nat)
    requires Inv(f, w) && i < j < |w.log|
    requires w.log[i].chunk.content == w.log[j].chunk.content
    requires w.log[i].chunk.content as nat < CONTENT_TYPES
    ensures var c := w.log[i].chunk.content;
            w.log[j].count == (w.log[i].count + (1 + Taken(w.log[i + 1..j], c))) % COUNT_MODULUS
  {
    var c := w.log[i].chunk.content;
    JobNumber(f, w, i);
    JobNumber(f, w, j);
    TakenBetween(w.log, i, j, c);
    var before, gap := Taken(w.log[..i], c), 1 + Taken(w.log[i + 1..j], c);
    ModAdd(before, gap);
    assert w.log[i].count == before % COUNT_MODULUS && w.log[j].count == (before + gap) % COUNT_MODULUS;
  }

  lemma ModAdd(a: nat, b: nat)
    ensures (a % COUNT_MODULUS + b) % COUNT_MODULUS == (a + b) % COUNT_MODULUS
  {
  }

  lemma NoChunksNoMessages(originals: seq<seq<byte>>, m: Message, ms: seq<Message>)
    requires forall x :: x in ms ==> MessageOk(x, originals)
    ensures |Chunks(m)| + |AllChunks(ms)| == 0 <==> m.data == [] && ms == []
  {
    if ms != [] {
      assert MessageOk(ms[0], originals);
      assert |Chunks(ms[0])| > 0;
    }
  }

  // Nothing is pending exactly when every chunk of everything accepted has been
  // sent or given up, in the order it was accepted.
  lemma PendingZeroIffDone(f: Framing, w: World)
    requires Inv(f, w)
    ensures Pending(w) == 0 <==> AllChunks(w.accepted) == JobChunks(w.log)
  {
    var later := Chunks(w.current) + AllChunks(w.waiting);
    NoChunksNoMessages(Originals(f, w.log), w.current, w.waiting);
    assert JobChunks(w.log) + [] == JobChunks(w.log);
    if w.flight.Some? {
      var n := |w.log|;
      assert Jobs(w)[n] == w.flight.value && JobOk(f, Jobs(w)[n], Jobs(w)[..n]);
      assert |AllChunks(w.accepted)| >= |Jobs(w)| > |w.log|;
    } else {
      assert Jobs(w) == w.log;
      assert |AllChunks(w.accepted)| == |w.log| + |later|;
    }
  }

  // The jobs finished are an initial part of what was accepted, in order.
  lemma FinishedInOrder(f: Framing, w: World)
    requires Inv(f, w)
    ensures JobChunks(w.log) <= AllChunks(w.accepted)
  {
    assert JobChunks(w.log) == JobChunks(Jobs(w))[..|w.log|];
  }

  // A resend on the air is a copy of a packet sent before it.
  lemma ResendsAreCopies(f: Framing, w: World, i: nat)
    requires Inv(f, w) && i < |w.log| && w.log[i].sent && !Original(w.log[i])
    ensures PacketBytes(f, w.log[i]) in Originals(f, w.log[..i])
  {
    assert Jobs(w)[i] == w.log[i] && Jobs(w)[..i] == w.log[..i];
    assert JobOk(f, Jobs(w)[i], Jobs(w)[..i]);
  }

  // A packet is sent again until that works or has failed three times.
  lemma {:induction false} TriesUpToThree(f: Framing, w: World, answers: seq<bool>)
    requires w.flight.Some? && !w.flight.value.sent && PacketOf(f, w.flight.value).Some?
    requires w.flight.value.attempts <= SEND_ATTEMPTS <= w.flight.value.attempts + |answers|
    ensures var job, n := Sending(f, w, answers).flight.value, w.flight.value.attempts;
            && n <= job.attempts <= SEND_ATTEMPTS && job == w.flight.value.(attempts := job.attempts, sent := job.sent)
            && (forall i :: 0 <= i < job.attempts - n ==> answers[i] == (job.sent && i == job.attempts - n - 1))
            && (job.sent ==> job.attempts > n) && (!job.sent ==> job.attempts == SEND_ATTEMPTS)
            && CanFinish(f, Sending(f, w, answers))
    decreases |answers|
  {
    if w.flight.value.attempts < SEND_ATTEMPTS && !answers[0] {
      TriesUpToThree(f, Attempt(w, false), answers[1..]);
    }
  }

  // ----- resends -----

  // Packet i matches, and no newer one does.
  ghost predicate NewestMatch(packets: seq<seq<byte>>, apid: nat, count: nat, i: int) {
    && 0 <= i < |packets|
    && Matches(packets[i], apid, count)
    && forall j :: i < j < |packets| ==> !Matches(packets[j], apid, count)
  }

  // The search finds a packet exactly when one matches, and then it is the newest
  // that does.
  lemma {:induction false} FoundIffMatch(packets: seq<seq<byte>>, apid: nat, count: nat)
    ensures var r := Newest(packets, apid, count);
            && (r.None? ==> forall i :: 0 <= i < |packets| ==> !Matches(packets[i], apid, count))
            && (r.Some? ==> exists i :: NewestMatch(packets, apid, count, i) && packets[i] == r.value)
            && (forall i :: NewestMatch(packets, apid, count, i) ==> r == Some(packets[i]))
    decreases |packets|
  {
    if packets != [] {
      var n := |packets| - 1;
      var older := packets[..n];
      if Matches(packets[n], apid, count) {
        assert NewestMatch(packets, apid, count, n);
      } else {
        FoundIffMatch(older, apid, count);
        assert forall i :: 0 <= i < n ==> older[i] == packets[i];
        assert forall i :: NewestMatch(older, apid, count, i) <==> NewestMatch(packets, apid, count, i);
      }
    }
  }

  lemma NewestOfRecent(packets: seq<seq<byte>>, apid: nat, count: nat, i: int)
    requires 0 <= i < |packets| && |packets| - i <= 600
    ensures var older := |packets| - |Recent(packets)|;
            NewestMatch(packets, apid, count, i) <==> NewestMatch(Recent(packets), apid, count, i - older)
  {
    var recent, older := Recent(packets), |packets| - |Recent(packets)|;
    assert forall k :: 0 <= k < |recent| ==> recent[k] == packets[older + k];
    if NewestMatch(recent, apid, count, i - older) {
      forall j | i < j < |packets|
        ensures !Matches(packets[j], apid, count)
      {
        assert recent[j - older] == packets[j];
      }
    }
  }

  // Packet i is the newest that matches, is among the last 600 sent and fits.
  ghost predicate Resendable(f: Framing, w: World, apid: nat, count: nat, i: int) {
    var sent := Originals(f, w.log);
    && NewestMatch(sent, apid, count, i) && |sent| - i <= 600
    && Count(w) + 5 + |sent[i]| <= 131072
  }

  // A resend queues, octet for octet, the newest match among the last 600 packets
  // sent, when the thread was started, there is one and it fits; otherwise it fails
  // and changes nothing.
  lemma ResendQueuesNewest(f: Framing, w: World, apid: nat, count: nat)
    ensures var (v, ok) := Resend(f, w, apid, count);
            && (ok <==> w.started && exists i :: Resendable(f, w, apid, count, i))
            && (forall i :: ok && Resendable(f, w, apid, count, i) ==>
                  var m := Message(RAW_FRAME, Originals(f, w.log)[i]);
                  && Count(v) == Count(w) + 5 + |m.data|
                  && v == w.(waiting := w.waiting + [m], accepted := w.accepted + [m],
                             highWater := if Count(v) > w.highWater then Count(v) else w.highWater))
            && (!ok ==> v == w)
  {
    var sent := Originals(f, w.log);
    var recent, older := Recent(sent), |sent| - |Recent(sent)|;
    FoundIffMatch(recent, apid, count);
    var r := Newest(recent, apid, count);
    if r.Some? {
      var k :| NewestMatch(recent, apid, count, k) && recent[k] == r.value;
      NewestOfRecent(sent, apid, count, older + k);
      assert recent[k] == sent[older + k];
      CountAfterPut(w, Message(RAW_FRAME, r.value));
      assert w.started && Resend(f, w, apid, count).1 ==> Resendable(f, w, apid, count, older + k);
    }
    forall i | Resendable(f, w, apid, count, i)
      ensures r == Some(sent[i])
    {
      NewestOfRecent(sent, apid, count, i);
      assert recent[i - older] == sent[i];
    }
  }

  // No packet is ever sent before the thread was started, so the test of
  // thread_started in radio_resend never decides anything.
  lemma {:induction false} NothingSentBeforeStart(f: Framing, actions: seq<Action>)
    ensures var w := Run(f, actions);
            !w.started ==> w.flight.None? && w.log == [] && w.waiting == [] && w.current.data == []
    decreases |actions|
  {
    if actions != [] {
      NothingSentBeforeStart(f, actions[..|actions| - 1]);
    }
  }

  // ----- what is pending -----

  // Each accepted message adds its octets and a header of five, taking the first
  // chunk of a message takes the header away, and finishing a chunk takes its
  // octets away; sending changes nothing.
  lemma PendingMoves(f: Framing, w: World, m: Message, ok: bool)
    requires FramingOk(f) && Inv(f, w)
    ensures Pending(Accept(w, m)) == Pending(w) + 5 + |m.data|
    ensures CanTake(w) ==> Pending(Take(w)) == Pending(w) - if |w.current.data| == 0 then 5 else 0
    ensures w.flight.Some? ==> Pending(Attempt(w, ok)) == Pending(w)
    ensures w.flight.Some? ==> Pending(Finish(w)) == Pending(w) - |w.flight.value.chunk.data|
    ensures Pending(INITIAL) == 0
  {
    CountAfterPut(w, m);
    if CanTake(w) {
      TakeParts(w);
      TakeShape(f, w);
      HeadReady(f, w);
    }
  }

  // ----- attempts -----

  // A chunk just taken has not been tried. It is sent if one of the first three
  // answers is yes, and tried until then; what cannot be framed is never tried.
  lemma ThreeAttempts(f: Framing, w: World, answers: seq<bool>)
    requires FramingOk(f) && Inv(f, w) && CanTake(w) && |answers| >= 3
    ensures Take(w).flight.Some?
    ensures var job := Sending(f, Take(w), answers).flight.value;
            && (PacketOf(f, job).None? ==> job.attempts == 0 && !job.sent)
            && (PacketOf(f, job).Some? ==>
                  && (job.sent <==> answers[0] || answers[1] || answers[2])
                  && job.attempts == if answers[0] then 1 else if answers[1] then 2 else 3)
            && CanFinish(f, Sending(f, Take(w), answers))
  {
    HeadReady(f, w);
    TakeShape(f, w);
    var v := Take(w);
    if PacketOf(f, v.flight.value).Some? {
      var u := Attempt(v, answers[0]);
      var x := Attempt(u, answers[1]);
      assert answers[1..][0] == answers[1] && answers[1..][1..] == answers[2..] && answers[2..][0] == answers[2];
      assert Sending(f, v, answers) == Sending(f, u, answers[1..]);
      if !answers[0] {
        assert Sending(f, u, answers[1..]) == Sending(f, x, answers[2..]);
        if !answers[1] {
          assert Sending(f, x, answers[2..]) == Sending(f, Attempt(x, answers[2]), answers[2..][1..]);
        }
      }
    }
  }

  // Calls of the sender over all jobs
  function Attempts(jobs: seq<Job>): nat {
    if |jobs| == 0 then 0
    else
      var n := |jobs| - 1;
      Attempts(jobs[..n]) + jobs[n].attempts
  }

  function Tried(jobs: seq<Job>): nat {
    if |jobs| == 0 then 0
    else
      var n := |jobs| - 1;
      Tried(jobs[..n]) + if jobs[n].attempts > 0 then 1 else 0
  }

  // The retries are the calls of the sender after the first for each packet.
  lemma {:induction false} RetriesTell(jobs: seq<Job>)
    ensures Retries(jobs) + Tried(jobs) == Attempts(jobs)
    decreases |jobs|
  {
    if |jobs| > 0 {
      RetriesTell(jobs[..|jobs| - 1]);
    }
  }
}
