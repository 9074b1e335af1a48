// platform/common/radio_queue.c: the queue, the resend history, the counters and
// the transmit thread, each lock-held region one method.
//
// The ghost field w is the abstract state of Downlink; every method is proved to
// take it through exactly the corresponding abstract step, and Downlink proves
// that every such step keeps the invariant.
module RadioQueue {
  import opened Bytes
  import opened Options
  import opened Downlink
  import opened Radio
  import MessageRing
  import Archive
  import Transmitter
  import SP = SpacePacket
  import PacketFraming

  class Queue {
    const store: MessageRing.Store
    const record: Archive.Record
    const sender: Transmitter.Sender
    var started: bool
    var sequence: seq<nat>
    ghost var w: World
    ghost var actions: seq<Action>

    ghost predicate Parts()
      reads this, store, store.ring, store.ring.buf, record, record.history, record.history.slots, sender
    {
      && store.Valid() && record.Valid() && sender.Valid()
      && sender.chunk != store.ring.buf && sender.packet != store.ring.buf
      && sender.chunk != store.header && sender.packet != store.header
    }

    // The concrete state represents w.
    ghost predicate Represents()
      reads this, store, store.ring, store.ring.buf, record, record.history, record.history.slots
      reads sender, sender.chunk, sender.packet
    {
      && Parts()
      && store.current == w.current && store.waiting == w.waiting
      && started == w.started && sequence == w.counts
      && record.stats.rejects == w.rejects && record.stats.highWater == w.highWater && record.log == w.log
      && sender.Matches(record.f, w.flight, store.content)
      && sender.inFlight == (if w.flight.Some? then |w.flight.value.chunk.data| else 0)
    }

    // The actions so far led to w.
    ghost predicate Reached()
      reads this, record
    {
      w == Run(record.f, actions)
    }

    // f is how chunks are framed.
    constructor (ghost f: Framing)
      ensures Represents() && Reached() && record.f == f && |actions| == 0
      ensures fresh(store) && fresh(store.ring) && fresh(store.ring.buf) && fresh(store.header)
      ensures fresh(record) && fresh(record.history) && fresh(record.history.slots)
      ensures fresh(sender) && fresh(sender.chunk) && fresh(sender.packet)
    {
      var s := new MessageRing.Store();
      var r := new Archive.Record(f);
      store, record := s, r;
      sender := new Transmitter.Sender();
      started, sequence := false, [0, 0, 0, 0];
      w := World(false, s.current, s.waiting, [0, 0, 0, 0], None, s.waiting, r.log, 0, 0);
      actions := [];
      new;
      NothingRun(f, actions);
      OnlyInitial(w);
    }

    // One more step has been made.
    ghost method Did(a: Action, before: World)
      requires Represents() && before == Run(record.f, actions) && w == Apply(record.f, before, a)
      modifies this`actions
      ensures Represents() && Reached() && actions == old(actions) + [a]
    {
      RunOneMore(record.f, actions, a);
      actions := actions + [a];
    }

    method Reject()
      requires Represents()
      modifies this`w, record`stats
      ensures Represents() && w == old(w).(rejects := old(w).rejects + 1)
    {
      record.Reject();
      w := w.(rejects := w.rejects + 1);
    }

    // push_locked: all or nothing.
    method PushLocked(c: byte, data: seq<byte>) returns (ok: bool)
      requires Represents() && |data| < U32
      modifies this`w, record`stats, store`waiting, store.ring, store.ring.buf
      ensures Represents()
      ensures w == Downlink.PushLocked(old(w), Message(c, data)).0
      ensures ok == Downlink.PushLocked(old(w), Message(c, data)).1
    {
      ok := store.Put(c, data);
      if ok {
        CountAfterPut(w, Message(c, data));
        record.RaiseHighWater(store.ring.count);
        w := Accept(w, Message(c, data));
      }
    }

    // The first push creates the transmit thread.
    method EnsureStarted(thread: bool) returns (ok: bool)
      requires Represents()
      modifies this`w, this`started
      ensures Represents()
      ensures ok == (old(w).started || thread) && w == old(w).(started := ok)
    {
      if !started {
        started := thread;
        w := w.(started := thread);
      }
      return started;
    }

    method TryPush(pointers: bool, c: nat, data: seq<byte>, thread: bool) returns (ok: bool)
      requires Represents()
      modifies this`w, this`started, record`stats, store`waiting, store.ring, store.ring.buf
      ensures Represents()
      ensures w == Downlink.TryPush(old(w), pointers, c, data, thread).0
      ensures ok == Downlink.TryPush(old(w), pointers, c, data, thread).1
    {
      ghost var start := w;
      if BadArguments(pointers, c, data) {
        return false;
      }
      ok := EnsureStarted(thread);
      if ok {
        ok := PushLocked(c, data);
      } else {
        assert w == start;
      }
    }

    method PushOrCount(pointers: bool, c: nat, data: seq<byte>, thread: bool) returns (ok: bool)
      requires Represents()
      modifies this`w, this`started, record`stats, store`waiting, store.ring, store.ring.buf
      ensures Represents()
      ensures w == Downlink.Push(old(w), pointers, c, data, thread).0
      ensures ok == Downlink.Push(old(w), pointers, c, data, thread).1
    {
      ok := TryPush(pointers, c, data, thread);
      if !ok {
        Reject();
      }
    }

    // radio_queue_push
    method Push(pointers: bool, c: nat, data: seq<byte>, thread: bool) returns (ok: bool)
      requires Represents() && Reached()
      modifies this`w, this`actions, this`started, record`stats, store`waiting, store.ring, store.ring.buf
      ensures Represents() && Reached() && actions == old(actions) + [PushAction(pointers, c, data, thread)]
      ensures w == Downlink.Push(old(w), pointers, c, data, thread).0
      ensures ok <==> Pushable(pointers, c, data) && (old(w).started || thread) && Count(old(w)) + 5 + |data| <= 131072
    {
      ghost var before := w;
      PushAllOrNothing(w, pointers, c, data, thread);
      ok := PushOrCount(pointers, c, data, thread);
      Did(PushAction(pointers, c, data, thread), before);
    }

    method TryResend(apid: nat, count: nat) returns (ok: bool)
      requires Represents() && FramingOk(record.f) && Inv(record.f, w)
      modifies this`w, record`stats, store`waiting, store.ring, store.ring.buf
      ensures Represents()
      ensures w == Downlink.Resend(record.f, old(w), apid, count).0
      ensures ok == Downlink.Resend(record.f, old(w), apid, count).1
    {
      FoundIsOriginal(record.f, w, apid, count);
      var found := record.history.Find(apid, count);
      if found.None? {
        return false;
      }
      if !started {
        return false;
      }
      ok := PushLocked(RAW_FRAME, found.value);
    }

    // radio_resend
    method Resend(apid: nat, count: nat) returns (ok: bool)
      requires Represents() && Reached() && FramingOk(record.f)
      modifies this`w, this`actions, record`stats, store`waiting, store.ring, store.ring.buf
      ensures Represents() && Reached() && actions == old(actions) + [ResendAction(apid, count)]
      ensures w == Downlink.Resend(record.f, old(w), apid, count).0
      ensures ok <==> old(w).started && exists i :: Resendable(record.f, old(w), apid, count, i)
    {
      RunInv(record.f, actions);
      ResendQueuesNewest(record.f, w, apid, count);
      ghost var before := w;
      ok := TryResend(apid, count);
      Did(ResendAction(apid, count), before);
    }

    // radio_queue_pending
    method PendingOctets() returns (pending: nat)
      requires Represents()
      ensures pending == Pending(w)
    {
      return store.ring.count + sender.inFlight;
    }

    // ----- the transmit thread -----

    // Reading the next message's header, when nothing is left of the current one.
    method LoadMessage()
      requires Parts() && store.current == w.current && store.waiting == w.waiting
      requires w.current.data != [] || w.waiting != []
      requires |Head(w).data| < U32
      modifies store, store.ring, store.header
      ensures Parts() && store.current == Head(w) && store.waiting == Behind(w)
      ensures Head(w).data != [] ==> store.content == Head(w).content
    {
      if store.messageLeft == 0 {
        store.ReadHeader();
      }
    }

    // The loaded message is the one that `next` has the first chunk taken from.
    ghost predicate Loaded(next: World)
      reads this, store, store.ring, store.ring.buf, record, record.history, record.history.slots, sender
    {
      && Parts() && sender.phase.Idle?
      && store.current.data != [] && store.content == store.current.content
      && TakesFrom(w, store.current, next) && store.waiting == next.waiting
      && started == w.started && sequence == w.counts && record.log == w.log
      && record.stats.rejects == w.rejects && record.stats.highWater == w.highWater
    }

    method TakeResend(ghost next: World)
      requires Loaded(next) && store.content == RAW_FRAME && SP.HEADER_SIZE <= |store.current.data| <= MAX_PACKET
      modifies this`w, store`messageLeft, store`current, store.ring, sender, sender.packet
      ensures Represents() && w == next
    {
      sender.TakeFramed(store);
      w := next;
    }

    method TakeFresh(ghost next: World)
      requires Loaded(next) && store.content != RAW_FRAME
      modifies this`w, this`sequence, store`messageLeft, store`current, store.ring, sender, sender.chunk
      ensures Represents() && w == next
    {
      var c := store.content;
      sender.TakeChunk(store, sequence[c]);
      sequence := sequence[c := (sequence[c] + 1) % COUNT_MODULUS];
      w := next;
    }

    method TakeFirst()
      requires Represents() && FramingOk(record.f) && Inv(record.f, w) && CanTake(w)
      modifies this`w, this`sequence, store, store.ring, store.header, sender, sender.chunk, sender.packet
      ensures Represents() && w == Take(old(w))
    {
      HeadReady(record.f, w);
      TakeShape(record.f, w);
      ghost var next := Take(w);
      LoadMessage();
      if store.content == RAW_FRAME {
        TakeResend(next);
      } else {
        TakeFresh(next);
      }
    }

    // First lock-held region: the next chunk leaves the ring.
    method TakeNext()
      requires Represents() && Reached() && FramingOk(record.f) && CanTake(w)
      modifies this`w, this`actions, this`sequence
      modifies store, store.ring, store.header, sender, sender.chunk, sender.packet
      ensures Represents() && Reached() && actions == old(actions) + [TakeAction]
      ensures w == Apply(record.f, old(w), TakeAction)
    {
      RunInv(record.f, actions);
      ghost var before := w;
      TakeFirst();
      Did(TakeAction, before);
    }

    // Framing, outside the lock.
    method Frame()
      requires Represents() && Reached() && record.f == PacketFraming.ProfileFraming
      requires w.flight.Some? && sender.phase.Taken? && sender.seqCount < COUNT_MODULUS
      modifies sender, sender.packet
      ensures Represents() && Reached() && sender.phase.Ready?
    {
      sender.BuildPacket(store.content, w.flight.value);
    }

    // One call of the sender function, which answers `ok`.
    method SendOnce(ok: bool)
      requires Represents() && Reached() && w.flight.Some? && sender.phase.Ready? && CanAttempt(record.f, w)
      modifies this`w, this`actions, sender`attempts, sender`sent
      ensures Represents() && Reached() && actions == old(actions) + [AttemptAction(ok)]
      ensures w == Attempt(old(w), ok) && sender.phase.Ready?
    {
      ghost var before := w;
      sender.SendOnce(ok, record.f, w.flight.value);
      w := Attempt(w, ok);
      Did(AttemptAction(ok), before);
    }

    // The loop of send attempts, given what the sender function answers.
    method SendPacket(answers: seq<bool>)
      requires Represents() && Reached() && w.flight.Some? && sender.phase.Ready?
      requires |answers| + w.flight.value.attempts >= SEND_ATTEMPTS
      modifies this`w, this`actions, sender`attempts, sender`sent
      ensures Represents() && Reached() && sender.phase.Ready?
      ensures w == Sending(record.f, old(w), answers)
    {
      var i := 0;
      while sender.built && sender.attempts < SEND_ATTEMPTS && !sender.sent
        invariant Represents() && Reached() && w.flight.Some? && sender.phase.Ready? && i <= |answers|
        invariant |answers| - i + w.flight.value.attempts >= SEND_ATTEMPTS
        invariant Sending(record.f, w, answers[i..]) == Sending(record.f, old(w), answers)
        decreases |answers| - i
      {
        assert answers[i..][1..] == answers[i + 1..];
        SendOnce(answers[i]);
        i := i + 1;
      }
    }

    method Conclude()
      requires Represents() && w.flight.Some? && sender.phase.Ready?
      requires Original(w.flight.value) ==>
                 && PacketOf(record.f, w.flight.value).Some?
                 && SP.HEADER_SIZE <= |PacketOf(record.f, w.flight.value).value|
                 && SP.ReadHeader(PacketOf(record.f, w.flight.value).value).count == w.flight.value.count
      requires w.flight.value.sent ==> PacketOf(record.f, w.flight.value).Some?
      modifies this`w, sender`phase, sender`inFlight, record, record.history, record.history.slots
      ensures Represents() && w == Finish(old(w)) && sender.phase.Idle?
    {
      record.Conclude(sender.framed, sender.sent, sender.attempts, sender.seqCount,
                      sender.packet[..sender.packetLength], w.flight.value);
      sender.Done();
      w := Finish(w);
    }

    method FinishFlight()
      requires Represents() && Inv(record.f, w) && FramingOk(record.f)
      requires w.flight.Some? && sender.phase.Ready? && CanFinish(record.f, w)
      modifies this`w, sender`phase, sender`inFlight, record, record.history, record.history.slots
      ensures Represents() && w == Finish(old(w)) && sender.phase.Idle?
    {
      SentPacketNumber(record.f, w);
      EndedWhenDone(record.f, w);
      Conclude();
    }

    // Second lock-held region: counting and remembering the packet.
    method FinishJob()
      requires Represents() && Reached() && FramingOk(record.f)
      requires w.flight.Some? && sender.phase.Ready? && CanFinish(record.f, w)
      modifies this`w, this`actions, sender`phase, sender`inFlight, record, record.history, record.history.slots
      ensures Represents() && Reached() && actions == old(actions) + [FinishAction]
      ensures w == Finish(old(w)) && sender.phase.Idle?
    {
      RunInv(record.f, actions);
      ghost var before := w;
      FinishFlight();
      Did(FinishAction, before);
    }
  }
}
