// The variables of the transmit thread of platform/common/radio_queue.c that
// describe the packet it is busy with.
module Transmitter {
  import opened Bytes
  import opened Options
  import opened Downlink
  import opened Radio
  import MessageRing
  import SP = SpacePacket
  import ProfileCodec
  import SentHistory
  import PacketFraming

  // Where the thread is: waiting for octets, framing what it took, or sending it.
  datatype Phase = Idle | Taken | Ready

  class Sender {
    const chunk: array<byte>
    const packet: array<byte>
    var phase: Phase
    var framed: bool
    var n: nat
    var seqCount: nat
    var packetLength: nat
    var built: bool
    var attempts: nat
    var sent: bool
    var inFlight: nat

    ghost predicate Valid()
      reads this
    {
      && chunk.Length == MAX_CHUNK && packet.Length == MAX_PACKET && chunk != packet
      && packetLength <= MAX_PACKET && n <= (if framed then MAX_PACKET else MAX_CHUNK)
      && (phase.Idle? ==> inFlight == 0)
    }

    // The chunk taken, before it is framed.
    ghost function TakenData(): seq<byte>
      requires Valid()
      reads this, chunk, packet
    {
      if framed then packet[..n] else chunk[..n]
    }

    ghost predicate MatchesTaken(job: Job, content: byte)
      requires Valid()
      reads this, chunk, packet
    {
      && phase.Taken? && inFlight == n == |job.chunk.data|
      && content == job.chunk.content && framed == (content == RAW_FRAME) && seqCount == job.count
      && TakenData() == job.chunk.data && (framed ==> packetLength == n)
      && job.attempts == 0 && !job.sent
    }

    ghost predicate MatchesReady(f: Framing, job: Job)
      requires Valid()
      reads this, packet
    {
      && phase.Ready? && inFlight == |job.chunk.data|
      && framed == (job.chunk.content == RAW_FRAME) && seqCount == job.count
      && attempts == job.attempts && sent == job.sent
      && PacketOf(f, job) == if built then Some(packet[..packetLength]) else None
    }

    // The registers describe the job in flight.
    ghost predicate Matches(f: Framing, flight: Option<Job>, content: byte)
      requires Valid()
      reads this, chunk, packet
    {
      match flight
      case None => phase.Idle?
      case Some(job) => if phase.Taken? then MatchesTaken(job, content) else MatchesReady(f, job)
    }

    constructor ()
      ensures Valid() && phase == Idle && fresh(chunk) && fresh(packet)
    {
      chunk := new byte[MAX_CHUNK](_ => 0);
      packet := new byte[MAX_PACKET](_ => 0);
      phase, framed, n, seqCount, packetLength := Idle, false, 0, 0, 0;
      built, attempts, sent, inFlight := false, 0, false, 0;
    }

    // The first lock-held region, once the message's header has been read: a
    // resend is taken whole.
    method TakeFramed(store: MessageRing.Store)
      requires Valid() && phase.Idle? && store.Valid()
      requires chunk != store.ring.buf && packet != store.ring.buf
      requires store.current.content == store.content == RAW_FRAME
      requires SP.HEADER_SIZE <= |store.current.data| <= MAX_PACKET
      modifies this, packet, store`messageLeft, store`current, store.ring
      ensures Valid() && store.Valid() && store.current == old(AfterChunk(store.current))
      ensures var c := old(FirstChunk(store.current));
              MatchesTaken(Job(c, PacketCount(c.data), 0, false), RAW_FRAME)
      ensures inFlight == old(|FirstChunk(store.current).data|)
    {
      framed := true;
      n := store.messageLeft;
      store.ReadChunk(packet, n);
      packetLength := n;
      SentHistory.ApidFromOctets(packet[..n]);
      seqCount := (packet[2] as int) % 64 * 256 + packet[3];
      inFlight := n;
      phase := Taken;
    }

    // ... and of any other message at most 214 octets.
    method TakeChunk(store: MessageRing.Store, count: nat)
      requires Valid() && phase.Idle? && store.Valid()
      requires chunk != store.ring.buf && packet != store.ring.buf
      requires store.current.data != [] && store.current.content == store.content != RAW_FRAME
      modifies this, chunk, store`messageLeft, store`current, store.ring
      ensures Valid() && store.Valid() && store.current == old(AfterChunk(store.current))
      ensures MatchesTaken(Job(old(FirstChunk(store.current)), count, 0, false), store.content)
      ensures inFlight == old(|FirstChunk(store.current).data|)
    {
      framed := false;
      n := if store.messageLeft < MAX_CHUNK then store.messageLeft else MAX_CHUNK;
      store.ReadChunk(chunk, n);
      seqCount := count;
      inFlight := n;
      phase := Taken;
    }

    // Framing, outside the lock.
    method BuildPacket(content: byte, ghost job: Job)
      requires Valid() && MatchesTaken(job, content) && seqCount < COUNT_MODULUS
      modifies this, packet
      ensures Valid() && MatchesReady(PacketFraming.ProfileFraming, job)
    {
      if framed {
        built := true;
      } else {
        var data := chunk[..n];
        var r := ProfileCodec.BuildInto(content, seqCount, 1, None, data, packet);
        built := r.Success?;
        if built {
          packetLength := r.value;
        }
      }
      attempts, sent := 0, false;
      phase := Ready;
    }

    // One call of the sender function, which answers `ok`.
    method SendOnce(ok: bool, ghost f: Framing, ghost job: Job)
      requires Valid() && MatchesReady(f, job) && built && !sent && attempts < SEND_ATTEMPTS
      modifies this`attempts, this`sent
      ensures Valid() && MatchesReady(f, job.(attempts := job.attempts + 1, sent := ok))
    {
      sent := ok;
      attempts := attempts + 1;
    }

    method Done()
      requires Valid()
      modifies this`phase, this`inFlight
      ensures Valid() && phase.Idle?
    {
      inFlight := 0;
      phase := Idle;
    }
  }
}
