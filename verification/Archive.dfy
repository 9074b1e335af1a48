// What platform/common/radio_queue.c keeps about finished packets: the resend
// history and the counters.
module Archive {
  import opened Bytes
  import opened Options
  import opened Downlink
  import SentHistory
  import SP = SpacePacket

  // radio_stats_t, the transmit half
  datatype Stats = Stats(sent: nat, resent: nat, retried: nat, dropped: nat, rejects: nat, highWater: nat)

  // What the counters show after these jobs: each one was sent or dropped, and
  // what was sent was new or a resend.
  ghost predicate StatsMatch(f: Framing, stats: Stats, log: seq<Job>) {
    var air, originals := Air(f, log), Originals(f, log);
    && stats.sent == |air| && stats.sent + stats.dropped == |log|
    && stats.resent + |originals| == |air|
    && stats.retried == Retries(log)
  }

  // The counters after one more finished job
  function Tally(stats: Stats, job: Job): Stats {
    var t := if job.attempts > 1 then stats.(retried := stats.retried + (job.attempts - 1)) else stats;
    if !job.sent then t.(dropped := t.dropped + 1)
    else if job.chunk.content == RAW_FRAME then t.(sent := t.sent + 1, resent := t.resent + 1)
    else t.(sent := t.sent + 1)
  }

  lemma TallyMatches(f: Framing, stats: Stats, log: seq<Job>, job: Job)
    requires StatsMatch(f, stats, log)
    ensures StatsMatch(f, Tally(stats, job), log + [job])
  {
    OriginalsStep(f, log, job);
  }

  class Record {
    const history: SentHistory.History
    var stats: Stats
    // How chunks are framed, and the jobs finished.
    ghost const f: Framing
    ghost var log: seq<Job>

    ghost predicate Valid()
      reads this, history, history.slots
    {
      history.Valid() && history.sent == Originals(f, log) && StatsMatch(f, stats, log)
    }

    constructor (ghost f: Framing)
      ensures Valid() && this.f == f && |log| == 0 && stats.rejects == 0 && stats.highWater == 0
      ensures fresh(history) && fresh(history.slots)
    {
      history := new SentHistory.History();
      stats := Stats(0, 0, 0, 0, 0, 0);
      this.f := f;
      log := [];
    }

    method Reject()
      requires Valid()
      modifies this`stats
      ensures Valid() && stats == old(stats).(rejects := old(stats).rejects + 1)
    {
      stats := stats.(rejects := stats.rejects + 1);
    }

    method RaiseHighWater(count: nat)
      requires Valid()
      modifies this`stats
      ensures Valid()
      ensures stats == old(stats).(highWater := if count > old(stats).highWater then count else old(stats).highWater)
    {
      if count > stats.highWater {
        stats := stats.(highWater := count);
      }
    }

    // The end of tx_thread's second lock-held region: counting the packet, and
    // remembering it if it was sent for the first time.
    method Conclude(framed: bool, sent: bool, attempts: nat, count: nat, packet: seq<byte>, ghost job: Job)
      requires Valid()
      requires framed == (job.chunk.content == RAW_FRAME) && sent == job.sent && attempts == job.attempts
      requires sent ==> PacketOf(f, job) == Some(packet)
      requires sent && !framed ==> |packet| >= SP.HEADER_SIZE && SP.ReadHeader(packet).count == count
      modifies this, history, history.slots
      ensures Valid() && log == old(log) + [job]
      ensures stats == Tally(old(stats), job)
    {
      OriginalsStep(f, log, job);
      TallyMatches(f, stats, log, job);
      if attempts > 1 {
        stats := stats.(retried := stats.retried + (attempts - 1));
      }
      if sent {
        stats := stats.(sent := stats.sent + 1);
        if framed {
          stats := stats.(resent := stats.resent + 1);
        } else {
          history.Remember(packet, count);
        }
      } else {
        stats := stats.(dropped := stats.dropped + 1);
      }
      log := log + [job];
    }
  }
}
