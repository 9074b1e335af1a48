// The 600 slots in which platform/common/radio_queue.c remembers sent packets.
module SentHistory {
  import opened Bytes
  import opened Options
  import opened SpacePacket
  import opened Downlink

  datatype Slot = Slot(used: bool, apid: nat, count: nat, packet: seq<byte>)

  const EMPTY := Slot(false, 0, 0, [])

  // The low bits of two octets together
  lemma LowBits11(a: nat, b: nat)
    requires b < 256
    ensures (a * 256 + b) % 0x800 == a % 8 * 256 + b
  {
    var q, r := a / 8, a % 8;
    assert a * 256 + b == 0x800 * q + (r * 256 + b);
  }

  lemma LowBits14(a: nat, b: nat)
    requires b < 256
    ensures (a * 256 + b) % 0x4000 == a % 64 * 256 + b
  {
    var q, r := a / 64, a % 64;
    assert a * 256 + b == 0x4000 * q + (r * 256 + b);
  }

  // Both come from the octets of the packet's header.
  lemma ApidFromOctets(p: seq<byte>)
    requires |p| >= HEADER_SIZE
    ensures ReadHeader(p).apid == (p[0] as int) % 8 * 256 + p[1]
    ensures ReadHeader(p).count == (p[2] as int) % 64 * 256 + p[3]
  {
    LowBits11(p[0], p[1]);
    LowBits14(p[2], p[3]);
    assert p[0..2] == [p[0], p[1]] && p[2..4] == [p[2], p[3]];
  }

  function SlotOf(p: seq<byte>): Slot
    requires |p| >= HEADER_SIZE
  {
    Slot(true, ReadHeader(p).apid, ReadHeader(p).count, p)
  }

  // Packet j, if it is among the last 600 sent, is in slot j mod 600.
  ghost predicate Kept(slots: seq<Slot>, sent: seq<seq<byte>>, j: nat)
    requires |slots| == HISTORY_SIZE
  {
    j < |sent| <= j + HISTORY_SIZE ==> |sent[j]| >= HEADER_SIZE && slots[j % HISTORY_SIZE] == SlotOf(sent[j])
  }

  // Slot k is still unused if fewer packets were sent.
  ghost predicate Spare(slots: seq<Slot>, n: nat, k: nat)
    requires |slots| == HISTORY_SIZE
  {
    n <= k < HISTORY_SIZE ==> !slots[k].used
  }

  // The slots hold the last 600 of the packets sent; slots never written are
  // unused.
  ghost predicate Holds(slots: seq<Slot>, sent: seq<seq<byte>>) {
    && |slots| == HISTORY_SIZE
    && (forall j: nat :: Kept(slots, sent, j))
    && (forall k: nat :: Spare(slots, |sent|, k))
  }

  lemma DistinctSlots(j: nat, n: nat)
    requires j < n < j + HISTORY_SIZE
    ensures j % HISTORY_SIZE != n % HISTORY_SIZE
  {
  }

  lemma HoldsOneMore(slots: seq<Slot>, sent: seq<seq<byte>>, p: seq<byte>)
    requires Holds(slots, sent) && |p| >= HEADER_SIZE
    ensures Holds(slots[|sent| % HISTORY_SIZE := SlotOf(p)], sent + [p])
  {
    var after, all := slots[|sent| % HISTORY_SIZE := SlotOf(p)], sent + [p];
    forall j: nat
      ensures Kept(after, all, j)
    {
      assert Kept(slots, sent, j);
      if j < |sent| < j + HISTORY_SIZE {
        DistinctSlots(j, |sent|);
      }
    }
    forall k: nat
      ensures Spare(after, |all|, k)
    {
      assert Spare(slots, |sent|, k);
    }
  }

  // The slot of the i-th newest of n packets, or an unused one if there are not
  // that many.
  lemma SlotIndex(n: nat, i: nat)
    requires i < HISTORY_SIZE
    ensures var index := (n % HISTORY_SIZE + HISTORY_SIZE - 1 - i) % HISTORY_SIZE;
            if i < n then index == (n - 1 - i) % HISTORY_SIZE else index >= n
  {
  }

  function SearchIndex(next: nat, i: nat): (k: nat)
    requires i < HISTORY_SIZE
    ensures k < HISTORY_SIZE
  {
    (next + HISTORY_SIZE - 1 - i) % HISTORY_SIZE
  }

  predicate SlotMatches(slot: Slot, apid: nat, count: nat) {
    slot.used && slot.apid == apid && slot.count == count
  }

  lemma SlotTells(slots: seq<Slot>, sent: seq<seq<byte>>, i: nat, apid: nat, count: nat)
    requires Holds(slots, sent) && i < HISTORY_SIZE
    ensures var slot := slots[SearchIndex(|sent| % HISTORY_SIZE, i)];
            if i < |sent| && Matches(sent[|sent| - 1 - i], apid, count)
            then slot == Slot(true, apid, count, sent[|sent| - 1 - i])
            else !SlotMatches(slot, apid, count)
  {
    SlotIndex(|sent|, i);
    if i < |sent| {
      assert Kept(slots, sent, |sent| - 1 - i);
    } else {
      assert Spare(slots, |sent|, SearchIndex(|sent| % HISTORY_SIZE, i));
    }
  }

  // What the search has still to look at after i slots.
  function Unsearched(sent: seq<seq<byte>>, i: nat): seq<seq<byte>> {
    var recent := Recent(sent);
    recent[..if i <= |recent| then |recent| - i else 0]
  }

  // A slot that matches holds the newest match among what is unsearched; one that
  // does not leaves the search to what is unsearched after it.
  lemma SearchStep(slots: seq<Slot>, sent: seq<seq<byte>>, i: nat, apid: nat, count: nat)
    requires Holds(slots, sent) && i < HISTORY_SIZE
    ensures var slot := slots[SearchIndex(|sent| % HISTORY_SIZE, i)];
            Newest(Unsearched(sent, i), apid, count) ==
            if SlotMatches(slot, apid, count) then Some(slot.packet) else Newest(Unsearched(sent, i + 1), apid, count)
  {
    SlotTells(slots, sent, i, apid, count);
    UnsearchedStep(sent, i);
  }

  lemma UnsearchedStep(sent: seq<seq<byte>>, i: nat)
    requires i < HISTORY_SIZE
    ensures var now, n := Unsearched(sent, i), |Unsearched(sent, i)| - 1;
            if i < |sent| then
              n >= 0 && now[n] == sent[|sent| - 1 - i] && now[..n] == Unsearched(sent, i + 1)
            else now == [] && Unsearched(sent, i + 1) == []
  {
  }

  class History {
    const slots: array<Slot>
    var next: nat
    // Every packet ever remembered, oldest first.
    ghost var sent: seq<seq<byte>>

    ghost predicate Valid()
      reads this, slots
    {
      Holds(slots[..], sent) && next == |sent| % HISTORY_SIZE
    }

    constructor ()
      ensures Valid() && fresh(slots) && sent == []
    {
      slots := new Slot[HISTORY_SIZE](_ => EMPTY);
      next := 0;
      sent := [];
    }

    // The packet goes into the next slot, over the oldest one.
    method Remember(packet: seq<byte>, count: nat)
      requires Valid() && |packet| >= HEADER_SIZE && count == ReadHeader(packet).count
      modifies this, slots
      ensures Valid() && sent == old(sent) + [packet]
    {
      ApidFromOctets(packet);
      HoldsOneMore(slots[..], sent, packet);
      slots[next] := Slot(true, (packet[0] as int) % 8 * 256 + packet[1], count, packet);
      next := (next + 1) % HISTORY_SIZE;
      sent := sent + [packet];
    }

    // The search of radio_resend, newest slot first.
    method Find(apid: nat, count: nat) returns (found: Option<seq<byte>>)
      requires Valid()
      ensures found == Newest(Recent(sent), apid, count)
    {
      var i := 0;
      ghost var all := slots[..];
      assert Unsearched(sent, 0) == Recent(sent);
      while i < HISTORY_SIZE
        invariant i <= HISTORY_SIZE
        invariant Newest(Recent(sent), apid, count) == Newest(Unsearched(sent, i), apid, count)
      {
        var index := SearchIndex(next, i);
        var slot := slots[index];
        assert slot == all[index];
        SearchStep(all, sent, i, apid, count);
        if SlotMatches(slot, apid, count) {
          return Some(slot.packet);
        }
        i := i + 1;
      }
      assert Unsearched(sent, i) == [];
      return None;
    }
  }
}
