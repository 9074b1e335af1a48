// platform/common/radio_deframer.c: the 240-octet buffer that finds whole
// packets in a stream of received octets, with the receive counters that
// platform/common/radio_queue.c keeps for it.
module RadioDeframer {
  import opened Bytes
  import opened SpacePacket
  import opened Profile
  import opened GreedyScan
  import opened Scanner
  import opened Sequences
  import opened Radio
  import ProfileCodec

  // What the three 32-bit counters show after these pieces.
  ghost predicate Counts(log: seq<Piece<byte>>, packets: u32, invalid: u32, skipped: u32) {
    packets == |Packets(log)| % U32 && invalid == InvalidCount(log) % U32 && skipped == SkipCount(log) % U32
  }

  function Increment(n: u32): u32 {
    (n + 1) % U32
  }

  lemma IncrementCounts(n: nat)
    ensures Increment(n % U32) == (n + 1) % U32
  {
  }

  lemma CountOne(log: seq<Piece<byte>>, piece: Piece<byte>, packets: u32, invalid: u32, skipped: u32)
    requires Counts(log, packets, invalid, skipped)
    ensures Counts(log + [piece],
                   if piece.Packet? then Increment(packets) else packets,
                   if piece.Junk? && piece.looked then Increment(invalid) else invalid,
                   if piece.Junk? then Increment(skipped) else skipped)
  {
    PiecesConcat(log, [piece]);
    OnePiece(piece);
    IncrementCounts(|Packets(log)|);
    IncrementCounts(InvalidCount(log));
    IncrementCounts(SkipCount(log));
  }

  lemma Retire(log: seq<Piece<byte>>, piece: Piece<byte>, rest: seq<byte>)
    ensures Flatten(log + [piece]) + rest == Flatten(log) + (piece.Octets() + rest)
  {
    PiecesConcat(log, [piece]);
    OnePiece(piece);
    Regroup(Flatten(log), piece.Octets(), rest);
  }

  class Deframer {
    const buf: array<byte>
    var len: nat
    var rxPackets: u32
    var rxInvalid: u32
    var rxSkipped: u32
    // Everything that was pushed since the last reset, and what became of it.
    ghost var stream: seq<byte>
    ghost var log: seq<Piece<byte>>

    ghost predicate Valid()
      reads this, buf
    {
      && buf.Length == MAX_PACKET && len <= MAX_PACKET
      && stream == Flatten(log) + buf[..len]
      && Counts(log, rxPackets, rxInvalid, rxSkipped)
    }

    // The octets held.
    ghost function Held(): seq<byte>
      requires Valid()
      reads this, buf
    {
      buf[..len]
    }

    constructor ()
      ensures Valid() && fresh(buf)
      ensures Held() == [] && stream == [] && log == []
    {
      buf := new byte[MAX_PACKET](_ => 0);
      len := 0;
      rxPackets, rxInvalid, rxSkipped := 0, 0, 0;
      stream, log := [], [];
    }

    // radio_deframer_reset: the octets held are forgotten, and not counted.
    method Reset()
      requires Valid()
      modifies this
      ensures Valid() && Held() == [] && stream == Flatten(log) && log == old(log)
    {
      len := 0;
      stream := Flatten(log);
    }

    // drop
    method Drop(n: nat)
      requires buf.Length == MAX_PACKET && n <= len <= MAX_PACKET
      modifies this`len, buf
      ensures len == old(len) - n && buf[..len] == old(buf[n..len])
    {
      forall i | 0 <= i < len - n {
        buf[i] := buf[i + n];
      }
      len := len - n;
    }

    // Dropping the first octet, counted as skipped.
    method Skip(looked: bool)
      requires Valid() && len > 0
      modifies this, buf
      ensures Valid() && stream == old(stream)
      ensures Held() == old(Held())[1..] && log == old(log) + [Junk(old(Held())[0], looked)]
    {
      ghost var held := buf[..len];
      ghost var piece := Junk(buf[0], looked);
      CountOne(log, piece, rxPackets, rxInvalid, rxSkipped);
      Retire(log, piece, held[1..]);
      assert held == piece.Octets() + held[1..];
      Drop(1);
      if looked {
        rxInvalid := Increment(rxInvalid);
      }
      rxSkipped := Increment(rxSkipped);
      log := log + [piece];
      assert buf[..len] == held[1..];
    }

    method Append(b: byte)
      requires Valid() && len < MAX_PACKET
      modifies this, buf
      ensures Valid() && stream == old(stream) + [b]
      ensures Held() == old(Held()) + [b] && log == old(log)
    {
      ghost var held := buf[..len];
      Regroup(Flatten(log), held, [b]);
      buf[len] := b;
      len := len + 1;
      stream := stream + [b];
      assert buf[..len] == held + [b];
    }

    // radio_deframer_push: when the buffer is full the newest octets are kept.
    method Push(b: byte)
      requires Valid()
      modifies this, buf
      ensures Valid() && stream == old(stream) + [b]
      ensures old(len) < MAX_PACKET ==> Held() == old(Held()) + [b] && log == old(log)
      ensures old(len) == MAX_PACKET ==>
                Held() == old(Held())[1..] + [b] && log == old(log) + [Junk(old(Held())[0], false)]
    {
      if len == buf.Length {
        Skip(false);
      }
      Append(b);
    }

    // Copying out the packet of n octets in front.
    method Deliver(packet: array<byte>, n: nat)
      requires Valid() && 0 < n <= len && packet.Length >= MAX_PACKET && packet != buf
      modifies this, buf, packet
      ensures Valid() && stream == old(stream)
      ensures Held() == old(Held())[n..] && packet[..n] == old(Held())[..n]
      ensures log == old(log) + [Packet(old(Held())[..n])]
    {
      ghost var held := buf[..len];
      ghost var piece := Packet(held[..n]);
      CountOne(log, piece, rxPackets, rxInvalid, rxSkipped);
      Retire(log, piece, held[n..]);
      assert held == piece.Octets() + held[n..];
      Copy(packet, 0, buf[..n]);
      Drop(n);
      rxPackets := Increment(rxPackets);
      log := log + [piece];
      assert buf[..len] == held[n..];
    }

    // One round of the loop: whether to wait, to deliver a packet of `size`
    // octets, or to skip one octet.
    method Look() returns (wait: bool, size: nat, looked: bool)
      requires Valid()
      ensures match Judge(Held())
              case Wait => wait
              case Emit(Packet(o)) => !wait && 0 < size <= len && o == Held()[..size]
              case Emit(Junk(b, l)) => !wait && size == 0 && len > 0 && b == Held()[0] && l == looked
    {
      var s := buf[..len];
      if len == 0 {
        return true, 0, false;
      }
      MaskIsCanStart(buf[0]);
      if (buf[0] as bv8) & 0xE8 != 0x08 {
        return false, 0, false;
      }
      if len < HEADER_SIZE {
        return true, 0, false;
      }
      var total := TotalSize(s);
      if total < OVERHEAD || total > MAX_PACKET {
        return false, 0, false;
      }
      if len < total {
        return true, 0, false;
      }
      var view := ProfileCodec.ParseFrom(buf, total);
      assert buf[..total] == s[..total];
      if view.Success? {
        return false, total, false;
      }
      return false, 0, true;
    }

    // radio_deframer_next
    method Next(packet: array<byte>) returns (total: nat)
      requires Valid() && packet.Length >= MAX_PACKET && packet != buf
      modifies this, buf, packet
      ensures Valid() && stream == old(stream)
      ensures var step := GreedyScan.Next(Judge, old(Held()));
              && Held() == step.rest && log == old(log) + step.pieces
              && total == |step.packet| && total <= MAX_PACKET && packet[..total] == step.packet
    {
      ghost var all := GreedyScan.Next(Judge, Held());
      ghost var done: seq<Piece<byte>> := [];
      assert done + all.pieces == all.pieces && log + done == log;
      while true
        invariant Valid() && stream == old(stream) && log == old(log) + done
        invariant var step := GreedyScan.Next(Judge, Held());
                  all == Step(done + step.pieces, step.packet, step.rest)
        decreases len
      {
        ghost var held := Held();
        ghost var before := done;
        var wait, size, looked := Look();
        if wait {
          assert done + [] == done;
          return 0;
        }
        ghost var piece := Judge(held).piece;
        if size > 0 {
          assert piece == Packet(held[..size]);
          Deliver(packet, size);
          Regroup(old(log), done, [piece]);
          return size;
        }
        assert piece == Junk(held[0], looked);
        Skip(looked);
        assert log == (old(log) + before) + [piece];
        done := before + [piece];
        Regroup(old(log), before, [piece]);
        Regroup(before, [piece], GreedyScan.Next(Judge, Held()).pieces);
      }
    }

    // One octet arrives and one call is made.
    method Receive(b: byte, packet: array<byte>) returns (total: nat)
      requires Valid() && len < MAX_PACKET && packet.Length >= MAX_PACKET && packet != buf
      modifies this, buf, packet
      ensures Valid() && len < MAX_PACKET && stream == old(stream) + [b]
      ensures var step := GreedyScan.Next(Judge, old(Held()) + [b]);
              && Held() == step.rest && log == old(log) + step.pieces
              && Packets(step.pieces) == (if total == 0 then [] else [step.packet])
              && total <= MAX_PACKET && packet[..total] == step.packet
    {
      OneCallLeavesRoom(Held(), b);
      JudgeWellBehaved();
      NextBeginsScan(Judge, Held() + [b]);
      Push(b);
      total := Next(packet);
    }

    // The receive loop: one call after each octet, as in radio_receive.
    method Feed(octets: seq<byte>, packet: array<byte>) returns (found: seq<seq<byte>>)
      requires Valid() && len < MAX_PACKET && packet.Length >= MAX_PACKET && packet != buf
      modifies this, buf, packet
      ensures Valid() && len < MAX_PACKET && stream == old(stream) + octets
      ensures var r := RunOnce(Judge, old(Held()), octets);
              Held() == r.rest && log == old(log) + r.pieces && found == Packets(r.pieces)
      decreases |octets|
    {
      found := [];
      var i := 0;
      ghost var all := RunOnce(Judge, Held(), octets);
      ghost var done: seq<Piece<byte>> := [];
      FeedBegins(old(log), octets, all);
      while i < |octets|
        invariant i <= |octets| && Valid() && len < MAX_PACKET
        invariant stream == old(stream) + octets[..i] && log == old(log) + done && found == Packets(done)
        invariant Continues(all, done, RunOnce(Judge, Held(), octets[i..]))
      {
        ghost var held := Held();
        ghost var before := done;
        ghost var step := GreedyScan.Next(Judge, held + [octets[i]]);
        var n := Receive(octets[i], packet);
        if n > 0 {
          found := found + [packet[..n]];
        }
        done := before + step.pieces;
        FeedStep(all, before, held, octets, i);
        PiecesConcat(before, step.pieces);
        Regroup(old(log), before, step.pieces);
        Regroup(old(stream), octets[..i], [octets[i]]);
        i := i + 1;
      }
      FeedEnds(all, done, Held(), octets);
    }
  }

  ghost predicate Continues(all: Scanned<byte>, done: seq<Piece<byte>>, later: Scanned<byte>) {
    all == Scanned(done + later.pieces, later.rest)
  }

  lemma FeedBegins(log: seq<Piece<byte>>, octets: seq<byte>, all: Scanned<byte>)
    ensures log + [] == log && octets[..0] == [] && octets[0..] == octets && Continues(all, [], all)
  {
    assert [] + all.pieces == all.pieces;
  }

  lemma FeedStep(all: Scanned<byte>, done: seq<Piece<byte>>, held: seq<byte>, octets: seq<byte>, i: nat)
    requires i < |octets| && Continues(all, done, RunOnce(Judge, held, octets[i..]))
    ensures var step := GreedyScan.Next(Judge, held + [octets[i]]);
            Continues(all, done + step.pieces, RunOnce(Judge, step.rest, octets[i + 1..]))
    ensures octets[..i + 1] == octets[..i] + [octets[i]]
  {
    var step := GreedyScan.Next(Judge, held + [octets[i]]);
    assert octets[i..][1..] == octets[i + 1..];
    Regroup(done, step.pieces, RunOnce(Judge, step.rest, octets[i + 1..]).pieces);
  }

  lemma FeedEnds(all: Scanned<byte>, done: seq<Piece<byte>>, held: seq<byte>, octets: seq<byte>)
    requires Continues(all, done, RunOnce(Judge, held, octets[|octets|..]))
    ensures all == Scanned(done, held) && octets[..|octets|] == octets
  {
    assert octets[|octets|..] == [] && done + [] == done;
  }
}
