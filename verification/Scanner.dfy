// What platform/common/radio_deframer.c decides about the front of the octet
// stream, and what its scan therefore delivers.
module Scanner {
  import opened Bytes
  import opened SpacePacket
  import opened Profile
  import opened GreedyScan
  import opened Radio

  // Version 0 and a secondary header.
  predicate CanStart(b: byte) {
    b / 32 == 0 && b / 8 % 2 == 1
  }

  // FIRST_BYTE_MASK and FIRST_BYTE_OK
  lemma MaskIsCanStart(b: byte)
    ensures (b as bv8) & 0xE8 == 0x08 <==> CanStart(b)
  {
  }

  // One round of the loop in radio_deframer_next.
  function Judge(s: seq<byte>): Verdict<byte> {
    if s == [] then Wait
    else if !CanStart(s[0]) then Emit(Junk(s[0], false))
    else if |s| < HEADER_SIZE then Wait
    else if !(OVERHEAD <= TotalSize(s) <= MAX_PACKET) then Emit(Junk(s[0], false))
    else if |s| < TotalSize(s) then Wait
    else if Valid(s[..TotalSize(s)]) then Emit(Packet(s[..TotalSize(s)]))
    else Emit(Junk(s[0], true))
  }

  lemma JudgeSettled(s: seq<byte>, t: seq<byte>)
    ensures Settled(Judge, s, t)
  {
    if Judge(s).Emit? {
      assert (s + t)[0] == s[0];
      if CanStart(s[0]) {
        assert (s + t)[4..6] == s[4..6];
        if TotalSize(s) <= |s| {
          assert (s + t)[..TotalSize(s)] == s[..TotalSize(s)];
        }
      }
    }
  }

  lemma JudgeWellBehaved()
    ensures WellBehaved(Judge)
  {
    forall s, t
      ensures Settled(Judge, s, t)
    {
      JudgeSettled(s, t);
    }
  }

  // ----- what the scanner takes for a packet -----

  // A whole valid packet of sendable size is at the front.
  predicate PacketInFront(s: seq<byte>) {
    |s| >= HEADER_SIZE && TotalSize(s) <= MAX_PACKET && TotalSize(s) <= |s| && Valid(s[..TotalSize(s)])
  }

  predicate PacketAt(s: seq<byte>, p: nat) {
    p <= |s| && PacketInFront(s[p..])
  }

  lemma FirstOctet(q: seq<byte>)
    requires |q| >= HEADER_SIZE && Version(q) == 0 && ReadHeader(q).secondary
    ensures CanStart(q[0])
  {
    var hi: int, lo: int := q[0], q[1];
    var id := ReadU16(q[0..2]);
    assert id == hi * 256 + lo;
    assert id / 0x800 == hi / 8;
  }

  lemma ValidShape(q: seq<byte>)
    requires Valid(q)
    ensures |q| >= OVERHEAD && TotalSize(q) == |q| && CanStart(q[0])
  {
    assert ShapeError(q).None?;
    FirstOctet(q);
  }

  // A valid packet of sendable size is recognised whatever follows it: the quick
  // checks on its first octet and its length field never turn it away.
  lemma ValidIsRecognised(p: seq<byte>, after: seq<byte>)
    requires Valid(p) && |p| <= MAX_PACKET
    ensures Recognised(Judge, p, after)
  {
    var s := p + after;
    ValidShape(p);
    assert s[0] == p[0] && s[4..6] == p[4..6] && s[..|p|] == p;
  }

  lemma FrontIsVerdict(s: seq<byte>)
    ensures PacketInFront(s) <==> Judge(s).Emit? && Judge(s).piece.Packet?
    ensures PacketInFront(s) ==> |Judge(s).piece.octets| == TotalSize(s)
  {
    if PacketInFront(s) {
      var n := TotalSize(s);
      ValidIsRecognised(s[..n], s[n..]);
      assert s[..n] + s[n..] == s;
    }
  }

  lemma WaitIsShort(s: seq<byte>)
    requires Judge(s).Wait?
    ensures |s| < MAX_PACKET
  {
  }

  // ----- what is delivered -----

  // The packets, the skipped octets and the octets held back depend only on the
  // octets that arrived, not on how they were grouped.
  lemma DeliveryDependsOnStreamOnly(a: seq<seq<byte>>, b: seq<seq<byte>>)
    requires Concat(a) == Concat(b)
    ensures ScanGroups(Judge, [], a) == ScanGroups(Judge, [], b)
    ensures |ScanGroups(Judge, [], a).rest| < MAX_PACKET
  {
    JudgeWellBehaved();
    GroupingIrrelevant(Judge, [], a);
    GroupingIrrelevant(Judge, [], b);
    ScanConserves(Judge, [] + Concat(a));
    WaitIsShort(Scan(Judge, [] + Concat(a)).rest);
  }

  // Of the octets already resolved, offset p begins a delivered packet exactly
  // when a valid packet lies there and no packet delivered before reaches over it.
  lemma DeliveredExactly(s: seq<byte>, p: nat)
    requires p < |s| - |Scan(Judge, s).rest|
    ensures DeliveredAt(Judge, s, p) <==>
            && PacketAt(s, p)
            && !exists q: nat :: q < p && DeliveredAt(Judge, s, q) && p < q + Reach(Judge, s, q)
  {
    JudgeWellBehaved();
    GreedyScan.LeftmostGreedy(Judge, s, p);
    FrontIsVerdict(s[p..]);
  }

  // A delivered packet reaches over the octets its length field claims.
  lemma DeliveredReach(s: seq<byte>, q: nat)
    requires DeliveredAt(Judge, s, q)
    ensures PacketAt(s, q) && Reach(Judge, s, q) == TotalSize(s[q..])
  {
    JudgeWellBehaved();
    var pieces := Scan(Judge, s).pieces;
    var k :| 0 <= k < |pieces| && pieces[k].Packet? && Offset(pieces, k) == q;
    PieceIsVerdict(Judge, s, k);
    FrontIsVerdict(s[q..]);
  }

  // ----- one call per octet -----

  // With one call after each octet the buffer is never full when an octet comes,
  // so no octet is ever dropped to make room.
  lemma OneCallLeavesRoom(held: seq<byte>, b: byte)
    requires |held| < MAX_PACKET
    ensures |Next(Judge, held + [b]).rest| < MAX_PACKET
  {
    JudgeWellBehaved();
    var r := Next(Judge, held + [b]);
    NextBeginsScan(Judge, held + [b]);
    if r.packet == [] {
      WaitIsShort(r.rest);
    }
  }

  lemma {:induction false} HeldNeverFills(held: seq<byte>, arriving: seq<byte>)
    requires |held| < MAX_PACKET
    ensures |RunOnce(Judge, held, arriving).rest| < MAX_PACKET
    decreases |arriving|
  {
    if arriving != [] {
      OneCallLeavesRoom(held, arriving[0]);
      HeldNeverFills(Next(Judge, held + [arriving[0]]).rest, arriving[1..]);
    }
  }

  // Valid packets back to back come out as themselves, nothing skipped and
  // nothing held, whether the buffer is drained or called once per octet.
  lemma CleanStreamDelivered(packets: seq<seq<byte>>)
    requires forall p :: p in packets ==> Valid(p) && |p| <= MAX_PACKET
    ensures Scan(Judge, Concat(packets)) == Scanned(AsPieces(packets), [])
    ensures RunOnce(Judge, [], Concat(packets)) == Scanned(AsPieces(packets), [])
    ensures Packets(AsPieces(packets)) == packets && SkipCount(AsPieces(packets)) == 0
  {
    JudgeWellBehaved();
    forall p, after | p in packets
      ensures Recognised(Judge, p, after)
    {
      ValidIsRecognised(p, after);
    }
    CleanStream(Judge, packets);
    RunOnceClean(Judge, packets);
    CountPackets(packets);
  }

  // A datagram pushed whole, and one call: the first packet of its scan comes out,
  // if there is any.
  lemma DatagramFirstPacket(s: seq<byte>)
    ensures var found := Packets(Scan(Judge, s).pieces);
            Next(Judge, s).packet == if found == [] then [] else found[0]
  {
    JudgeWellBehaved();
    NextBeginsScan(Judge, s);
    var r := Next(Judge, s);
    PiecesConcat(r.pieces, Scan(Judge, r.rest).pieces);
    assert r.packet == [] ==> Packets(Scan(Judge, r.rest).pieces) == [];
  }

  // ----- what is awaited and what is skipped -----

  // The front may be a packet: as far as it goes, its first octet and its size are
  // those of one.
  predicate Promising(s: seq<byte>) {
    && |s| > 0 && s[0] < 32 && s[0] / 8 % 2 == 1
    && (|s| >= 6 ==> 26 <= 7 + 256 * (s[4] as nat) + s[5] <= 240)
  }

  // It claims no more octets than there are.
  predicate WholeInFront(s: seq<byte>) {
    |s| >= 6 && |s| >= 7 + 256 * (s[4] as nat) + s[5]
  }

  function Claimed(s: seq<byte>): seq<byte>
    requires WholeInFront(s)
  {
    s[..7 + 256 * (s[4] as nat) + s[5]]
  }

  // More octets are awaited exactly while the front may be a packet that is not
  // there as a whole. What is not promising is skipped unlooked at; a whole packet
  // is looked at, and skipped if it is not valid.
  lemma JudgeTells(s: seq<byte>)
    ensures Judge(s).Wait? <==> |s| == 0 || (Promising(s) && !WholeInFront(s))
    ensures Judge(s).Emit? && Judge(s).piece.Junk? ==>
              && Judge(s).piece.octet == s[0]
              && (Judge(s).piece.looked <==> Promising(s) && WholeInFront(s) && !Valid(Claimed(s)))
    ensures Judge(s).Emit? && Judge(s).piece.Packet? ==>
              Promising(s) && WholeInFront(s) && Judge(s).piece.octets == Claimed(s) && Valid(Claimed(s))
  {
  }

  // Of all octets skipped in a scan, those count as invalid that had a whole packet
  // in front which is not valid.
  lemma InvalidExactly(s: seq<byte>, k: nat)
    requires k < |Scan(Judge, s).pieces| && Scan(Judge, s).pieces[k].Junk?
    ensures var p, piece := Offset(Scan(Judge, s).pieces, k), Scan(Judge, s).pieces[k];
            && p < |s| && piece.octet == s[p]
            && (piece.looked <==> Promising(s[p..]) && WholeInFront(s[p..]) && !Valid(Claimed(s[p..])))
  {
    JudgeWellBehaved();
    PieceIsVerdict(Judge, s, k);
    JudgeTells(s[Offset(Scan(Judge, s).pieces, k)..]);
  }
}
