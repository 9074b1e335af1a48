// A leftmost-greedy scan of an octet stream, over any way of judging the front
// of what has arrived: hand a piece out, or wait for more octets.
module GreedyScan {
  import opened Sequences

  datatype Piece<T> = Packet(octets: seq<T>) | Junk(octet: T, looked: bool) {
    function Octets(): seq<T> {
      match this
      case Packet(o) => o
      case Junk(b, _) => [b]
    }
  }

  datatype Verdict<T> = Wait | Emit(piece: Piece<T>)

  // The verdict on s takes a nonempty prefix of s, and stays the same when t follows.
  ghost predicate Settled<T>(judge: seq<T> -> Verdict<T>, s: seq<T>, t: seq<T>) {
    judge(s).Emit? ==>
      var o := judge(s).piece.Octets();
      0 < |o| <= |s| && o == s[..|o|] && judge(s + t) == judge(s)
  }

  ghost predicate WellBehaved<T(!new)>(judge: seq<T> -> Verdict<T>) {
    forall s, t :: Settled(judge, s, t)
  }

  datatype Scanned<T> = Scanned(pieces: seq<Piece<T>>, rest: seq<T>)

  // Judging the front over and over until it has to wait.
  function Scan<T>(judge: seq<T> -> Verdict<T>, s: seq<T>): Scanned<T>
    decreases |s|
  {
    match judge(s)
    case Wait => Scanned([], s)
    case Emit(piece) =>
      var n := |piece.Octets()|;
      if !(0 < n <= |s|) then Scanned([], s) else
      var r := Scan(judge, s[n..]);
      Scanned([piece] + r.pieces, r.rest)
  }

  function Flatten<T>(pieces: seq<Piece<T>>): seq<T> {
    if pieces == [] then [] else pieces[0].Octets() + Flatten(pieces[1..])
  }

  function Packets<T>(pieces: seq<Piece<T>>): seq<seq<T>> {
    if pieces == [] then []
    else if pieces[0].Packet? then [pieces[0].octets] + Packets(pieces[1..])
    else Packets(pieces[1..])
  }

  function SkipCount<T>(pieces: seq<Piece<T>>): nat {
    if pieces == [] then 0 else (if pieces[0].Junk? then 1 else 0) + SkipCount(pieces[1..])
  }

  function InvalidCount<T>(pieces: seq<Piece<T>>): nat {
    if pieces == [] then 0
    else (if pieces[0].Junk? && pieces[0].looked then 1 else 0) + InvalidCount(pieces[1..])
  }

  lemma {:induction false} PiecesConcat<T>(a: seq<Piece<T>>, b: seq<Piece<T>>)
    ensures Flatten(a + b) == Flatten(a) + Flatten(b)
    ensures Packets(a + b) == Packets(a) + Packets(b)
    ensures SkipCount(a + b) == SkipCount(a) + SkipCount(b)
    ensures InvalidCount(a + b) == InvalidCount(a) + InvalidCount(b)
    decreases |a|
  {
    if a == [] {
      assert a + b == b;
    } else {
      assert (a + b)[1..] == a[1..] + b;
      PiecesConcat(a[1..], b);
      Regroup(a[0].Octets(), Flatten(a[1..]), Flatten(b));
      if a[0].Packet? {
        Regroup([a[0].octets], Packets(a[1..]), Packets(b));
      }
    }
  }

  lemma OnePiece<T>(p: Piece<T>)
    ensures Flatten([p]) == p.Octets()
    ensures Packets([p]) == if p.Packet? then [p.octets] else []
    ensures SkipCount([p]) == if p.Junk? then 1 else 0
    ensures InvalidCount([p]) == if p.Junk? && p.looked then 1 else 0
  {
  }

  // ----- the scan takes the stream apart and loses nothing -----

  lemma {:induction false} ScanConserves<T(!new)>(judge: seq<T> -> Verdict<T>, s: seq<T>)
    requires WellBehaved(judge)
    ensures Flatten(Scan(judge, s).pieces) + Scan(judge, s).rest == s
    ensures judge(Scan(judge, s).rest).Wait?
    decreases |s|
  {
    if judge(s).Emit? {
      assert Settled(judge, s, []);
      var o := judge(s).piece.Octets();
      var tail := s[|o|..];
      ScanConserves(judge, tail);
      var r := Scan(judge, tail);
      assert Scan(judge, s).pieces[1..] == r.pieces;
      assert s == o + tail;
      Regroup(o, Flatten(r.pieces), r.rest);
    }
  }

  // Scanning what has arrived and then the remainder with what arrives next is
  // scanning all of it at once.
  lemma {:induction false} ScanSplit<T(!new)>(judge: seq<T> -> Verdict<T>, s: seq<T>, t: seq<T>)
    requires WellBehaved(judge)
    ensures var r := Scan(judge, s);
            var q := Scan(judge, r.rest + t);
            Scan(judge, s + t) == Scanned(r.pieces + q.pieces, q.rest)
    decreases |s|
  {
    if judge(s).Emit? {
      assert Settled(judge, s, t);
      var n := |judge(s).piece.Octets()|;
      assert (s + t)[n..] == s[n..] + t;
      ScanSplit(judge, s[n..], t);
      var r := Scan(judge, s[n..]);
      Regroup([judge(s).piece], r.pieces, Scan(judge, r.rest + t).pieces);
    }
  }

  function Concat<T>(groups: seq<seq<T>>): seq<T> {
    if groups == [] then [] else groups[0] + Concat(groups[1..])
  }

  // Scanning after each group of octets that arrives.
  function ScanGroups<T>(judge: seq<T> -> Verdict<T>, rest: seq<T>, groups: seq<seq<T>>): Scanned<T>
    decreases |groups|
  {
    if groups == [] then Scanned([], rest) else
      var first := Scan(judge, rest + groups[0]);
      var later := ScanGroups(judge, first.rest, groups[1..]);
      Scanned(first.pieces + later.pieces, later.rest)
  }

  // How the stream is cut into groups makes no difference.
  lemma {:induction false} GroupingIrrelevant<T(!new)>(judge: seq<T> -> Verdict<T>, rest: seq<T>, groups: seq<seq<T>>)
    requires WellBehaved(judge) && judge(rest).Wait?
    ensures ScanGroups(judge, rest, groups) == Scan(judge, rest + Concat(groups))
    decreases |groups|
  {
    if groups == [] {
      assert rest + [] == rest;
    } else {
      var s := rest + groups[0];
      ScanConserves(judge, s);
      ScanSplit(judge, s, Concat(groups[1..]));
      GroupingIrrelevant(judge, Scan(judge, s).rest, groups[1..]);
      Regroup(rest, groups[0], Concat(groups[1..]));
    }
  }

  // ----- where the pieces lie -----

  function Offset<T>(pieces: seq<Piece<T>>, k: nat): nat
    requires k <= |pieces|
  {
    |Flatten(pieces[..k])|
  }

  lemma OffsetNext<T>(pieces: seq<Piece<T>>, k: nat)
    requires k < |pieces|
    ensures Offset(pieces, k + 1) == Offset(pieces, k) + |pieces[k].Octets()|
  {
    assert pieces[..k + 1] == pieces[..k] + [pieces[k]];
    PiecesConcat(pieces[..k], [pieces[k]]);
    OnePiece(pieces[k]);
  }

  lemma {:induction false} OffsetMonotone<T>(pieces: seq<Piece<T>>, j: nat, k: nat)
    requires j <= k <= |pieces|
    ensures Offset(pieces, j) <= Offset(pieces, k)
    decreases k - j
  {
    if j < k {
      OffsetNext(pieces, j);
      OffsetMonotone(pieces, j + 1, k);
    }
  }

  // Every piece is the verdict on the stream from where the piece begins.
  lemma {:induction false} PieceIsVerdict<T(!new)>(judge: seq<T> -> Verdict<T>, s: seq<T>, k: nat)
    requires WellBehaved(judge)
    requires k < |Scan(judge, s).pieces|
    ensures Offset(Scan(judge, s).pieces, k) <= |s|
    ensures judge(s[Offset(Scan(judge, s).pieces, k)..]) == Emit(Scan(judge, s).pieces[k])
    decreases |s|
  {
    var pieces := Scan(judge, s).pieces;
    assert Settled(judge, s, []);
    var n := |judge(s).piece.Octets()|;
    if k == 0 {
      assert s[0..] == s;
    } else {
      var tail := s[n..];
      PieceIsVerdict(judge, tail, k - 1);
      assert pieces[..k][1..] == Scan(judge, tail).pieces[..k - 1];
      var o := Offset(Scan(judge, tail).pieces, k - 1);
      assert Offset(pieces, k) == n + o;
      assert tail[o..] == s[n + o..];
    }
  }

  lemma {:induction false} PieceCovering<T>(pieces: seq<Piece<T>>, p: nat) returns (k: nat)
    requires p < |Flatten(pieces)|
    ensures k < |pieces|
    ensures Offset(pieces, k) <= p < Offset(pieces, k + 1)
    decreases |pieces|
  {
    var n := |pieces[0].Octets()|;
    if p < n {
      k := 0;
      OffsetNext(pieces, 0);
    } else {
      var j := PieceCovering(pieces[1..], p - n);
      k := j + 1;
      assert pieces[..k][1..] == pieces[1..][..j];
      assert pieces[..k + 1][1..] == pieces[1..][..j + 1];
    }
  }

  // ----- which packets are handed out -----

  ghost predicate DeliveredAt<T>(judge: seq<T> -> Verdict<T>, s: seq<T>, p: nat) {
    var pieces := Scan(judge, s).pieces;
    exists k :: 0 <= k < |pieces| && pieces[k].Packet? && Offset(pieces, k) == p
  }

  // The octets that a packet at p would take; 0 when there is none.
  function Reach<T>(judge: seq<T> -> Verdict<T>, s: seq<T>, p: nat): nat {
    if p <= |s| && judge(s[p..]).Emit? && judge(s[p..]).piece.Packet? then |judge(s[p..]).piece.octets| else 0
  }

  lemma ReachOfPiece<T(!new)>(judge: seq<T> -> Verdict<T>, s: seq<T>, k: nat)
    requires WellBehaved(judge) && k < |Scan(judge, s).pieces|
    ensures var pieces := Scan(judge, s).pieces;
            && Offset(pieces, k + 1) == Offset(pieces, k) + |pieces[k].Octets()|
            && Reach(judge, s, Offset(pieces, k)) == if pieces[k].Packet? then |pieces[k].octets| else 0
  {
    PieceIsVerdict(judge, s, k);
    OffsetNext(Scan(judge, s).pieces, k);
  }

  // Offsets of distinct pieces are apart by at least the earlier piece.
  lemma Disjoint<T(!new)>(judge: seq<T> -> Verdict<T>, s: seq<T>, j: nat, k: nat)
    requires WellBehaved(judge) && j < k < |Scan(judge, s).pieces|
    ensures var pieces := Scan(judge, s).pieces;
            Offset(pieces, j) < Offset(pieces, j) + |pieces[j].Octets()| <= Offset(pieces, k)
  {
    var pieces := Scan(judge, s).pieces;
    PieceIsVerdict(judge, s, j);
    assert Settled(judge, s[Offset(pieces, j)..], []);
    OffsetNext(pieces, j);
    OffsetMonotone(pieces, j + 1, k);
  }

  // Among the octets already resolved, a packet is handed out at p exactly when
  // one lies there and none handed out earlier reaches over p.
  lemma LeftmostGreedy<T(!new)>(judge: seq<T> -> Verdict<T>, s: seq<T>, p: nat)
    requires WellBehaved(judge)
    requires p < |s| - |Scan(judge, s).rest|
    ensures DeliveredAt(judge, s, p) <==>
            && Reach(judge, s, p) > 0
            && !exists q: nat :: q < p && DeliveredAt(judge, s, q) && p < q + Reach(judge, s, q)
  {
    var pieces := Scan(judge, s).pieces;
    ScanConserves(judge, s);
    var k := PieceCovering(pieces, p);
    var at := Offset(pieces, k);
    PieceIsVerdict(judge, s, k);
    ReachOfPiece(judge, s, k);
    if at == p {
      DeliveredIffPacket(judge, s, k);
      forall q: nat | q < p && DeliveredAt(judge, s, q)
        ensures q + Reach(judge, s, q) <= p
      {
        var j :| 0 <= j < |pieces| && pieces[j].Packet? && Offset(pieces, j) == q;
        if k < j {
          Disjoint(judge, s, k, j);
        }
        Disjoint(judge, s, j, k);
        ReachOfPiece(judge, s, j);
      }
    } else {
      assert DeliveredAt(judge, s, at) && p < at + Reach(judge, s, at);
      if DeliveredAt(judge, s, p) {
        var j :| 0 <= j < |pieces| && pieces[j].Packet? && Offset(pieces, j) == p;
        if j < k {
          Disjoint(judge, s, j, k);
        } else {
          Disjoint(judge, s, k, j);
        }
      }
    }
  }

  lemma DeliveredIffPacket<T(!new)>(judge: seq<T> -> Verdict<T>, s: seq<T>, k: nat)
    requires WellBehaved(judge) && k < |Scan(judge, s).pieces|
    ensures DeliveredAt(judge, s, Offset(Scan(judge, s).pieces, k)) <==> Scan(judge, s).pieces[k].Packet?
  {
    var pieces := Scan(judge, s).pieces;
    if DeliveredAt(judge, s, Offset(pieces, k)) {
      var j :| 0 <= j < |pieces| && pieces[j].Packet? && Offset(pieces, j) == Offset(pieces, k);
      PieceIsVerdict(judge, s, j);
      PieceIsVerdict(judge, s, k);
    }
  }

  // From the unresolved octets on nothing has been handed out yet.
  lemma NothingDeliveredLater<T(!new)>(judge: seq<T> -> Verdict<T>, s: seq<T>, p: nat)
    requires WellBehaved(judge)
    requires p >= |s| - |Scan(judge, s).rest|
    ensures !DeliveredAt(judge, s, p)
  {
    var pieces := Scan(judge, s).pieces;
    ScanConserves(judge, s);
    assert pieces[..|pieces|] == pieces;
    if DeliveredAt(judge, s, p) {
      var k :| 0 <= k < |pieces| && pieces[k].Packet? && Offset(pieces, k) == p;
      PieceIsVerdict(judge, s, k);
      assert Settled(judge, s[p..], []);
      OffsetNext(pieces, k);
      OffsetMonotone(pieces, k + 1, |pieces|);
    }
  }

  // ----- handing out one packet at a time -----

  datatype Step<T> = Step(pieces: seq<Piece<T>>, packet: seq<T>, rest: seq<T>)

  // Judging the front until a packet comes out or it has to wait; the packet is
  // empty in the second case.
  function Next<T>(judge: seq<T> -> Verdict<T>, s: seq<T>): Step<T>
    decreases |s|
  {
    match judge(s)
    case Wait => Step([], [], s)
    case Emit(piece) =>
      var n := |piece.Octets()|;
      if !(0 < n <= |s|) then Step([], [], s)
      else if piece.Packet? then Step([piece], piece.octets, s[n..])
      else
        var r := Next(judge, s[n..]);
        Step([piece] + r.pieces, r.packet, r.rest)
  }

  // One call hands out the scan's first packet and leaves the rest of the scan.
  lemma {:induction false} NextBeginsScan<T(!new)>(judge: seq<T> -> Verdict<T>, s: seq<T>)
    requires WellBehaved(judge)
    ensures var r := Next(judge, s);
            && Flatten(r.pieces) + r.rest == s
            && Packets(r.pieces) == (if r.packet == [] then [] else [r.packet])
            && Scan(judge, s) == Scanned(r.pieces + Scan(judge, r.rest).pieces, Scan(judge, r.rest).rest)
            && (r.packet == [] ==> judge(r.rest).Wait?)
            && (r.packet != [] ==> r.pieces != [] && r.pieces[|r.pieces| - 1] == Packet(r.packet))
            && |r.packet| + |r.rest| <= |s|
    decreases |s|
  {
    if judge(s).Emit? {
      assert Settled(judge, s, []);
      var piece := judge(s).piece;
      var tail := s[|piece.Octets()|..];
      assert s == piece.Octets() + tail;
      OnePiece(piece);
      if !piece.Packet? {
        NextBeginsScan(judge, tail);
        var r, q := Next(judge, s), Next(judge, tail);
        assert r.pieces[1..] == q.pieces;
        Regroup(piece.Octets(), Flatten(q.pieces), q.rest);
        Regroup([piece], q.pieces, Scan(judge, q.rest).pieces);
      }
    }
  }

  // One octet arrives, one call is made: the pieces resolved so far and the
  // octets still held.
  function RunOnce<T>(judge: seq<T> -> Verdict<T>, held: seq<T>, arriving: seq<T>): Scanned<T>
    decreases |arriving|
  {
    if arriving == [] then Scanned([], held) else
      var r := Next(judge, held + [arriving[0]]);
      var later := RunOnce(judge, r.rest, arriving[1..]);
      Scanned(r.pieces + later.pieces, later.rest)
  }

  // Calling once per octet loses and reorders nothing: what has come out, then
  // what scanning the held octets would bring out, is the scan of the stream.
  lemma {:induction false} RunOnceIsScan<T(!new)>(judge: seq<T> -> Verdict<T>, held: seq<T>, arriving: seq<T>)
    requires WellBehaved(judge)
    ensures var r := RunOnce(judge, held, arriving);
            && Flatten(r.pieces) + r.rest == held + arriving
            && Scan(judge, held + arriving)
               == Scanned(r.pieces + Scan(judge, r.rest).pieces, Scan(judge, r.rest).rest)
    decreases |arriving|
  {
    if arriving == [] {
      assert held + arriving == held;
    } else {
      var s := held + [arriving[0]];
      var tail := arriving[1..];
      var r := Next(judge, s);
      NextBeginsScan(judge, s);
      RunOnceIsScan(judge, r.rest, tail);
      assert held + arriving == s + tail;
      var later := RunOnce(judge, r.rest, tail);
      PiecesConcat(r.pieces, later.pieces);
      ScanAfterPieces(judge, s, r, tail);
      Regroup(r.pieces, later.pieces, Scan(judge, later.rest).pieces);
      assert Flatten(r.pieces + later.pieces) + later.rest == s + tail by {
        Regroup(Flatten(r.pieces), Flatten(later.pieces), later.rest);
        Regroup(Flatten(r.pieces), r.rest, tail);
      }
    }
  }

  lemma {:induction false} ScanAfterPieces<T(!new)>(judge: seq<T> -> Verdict<T>, s: seq<T>, r: Step<T>, t: seq<T>)
    requires WellBehaved(judge) && r == Next(judge, s)
    ensures Scan(judge, s + t) == Scanned(r.pieces + Scan(judge, r.rest + t).pieces, Scan(judge, r.rest + t).rest)
    decreases |s|
  {
    if judge(s).Emit? {
      var piece := judge(s).piece;
      assert Settled(judge, s, t);
      var n := |piece.Octets()|;
      assert (s + t)[n..] == s[n..] + t;
      if !piece.Packet? {
        var q := Next(judge, s[n..]);
        ScanAfterPieces(judge, s[n..], q, t);
        Regroup([piece], q.pieces, Scan(judge, q.rest + t).pieces);
      }
    }
  }

  // ----- a clean stream -----

  // p is seen to be a packet when `after` follows it.
  ghost predicate Recognised<T>(judge: seq<T> -> Verdict<T>, p: seq<T>, after: seq<T>) {
    p != [] && judge(p + after) == Emit(Packet(p))
  }

  ghost predicate AllRecognised<T(!new)>(judge: seq<T> -> Verdict<T>, packets: seq<seq<T>>) {
    forall p, after :: p in packets ==> Recognised(judge, p, after)
  }

  function AsPieces<T>(packets: seq<seq<T>>): (pieces: seq<Piece<T>>)
    ensures |pieces| == |packets|
  {
    seq(|packets|, i requires 0 <= i < |packets| => Packet(packets[i]))
  }

  // A stream of packets back to back is scanned into exactly those packets.
  lemma {:induction false} CleanStream<T(!new)>(judge: seq<T> -> Verdict<T>, packets: seq<seq<T>>)
    requires WellBehaved(judge) && AllRecognised(judge, packets) && judge([]).Wait?
    ensures Scan(judge, Concat(packets)) == Scanned(AsPieces(packets), [])
    decreases |packets|
  {
    if packets != [] {
      var p, rest := packets[0], Concat(packets[1..]);
      assert Recognised(judge, p, rest);
      assert (p + rest)[|p|..] == rest;
      CleanStream(judge, packets[1..]);
      assert AsPieces(packets) == [Packet(p)] + AsPieces(packets[1..]);
    }
  }

  // A call before a packet is complete hands nothing out.
  lemma PrefixWaits<T(!new)>(judge: seq<T> -> Verdict<T>, p: seq<T>, k: nat)
    requires WellBehaved(judge) && Recognised(judge, p, []) && k < |p|
    ensures Next(judge, p[..k]) == Step([], [], p[..k])
  {
    var q, after := p[..k], p[k..];
    assert Settled(judge, q, after);
    assert q + after == p && p + [] == p;
  }

  lemma {:induction false} RunOnceWithin<T(!new)>(judge: seq<T> -> Verdict<T>, p: seq<T>, k: nat, after: seq<T>)
    requires WellBehaved(judge) && Recognised(judge, p, []) && k < |p|
    ensures var r := RunOnce(judge, [], after);
            RunOnce(judge, p[..k], p[k..] + after) == Scanned([Packet(p)] + r.pieces, r.rest)
    decreases |p| - k
  {
    var arriving := p[k..] + after;
    assert p[..k] + [arriving[0]] == p[..k + 1];
    assert arriving[1..] == p[k + 1..] + after;
    if k + 1 < |p| {
      PrefixWaits(judge, p, k + 1);
      RunOnceWithin(judge, p, k + 1, after);
    } else {
      assert p[..k + 1] == p == p + [] && p[|p|..] == [];
      assert Next(judge, p) == Step([Packet(p)], p, []);
      assert [] + after == after && arriving[1..] == after;
    }
  }

  // With one call per octet every packet of a clean stream comes out as its last
  // octet arrives, and nothing is held at the end.
  lemma {:induction false} RunOnceClean<T(!new)>(judge: seq<T> -> Verdict<T>, packets: seq<seq<T>>)
    requires WellBehaved(judge) && AllRecognised(judge, packets)
    ensures RunOnce(judge, [], Concat(packets)) == Scanned(AsPieces(packets), [])
    decreases |packets|
  {
    if packets != [] {
      var p, rest := packets[0], packets[1..];
      assert Recognised(judge, p, []);
      RunOnceWithin(judge, p, 0, Concat(rest));
      assert p[..0] == [] && p[0..] == p;
      RunOnceClean(judge, rest);
      assert AsPieces(packets) == [Packet(p)] + AsPieces(rest);
    }
  }

  lemma {:induction false} CountPackets<T>(packets: seq<seq<T>>)
    ensures Packets(AsPieces(packets)) == packets
    ensures SkipCount(AsPieces(packets)) == 0
    ensures Flatten(AsPieces(packets)) == Concat(packets)
    decreases |packets|
  {
    if packets != [] {
      assert AsPieces(packets)[1..] == AsPieces(packets[1..]);
      CountPackets(packets[1..]);
    }
  }

  // ----- counting -----

  function Lengths<T>(packets: seq<seq<T>>): nat {
    if |packets| == 0 then 0 else |packets[0]| + Lengths(packets[1..])
  }

  // Every octet is in a packet or was skipped.
  lemma {:induction false} SkippedAreTheOthers<T>(pieces: seq<Piece<T>>)
    ensures |Flatten(pieces)| == SkipCount(pieces) + Lengths(Packets(pieces))
    decreases |pieces|
  {
    if |pieces| > 0 {
      SkippedAreTheOthers(pieces[1..]);
    }
  }

  // The octets that were skipped after a look at a whole packet
  function LookedAt<T>(pieces: seq<Piece<T>>): set<nat> {
    set k: nat | k < |pieces| && pieces[k].Junk? && pieces[k].looked
  }

  lemma {:induction false} InvalidAreLookedAt<T>(pieces: seq<Piece<T>>)
    ensures InvalidCount(pieces) == |LookedAt(pieces)|
    decreases |pieces|
  {
    if |pieces| > 0 {
      var n := |pieces| - 1;
      var before, last := pieces[..n], pieces[n];
      assert pieces == before + [last];
      InvalidAreLookedAt(before);
      PiecesConcat(before, [last]);
      OnePiece(last);
      assert forall k: nat :: k < n ==> before[k] == pieces[k];
      assert LookedAt(pieces) == LookedAt(before) + if last.Junk? && last.looked then {n} else {};
    }
  }
}
