// Frames on a byte stream: receive_one_frame of platform/sim/drivers/comms_i2c.c,
// which puts them together again from whatever pieces the reads return.
module BusStream {
  import opened Bytes
  import opened Options
  import opened BusFrame

  const LEFTOVER_SIZE: nat := 2 * (FRAME_HEADER + MAX_FRAME_PAYLOAD)

  // What the octets held back from earlier reads begin with.
  datatype Front = Partial | Broken | Whole(frame: Frame, size: nat)

  function Look(held: seq<byte>): Front {
    if |held| < FRAME_HEADER then Partial
    else
      var needed := FRAME_HEADER + Claimed(held);
      if needed > LEFTOVER_SIZE then Broken
      else if |held| < needed then Partial
      else
        match Deserialize(held[..needed])
        case None => Broken
        case Some(f) => Whole(f, needed)
  }

  lemma LookWhole(held: seq<byte>)
    requires Look(held).Whole?
    ensures var f, n := Look(held).frame, Look(held).size;
            n <= |held| && Fits(f) && Wire(f) == held[..n]
  {
    var n := Look(held).size;
    DeserializeThenSerialize(held[..n], n);
  }

  // Whenever nothing can be taken from the buffer there is room in it to read.
  lemma RoomToRead(held: seq<byte>)
    requires Look(held).Partial? && |held| <= LEFTOVER_SIZE
    ensures |held| < LEFTOVER_SIZE
  {
  }

  // What a poll and the read after it come to: an error, an interruption, or as
  // many octets as the system hands over, which are at most these.
  datatype Moment = Failed | Interrupted | Readable(limit: nat)

  datatype Result = TimedOut | Error | Received(frame: Frame)

  // The outcome of a call, the octets held back after it and those not yet read.
  datatype Reception = Reception(result: Result, held: seq<byte>, unread: seq<byte>)

  function Least(a: nat, b: nat): nat {
    if a < b then a else b
  }

  // What one read hands over.
  function ReadSize(held: seq<byte>, unread: seq<byte>, limit: nat): (n: nat)
    requires |held| <= LEFTOVER_SIZE
    ensures n <= |unread| && n <= limit && |held| + n <= LEFTOVER_SIZE
  {
    Least(limit, Least(LEFTOVER_SIZE - |held|, |unread|))
  }

  // receive_one_frame; its time is up when the moments are.
  function Receive(held: seq<byte>, unread: seq<byte>, moments: seq<Moment>): (r: Reception)
    requires |held| <= LEFTOVER_SIZE
    ensures |r.held| <= LEFTOVER_SIZE
    decreases |moments|
  {
    match Look(held)
    case Broken => Reception(Error, held, unread)
    case Whole(f, n) => Reception(Received(f), held[n..], unread)
    case Partial =>
      if moments == [] then Reception(TimedOut, held, unread)
      else
        match moments[0]
        case Failed => Reception(Error, held, unread)
        case Interrupted => Receive(held, unread, moments[1..])
        case Readable(limit) =>
          var n := ReadSize(held, unread, limit);
          if n == 0 then Reception(Error, held, unread)
          else Receive(held + unread[..n], unread[n..], moments[1..])
  }

  // Nothing is lost or made up, whatever comes in: what was held back and not yet
  // read is the frame returned, if any, and what is held back and not yet read now.
  lemma {:induction false} ReceiveConserves(held: seq<byte>, unread: seq<byte>, moments: seq<Moment>)
    requires |held| <= LEFTOVER_SIZE
    ensures var r := Receive(held, unread, moments);
            held + unread == (if r.result.Received? then Wire(r.result.frame) else []) + (r.held + r.unread)
    ensures Receive(held, unread, moments).result.Received? ==> Fits(Receive(held, unread, moments).result.frame)
    decreases |moments|
  {
    if Look(held).Whole? {
      LookWhole(held);
      Cut(held, Look(held).size, unread);
    } else if Look(held).Partial? && moments != [] {
      match moments[0]
      case Failed =>
      case Interrupted => ReceiveConserves(held, unread, moments[1..]);
      case Readable(limit) =>
        var n := ReadSize(held, unread, limit);
        if n > 0 {
          ReceiveConserves(held + unread[..n], unread[n..], moments[1..]);
          Moved(held, unread, n);
        }
    }
  }

  lemma Cut<T>(s: seq<T>, n: nat, rest: seq<T>)
    requires n <= |s|
    ensures s + rest == s[..n] + (s[n..] + rest)
  {
  }

  lemma Moved<T>(s: seq<T>, t: seq<T>, n: nat)
    requires n <= |t|
    ensures (s + t[..n]) + t[n..] == s + t
  {
  }

  // One call or two: a time-out between them makes no difference.
  lemma {:induction false} TimeOutChangesNothing(held: seq<byte>, unread: seq<byte>,
                                                 first: seq<Moment>, second: seq<Moment>)
    requires |held| <= LEFTOVER_SIZE
    ensures var r := Receive(held, unread, first);
            Receive(held, unread, first + second) ==
            if r.result.TimedOut? then Receive(r.held, r.unread, second) else r
    decreases |first|
  {
    if first == [] {
      assert first + second == second;
    } else if Look(held).Partial? {
      assert (first + second)[1..] == first[1..] + second;
      match first[0]
      case Failed =>
      case Interrupted => TimeOutChangesNothing(held, unread, first[1..], second);
      case Readable(limit) =>
        var n := ReadSize(held, unread, limit);
        if n > 0 {
          TimeOutChangesNothing(held + unread[..n], unread[n..], first[1..], second);
        }
    }
  }

  // ----- a stream of frames -----

  predicate AllFit(frames: seq<Frame>) {
    forall i :: 0 <= i < |frames| ==> Fits(frames[i])
  }

  function Stream(frames: seq<Frame>): seq<byte> {
    if frames == [] then [] else Wire(frames[0]) + Stream(frames[1..])
  }

  lemma {:induction false} StreamAppend(frames: seq<Frame>, f: Frame)
    ensures Stream(frames + [f]) == Stream(frames) + Wire(f)
  {
    if frames == [] {
      assert frames + [f] == [f];
    } else {
      assert (frames + [f])[1..] == frames[1..] + [f];
      StreamAppend(frames[1..], f);
      assert Stream(frames + [f]) == Wire(frames[0]) + (Stream(frames[1..]) + Wire(f));
    }
  }

  // In front of a stream of frames the first one is found as soon as all of it is
  // there, and until then more octets are awaited.
  lemma LookAtStream(held: seq<byte>, unread: seq<byte>, frames: seq<Frame>)
    requires AllFit(frames) && held + unread == Stream(frames)
    ensures if frames != [] && |held| >= |Wire(frames[0])| then
              && Look(held) == Whole(frames[0], |Wire(frames[0])|)
              && held[|Wire(frames[0])|..] + unread == Stream(frames[1..])
            else Look(held) == Partial
  {
    if frames != [] {
      var f, w := frames[0], Wire(frames[0]);
      var s := held + unread;
      assert s == w + Stream(frames[1..]);
      if |held| >= |w| {
        WireInFront(f, held[|w|..]);
        assert held == s[..|held|] && w == s[..|w|];
        assert held == w + held[|w|..];
        DeserializeWire(f);
        assert s[|w|..] == held[|w|..] + unread;
      } else if |held| >= FRAME_HEADER {
        assert held == s[..|held|] == w[..|held|];
        HeaderTells(f, held);
      }
    }
  }

  // On a stream of frames a call returns the first one whole, or nothing is lost
  // by it.
  lemma {:induction false} ReceiveInOrder(held: seq<byte>, unread: seq<byte>, frames: seq<Frame>, moments: seq<Moment>)
    requires |held| <= LEFTOVER_SIZE && AllFit(frames) && held + unread == Stream(frames)
    ensures var r := Receive(held, unread, moments);
            if r.result.Received? then
              frames != [] && r.result.frame == frames[0] && r.held + r.unread == Stream(frames[1..])
            else r.held + r.unread == Stream(frames)
    decreases |moments|
  {
    LookAtStream(held, unread, frames);
    if Look(held).Partial? && moments != [] {
      match moments[0]
      case Failed =>
      case Interrupted => ReceiveInOrder(held, unread, frames, moments[1..]);
      case Readable(limit) =>
        var n := ReadSize(held, unread, limit);
        if n > 0 {
          Moved(held, unread, n);
          ReceiveInOrder(held + unread[..n], unread[n..], frames, moments[1..]);
        }
    }
  }

  predicate Willing(moments: seq<Moment>) {
    forall i :: 0 <= i < |moments| ==> moments[i].Readable? && moments[i].limit > 0
  }

  // With reads enough, be each but for a single octet, the next frame is received.
  lemma {:induction false} ReceiveArrives(held: seq<byte>, unread: seq<byte>, frames: seq<Frame>, moments: seq<Moment>)
    requires |held| <= LEFTOVER_SIZE && AllFit(frames) && held + unread == Stream(frames)
    requires frames != [] && Willing(moments) && |moments| >= |unread|
    ensures Receive(held, unread, moments).result == Received(frames[0])
    decreases |moments|
  {
    LookAtStream(held, unread, frames);
    if Look(held).Partial? {
      RoomToRead(held);
      assert |held + unread| >= |Wire(frames[0])|;
      var n := ReadSize(held, unread, moments[0].limit);
      Moved(held, unread, n);
      ReceiveArrives(held + unread[..n], unread[n..], frames, moments[1..]);
    }
  }

  // The stream must be written whole: where the last octet of a frame is not, the
  // reader takes the first octet of the next one for it, and returns a frame that
  // nobody sent.
  lemma ShortWriteMisreads(f: Frame, g: Frame)
    requires Fits(f) && f.payload != []
    ensures var n := |f.payload| - 1;
            Look(Wire(f)[..FRAME_HEADER + n] + Wire(g)) ==
            Whole(Frame(f.destination, f.source, f.payload[..n] + [g.destination]), |Wire(f)|)
  {
    var n := |f.payload| - 1;
    var h := Frame(f.destination, f.source, f.payload[..n] + [g.destination]);
    var s := Wire(f)[..FRAME_HEADER + n] + Wire(g);
    assert Header(h) == Header(f);
    assert s == Wire(h) + s[|Wire(f)|..];
    WireInFront(h, s[|Wire(f)|..]);
    DeserializeWire(h);
  }

  // ----- any octets -----

  // The size that the header in front claims, once it is there
  function ClaimedSize(s: seq<byte>): nat
    requires |s| >= 4
  {
    4 + 256 * (s[2] as nat) + s[3]
  }

  // A frame is cut out as soon as as many octets are there as its header claims, if
  // that is no more than a frame has; more is an error, at once if the buffer could
  // never hold it.
  lemma LookTells(held: seq<byte>)
    ensures Look(held).Partial? <==>
              |held| < 4 || (ClaimedSize(held) <= 536 && |held| < ClaimedSize(held))
    ensures Look(held).Whole? <==> |held| >= 4 && ClaimedSize(held) <= 268 && |held| >= ClaimedSize(held)
    ensures Look(held).Whole? ==>
              && Look(held).size == ClaimedSize(held)
              && Look(held).frame == Frame(held[0], held[1], held[4..ClaimedSize(held)])
  {
    if |held| >= 4 && |held| >= ClaimedSize(held) {
      assert held[..ClaimedSize(held)][2..4] == held[2..4];
      assert held[..ClaimedSize(held)][4..] == held[4..ClaimedSize(held)];
    }
  }

  // A call without any time looks at what is there already.
  lemma NoMoment(held: seq<byte>, unread: seq<byte>)
    requires |held| <= LEFTOVER_SIZE
    ensures var r := Receive(held, unread, []);
            match Look(held)
            case Whole(f, n) => r == Reception(Received(f), held[n..], unread)
            case Broken => r == Reception(Error, held, unread)
            case Partial => r == Reception(TimedOut, held, unread)
  {
  }

  // A poll that fails and a read that gives nothing are errors that lose nothing, an
  // interruption does no harm, and what is read is looked at. With TimeOutChangesNothing
  // this determines every call.
  lemma OneMoment(held: seq<byte>, unread: seq<byte>, moment: Moment)
    requires |held| <= LEFTOVER_SIZE && Look(held).Partial?
    ensures var r := Receive(held, unread, [moment]);
            match moment
            case Failed => r == Reception(Error, held, unread)
            case Interrupted => r == Reception(TimedOut, held, unread)
            case Readable(limit) =>
              if limit == 0 || |unread| == 0 then r == Reception(Error, held, unread)
              else exists n :: 0 < n <= |unread| && n <= limit && |held| + n <= 536
                     && (n == limit || n == |unread| || |held| + n == 536)
                     && r == Receive(held + unread[..n], unread[n..], [])
  {
    RoomToRead(held);
    assert [moment][1..] == [];
    if moment.Readable? && moment.limit > 0 && |unread| > 0 {
      var n := ReadSize(held, unread, moment.limit);
      assert Receive(held, unread, [moment]) == Receive(held + unread[..n], unread[n..], []);
    }
  }
}
