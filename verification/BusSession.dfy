// Calls of receive_one_frame in a row, on what writes left in the stream.
//
// platform/sim/drivers/comms_i2c.c: a write may take less than it is given; only
// then do the frames that are read differ from those written.
module BusSession {
  import opened Bytes
  import opened BusFrame
  import opened BusStream
  import opened Sequences

  // The frames that the calls returned, and what is held back and unread after them.
  datatype Session = Session(frames: seq<Frame>, held: seq<byte>, unread: seq<byte>)

  function Calls(held: seq<byte>, unread: seq<byte>, calls: seq<seq<Moment>>): (r: Session)
    requires |held| <= LEFTOVER_SIZE
    ensures |r.held| <= LEFTOVER_SIZE
    decreases |calls|
  {
    if calls == [] then Session([], held, unread)
    else
      var first := Receive(held, unread, calls[0]);
      var later := Calls(first.held, first.unread, calls[1..]);
      if first.result.Received? then later.(frames := [first.result.frame] + later.frames) else later
  }

  // Whatever octets come in, the calls return them as frames or keep them.
  lemma {:induction false} CallsConserve(held: seq<byte>, unread: seq<byte>, calls: seq<seq<Moment>>)
    requires |held| <= LEFTOVER_SIZE
    ensures var r := Calls(held, unread, calls);
            AllFit(r.frames) && held + unread == Stream(r.frames) + (r.held + r.unread)
    decreases |calls|
  {
    if calls != [] {
      var first := Receive(held, unread, calls[0]);
      ReceiveConserves(held, unread, calls[0]);
      CallsConserve(first.held, first.unread, calls[1..]);
    }
  }

  lemma {:induction false} StreamConcat(a: seq<Frame>, b: seq<Frame>)
    ensures Stream(a + b) == Stream(a) + Stream(b)
  {
    if a == [] {
      assert a + b == b;
    } else {
      assert (a + b)[1..] == a[1..] + b;
      StreamConcat(a[1..], b);
      Regroup(Wire(a[0]), Stream(a[1..]), Stream(b));
    }
  }

  // A stream of frames can be read in one way only.
  lemma {:induction false} OneReading(a: seq<Frame>, rest: seq<byte>, b: seq<Frame>)
    requires AllFit(a) && AllFit(b) && Stream(a) + rest == Stream(b)
    ensures |a| <= |b| && a == b[..|a|] && rest == Stream(b[|a|..])
  {
    if a != [] {
      var after := Stream(a[1..]) + rest;
      assert Stream(b) == Wire(a[0]) + after;
      WireInFront(a[0], after);
      if b != [] {
        WireInFront(b[0], Stream(b[1..]));
        DeserializeWire(a[0]);
        DeserializeWire(b[0]);
        OneReading(a[1..], rest, b[1..]);
        assert b[1..][|a| - 1..] == b[|a|..];
      }
    } else {
      assert b[0..] == b;
    }
  }

  // ----- writes that take less than they are given -----

  // Of each frame so many octets were taken.
  predicate Counts(frames: seq<Frame>, counts: seq<nat>) {
    && |frames| == |counts| && AllFit(frames)
    && forall i :: 0 <= i < |frames| ==> counts[i] <= |Wire(frames[i])|
  }

  // The octets that are then in the stream
  function Written(frames: seq<Frame>, counts: seq<nat>): seq<byte>
    requires Counts(frames, counts)
  {
    if frames == [] then []
    else
      var n := |frames| - 1;
      Written(frames[..n], counts[..n]) + Wire(frames[n])[..counts[n]]
  }

  // Every write was taken whole: its result was the length of the frame.
  predicate AllWhole(frames: seq<Frame>, counts: seq<nat>)
    requires Counts(frames, counts)
  {
    forall i :: 0 <= i < |frames| ==> counts[i] == |Wire(frames[i])|
  }

  lemma WrittenOneMore(frames: seq<Frame>, counts: seq<nat>, f: Frame, n: nat)
    requires Counts(frames, counts) && Fits(f) && n <= |Wire(f)|
    ensures Counts(frames + [f], counts + [n])
    ensures Written(frames + [f], counts + [n]) == Written(frames, counts) + Wire(f)[..n]
    ensures AllWhole(frames + [f], counts + [n]) <==> AllWhole(frames, counts) && n == |Wire(f)|
  {
    var all, some := frames + [f], counts + [n];
    assert all[..|frames|] == frames && some[..|counts|] == counts;
    assert all[|frames|] == f && some[|frames|] == n;
    if AllWhole(all, some) {
      forall i | 0 <= i < |frames|
        ensures counts[i] == |Wire(frames[i])|
      {
        assert some[i] == |Wire(all[i])|;
      }
    }
  }

  lemma {:induction false} WrittenLength(frames: seq<Frame>, counts: seq<nat>)
    requires Counts(frames, counts)
    ensures if AllWhole(frames, counts) then Written(frames, counts) == Stream(frames)
            else |Written(frames, counts)| < |Stream(frames)|
  {
    if |frames| > 0 {
      var n := |frames| - 1;
      var before, some := frames[..n], counts[..n];
      assert frames == before + [frames[n]] && counts == some + [counts[n]];
      WrittenLength(before, some);
      WrittenOneMore(before, some, frames[n], counts[n]);
      StreamAppend(before, frames[n]);
    }
  }

  // Calls that return all the frames of a stream
  lemma {:induction false} AllArrive(held: seq<byte>, unread: seq<byte>, frames: seq<Frame>)
    returns (calls: seq<seq<Moment>>)
    requires |held| <= LEFTOVER_SIZE && AllFit(frames) && held + unread == Stream(frames)
    ensures Calls(held, unread, calls).frames == frames
    decreases |frames|
  {
    if frames == [] {
      calls := [];
    } else {
      var moments := seq(|unread|, i => Readable(1));
      ReceiveArrives(held, unread, frames, moments);
      ReceiveInOrder(held, unread, frames, moments);
      var r := Receive(held, unread, moments);
      var later := AllArrive(r.held, r.unread, frames[1..]);
      calls := [moments] + later;
      assert calls[1..] == later;
    }
  }

  // Whoever has taken some frames of what was written can still come to have taken
  // exactly the frames that were to be written if and only if every write was whole.
  lemma ArriveIffWhole(sent: seq<Frame>, counts: seq<nat>, taken: seq<Frame>, held: seq<byte>, unread: seq<byte>)
    requires Counts(sent, counts) && AllFit(taken) && |held| <= LEFTOVER_SIZE
    requires Stream(taken) + (held + unread) == Written(sent, counts)
    ensures AllWhole(sent, counts) <==> exists calls :: taken + Calls(held, unread, calls).frames == sent
  {
    WrittenLength(sent, counts);
    if AllWhole(sent, counts) {
      OneReading(taken, held + unread, sent);
      var calls := AllArrive(held, unread, sent[|taken|..]);
      assert taken + Calls(held, unread, calls).frames == sent;
    }
    forall calls | taken + Calls(held, unread, calls).frames == sent
      ensures AllWhole(sent, counts)
    {
      CallsConserve(held, unread, calls);
      StreamConcat(taken, Calls(held, unread, calls).frames);
    }
  }

  // From the beginning: some calls return exactly the frames written if and only
  // if every write was taken whole.
  lemma DeliveredIffWhole(frames: seq<Frame>, counts: seq<nat>)
    requires Counts(frames, counts)
    ensures AllWhole(frames, counts) <==> exists calls :: Calls([], Written(frames, counts), calls).frames == frames
  {
    var octets := Written(frames, counts);
    assert Stream([]) + ([] + octets) == octets;
    ArriveIffWhole(frames, counts, [], [], octets);
    assert forall calls :: [] + Calls([], octets, calls).frames == Calls([], octets, calls).frames;
  }
}
