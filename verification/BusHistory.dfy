// What the calls of the simulated bus return, over whole runs: the packets that
// receive calls hand out, in terms of what was asked to be sent.
//
// platform/sim/drivers/comms_i2c.c
module BusHistory {
  import opened Bytes
  import opened BusFrame
  import opened BusStream
  import opened BusSession
  import opened SimBus
  import opened Sequences

  // ----- one connection -----

  // What a receiver makes of a connection is what the call that reads a frame
  // returned: a packet with the frame's source and payload, if it is addressed to the
  // receiver and fits the caller's room. Exactly that packet is added to those given
  // out.
  lemma CollectTells(l: Link, address: byte, room: nat, moments: seq<Moment>)
    requires |l.held| <= LEFTOVER_SIZE
    ensures var (k, o) := Collect(l, address, room, moments);
            var r := Receive(l.held, l.unread, moments);
            && k.held == r.held && k.unread == r.unread && k.sent == l.sent && k.counts == l.counts
            && (o.Nothing? <==> r.result.TimedOut?) && (o.Unreadable? <==> r.result.Error?)
            && (o.Foreign? <==> r.result.Received? && r.result.frame.destination != address)
            && (o.TooLong? <==> r.result.Received? && r.result.frame.destination == address
                                && |r.result.frame.payload| > room)
            && (o.Delivered? <==> r.result.Received? && r.result.frame.destination == address
                                  && |r.result.frame.payload| <= room)
            && (o.Delivered? ==> r.result.frame == Frame(address, o.packet.0, o.packet.1))
            && k.got == l.got + (if o.Delivered? then [o.packet] else [])
            && k.taken == l.taken + (if r.result.Received? then [r.result.frame] else [])
  {
  }

  // ----- the master's slots -----

  function Asked(s: Station, master: byte, room: nat, moments: seq<Moment>): Outcome
    requires |s.up.held| <= LEFTOVER_SIZE
  {
    Collect(s.up, master, room, moments).1
  }

  // This slot ends the call.
  predicate Ends(s: Station, master: byte, room: nat, moments: seq<Moment>)
    requires |s.up.held| <= LEFTOVER_SIZE
  {
    s.live && (Asked(s, master, room, moments).Delivered? || Asked(s, master, room, moments).TooLong?)
  }

  // The slot has been read from, if it lives; it is closed if that failed.
  predicate Read(s: Station, t: Station, master: byte, room: nat, moments: seq<Moment>)
    requires |s.up.held| <= LEFTOVER_SIZE
  {
    if s.live then
      && t == s.(live := t.live, up := Collect(s.up, master, room, moments).0)
      && (t.live <==> !Asked(s, master, room, moments).Unreadable?)
    else t == s
  }

  // No slot from i up to k ends the call.
  predicate NoneEnds(ss: seq<Station>, i: nat, k: nat, master: byte, room: nat, moments: seq<seq<Moment>>)
    requires k <= |ss| == |moments| && HeldFit(ss)
  {
    forall j :: i <= j < k ==> !Ends(ss[j], master, room, moments[j])
  }

  // The slots from i up to k have been read from, and no others.
  predicate ReadUpTo(ss: seq<Station>, tt: seq<Station>, i: nat, k: nat, master: byte, room: nat,
                     moments: seq<seq<Moment>>)
    requires k <= |ss| == |moments| && HeldFit(ss) && |tt| == |ss|
  {
    && (forall j :: i <= j < k ==> Read(ss[j], tt[j], master, room, moments[j]))
    && (forall j :: 0 <= j < |ss| && !(i <= j < k) ==> tt[j] == ss[j])
  }

  // The master's call reads slot after slot until one has a packet for it, or one
  // that does not fit, and returns what that slot has; the slots behind are left
  // alone.
  lemma {:induction false} PollTells(ss: seq<Station>, i: nat, master: byte, room: nat, moments: seq<seq<Moment>>,
                                     k: nat)
    requires i <= k <= |ss| == |moments| && HeldFit(ss) && NoneEnds(ss, i, k, master, room, moments)
    requires k < |ss| ==> Ends(ss[k], master, room, moments[k])
    ensures var (tt, o) := Poll(ss, i, master, room, moments);
            && o == (if k < |ss| then Asked(ss[k], master, room, moments[k]) else Nothing)
            && ReadUpTo(ss, tt, i, if k < |ss| then k + 1 else k, master, room, moments)
    decreases k - i
  {
    if i < k {
      var t := if ss[i].live then
                 ss[i].(up := Collect(ss[i].up, master, room, moments[i]).0,
                        live := !Asked(ss[i], master, room, moments[i]).Unreadable?)
               else ss[i];
      assert !Ends(ss[i], master, room, moments[i]);
      assert ss[i := t][i] == t && (!ss[i].live ==> ss[i := t] == ss);
      PollTells(ss[i := t], i + 1, master, room, moments, k);
    }
  }

  lemma {:induction false} FirstEnd(ss: seq<Station>, i: nat, master: byte, room: nat, moments: seq<seq<Moment>>)
    returns (k: nat)
    requires i <= |ss| == |moments| && HeldFit(ss)
    ensures i <= k <= |ss| && NoneEnds(ss, i, k, master, room, moments)
    ensures k < |ss| ==> Ends(ss[k], master, room, moments[k])
    decreases |ss| - i
  {
    if i == |ss| || Ends(ss[i], master, room, moments[i]) {
      k := i;
    } else {
      k := FirstEnd(ss, i + 1, master, room, moments);
    }
  }

  // ----- writing -----

  // A write reaches every slot that lives: so many octets of the frame as the system
  // takes are on the way then, and a slot is closed exactly if its write fails.
  lemma BroadcastTells(ss: seq<Station>, f: Frame, writes: seq<Write>, i: nat)
    requires Possible(f, writes) && |writes| == |ss| && i < |ss|
    ensures var s, t, w := ss[i], Broadcast(ss, f, writes)[i], writes[i];
            && (t.live <==> s.live && !w.Erred?)
            && t.down.unread == s.down.unread + (if s.live && w.Took? then Wire(f)[..w.count] else [])
            && t.down.held == s.down.held && t.up == s.up && t.address == s.address
  {
  }

  // ----- what was asked -----

  // The frames that the master was asked to send, those too long left out.
  function Sent(master: byte, actions: seq<Action>): seq<Frame> {
    if |actions| == 0 then []
    else
      var later := Sent(master, actions[1..]);
      match actions[0]
      case MasterSend(destination, payload, _) =>
        if |payload| <= 264 then [Frame(destination, master, payload)] + later else later
      case _ => later
  }

  // The stations that join, each with how many frames the master sent before; n were
  // sent before all of this.
  function Joining(actions: seq<Action>, n: nat): seq<(byte, nat)> {
    if |actions| == 0 then []
    else
      match actions[0]
      case Accept(address) => [(address, n)] + Joining(actions[1..], n)
      case MasterSend(_, payload, _) => Joining(actions[1..], if |payload| <= 264 then n + 1 else n)
      case _ => Joining(actions[1..], n)
  }

  function Joined(ss: seq<Station>): (r: seq<(byte, nat)>)
    ensures |r| == |ss|
  {
    seq(|ss|, i requires 0 <= i < |ss| => (ss[i].address, ss[i].joined))
  }

  lemma {:induction false} PollKeepsJoined(ss: seq<Station>, master: byte, room: nat, moments: seq<seq<Moment>>)
    requires |ss| == |moments| && HeldFit(ss)
    ensures Joined(Poll(ss, 0, master, room, moments).0) == Joined(ss)
  {
    PollKeepsDown(ss, 0, master, room, moments);
  }

  lemma StepJoins(b: Bus, a: Action)
    requires Enabled(b, a)
    ensures var c := After(b, a);
            && c.master == b.master && c.log == b.log + Sent(b.master, [a])
            && Joined(c.stations) == Joined(b.stations) + (if a.Accept? then [(a.address, |b.log|)] else [])
  {
    if a.MasterReceive? {
      PollKeepsJoined(b.stations, b.master, a.room, a.moments);
    }
    assert [a][1..] == [];
  }

  lemma {:induction false} SentFirst(master: byte, actions: seq<Action>)
    requires |actions| > 0
    ensures Sent(master, actions) == Sent(master, [actions[0]]) + Sent(master, actions[1..])
  {
    assert [actions[0]][1..] == [];
  }

  // The frames the master sends and the stations that join are those asked for.
  lemma {:induction false} RunJoins(b: Bus, actions: seq<Action>)
    requires Runs(b, actions)
    ensures var c := Run(b, actions);
            && c.master == b.master && c.log == b.log + Sent(b.master, actions)
            && Joined(c.stations) == Joined(b.stations) + Joining(actions, |b.log|)
    decreases |actions|
  {
    if |actions| > 0 {
      var a, c, rest := actions[0], After(b, actions[0]), actions[1..];
      StepJoins(b, a);
      RunJoins(c, rest);
      SentFirst(b.master, actions);
      Regroup(b.log, Sent(b.master, [a]), Sent(b.master, rest));
      var joins: seq<(byte, nat)> := if a.Accept? then [(a.address, |b.log|)] else [];
      assert [a][1..] == [];
      assert Joining(actions, |b.log|) == joins + Joining(rest, |c.log|);
      Regroup(Joined(b.stations), joins, Joining(rest, |c.log|));
    }
  }

  // ----- what was returned to a station -----

  // The packet that the call by station i returns, if it is one and has one.
  ghost function Given(b: Bus, a: Action, i: nat): seq<Packet>
    requires Enabled(b, a)
  {
    if a.SlaveReceive? && a.i == i then
      match Collect(b.stations[i].down, b.stations[i].address, a.room, a.read).1
      case Delivered(packet) => [packet]
      case _ => []
    else []
  }

  ghost function ReturnedTo(b: Bus, actions: seq<Action>, i: nat): seq<Packet>
    requires Runs(b, actions)
    decreases |actions|
  {
    if |actions| == 0 then [] else Given(b, actions[0], i) + ReturnedTo(After(b, actions[0]), actions[1..], i)
  }

  function GotOf(b: Bus, i: nat): seq<Packet> {
    if i < |b.stations| then b.stations[i].down.got else []
  }

  lemma StepGives(b: Bus, a: Action, i: nat)
    requires Enabled(b, a)
    ensures GotOf(After(b, a), i) == GotOf(b, i) + Given(b, a, i)
  {
    if a.MasterReceive? {
      PollKeepsDown(b.stations, 0, b.master, a.room, a.moments);
    }
  }

  lemma {:induction false} RunGives(b: Bus, actions: seq<Action>, i: nat)
    requires Runs(b, actions)
    ensures GotOf(Run(b, actions), i) == GotOf(b, i) + ReturnedTo(b, actions, i)
    decreases |actions|
  {
    if |actions| > 0 {
      var c, given := After(b, actions[0]), Given(b, actions[0], i);
      StepGives(b, actions[0], i);
      RunGives(c, actions[1..], i);
      Regroup(GotOf(b, i), given, ReturnedTo(c, actions[1..], i));
    }
  }

  // What a station that joined under this address, after `from` frames, should have
  // been given by now, and whether it should have been given all.
  predicate Served(s: Station, log: seq<Frame>, address: byte, from: nat, returned: seq<Packet>) {
    && from + |s.down.taken| <= |log|
    && returned == For(log[from..from + |s.down.taken|], address)
    && (s.live && s.down.unread == [] && Look(s.down.held) == Partial ==> returned == For(log[from..], address))
  }

  lemma RunTells(master: byte, actions: seq<Action>, i: nat)
    requires Runs(Start(master), actions) && i < |Run(Start(master), actions).stations|
    ensures var b := Run(Start(master), actions);
            && b.log == Sent(master, actions) && i < |Joining(actions, 0)|
            && Joining(actions, 0)[i] == (b.stations[i].address, b.stations[i].joined)
            && b.stations[i].down.got == ReturnedTo(Start(master), actions, i)
  {
    RunJoins(Start(master), actions);
    RunGives(Start(master), actions, i);
    var b := Run(Start(master), actions);
    assert Joined(b.stations) == Joining(actions, 0);
    assert Joined(b.stations)[i] == (b.stations[i].address, b.stations[i].joined);
    assert GotOf(b, i) == ReturnedTo(Start(master), actions, i);
  }

  // In every run: the packets that the receive calls of a station returned are
  // exactly, in order, those that the master was asked to send to its address after
  // it joined, as far as the station has read, and all of them once it has read all
  // there is; as long as the writes to it were whole and its callers had room.
  lemma StationsAreServed(master: byte, actions: seq<Action>, i: nat)
    requires Runs(Start(master), actions) && i < |Run(Start(master), actions).stations|
    ensures var s := Run(Start(master), actions).stations[i];
            && i < |Joining(actions, 0)| && Counts(s.down.sent, s.down.counts)
            && (AllWhole(s.down.sent, s.down.counts) && Roomy(s.down.rooms) ==>
                  Served(s, Sent(master, actions), Joining(actions, 0)[i].0, Joining(actions, 0)[i].1,
                         ReturnedTo(Start(master), actions, i)))
  {
    RunTells(master, actions, i);
    AddressedFifo(master, actions, i);
  }

  // ----- what was returned to the master -----

  // `all` is the parts, each in its order, mixed.
  ghost predicate Mixed(all: seq<Packet>, parts: seq<seq<Packet>>)
    decreases |all|
  {
    if |all| == 0 then forall k :: 0 <= k < |parts| ==> |parts[k]| == 0
    else exists k :: 0 <= k < |parts| && LastFrom(all, parts, k)
                     && Mixed(all[..|all| - 1], parts[k := parts[k][..|parts[k]| - 1]])
  }

  predicate LastFrom(all: seq<Packet>, parts: seq<seq<Packet>>, k: nat)
    requires |all| > 0 && k < |parts|
  {
    |parts[k]| > 0 && parts[k][|parts[k]| - 1] == all[|all| - 1]
  }

  lemma OneMoreMixed(all: seq<Packet>, parts: seq<seq<Packet>>, k: nat, p: Packet)
    requires Mixed(all, parts) && k < |parts|
    ensures Mixed(all + [p], parts[k := parts[k] + [p]])
  {
    var more, grown := all + [p], parts[k := parts[k] + [p]];
    assert more[..|more| - 1] == all;
    assert grown[k][..|grown[k]| - 1] == parts[k];
    assert grown[k := parts[k]] == parts;
    assert LastFrom(more, grown, k);
  }

  lemma {:induction false} OneMorePart(all: seq<Packet>, parts: seq<seq<Packet>>)
    requires Mixed(all, parts)
    ensures Mixed(all, parts + [[]])
    decreases |all|
  {
    if |all| > 0 {
      var k :| 0 <= k < |parts| && LastFrom(all, parts, k)
               && Mixed(all[..|all| - 1], parts[k := parts[k][..|parts[k]| - 1]]);
      var shorter := parts[k][..|parts[k]| - 1];
      OneMorePart(all[..|all| - 1], parts[k := shorter]);
      assert (parts + [[]])[k := shorter] == parts[k := shorter] + [[]];
      assert LastFrom(all, parts + [[]], k);
    }
  }

  function Ups(ss: seq<Station>): (r: seq<seq<Packet>>)
    ensures |r| == |ss|
  {
    seq(|ss|, k requires 0 <= k < |ss| => ss[k].up.got)
  }

  ghost function MasterGiven(b: Bus, a: Action): seq<Packet>
    requires Enabled(b, a)
  {
    if a.MasterReceive? then
      match Poll(b.stations, 0, b.master, a.room, a.moments).1
      case Delivered(packet) => [packet]
      case _ => []
    else []
  }

  ghost function ReturnedToMaster(b: Bus, actions: seq<Action>): seq<Packet>
    requires Runs(b, actions)
    decreases |actions|
  {
    if |actions| == 0 then [] else MasterGiven(b, actions[0]) + ReturnedToMaster(After(b, actions[0]), actions[1..])
  }

  // A receive call that returns a packet adds it to those given out of one
  // connection, and to no other; any other call adds none to any.
  lemma PollGives(ss: seq<Station>, master: byte, room: nat, moments: seq<seq<Moment>>) returns (k: nat)
    requires |ss| == |moments| && HeldFit(ss)
    ensures var (tt, o) := Poll(ss, 0, master, room, moments);
            if o.Delivered? then k < |ss| && Ups(tt) == Ups(ss)[k := ss[k].up.got + [o.packet]] else Ups(tt) == Ups(ss)
  {
    k := FirstEnd(ss, 0, master, room, moments);
    PollTells(ss, 0, master, room, moments, k);
    var tt, o := Poll(ss, 0, master, room, moments).0, Poll(ss, 0, master, room, moments).1;
    forall j | 0 <= j < |ss|
      ensures tt[j].up.got == ss[j].up.got + if j == k && o.Delivered? then [o.packet] else []
    {
      CollectTells(ss[j].up, master, room, moments[j]);
      if j < k {
        assert !Ends(ss[j], master, room, moments[j]) && Read(ss[j], tt[j], master, room, moments[j]);
      }
    }
  }

  lemma StepMixes(b: Bus, a: Action, all: seq<Packet>)
    requires Enabled(b, a) && Mixed(all, Ups(b.stations))
    ensures Mixed(all + MasterGiven(b, a), Ups(After(b, a).stations))
  {
    var c := After(b, a);
    match a
    case Accept(address) =>
      OneMorePart(all, Ups(b.stations));
      assert Ups(c.stations) == Ups(b.stations) + [[]];
      assert all + [] == all;
    case MasterReceive(room, moments) =>
      var k := PollGives(b.stations, b.master, room, moments);
      var o := Poll(b.stations, 0, b.master, room, moments).1;
      if o.Delivered? {
        OneMoreMixed(all, Ups(b.stations), k, o.packet);
      } else {
        assert all + [] == all;
      }
    case _ =>
      assert Ups(c.stations) == Ups(b.stations) && all + [] == all;
  }

  lemma {:induction false} RunMixes(b: Bus, actions: seq<Action>, all: seq<Packet>)
    requires Runs(b, actions) && Mixed(all, Ups(b.stations))
    ensures Mixed(all + ReturnedToMaster(b, actions), Ups(Run(b, actions).stations))
    decreases |actions|
  {
    if |actions| > 0 {
      var c, given := After(b, actions[0]), MasterGiven(b, actions[0]);
      StepMixes(b, actions[0], all);
      RunMixes(c, actions[1..], all + given);
      Regroup(all, given, ReturnedToMaster(c, actions[1..]));
    } else {
      assert all + [] == all;
    }
  }

  // The frame that the call by station i puts on its connection, if any
  ghost function SentNow(b: Bus, a: Action, i: nat): seq<Frame>
    requires Enabled(b, a)
  {
    if a.SlaveSend? && a.i == i && |a.payload| <= 264 && b.stations[i].live && !a.write.Erred? then
      [Frame(a.destination, b.stations[i].address, a.payload)]
    else []
  }

  ghost function SentUp(b: Bus, actions: seq<Action>, i: nat): seq<Frame>
    requires Runs(b, actions)
    decreases |actions|
  {
    if |actions| == 0 then [] else SentNow(b, actions[0], i) + SentUp(After(b, actions[0]), actions[1..], i)
  }

  function UpOf(b: Bus, i: nat): seq<Frame> {
    if i < |b.stations| then b.stations[i].up.sent else []
  }

  lemma {:induction false} PollKeepsSent(ss: seq<Station>, i: nat, master: byte, room: nat, moments: seq<seq<Moment>>)
    requires i < |ss| == |moments| && HeldFit(ss)
    ensures Poll(ss, 0, master, room, moments).0[i].up.sent == ss[i].up.sent
  {
    var k := FirstEnd(ss, 0, master, room, moments);
    PollTells(ss, 0, master, room, moments, k);
    CollectTells(ss[i].up, master, room, moments[i]);
    var t := Poll(ss, 0, master, room, moments).0[i];
    assert t == ss[i] || Read(ss[i], t, master, room, moments[i]);
  }

  lemma StepSendsUp(b: Bus, a: Action, i: nat)
    requires Enabled(b, a)
    ensures UpOf(After(b, a), i) == UpOf(b, i) + SentNow(b, a, i)
  {
    if a.MasterReceive? && i < |b.stations| {
      PollKeepsSent(b.stations, i, b.master, a.room, a.moments);
    }
    if a.SlaveSend? {
      assert a.write == [a.write][0];
    }
  }

  lemma {:induction false} RunSendsUp(b: Bus, actions: seq<Action>, i: nat)
    requires Runs(b, actions)
    ensures UpOf(Run(b, actions), i) == UpOf(b, i) + SentUp(b, actions, i)
    decreases |actions|
  {
    if |actions| > 0 {
      var c, now := After(b, actions[0]), SentNow(b, actions[0], i);
      StepSendsUp(b, actions[0], i);
      RunSendsUp(c, actions[1..], i);
      Regroup(UpOf(b, i), now, SentUp(c, actions[1..], i));
    }
  }

  // In every run: the packets that the master's receive calls returned are those
  // given out of its connections, mixed; and those of one connection are exactly, in
  // order, what that station was asked to send to the master, as far as the master
  // has read, and all of it once it has read all there is; as long as the writes
  // were whole and the master's callers had room.
  lemma MasterIsServed(master: byte, actions: seq<Action>, i: nat)
    requires Runs(Start(master), actions) && i < |Run(Start(master), actions).stations|
    ensures var ss := Run(Start(master), actions).stations;
            var up, sent := ss[i].up, SentUp(Start(master), actions, i);
            && Mixed(ReturnedToMaster(Start(master), actions), Ups(ss))
            && up.sent == sent && Counts(sent, up.counts)
            && (AllWhole(sent, up.counts) && Roomy(up.rooms) ==>
                  && |up.taken| <= |sent| && Ups(ss)[i] == For(sent[..|up.taken|], master)
                  && (up.unread == [] && Look(up.held) == Partial ==> Ups(ss)[i] == For(sent, master)))
  {
    RunMixes(Start(master), actions, []);
    assert [] + ReturnedToMaster(Start(master), actions) == ReturnedToMaster(Start(master), actions);
    RunSendsUp(Start(master), actions, i);
    RunJoins(Start(master), actions);
    UpstreamFifo(master, actions, i);
  }
}
