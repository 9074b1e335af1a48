// The simulated comms bus as a state machine: the master writes every frame to
// every live connection, and each end takes frames from its stream and keeps those
// addressed to it.
//
// platform/sim/drivers/comms_i2c.c
module SimBus {
  import opened Bytes
  import opened Options
  import opened BusFrame
  import opened BusStream
  import opened BusSession
  import opened Sequences

  const MAX_CONNECTIONS: nat := 5

  type Packet = (byte, seq<byte>)

  // One direction of a connection: the octets written and not yet read and those
  // its reader holds back. The rest is history: the frames written, how many octets
  // of each the system took, the frames that were read, the caller's room at each
  // reading, and what callers were given.
  datatype Link = Link(
    unread: seq<byte>,
    held: seq<byte>,
    sent: seq<Frame>,
    counts: seq<nat>,
    taken: seq<Frame>,
    rooms: seq<nat>,
    got: seq<Packet>)

  const IDLE: Link := Link([], [], [], [], [], [], [])

  // A write of which n octets are taken
  function Put(l: Link, f: Frame, n: nat): Link
    requires n <= |Wire(f)|
  {
    l.(unread := l.unread + Wire(f)[..n], sent := l.sent + [f], counts := l.counts + [n])
  }

  // What reading from a connection comes to.
  datatype Outcome = Nothing | Unreadable | Foreign | TooLong | Delivered(packet: Packet)

  // receive_one_frame and what both kinds of receiver do with the frame
  function Collect(l: Link, address: byte, room: nat, moments: seq<Moment>): (Link, Outcome)
    requires |l.held| <= LEFTOVER_SIZE
  {
    var r := Receive(l.held, l.unread, moments);
    var k := l.(held := r.held, unread := r.unread);
    match r.result
    case TimedOut => (k, Nothing)
    case Error => (k, Unreadable)
    case Received(f) =>
      var k := k.(taken := l.taken + [f], rooms := l.rooms + [room]);
      if f.destination != address then (k, Foreign)
      else if |f.payload| > room then (k, TooLong)
      else (k.(got := l.got + [(f.source, f.payload)]), Delivered((f.source, f.payload)))
  }

  // The packets in frames that are for the address and fit the room there was.
  function Addressed(frames: seq<Frame>, rooms: seq<nat>, address: byte): seq<Packet>
    requires |frames| == |rooms|
  {
    if frames == [] then []
    else
      var n := |frames| - 1;
      Addressed(frames[..n], rooms[..n], address) +
      if frames[n].destination == address && |frames[n].payload| <= rooms[n] then
        [(frames[n].source, frames[n].payload)]
      else []
  }

  // The frames that were read and the octets on the way are exactly the octets that
  // were taken, and what was given out is, in order, what was addressed to the
  // reader.
  ghost predicate LinkInv(l: Link, address: byte) {
    && Counts(l.sent, l.counts) && AllFit(l.taken) && |l.rooms| == |l.taken| && |l.held| <= LEFTOVER_SIZE
    && Stream(l.taken) + (l.held + l.unread) == Written(l.sent, l.counts)
    && l.got == Addressed(l.taken, l.rooms, address)
  }

  lemma PutKeepsInv(l: Link, address: byte, f: Frame, n: nat)
    requires LinkInv(l, address) && Fits(f) && n <= |Wire(f)|
    ensures LinkInv(Put(l, f, n), address)
  {
    var w := Wire(f)[..n];
    WrittenOneMore(l.sent, l.counts, f, n);
    Regroup(l.held, l.unread, w);
    Regroup(Stream(l.taken), l.held + l.unread, w);
  }

  lemma AddressedGrows(frames: seq<Frame>, rooms: seq<nat>, f: Frame, room: nat, address: byte)
    requires |rooms| == |frames|
    ensures Addressed(frames + [f], rooms + [room], address) ==
            Addressed(frames, rooms, address) +
            if f.destination == address && |f.payload| <= room then [(f.source, f.payload)] else []
  {
    assert (frames + [f])[..|frames|] == frames && (rooms + [room])[..|rooms|] == rooms;
  }

  lemma OneMoreFrame(taken: seq<Frame>, f: Frame, before: seq<byte>, after: seq<byte>)
    requires before == Wire(f) + after
    ensures Stream(taken + [f]) + after == Stream(taken) + before
  {
    StreamAppend(taken, f);
    Regroup(Stream(taken), Wire(f), after);
  }

  // A link when one more frame has been read from it
  function WithFrame(l: Link, r: Reception, address: byte, room: nat): Link
    requires r.result.Received?
  {
    var f := r.result.frame;
    l.(held := r.held, unread := r.unread, taken := l.taken + [f], rooms := l.rooms + [room],
       got := l.got + if f.destination == address && |f.payload| <= room then [(f.source, f.payload)] else [])
  }

  lemma WithFrameKeepsInv(l: Link, r: Reception, address: byte, room: nat)
    requires LinkInv(l, address) && r.result.Received? && Fits(r.result.frame) && |r.held| <= LEFTOVER_SIZE
    requires l.held + l.unread == Wire(r.result.frame) + (r.held + r.unread)
    ensures LinkInv(WithFrame(l, r, address, room), address)
  {
    AddressedGrows(l.taken, l.rooms, r.result.frame, room, address);
    OneMoreFrame(l.taken, r.result.frame, l.held + l.unread, r.held + r.unread);
  }

  lemma CollectKeepsInv(l: Link, address: byte, room: nat, moments: seq<Moment>)
    requires LinkInv(l, address)
    ensures LinkInv(Collect(l, address, room, moments).0, address)
    ensures var k := Collect(l, address, room, moments).0; k.sent == l.sent && k.counts == l.counts
  {
    var r, k := Receive(l.held, l.unread, moments), Collect(l, address, room, moments).0;
    ReceiveConserves(l.held, l.unread, moments);
    if r.result.Received? {
      WithFrameKeepsInv(l, r, address, room);
      assert k.got == WithFrame(l, r, address, room).got;
      assert k == WithFrame(l, r, address, room);
    } else {
      assert k == l.(held := r.held, unread := r.unread);
      assert [] + (r.held + r.unread) == r.held + r.unread;
    }
  }

  // As long as every write was taken whole, the frames read are the first ones
  // written, in order.
  lemma WholeInOrder(l: Link, address: byte)
    requires LinkInv(l, address) && AllWhole(l.sent, l.counts)
    ensures |l.taken| <= |l.sent| && l.taken == l.sent[..|l.taken|]
    ensures l.held + l.unread == Stream(l.sent[|l.taken|..])
  {
    WrittenLength(l.sent, l.counts);
    OneReading(l.taken, l.held + l.unread, l.sent);
  }

  // Then a reader with nothing left to read and no whole frame held back has read
  // every frame that was written.
  lemma CaughtUp(l: Link, address: byte)
    requires LinkInv(l, address) && AllWhole(l.sent, l.counts) && l.unread == [] && Look(l.held) == Partial
    ensures l.taken == l.sent && l.held == []
  {
    WholeInOrder(l, address);
    var frames := l.sent[|l.taken|..];
    LookAtStream(l.held, l.unread, frames);
    assert l.held + l.unread == l.held;
  }

  // ----- the bus -----

  datatype Station = Station(
    address: byte,
    live: bool,            // the master has not closed the connection
    down: Link,            // from the master
    up: Link,              // to the master
    joined: nat)           // history: how many frames the master had sent before

  datatype Bus = Bus(master: byte, stations: seq<Station>, log: seq<Frame> /* history: all the master sent */)

  // What a write returns: an error, or how many octets it took.
  datatype Write = Erred | Took(count: nat)

  // The loop of comms_bus_send on the master: connections whose write fails are
  // closed, and a short write is left at that.
  function Broadcast(ss: seq<Station>, f: Frame, writes: seq<Write>): (t: seq<Station>)
    requires Possible(f, writes) && |writes| == |ss|
    ensures |t| == |ss|
  {
    seq(|ss|, i requires 0 <= i < |ss| => BroadcastTo(ss[i], f, writes[i]))
  }

  predicate Possible(f: Frame, writes: seq<Write>) {
    forall i :: 0 <= i < |writes| && writes[i].Took? ==> writes[i].count <= |Wire(f)|
  }

  function BroadcastTo(s: Station, f: Frame, w: Write): Station
    requires w.Took? ==> w.count <= |Wire(f)|
  {
    if !s.live then s
    else
      match w
      case Erred => s.(live := false)
      case Took(n) => s.(down := Put(s.down, f, n))
  }

  predicate HeldFit(ss: seq<Station>) {
    forall i :: 0 <= i < |ss| ==> |ss[i].up.held| <= LEFTOVER_SIZE && |ss[i].down.held| <= LEFTOVER_SIZE
  }

  // The loop of comms_bus_receive on the master, from slot i on
  function Poll(ss: seq<Station>, i: nat, master: byte, room: nat, moments: seq<seq<Moment>>):
    (r: (seq<Station>, Outcome))
    requires i <= |ss| == |moments| && HeldFit(ss)
    ensures |r.0| == |ss|
    decreases |ss| - i
  {
    if i == |ss| then (ss, Nothing)
    else if !ss[i].live then Poll(ss, i + 1, master, room, moments)
    else
      var (up, outcome) := Collect(ss[i].up, master, room, moments[i]);
      var t := ss[i := ss[i].(up := up, live := !outcome.Unreadable?)];
      if outcome.Delivered? || outcome.TooLong? then (t, outcome)
      else Poll(t, i + 1, master, room, moments)
  }

  datatype Action =
    | Accept(address: byte)
    | MasterSend(destination: byte, payload: seq<byte>, writes: seq<Write>)
    | MasterReceive(room: nat, moments: seq<seq<Moment>>)
    | SlaveSend(i: nat, destination: byte, payload: seq<byte>, write: Write)
    | SlaveReceive(i: nat, room: nat, read: seq<Moment>)

  ghost predicate Enabled(b: Bus, a: Action) {
    match a
    case Accept(_) => |b.stations| < MAX_CONNECTIONS
    case MasterSend(destination, payload, writes) =>
      |writes| == |b.stations| && Possible(Frame(destination, b.master, payload), writes)
    case MasterReceive(_, moments) => |moments| == |b.stations| && HeldFit(b.stations)
    case SlaveSend(i, destination, payload, write) =>
      i < |b.stations| && Possible(Frame(destination, b.stations[i].address, payload), [write])
    case SlaveReceive(i, _, _) => i < |b.stations| && HeldFit(b.stations)
  }

  function SlaveSent(s: Station, destination: byte, payload: seq<byte>, write: Write): Station
    requires Possible(Frame(destination, s.address, payload), [write])
  {
    var f := Frame(destination, s.address, payload);
    assert write == [write][0];
    if !Fits(f) || !s.live || write.Erred? then s else s.(up := Put(s.up, f, write.count))
  }

  ghost function After(b: Bus, a: Action): Bus
    requires Enabled(b, a)
  {
    match a
    case Accept(address) => b.(stations := b.stations + [Station(address, true, IDLE, IDLE, |b.log|)])
    case MasterSend(destination, payload, writes) =>
      var f := Frame(destination, b.master, payload);
      if !Fits(f) then b
      else b.(stations := Broadcast(b.stations, f, writes), log := b.log + [f])
    case MasterReceive(room, moments) => b.(stations := Poll(b.stations, 0, b.master, room, moments).0)
    case SlaveSend(i, destination, payload, write) =>
      b.(stations := b.stations[i := SlaveSent(b.stations[i], destination, payload, write)])
    case SlaveReceive(i, room, moments) =>
      var s := b.stations[i];
      b.(stations := b.stations[i := s.(down := Collect(s.down, s.address, room, moments).0)])
  }

  ghost predicate Runs(b: Bus, actions: seq<Action>)
    decreases |actions|
  {
    actions == [] || (Enabled(b, actions[0]) && Runs(After(b, actions[0]), actions[1..]))
  }

  ghost function Run(b: Bus, actions: seq<Action>): Bus
    requires Runs(b, actions)
    decreases |actions|
  {
    if actions == [] then b else Run(After(b, actions[0]), actions[1..])
  }

  function Start(master: byte): Bus {
    Bus(master, [], [])
  }

  // What a station was sent is what the master sent since it joined, for as long
  // as its connection lived.
  ghost predicate Follows(s: Station, log: seq<Frame>) {
    var n := s.joined + |s.down.sent|;
    n <= |log| && s.down.sent == log[s.joined..n] && (s.live ==> n == |log|)
  }

  ghost predicate StationInv(s: Station, master: byte, log: seq<Frame>) {
    LinkInv(s.down, s.address) && LinkInv(s.up, master) && Follows(s, log)
  }

  ghost predicate Inv(b: Bus) {
    forall i :: 0 <= i < |b.stations| ==> StationInv(b.stations[i], b.master, b.log)
  }

  lemma BroadcastKeepsStation(s: Station, master: byte, log: seq<Frame>, f: Frame, w: Write)
    requires StationInv(s, master, log) && Fits(f) && (w.Took? ==> w.count <= |Wire(f)|)
    ensures StationInv(BroadcastTo(s, f, w), master, log + [f])
  {
    var n := s.joined + |s.down.sent|;
    assert (log + [f])[s.joined..n] == log[s.joined..n];
    if s.live && w.Took? {
      PutKeepsInv(s.down, s.address, f, w.count);
      assert (log + [f])[s.joined..n + 1] == log[s.joined..n] + [f];
    }
  }

  lemma CollectKeepsStation(s: Station, master: byte, log: seq<Frame>, room: nat, moments: seq<Moment>)
    requires StationInv(s, master, log)
    ensures var c := Collect(s.up, master, room, moments);
            StationInv(s.(up := c.0, live := s.live && !c.1.Unreadable?), master, log)
  {
    CollectKeepsInv(s.up, master, room, moments);
  }

  lemma {:induction false} PollKeepsStations(ss: seq<Station>, i: nat, master: byte, room: nat,
                                             moments: seq<seq<Moment>>, log: seq<Frame>)
    requires i <= |ss| == |moments| && HeldFit(ss)
    requires forall k :: 0 <= k < |ss| ==> StationInv(ss[k], master, log)
    ensures forall k :: 0 <= k < |ss| ==> StationInv(Poll(ss, i, master, room, moments).0[k], master, log)
    decreases |ss| - i
  {
    if i < |ss| {
      if !ss[i].live {
        PollKeepsStations(ss, i + 1, master, room, moments, log);
      } else {
        var c := Collect(ss[i].up, master, room, moments[i]);
        CollectKeepsStation(ss[i], master, log, room, moments[i]);
        var t := ss[i := ss[i].(up := c.0, live := !c.1.Unreadable?)];
        assert StationInv(t[i], master, log);
        if !(c.1.Delivered? || c.1.TooLong?) {
          PollKeepsStations(t, i + 1, master, room, moments, log);
        }
      }
    }
  }

  lemma MasterSendKeepsInv(b: Bus, f: Frame, writes: seq<Write>)
    requires Inv(b) && Fits(f) && |writes| == |b.stations| && Possible(f, writes)
    ensures Inv(b.(stations := Broadcast(b.stations, f, writes), log := b.log + [f]))
  {
    forall i | 0 <= i < |b.stations|
      ensures StationInv(Broadcast(b.stations, f, writes)[i], b.master, b.log + [f])
    {
      BroadcastKeepsStation(b.stations[i], b.master, b.log, f, writes[i]);
    }
  }

  lemma SlaveSentKeepsStation(s: Station, master: byte, log: seq<Frame>, destination: byte, payload: seq<byte>,
                              w: Write)
    requires StationInv(s, master, log) && Possible(Frame(destination, s.address, payload), [w])
    ensures StationInv(SlaveSent(s, destination, payload, w), master, log)
  {
    var f := Frame(destination, s.address, payload);
    if Fits(f) && w.Took? {
      assert w == [w][0];
      PutKeepsInv(s.up, master, f, w.count);
    }
  }

  lemma StationChanged(b: Bus, i: nat, s: Station)
    requires Inv(b) && i < |b.stations| && StationInv(s, b.master, b.log)
    ensures Inv(b.(stations := b.stations[i := s]))
  {
  }

  lemma StepKeepsInv(b: Bus, a: Action)
    requires Inv(b) && Enabled(b, a)
    ensures Inv(After(b, a))
  {
    match a
    case Accept(address) =>
    case MasterSend(destination, payload, writes) =>
      var f := Frame(destination, b.master, payload);
      if Fits(f) {
        MasterSendKeepsInv(b, f, writes);
      }
    case MasterReceive(room, moments) =>
      PollKeepsStations(b.stations, 0, b.master, room, moments, b.log);
    case SlaveSend(i, destination, payload, write) =>
      SlaveSentKeepsStation(b.stations[i], b.master, b.log, destination, payload, write);
      StationChanged(b, i, SlaveSent(b.stations[i], destination, payload, write));
    case SlaveReceive(i, room, moments) =>
      var s := b.stations[i];
      CollectKeepsInv(s.down, s.address, room, moments);
      StationChanged(b, i, s.(down := Collect(s.down, s.address, room, moments).0));
  }

  lemma {:induction false} RunKeepsInv(b: Bus, actions: seq<Action>)
    requires Inv(b) && Runs(b, actions)
    ensures Inv(Run(b, actions))
    decreases |actions|
  {
    if actions != [] {
      StepKeepsInv(b, actions[0]);
      RunKeepsInv(After(b, actions[0]), actions[1..]);
    }
  }

  // ----- an addressed queue -----

  // The packets in frames that are for the address.
  function For(frames: seq<Frame>, address: byte): seq<Packet> {
    if frames == [] then []
    else
      var n := |frames| - 1;
      For(frames[..n], address) +
      if frames[n].destination == address then [(frames[n].source, frames[n].payload)] else []
  }

  predicate Roomy(rooms: seq<nat>) {
    forall i :: 0 <= i < |rooms| ==> rooms[i] >= MAX_FRAME_PAYLOAD
  }

  lemma {:induction false} RoomEnough(frames: seq<Frame>, rooms: seq<nat>, address: byte)
    requires |frames| == |rooms| && AllFit(frames) && Roomy(rooms)
    ensures Addressed(frames, rooms, address) == For(frames, address)
  {
    if frames != [] {
      var n := |frames| - 1;
      RoomEnough(frames[..n], rooms[..n], address);
    }
  }

  // What callers with room enough were given on a link whose writes were whole.
  lemma GivenInOrder(l: Link, address: byte)
    requires LinkInv(l, address) && AllWhole(l.sent, l.counts) && Roomy(l.rooms)
    ensures |l.taken| <= |l.sent| && l.got == For(l.sent[..|l.taken|], address)
    ensures l.unread == [] && Look(l.held) == Partial ==> l.got == For(l.sent, address)
  {
    WholeInOrder(l, address);
    RoomEnough(l.taken, l.rooms, address);
    if l.unread == [] && Look(l.held) == Partial {
      CaughtUp(l, address);
    }
  }

  lemma SliceFront<T>(log: seq<T>, from: nat, to: nat, n: nat)
    requires from <= to <= |log| && n <= to - from
    ensures log[from..to][..n] == log[from..from + n]
    ensures to == |log| ==> log[from..to] == log[from..]
  {
  }

  lemma StationGiven(s: Station, master: byte, log: seq<Frame>)
    requires StationInv(s, master, log) && AllWhole(s.down.sent, s.down.counts) && Roomy(s.down.rooms)
    ensures s.joined + |s.down.taken| <= |log|
    ensures s.down.got == For(log[s.joined..s.joined + |s.down.taken|], s.address)
    ensures s.live && s.down.unread == [] && Look(s.down.held) == Partial ==>
              s.down.got == For(log[s.joined..], s.address)
  {
    GivenInOrder(s.down, s.address);
    SliceFront(log, s.joined, s.joined + |s.down.sent|, |s.down.taken|);
  }

  // In every run, however reads are cut up, calls time out, other stations fail and
  // sends and receives interleave: as long as the writes to a station were whole,
  // what its callers with room enough were given is exactly, in order, the packets
  // for its address in the first frames that the master sent since it joined; and
  // all of them, once it has read all there is.
  lemma AddressedFifo(master: byte, actions: seq<Action>, i: nat)
    requires Runs(Start(master), actions) && i < |Run(Start(master), actions).stations|
    ensures var b := Run(Start(master), actions);
            var s := b.stations[i];
            && Counts(s.down.sent, s.down.counts)
            && (AllWhole(s.down.sent, s.down.counts) && Roomy(s.down.rooms) ==>
                  && s.joined + |s.down.taken| <= |b.log|
                  && s.down.got == For(b.log[s.joined..s.joined + |s.down.taken|], s.address)
                  && (s.live && s.down.unread == [] && Look(s.down.held) == Partial ==>
                        s.down.got == For(b.log[s.joined..], s.address)))
  {
    RunKeepsInv(Start(master), actions);
    var b := Run(Start(master), actions);
    var s := b.stations[i];
    assert StationInv(s, b.master, b.log);
    if AllWhole(s.down.sent, s.down.counts) && Roomy(s.down.rooms) {
      StationGiven(s, b.master, b.log);
    }
  }

  // The other way: what the master's callers were given from a station's
  // connection is, in order, what the station sent to the master, and all of that
  // once the master has read all there is.
  lemma UpstreamFifo(master: byte, actions: seq<Action>, i: nat)
    requires Runs(Start(master), actions) && i < |Run(Start(master), actions).stations|
    ensures var b := Run(Start(master), actions);
            var up := b.stations[i].up;
            && Counts(up.sent, up.counts)
            && (AllWhole(up.sent, up.counts) && Roomy(up.rooms) ==>
                  && |up.taken| <= |up.sent| && up.got == For(up.sent[..|up.taken|], b.master)
                  && (up.unread == [] && Look(up.held) == Partial ==> up.got == For(up.sent, b.master)))
  {
    RunKeepsInv(Start(master), actions);
    var b := Run(Start(master), actions);
    var up := b.stations[i].up;
    assert StationInv(b.stations[i], b.master, b.log);
    if AllWhole(up.sent, up.counts) && Roomy(up.rooms) {
      GivenInOrder(up, b.master);
    }
  }

  // In every run: a station can come to have read exactly the frames that were
  // written to it if and only if every one of those writes was taken whole.
  lemma ArriveExactlyIfWhole(master: byte, actions: seq<Action>, i: nat)
    requires Runs(Start(master), actions) && i < |Run(Start(master), actions).stations|
    ensures var l := Run(Start(master), actions).stations[i].down;
            && Counts(l.sent, l.counts) && |l.held| <= LEFTOVER_SIZE
            && (AllWhole(l.sent, l.counts) <==>
                  exists calls :: l.taken + Calls(l.held, l.unread, calls).frames == l.sent)
  {
    RunKeepsInv(Start(master), actions);
    var b := Run(Start(master), actions);
    var l := b.stations[i].down;
    assert StationInv(b.stations[i], b.master, b.log);
    ArriveIffWhole(l.sent, l.counts, l.taken, l.held, l.unread);
  }

  // Whole frames never look broken to a reader: a connection then fails only from
  // without.
  lemma NeverBroken(l: Link, address: byte)
    requires LinkInv(l, address) && AllWhole(l.sent, l.counts)
    ensures !Look(l.held).Broken?
  {
    WholeInOrder(l, address);
    LookAtStream(l.held, l.unread, l.sent[|l.taken|..]);
  }

  // ----- failures stay apart -----

  // The same actions, but for what becomes of the master's writes to station i.
  ghost predicate AlikeBut(a: Action, c: Action, i: nat) {
    if a.MasterSend? && c.MasterSend? then
      && a.destination == c.destination && a.payload == c.payload && |a.writes| == |c.writes|
      && forall k :: 0 <= k < |a.writes| && k != i ==> a.writes[k] == c.writes[k]
    else a == c
  }

  // Nothing else differs than what such writes can make differ.
  ghost predicate Apart(s: Station, t: Station, same: bool) {
    && s.address == t.address && s.joined == t.joined
    && (same && s.live && t.live ==> s.down == t.down)
  }

  ghost predicate BusesApart(b: Bus, c: Bus, i: nat) {
    && b.master == c.master && b.log == c.log && |b.stations| == |c.stations|
    && forall k :: 0 <= k < |b.stations| ==> Apart(b.stations[k], c.stations[k], k != i)
  }

  // Receiving changes no link to a station and brings no connection back to life.
  lemma {:induction false} PollKeepsDown(ss: seq<Station>, i: nat, master: byte, room: nat, moments: seq<seq<Moment>>)
    requires i <= |ss| == |moments| && HeldFit(ss)
    ensures forall k :: 0 <= k < |ss| ==>
              var t := Poll(ss, i, master, room, moments).0[k];
              t == ss[k].(live := t.live, up := t.up) && (t.live ==> ss[k].live)
    decreases |ss| - i
  {
    if i < |ss| {
      if !ss[i].live {
        PollKeepsDown(ss, i + 1, master, room, moments);
      } else {
        var c := Collect(ss[i].up, master, room, moments[i]);
        var t := ss[i := ss[i].(up := c.0, live := !c.1.Unreadable?)];
        if !(c.1.Delivered? || c.1.TooLong?) {
          PollKeepsDown(t, i + 1, master, room, moments);
        }
      }
    }
  }

  lemma StepKeepsApart(b: Bus, c: Bus, x: Action, y: Action, i: nat)
    requires BusesApart(b, c, i) && AlikeBut(x, y, i) && Enabled(b, x) && Enabled(c, y)
    ensures BusesApart(After(b, x), After(c, y), i)
  {
    var d, e := After(b, x), After(c, y);
    if x.MasterReceive? {
      PollKeepsDown(b.stations, 0, b.master, x.room, x.moments);
      PollKeepsDown(c.stations, 0, c.master, y.room, y.moments);
    }
    forall k | 0 <= k < |d.stations|
      ensures Apart(d.stations[k], e.stations[k], k != i)
    {
      assert k < |b.stations| ==> Apart(b.stations[k], c.stations[k], k != i);
    }
  }

  // Two runs that differ only in what becomes of the master's writes to station i,
  // taken whole, in part or failing: every other station whose connection lives in
  // both has the same octets on the way, has read the same frames and was given the
  // same packets.
  lemma {:induction false} FailuresStayApart(b: Bus, c: Bus, xs: seq<Action>, ys: seq<Action>, i: nat)
    requires BusesApart(b, c, i) && Runs(b, xs) && Runs(c, ys)
    requires |xs| == |ys| && forall k :: 0 <= k < |xs| ==> AlikeBut(xs[k], ys[k], i)
    ensures BusesApart(Run(b, xs), Run(c, ys), i)
    decreases |xs|
  {
    if xs != [] {
      StepKeepsApart(b, c, xs[0], ys[0], i);
      FailuresStayApart(After(b, xs[0]), After(c, ys[0]), xs[1..], ys[1..], i);
    }
  }
}
