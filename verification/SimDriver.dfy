// comms_bus_send and comms_bus_receive of platform/sim/drivers/comms_i2c.c.
module SimDriver {
  import opened Bytes
  import opened Options
  import opened BusFrame
  import opened BusStream
  import opened LeftoverBuffer
  import opened SimBus

  const COMMS_BUS_ERROR: int := -1
  const COMMS_BUS_TIMEOUT: int := -2

  // What a receiver returns to its caller.
  function Status(o: Outcome): int {
    match o
    case Nothing => COMMS_BUS_TIMEOUT
    case Foreign => COMMS_BUS_TIMEOUT
    case Unreadable => COMMS_BUS_ERROR
    case TooLong => COMMS_BUS_ERROR
    case Delivered(packet) => |packet.1|
  }

  // The payload's length for a packet, -1 for a connection that failed or a caller
  // without room, -2 when there is nothing for the caller.
  lemma StatusTells(o: Outcome)
    ensures o.Delivered? ==> Status(o) == |o.packet.1|
    ensures Status(o) >= 0 <==> o.Delivered?
    ensures Status(o) == -1 <==> o.Unreadable? || o.TooLong?
    ensures Status(o) == -2 <==> o.Nothing? || o.Foreign?
  {
  }

  // The octets of a link, without its history
  function Octets(unread: seq<byte>, held: seq<byte>): Link {
    Link(unread, held, [], [], [], [], [])
  }

  // The receiving end of a connection
  class Receiver {
    const leftover: Leftover
    const socket: Socket

    constructor (socket: Socket)
      ensures leftover.Valid() && leftover.Held() == [] && this.socket == socket
      ensures fresh(leftover) && fresh(leftover.buf)
    {
      this.socket := socket;
      leftover := new Leftover();
    }

    ghost function Link(): SimBus.Link
      requires leftover.Valid()
      reads leftover, leftover.buf, socket
    {
      Octets(socket.unread, leftover.Held())
    }

    // What both kinds of receiver do with one connection
    method Take(address: byte, room: nat, moments: seq<Moment>) returns (outcome: Outcome)
      requires leftover.Valid()
      modifies leftover`len, leftover.buf, socket
      ensures leftover.Valid()
      ensures var (l, o) := Collect(old(Link()), address, room, moments);
              outcome == o && Link() == Octets(l.unread, l.held)
    {
      var result := leftover.ReceiveOne(socket, moments);
      match result
      case TimedOut =>
        return Nothing;
      case Error =>
        return Unreadable;
      case Received(frame) =>
        if frame.destination != address {
          return Foreign;
        }
        if |frame.payload| > room {
          return TooLong;
        }
        return Delivered((frame.source, frame.payload));
    }
  }

  class Slave {
    const address: byte
    const receiver: Receiver

    constructor (address: byte, socket: Socket)
      ensures receiver.leftover.Valid() && receiver.leftover.Held() == []
      ensures receiver.socket == socket && this.address == address
    {
      this.address := address;
      receiver := new Receiver(socket);
    }

    method Receive(room: nat, moments: seq<Moment>) returns (status: int, packet: Option<Packet>)
      requires receiver.leftover.Valid()
      modifies receiver.leftover`len, receiver.leftover.buf, receiver.socket
      ensures receiver.leftover.Valid()
      ensures var (l, outcome) := Collect(old(receiver.Link()), address, room, moments);
              && receiver.Link() == Octets(l.unread, l.held)
              && status == Status(outcome)
              && packet == if outcome.Delivered? then Some(outcome.packet) else None
    {
      var outcome := receiver.Take(address, room, moments);
      return Status(outcome), if outcome.Delivered? then Some(outcome.packet) else None;
    }
  }

  // The last of the connections that lives
  function LastLive(ss: seq<Station>): (r: Option<nat>)
    ensures r.Some? ==> r.value < |ss| && ss[r.value].live
    ensures forall i :: 0 <= i < |ss| && ss[i].live ==> r.Some? && i <= r.value
  {
    if |ss| == 0 then None
    else
      var n := |ss| - 1;
      if ss[n].live then Some(n) else LastLive(ss[..n])
  }

  // What comms_bus_send on the master returns after writing to the first n.
  function SendStatus(ss: seq<Station>, n: nat, f: Frame, writes: seq<Write>): int
    requires n <= |ss| == |writes|
  {
    match LastLive(ss[..n])
    case None => COMMS_BUS_ERROR
    case Some(i) => if writes[i] == Took(|Wire(f)|) then |f.payload| else COMMS_BUS_ERROR
  }

  lemma StatusStep(ss: seq<Station>, i: nat, f: Frame, writes: seq<Write>)
    requires i < |ss| == |writes|
    ensures SendStatus(ss, i + 1, f, writes) ==
            if !ss[i].live then SendStatus(ss, i, f, writes)
            else if writes[i] == Took(|Wire(f)|) then |f.payload| else COMMS_BUS_ERROR
  {
    assert ss[..i + 1][..i] == ss[..i];
  }

  // A send is a success exactly if some connection lives and the last that does took
  // the whole frame.
  lemma SendStatusTells(ss: seq<Station>, f: Frame, writes: seq<Write>)
    requires |ss| == |writes|
    ensures SendStatus(ss, |ss|, f, writes) ==
            if exists i :: 0 <= i < |ss| && ss[i].live && writes[i] == Took(4 + |f.payload|)
                           && forall j :: i < j < |ss| ==> !ss[j].live
            then |f.payload| else -1
  {
    assert ss[..|ss|] == ss;
    var last := LastLive(ss);
    if last.Some? && writes[last.value] == Took(4 + |f.payload|) {
      assert ss[last.value].live && forall j :: last.value < j < |ss| ==> !ss[j].live;
    }
  }

  predicate Reported(ss: seq<Station>, f: Frame, writes: seq<Write>) {
    |ss| == |writes| && Possible(f, writes) && SendStatus(ss, |ss|, f, writes) == |f.payload|
  }

  // Every connection that lives took the frame whole.
  predicate Reached(ss: seq<Station>, f: Frame, writes: seq<Write>)
    requires |ss| == |writes|
  {
    forall i :: 0 <= i < |ss| && ss[i].live ==> writes[i] == Took(|Wire(f)|)
  }

  // With a second connection that lives, a send can be reported as a success
  // although the write to it failed.
  lemma ReportedThoughLost(ss: seq<Station>, f: Frame, i: nat, j: nat) returns (writes: seq<Write>)
    requires i < j < |ss| && ss[i].live && ss[j].live
    ensures Reported(ss, f, writes) && writes[i] == Erred
    ensures Broadcast(ss, f, writes)[i] == ss[i].(live := false)
  {
    writes := seq(|ss|, k requires 0 <= k < |ss| => if k == i then Erred else Took(|Wire(f)|));
  }

  // That a send is reported as a success tells that every station got the frame if
  // and only if at most one connection lives.
  lemma SuccessTellsAllIffOne(ss: seq<Station>, f: Frame)
    ensures (forall writes :: Reported(ss, f, writes) ==> Reached(ss, f, writes)) <==>
            (forall i, j :: 0 <= i < j < |ss| ==> !(ss[i].live && ss[j].live))
  {
    forall i, j | 0 <= i < j < |ss| && ss[i].live && ss[j].live
      ensures exists writes :: Reported(ss, f, writes) && !Reached(ss, f, writes)
    {
      var writes := ReportedThoughLost(ss, f, i, j);
      assert !Reached(ss, f, writes);
    }
  }

  // One slot of the master's table: what came from the station and what was written
  // to it and not yet read.
  class Connection {
    const receiver: Receiver
    const address: byte
    var live: bool
    var outgoing: seq<byte>

    constructor (address: byte, socket: Socket)
      ensures receiver.leftover.Valid() && receiver.leftover.Held() == [] && receiver.socket == socket
      ensures this.address == address && live && outgoing == []
      ensures fresh(receiver) && fresh(receiver.leftover) && fresh(receiver.leftover.buf)
    {
      this.address, live, outgoing := address, true, [];
      receiver := new Receiver(socket);
    }

    // The slot stands for this station.
    ghost predicate Matches(s: Station)
      reads this, receiver.leftover, receiver.leftover.buf, receiver.socket
    {
      && receiver.leftover.Valid() && live == s.live && address == s.address
      && receiver.leftover.Held() == s.up.held && receiver.socket.unread == s.up.unread
      && outgoing == s.down.unread
    }

    // One write of comms_bus_send
    method Write(wire: array<byte>, length: nat, w: SimBus.Write, ghost s: Station, ghost f: Frame)
      returns (result: int)
      requires Matches(s) && s.live && length <= wire.Length && wire[..length] == Wire(f)
      requires w.Took? ==> w.count <= length
      modifies this`outgoing, this`live
      ensures result == (if w.Took? then w.count else -1) && Matches(BroadcastTo(s, f, w))
    {
      match w
      case Erred =>
        live := false;
        return -1;
      case Took(n) =>
        assert wire[..n] == wire[..length][..n];
        outgoing := outgoing + wire[..n];
        return n;
    }

    // One slot's turn in comms_bus_receive; a connection that fails is closed.
    method Hear(master: byte, room: nat, moments: seq<Moment>, ghost s: Station) returns (outcome: Outcome)
      requires Matches(s) && s.live
      modifies this`live, receiver.leftover`len, receiver.leftover.buf, receiver.socket
      ensures var (up, o) := Collect(s.up, master, room, moments);
              outcome == o && Matches(s.(up := up, live := !outcome.Unreadable?))
    {
      outcome := receiver.Take(master, room, moments);
      if outcome.Unreadable? {
        live := false;
      }
    }
  }

  ghost function Leftovers(cs: seq<Connection>): set<Leftover> {
    set c | c in cs :: c.receiver.leftover
  }

  ghost function Buffers(cs: seq<Connection>): set<array<byte>> {
    set c | c in cs :: c.receiver.leftover.buf
  }

  ghost function Sockets(cs: seq<Connection>): set<Socket> {
    set c | c in cs :: c.receiver.socket
  }

  // No two slots share anything.
  ghost predicate Separate(cs: seq<Connection>) {
    forall i, j :: 0 <= i < j < |cs| ==>
      && cs[i] != cs[j] && cs[i].receiver.leftover != cs[j].receiver.leftover
      && cs[i].receiver.leftover.buf != cs[j].receiver.leftover.buf && cs[i].receiver.socket != cs[j].receiver.socket
  }

  // The slots stand for these stations.
  ghost predicate Represent(cs: seq<Connection>, ss: seq<Station>)
    reads cs, Leftovers(cs), Buffers(cs), Sockets(cs)
  {
    Separate(cs) && |cs| == |ss| && forall i :: 0 <= i < |ss| ==> cs[i].Matches(ss[i])
  }

  // The stations when the first n have been written to
  function Offered(ss: seq<Station>, n: nat, f: Frame, writes: seq<Write>): (t: seq<Station>)
    requires |writes| == |ss| && Possible(f, writes)
    ensures |t| == |ss|
  {
    seq(|ss|, i requires 0 <= i < |ss| => if i < n then BroadcastTo(ss[i], f, writes[i]) else ss[i])
  }

  // One round of the loop of comms_bus_send; `before` is the result of the last
  // write before it.
  method Offer(cs: seq<Connection>, i: nat, wire: array<byte>, length: nat, w: SimBus.Write, before: int,
               ghost ss: seq<Station>, ghost f: Frame) returns (result: int)
    requires Represent(cs, ss) && i < |ss| && length <= wire.Length && wire[..length] == Wire(f)
    requires w.Took? ==> w.count <= length
    modifies cs`live, cs`outgoing
    ensures Represent(cs, ss[i := BroadcastTo(ss[i], f, w)])
    ensures result == if !ss[i].live then before else if w.Took? then w.count else -1
  {
    result := before;
    if cs[i].live {
      result := cs[i].Write(wire, length, w, ss[i], f);
    }
  }

  lemma OfferedStep(ss: seq<Station>, n: nat, f: Frame, writes: seq<Write>)
    requires n < |ss| == |writes| && Possible(f, writes)
    ensures Offered(ss, n, f, writes)[n] == ss[n]
    ensures Offered(ss, n + 1, f, writes) == Offered(ss, n, f, writes)[n := BroadcastTo(ss[n], f, writes[n])]
  {
  }

  lemma OfferedEnds(ss: seq<Station>, f: Frame, writes: seq<Write>)
    requires |ss| == |writes| && Possible(f, writes)
    ensures Offered(ss, 0, f, writes) == ss && Offered(ss, |ss|, f, writes) == Broadcast(ss, f, writes)
  {
  }

  // The whole loop: the result of the last write, if there was any
  method OfferAll(cs: seq<Connection>, wire: array<byte>, length: nat, writes: seq<Write>,
                  ghost ss: seq<Station>, ghost f: Frame) returns (result: int)
    requires Represent(cs, ss) && |writes| == |ss| && Possible(f, writes)
    requires length <= wire.Length && wire[..length] == Wire(f)
    modifies cs`live, cs`outgoing
    ensures Represent(cs, Broadcast(ss, f, writes))
    ensures (if result == length then |f.payload| else COMMS_BUS_ERROR) == SendStatus(ss, |ss|, f, writes)
  {
    result := COMMS_BUS_ERROR;
    var i := 0;
    OfferedEnds(ss, f, writes);
    while i < |cs|
      invariant i <= |cs| && Represent(cs, Offered(ss, i, f, writes))
      invariant (if result == length then |f.payload| else COMMS_BUS_ERROR) == SendStatus(ss, i, f, writes)
    {
      ghost var now, next := Offered(ss, i, f, writes), Offered(ss, i + 1, f, writes);
      OfferedStep(ss, i, f, writes);
      StatusStep(ss, i, f, writes);
      result := Offer(cs, i, wire, length, writes[i], result, now, f);
      assert Represent(cs, next);
      i := i + 1;
    }
  }

  // A station after its slot's turn
  function Heard(s: Station, master: byte, room: nat, moments: seq<Moment>): Station
    requires |s.up.held| <= LEFTOVER_SIZE
  {
    var (up, outcome) := Collect(s.up, master, room, moments);
    s.(up := up, live := !outcome.Unreadable?)
  }

  // One round of the loop of comms_bus_receive
  method Ask(c: Connection, master: byte, room: nat, moments: seq<Moment>,
             ghost cs: seq<Connection>, ghost i: nat, ghost ss: seq<Station>) returns (outcome: Outcome)
    requires Represent(cs, ss) && i < |ss| && c == cs[i] && ss[i].live && HeldFit(ss)
    modifies c`live, c.receiver.leftover`len, c.receiver.leftover.buf, c.receiver.socket
    ensures outcome == Collect(ss[i].up, master, room, moments).1
    ensures var tt := ss[i := Heard(ss[i], master, room, moments)]; Represent(cs, tt) && HeldFit(tt)
  {
    outcome := c.Hear(master, room, moments, ss[i]);
  }

  // The whole loop
  method AskAll(cs: seq<Connection>, master: byte, room: nat, moments: seq<seq<Moment>>, ghost ss: seq<Station>)
    returns (outcome: Outcome)
    requires Represent(cs, ss) && |moments| == |ss| && HeldFit(ss)
    modifies cs`live, Leftovers(cs)`len, Buffers(cs), Sockets(cs)
    ensures outcome == Poll(ss, 0, master, room, moments).1
    ensures Represent(cs, Poll(ss, 0, master, room, moments).0)
  {
    ghost var tt := ss;
    var i := 0;
    while i < |cs|
      invariant i <= |cs| && |tt| == |ss| && Represent(cs, tt) && HeldFit(tt)
      invariant Poll(tt, i, master, room, moments) == Poll(ss, 0, master, room, moments)
    {
      if cs[i].live {
        outcome := Ask(cs[i], master, room, moments[i], cs, i, tt);
        tt := tt[i := Heard(tt[i], master, room, moments[i])];
        if outcome.Delivered? || outcome.TooLong? {
          return;
        }
      }
      i := i + 1;
    }
    outcome := Nothing;
  }

  class Master {
    const address: byte
    var connections: seq<Connection>

    constructor (address: byte)
      ensures this.address == address && connections == []
    {
      this.address := address;
      connections := [];
    }

    // What loop_accept_new_connections does with a connection
    method Accept(station: byte, socket: Socket, ghost ss: seq<Station>, ghost log: seq<Frame>)
      requires Represent(connections, ss) && |ss| < MAX_CONNECTIONS
      requires socket.unread == [] && socket !in Sockets(connections)
      modifies this
      ensures Represent(connections, ss + [Station(station, true, IDLE, IDLE, |log|)])
    {
      var c := new Connection(station, socket);
      connections := connections + [c];
    }

    // comms_bus_send
    method Send(destination: byte, payload: seq<byte>, writes: seq<Write>, ghost ss: seq<Station>)
      returns (status: int)
      requires Represent(connections, ss)
      requires |writes| == |ss| && Possible(Frame(destination, address, payload), writes)
      modifies connections`live, connections`outgoing
      ensures var f := Frame(destination, address, payload);
              if Fits(f) then
                Represent(connections, Broadcast(ss, f, writes)) && status == SendStatus(ss, |ss|, f, writes)
              else Represent(connections, ss) && status == COMMS_BUS_ERROR
    {
      var f := Frame(destination, address, payload);
      if |payload| > MAX_FRAME_PAYLOAD {
        return COMMS_BUS_ERROR;
      }
      var wire := new byte[FRAME_HEADER + MAX_FRAME_PAYLOAD];
      var length := SerializeInto(f, wire, wire.Length);
      var result := OfferAll(connections, wire, length, writes, ss, f);
      return if result == length then |payload| else COMMS_BUS_ERROR;
    }

    // comms_bus_receive
    method Receive(room: nat, moments: seq<seq<Moment>>, ghost ss: seq<Station>)
      returns (status: int, packet: Option<Packet>)
      requires Represent(connections, ss) && |moments| == |ss| && HeldFit(ss)
      modifies connections`live, Leftovers(connections)`len, Buffers(connections), Sockets(connections)
      ensures var (tt, outcome) := Poll(ss, 0, address, room, moments);
              && Represent(connections, tt) && status == Status(outcome)
              && packet == if outcome.Delivered? then Some(outcome.packet) else None
    {
      var outcome := AskAll(connections, address, room, moments, ss);
      return Status(outcome), if outcome.Delivered? then Some(outcome.packet) else None;
    }
  }
}
