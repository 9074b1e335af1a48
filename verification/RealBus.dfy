// The master's receive on the I2C bus: it polls the known slaves in turn, round
// after round, each call beginning behind the slave served last.
//
// platform/real/drivers/comms_i2c.c
module RealBus {
  import opened Bytes
  import opened Options
  import opened BusFrame

  // What a slave would answer when polled: nothing intelligible, that it has
  // nothing, or that it has a frame, with what reading that then yields, if the
  // transfer works.
  datatype Reply = Silent | Empty | Ready(wire: Option<seq<byte>>)

  type Round = seq<Reply>

  datatype Outcome = TimedOut | Error | Served(slave: nat, payload: seq<byte>)

  // read_slave_frame and the checks of the frame: None where the call fails.
  function Accepted(wire: Option<seq<byte>>, slave: byte, master: byte, room: nat): Option<seq<byte>> {
    if wire.None? || |wire.value| < FRAME_HEADER || |wire.value| > FRAME_HEADER + MAX_FRAME_PAYLOAD then None
    else
      match Deserialize(wire.value)
      case None => None
      case Some(f) =>
        if f.source != slave || f.destination != master || |f.payload| > room then None else Some(f.payload)
  }

  // What is accepted is exactly a whole frame from that slave to the master whose
  // payload fits.
  lemma AcceptedIff(wire: seq<byte>, slave: byte, master: byte, room: nat, payload: seq<byte>)
    ensures Accepted(Some(wire), slave, master, room) == Some(payload) <==>
            && wire == Wire(Frame(master, slave, payload))
            && |payload| <= MAX_FRAME_PAYLOAD && |payload| <= room
  {
    var f := Frame(master, slave, payload);
    if Deserialize(wire).Some? {
      DeserializeThenSerialize(wire, |wire|);
    }
    if Fits(f) {
      DeserializeWire(f);
    }
  }

  // How far on from `start` slave i is polled.
  function Distance(start: nat, i: nat, n: nat): (d: nat)
    requires start < n && i < n
    ensures d < n
  {
    if i >= start then i - start else i + n - start
  }

  // The slave polled at such a distance: (start + d) % n
  function At(start: nat, d: nat, n: nat): (i: nat)
    requires start < n && d <= n
    ensures i < n
    ensures d < n ==> Distance(start, i, n) == d
  {
    if start + d < n then start + d else start + d - n
  }

  lemma AtIsMod(start: nat, d: nat, n: nat)
    requires start < n && d <= n
    ensures At(start, d, n) == (start + d) % n
  {
    ModOf(start + d, if start + d < n then 0 else 1, At(start, d, n), n);
  }

  lemma ModOf(x: nat, q: nat, r: nat, n: nat)
    requires x == q * n + r && r < n
    ensures x % n == r
  {
    var p, m := x / n, x % n;
    assert x == p * n + m;
    if p < q {
      assert (q - p) * n == q * n - p * n;
      Multiply(q - p, n);
    } else if p > q {
      assert (p - q) * n == p * n - q * n;
      Multiply(p - q, n);
    }
  }

  lemma Multiply(k: nat, n: nat)
    requires k > 0
    ensures k * n >= n
  {
  }

  // One round from distance d on: at which slave it ends, if at any.
  function Stop(round: Round, start: nat, d: nat): (r: Option<nat>)
    requires start < |round| && d <= |round|
    ensures match r
            case None => forall i :: 0 <= i < |round| && Distance(start, i, |round|) >= d ==> !round[i].Ready?
            case Some(i) =>
              && i < |round| && round[i].Ready? && Distance(start, i, |round|) >= d
              && forall j :: 0 <= j < |round| && d <= Distance(start, j, |round|) < Distance(start, i, |round|) ==>
                   !round[j].Ready?
    decreases |round| - d
  {
    if d == |round| then None
    else if round[At(start, d, |round|)].Ready? then Some(At(start, d, |round|))
    else
      var r := Stop(round, start, d + 1);
      assert forall i :: 0 <= i < |round| && Distance(start, i, |round|) == d ==> i == At(start, d, |round|);
      r
  }

  predicate Rounds(n: nat, rounds: seq<Round>) {
    n > 0 && forall k :: 0 <= k < |rounds| ==> |rounds[k]| == n
  }

  datatype Bus = Bus(slaves: seq<byte>, master: byte)

  // comms_bus_receive, with as many rounds as its time allows: the outcome and
  // where the next call will begin. `heard` tells whether any slave has answered.
  function Polled(bus: Bus, start: nat, rounds: seq<Round>, room: nat, heard: bool): (r: (Outcome, nat))
    requires Rounds(|bus.slaves|, rounds) && start < |bus.slaves|
    ensures r.1 < |bus.slaves|
    ensures r.0.Served? ==> r.0.slave < |bus.slaves|
    decreases |rounds|
  {
    if rounds == [] then (if heard then TimedOut else Error, start)
    else
      match Stop(rounds[0], start, 0)
      case None => Polled(bus, start, rounds[1..], room, heard || exists reply <- rounds[0] :: !reply.Silent?)
      case Some(i) =>
        match Accepted(rounds[0][i].wire, bus.slaves[i], bus.master, room)
        case None => (Error, start)
        case Some(payload) => (Served(i, payload), At(i, 1, |bus.slaves|))
  }

  predicate NobodyReady(rounds: seq<Round>) {
    forall k, i :: 0 <= k < |rounds| && 0 <= i < |rounds[k]| ==> !rounds[k][i].Ready?
  }

  predicate SomeAnswer(rounds: seq<Round>) {
    exists k, i :: 0 <= k < |rounds| && 0 <= i < |rounds[k]| && !rounds[k][i].Silent?
  }

  // A bus on which nobody has anything is told from one on which nobody answers.
  lemma {:induction false} IdleOrDead(bus: Bus, start: nat, rounds: seq<Round>, room: nat, heard: bool)
    requires Rounds(|bus.slaves|, rounds) && start < |bus.slaves| && NobodyReady(rounds)
    ensures Polled(bus, start, rounds, room, heard) == (if heard || SomeAnswer(rounds) then TimedOut else Error, start)
    decreases |rounds|
  {
    if rounds != [] {
      var rest := rounds[1..];
      assert Stop(rounds[0], start, 0) == None;
      IdleOrDead(bus, start, rest, room, heard || exists reply <- rounds[0] :: !reply.Silent?);
      assert forall k :: 0 <= k < |rest| ==> rest[k] == rounds[k + 1];
      if SomeAnswer(rounds) {
        var k, i :| 0 <= k < |rounds| && 0 <= i < |rounds[k]| && !rounds[k][i].Silent?;
        if k == 0 {
          assert rounds[0][i] in rounds[0];
        } else {
          assert !rest[k - 1][i].Silent?;
        }
      }
    }
  }

  // A slave that has a frame whenever it is polled.
  predicate AlwaysReady(rounds: seq<Round>, j: nat) {
    forall k :: 0 <= k < |rounds| ==> j < |rounds[k]| && rounds[k][j].Ready?
  }

  // A call that serves somebody serves no one behind a slave that is ready, and
  // unless it is that slave, brings its turn nearer.
  lemma TurnComesNearer(bus: Bus, start: nat, rounds: seq<Round>, room: nat, heard: bool, j: nat)
    requires Rounds(|bus.slaves|, rounds) && start < |bus.slaves| && j < |bus.slaves|
    requires AlwaysReady(rounds, j) && Polled(bus, start, rounds, room, heard).0.Served?
    ensures var r := Polled(bus, start, rounds, room, heard);
            r.0.slave == j || Distance(r.1, j, |bus.slaves|) < Distance(start, j, |bus.slaves|)
  {
    assert rounds[0][j].Ready?;
  }

  // With a slave that is always ready a call cannot time out. The first ready slave
  // in turn decides: the call serves it exactly when its frame can be accepted, and
  // only then the turn moves on, to the slave behind it.
  lemma FirstReadyDecides(bus: Bus, start: nat, rounds: seq<Round>, room: nat, heard: bool, j: nat)
    requires Rounds(|bus.slaves|, rounds) && start < |bus.slaves| && j < |bus.slaves|
    requires rounds != [] && AlwaysReady(rounds, j)
    ensures var r, n := Polled(bus, start, rounds, room, heard), |bus.slaves|;
            exists i :: 0 <= i < n && rounds[0][i].Ready? && Distance(start, i, n) <= Distance(start, j, n)
              && (forall k :: 0 <= k < n && Distance(start, k, n) < Distance(start, i, n) ==> !rounds[0][k].Ready?)
              && match Accepted(rounds[0][i].wire, bus.slaves[i], bus.master, room)
                 case Some(payload) => r == (Served(i, payload), At(i, 1, n))
                 case None => r == (Error, start)
  {
    assert rounds[0][j].Ready?;
    var i := Stop(rounds[0], start, 0).value;
    assert rounds[0][i].Ready?;
  }

  // The rounds that a call's time allows, and the room its caller has
  datatype Call = Call(rounds: seq<Round>, room: nat)

  predicate Fit(bus: Bus, calls: seq<Call>) {
    forall k :: 0 <= k < |calls| ==> Rounds(|bus.slaves|, calls[k].rounds)
  }

  // One whole call of comms_bus_receive
  function Answer(bus: Bus, start: nat, call: Call): (r: (Outcome, nat))
    requires Rounds(|bus.slaves|, call.rounds) && start < |bus.slaves|
    ensures r.1 < |bus.slaves|
    ensures r.0.Served? ==> r.0.slave < |bus.slaves|
  {
    if call.room == 0 then (Error, start) else Polled(bus, start, call.rounds, call.room, false)
  }

  // Slave i is the first in turn that is ready.
  predicate FirstReady(round: Round, start: nat, i: nat)
    requires start < |round|
  {
    && i < |round| && round[i].Ready?
    && forall j :: 0 <= j < |round| && Distance(start, j, |round|) < Distance(start, i, |round|) ==> !round[j].Ready?
  }

  lemma OneFirstReady(round: Round, start: nat, i: nat)
    requires start < |round| && FirstReady(round, start, i)
    ensures Stop(round, start, 0) == Some(i)
  {
  }

  // What such a slave then yields is a whole frame from it to the master that fits.
  predicate Good(wire: Option<seq<byte>>, slave: byte, master: byte, room: nat, payload: seq<byte>) {
    wire == Some(Wire(Frame(master, slave, payload))) && |payload| <= 264 && |payload| <= room
  }

  lemma GoodIsAccepted(wire: Option<seq<byte>>, slave: byte, master: byte, room: nat, payload: seq<byte>)
    ensures Accepted(wire, slave, master, room) == Some(payload) <==> Good(wire, slave, master, room, payload)
  {
    if wire.Some? {
      AcceptedIff(wire.value, slave, master, room, payload);
    }
  }

  lemma {:induction false} PolledLater(bus: Bus, start: nat, rounds: seq<Round>, room: nat, heard: bool, k: nat, i: nat)
    requires Rounds(|bus.slaves|, rounds) && start < |bus.slaves|
    requires k < |rounds| && NobodyReady(rounds[..k]) && FirstReady(rounds[k], start, i)
    ensures var r, n := Polled(bus, start, rounds, room, heard), |bus.slaves|;
            match Accepted(rounds[k][i].wire, bus.slaves[i], bus.master, room)
            case Some(payload) => r == (Served(i, payload), (i + 1) % n)
            case None => r == (Error, start)
    decreases k
  {
    if k == 0 {
      OneFirstReady(rounds[0], start, i);
      AtIsMod(i, 1, |bus.slaves|);
    } else {
      var rest := rounds[1..];
      assert rounds[..k][0] == rounds[0] && Stop(rounds[0], start, 0) == None;
      assert rest[..k - 1] == rounds[..k][1..];
      PolledLater(bus, start, rest, room, heard || exists reply <- rounds[0] :: !reply.Silent?, k - 1, i);
    }
  }

  // Whichever round it is in which somebody first has something, after as many in
  // which nobody had: the first of these slaves in turn is served, and the turn goes
  // on behind it, exactly if its frame is good; else the call fails and the turn
  // stays.
  lemma FirstReadyEver(bus: Bus, start: nat, call: Call, k: nat, i: nat)
    requires Rounds(|bus.slaves|, call.rounds) && start < |bus.slaves| && call.room > 0
    requires k < |call.rounds| && NobodyReady(call.rounds[..k]) && FirstReady(call.rounds[k], start, i)
    ensures var r, wire, n := Answer(bus, start, call), call.rounds[k][i].wire, |bus.slaves|;
            && (forall payload :: Good(wire, bus.slaves[i], bus.master, call.room, payload) ==>
                  r == (Served(i, payload), (i + 1) % n))
            && ((forall payload :: !Good(wire, bus.slaves[i], bus.master, call.room, payload)) ==> r == (Error, start))
  {
    var wire := call.rounds[k][i].wire;
    PolledLater(bus, start, call.rounds, call.room, false, k, i);
    forall payload
      ensures Accepted(wire, bus.slaves[i], bus.master, call.room) == Some(payload) <==>
              Good(wire, bus.slaves[i], bus.master, call.room, payload)
    {
      GoodIsAccepted(wire, bus.slaves[i], bus.master, call.room, payload);
    }
    if Accepted(wire, bus.slaves[i], bus.master, call.room).Some? {
      assert Good(wire, bus.slaves[i], bus.master, call.room,
                  Accepted(wire, bus.slaves[i], bus.master, call.room).value);
    }
  }

  // If nobody ever has anything, or the caller has no room, the call says so and the
  // turn stays.
  lemma NothingEver(bus: Bus, start: nat, call: Call)
    requires Rounds(|bus.slaves|, call.rounds) && start < |bus.slaves|
    ensures call.room == 0 ==> Answer(bus, start, call) == (Error, start)
    ensures call.room > 0 && NobodyReady(call.rounds) ==>
              Answer(bus, start, call) == (if SomeAnswer(call.rounds) then TimedOut else Error, start)
  {
    if call.room > 0 && NobodyReady(call.rounds) {
      IdleOrDead(bus, start, call.rounds, call.room, false);
    }
  }

  // The outcomes of one call after another.
  function Outcomes(bus: Bus, start: nat, calls: seq<Call>): (r: seq<Outcome>)
    requires start < |bus.slaves| && Fit(bus, calls)
    ensures |r| == |calls|
    decreases |calls|
  {
    if calls == [] then []
    else
      var r := Answer(bus, start, calls[0]);
      [r.0] + Outcomes(bus, r.1, calls[1..])
  }

  predicate Serves(outcomes: seq<Outcome>, j: nat) {
    exists k :: 0 <= k < |outcomes| && outcomes[k].Served? && outcomes[k].slave == j
  }

  function ServedCount(outcomes: seq<Outcome>): nat {
    if outcomes == [] then 0 else (if outcomes[0].Served? then 1 else 0) + ServedCount(outcomes[1..])
  }

  lemma ServesAfter(first: Outcome, rest: seq<Outcome>, j: nat)
    ensures Serves([first] + rest, j) <==> (first.Served? && first.slave == j) || Serves(rest, j)
  {
    var all := [first] + rest;
    if Serves(rest, j) {
      var k :| 0 <= k < |rest| && rest[k].Served? && rest[k].slave == j;
      assert all[k + 1] == rest[k];
    }
    if first.Served? && first.slave == j {
      assert all[0] == first;
    }
    if Serves(all, j) {
      var k :| 0 <= k < |all| && all[k].Served? && all[k].slave == j;
      assert k > 0 ==> rest[k - 1] == all[k];
    }
  }

  // A call that serves nobody leaves the turn where it is.
  lemma {:induction false} OnlyServingMoves(bus: Bus, start: nat, rounds: seq<Round>, room: nat, heard: bool)
    requires Rounds(|bus.slaves|, rounds) && start < |bus.slaves|
    ensures var r := Polled(bus, start, rounds, room, heard);
            r.1 == if r.0.Served? then At(r.0.slave, 1, |bus.slaves|) else start
    decreases |rounds|
  {
    if rounds != [] && Stop(rounds[0], start, 0).None? {
      OnlyServingMoves(bus, start, rounds[1..], room, heard || exists reply <- rounds[0] :: !reply.Silent?);
    }
  }

  // For any number of slaves: one that is ready whenever polled is served as soon
  // as more calls have served somebody than slaves come before it in turn, whatever
  // calls fail or time out in between.
  lemma {:induction false} Fair(bus: Bus, start: nat, calls: seq<Call>, j: nat)
    requires start < |bus.slaves| && Fit(bus, calls) && j < |bus.slaves|
    requires forall k :: 0 <= k < |calls| ==> AlwaysReady(calls[k].rounds, j)
    requires ServedCount(Outcomes(bus, start, calls)) > Distance(start, j, |bus.slaves|)
    ensures Serves(Outcomes(bus, start, calls), j)
    decreases |calls|
  {
    var call, rest := calls[0], calls[1..];
    var r := Answer(bus, start, call);
    assert Outcomes(bus, start, calls)[1..] == Outcomes(bus, r.1, rest);
    ServesAfter(r.0, Outcomes(bus, r.1, rest), j);
    OnlyServingMoves(bus, start, call.rounds, call.room, false);
    if r.0.Served? {
      TurnComesNearer(bus, start, call.rounds, call.room, false, j);
    }
    if !(r.0.Served? && r.0.slave == j) {
      Fair(bus, r.1, rest, j);
    }
  }

  // ----- when a slave is served -----

  // The call finds this round first.
  predicate Shows(call: Call, round: Round, room: nat) {
    call.rounds != [] && call.rounds[0] == round && call.room == room > 0
  }

  // Slave i is ready with what can be accepted, if it is ready at all.
  predicate Sound(bus: Bus, round: Round, room: nat, i: nat)
    requires i < |bus.slaves| == |round|
  {
    round[i].Ready? ==> Accepted(round[i].wire, bus.slaves[i], bus.master, room).Some?
  }

  // So are all slaves in turn up to j.
  predicate SoundUpTo(bus: Bus, round: Round, room: nat, start: nat, j: nat)
    requires start < |bus.slaves| == |round| && j < |round|
  {
    forall i :: 0 <= i < |round| && Distance(start, i, |round|) <= Distance(start, j, |round|) ==>
      Sound(bus, round, room, i)
  }

  // One call on such a round: it serves the first that is ready, or fails on it.
  lemma FirstCall(bus: Bus, start: nat, call: Call, round: Round, j: nat)
    requires start < |bus.slaves| == |round| && Rounds(|round|, call.rounds) && Shows(call, round, call.room)
    requires j < |round| && round[j].Ready?
    ensures var r, first := Answer(bus, start, call), Stop(round, start, 0);
            && first.Some? && Distance(start, first.value, |round|) <= Distance(start, j, |round|)
            && if Sound(bus, round, call.room, first.value) then
                 r.0.Served? && r.0.slave == first.value && r.1 == At(first.value, 1, |round|)
               else r == (Error, start)
  {
    assert round[j].Ready?;
  }

  lemma NextTurn(start: nat, i: nat, k: nat, n: nat)
    requires start < n && i < n && k < n && i != k && Distance(start, i, n) <= Distance(start, k, n)
    ensures Distance(At(i, 1, n), k, n) == Distance(start, k, n) - Distance(start, i, n) - 1
  {
  }

  lemma {:induction false} SoundIsServed(bus: Bus, start: nat, calls: seq<Call>, round: Round, room: nat, j: nat)
    requires start < |bus.slaves| == |round| && Fit(bus, calls)
    requires forall k :: 0 <= k < |calls| ==> Shows(calls[k], round, room)
    requires j < |round| && round[j].Ready? && |calls| > Distance(start, j, |round|)
    requires SoundUpTo(bus, round, room, start, j)
    ensures Serves(Outcomes(bus, start, calls), j)
    decreases |calls|
  {
    var n := |round|;
    assert Shows(calls[0], round, room);
    FirstCall(bus, start, calls[0], round, j);
    var first, r := Stop(round, start, 0).value, Answer(bus, start, calls[0]);
    assert Sound(bus, round, room, first);
    ServesAfter(r.0, Outcomes(bus, r.1, calls[1..]), j);
    if first != j {
      NextTurn(start, first, j, n);
      forall i | 0 <= i < n && Distance(r.1, i, n) <= Distance(r.1, j, n)
        ensures Sound(bus, round, room, i)
      {
        assert Distance(start, i, n) <= Distance(start, j, n);
      }
      SoundIsServed(bus, r.1, calls[1..], round, room, j);
    }
  }

  lemma {:induction false} UnsoundStarves(bus: Bus, start: nat, calls: seq<Call>, round: Round, room: nat,
                                          j: nat, i: nat)
    requires start < |bus.slaves| == |round| && Fit(bus, calls)
    requires forall k :: 0 <= k < |calls| ==> Shows(calls[k], round, room)
    requires j < |round| && round[j].Ready? && i < |round| && !Sound(bus, round, room, i)
    requires Distance(start, i, |round|) <= Distance(start, j, |round|)
    ensures !Serves(Outcomes(bus, start, calls), j)
    decreases |calls|
  {
    if calls != [] {
      var n := |round|;
      assert Shows(calls[0], round, room);
      FirstCall(bus, start, calls[0], round, i);
      var first, r := Stop(round, start, 0).value, Answer(bus, start, calls[0]);
      ServesAfter(r.0, Outcomes(bus, r.1, calls[1..]), j);
      if Sound(bus, round, room, first) {
        NextTurn(start, first, i, n);
        NextTurn(start, first, j, n);
      }
      UnsoundStarves(bus, r.1, calls[1..], round, room, j, i);
    }
  }

  // The exact condition, on what the calls find: where the slaves stay as they are,
  // a slave that is ready is served within as many calls as its place in turn if
  // and only if every slave up to it, itself included, has nothing or a frame that
  // can be accepted; and otherwise never.
  lemma ServedIffSound(bus: Bus, start: nat, calls: seq<Call>, round: Round, room: nat, j: nat)
    requires start < |bus.slaves| == |round| && Fit(bus, calls)
    requires forall k :: 0 <= k < |calls| ==> Shows(calls[k], round, room)
    requires j < |round| && round[j].Ready? && |calls| > Distance(start, j, |round|)
    ensures Serves(Outcomes(bus, start, calls), j) <==> SoundUpTo(bus, round, room, start, j)
  {
    if SoundUpTo(bus, round, room, start, j) {
      SoundIsServed(bus, start, calls, round, room, j);
    } else {
      var i :| 0 <= i < |round| && Distance(start, i, |round|) <= Distance(start, j, |round|)
               && !Sound(bus, round, room, i);
      UnsoundStarves(bus, start, calls, round, room, j, i);
    }
  }

  // In the call's first round slave i is ready with what cannot be accepted.
  predicate Refused(bus: Bus, i: nat, call: Call)
    requires i < |bus.slaves|
  {
    && call.rounds != [] && i < |call.rounds[0]| && call.rounds[0][i].Ready?
    && Accepted(call.rounds[0][i].wire, bus.slaves[i], bus.master, call.room).None?
  }

  // A slave that is ready with what cannot be accepted, when its turn has come,
  // makes every call fail, and nobody else is served.
  lemma {:induction false} BadSlaveStarves(bus: Bus, start: nat, calls: seq<Call>)
    requires start < |bus.slaves| && Fit(bus, calls)
    requires forall k :: 0 <= k < |calls| ==> Refused(bus, start, calls[k])
    ensures forall k :: 0 <= k < |calls| ==> Outcomes(bus, start, calls)[k] == Error
    decreases |calls|
  {
    if calls != [] {
      var round := calls[0].rounds[0];
      assert Refused(bus, start, calls[0]);
      assert |round| == |bus.slaves| && round[start].Ready? && Distance(start, start, |round|) == 0;
      assert Stop(round, start, 0) == Some(start);
      BadSlaveStarves(bus, start, calls[1..]);
    }
  }

  class Master {
    const bus: Bus
    var nextSlaveStart: nat

    predicate Valid()
      reads this
    {
      nextSlaveStart < |bus.slaves|
    }

    constructor (bus: Bus)
      requires bus.slaves != []
      ensures Valid() && this.bus == bus && nextSlaveStart == 0
    {
      this.bus, nextSlaveStart := bus, 0;
    }

    // The inner loop: the first slave in turn that is ready, and whether any slave
    // up to it, or all of them, gave a status.
    method Seek(round: Round) returns (found: Option<nat>, answer: bool)
      requires Valid() && |round| == |bus.slaves|
      ensures found == Stop(round, nextSlaveStart, 0)
      ensures found.None? ==> answer == exists reply <- round :: !reply.Silent?
    {
      var offset, n := 0, |bus.slaves|;
      answer := false;
      while offset < n
        invariant offset <= n
        invariant Stop(round, nextSlaveStart, 0) == Stop(round, nextSlaveStart, offset)
        invariant answer == exists i :: 0 <= i < n && Distance(nextSlaveStart, i, n) < offset && !round[i].Silent?
      {
        var index := At(nextSlaveStart, offset, n);
        if !round[index].Silent? {
          answer := true;
          if round[index].Ready? {
            return Some(index), true;
          }
        }
        assert forall i :: 0 <= i < n ==> (Distance(nextSlaveStart, i, n) == offset <==> i == index);
        offset := offset + 1;
      }
      found := None;
    }

    // comms_bus_receive
    method Receive(rounds: seq<Round>, room: nat) returns (outcome: Outcome)
      requires Valid() && Rounds(|bus.slaves|, rounds)
      modifies this
      ensures Valid()
      ensures (outcome, nextSlaveStart) == Answer(bus, old(nextSlaveStart), Call(rounds, room))
    {
      if room == 0 {
        return Error;
      }
      var heard, k := false, 0;
      while k < |rounds|
        invariant k <= |rounds| && nextSlaveStart == old(nextSlaveStart)
        invariant Polled(bus, nextSlaveStart, rounds[k..], room, heard)
               == Polled(bus, nextSlaveStart, rounds, room, false)
      {
        assert rounds[k..][1..] == rounds[k + 1..];
        var index, answer := Seek(rounds[k]);
        heard := heard || answer;
        if index.Some? {
          var i := index.value;
          var payload := Accepted(rounds[k][i].wire, bus.slaves[i], bus.master, room);
          if payload.None? {
            return Error;
          }
          nextSlaveStart := At(i, 1, |bus.slaves|);
          return Served(i, payload.value);
        }
        k := k + 1;
      }
      return if heard then TimedOut else Error;
    }
  }
}
