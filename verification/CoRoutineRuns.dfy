// Runs of the co-routine kernel: the scheduler one round of a loop at a time, the
// co-routine that runs between two calls of it, and interrupts at any moment.
module CoRoutineRuns {
  import opened IdList
  import opened Options
  import opened CoRoutines
  import opened Scheduling

  // Where vCoRoutineSchedule is: not called, in the loop of
  // prvCheckPendingReadyList, in the outer or the inner loop of
  // prvCheckDelayedList with some passed ticks left, or about to choose.
  datatype Phase =
    | Idle
    | Draining
    | Counting(left: nat, clock: nat)
    | Expiring(left: nat, clock: nat)
    | Choosing

  datatype Machine = Machine(s: State, phase: Phase, last: nat /* xLastTickCount */)

  datatype Action =
    | Make(wanted: nat)
    | Sleep(ticks: nat, waitFor: Option<nat>)
    | Interrupt(list: nat)
    | Proceed(clock: nat)       // with what xTaskGetTickCount would return

  predicate Enabled(m: Machine, a: Action) {
    m.s.Shape() &&
    match a
    case Make(_) => m.phase.Idle?
    case Sleep(d, waitFor) =>
      // the callers delay by at least a tick, and wait for one event at a time
      && m.phase.Idle? && m.s.current.Some? && CanDelay(m.s, m.s.current.value, d, waitFor) && d > 0
      && (waitFor.Some? ==> m.s.event.at[m.s.current.value] == Nowhere)
    case Interrupt(i) => CanSignal(m.s, i)
    case Proceed(clock) => clock < m.s.modulus
  }

  function Scheduled(m: Machine, clock: nat): Machine
    requires m.s.Shape() && clock < m.s.modulus
  {
    match m.phase
    case Idle => if m.s.current.None? then m else m.(phase := Draining)
    case Draining =>
      if CanMovePending(m.s) then m.(s := MovePending(m.s))
      else if m.last < m.s.modulus then m.(phase := Counting(Minus(clock, m.last, m.s.modulus), clock))
      else m
    case Counting(left, at) =>
      if left == 0 then m.(phase := Choosing, last := m.s.tick)
      else m.(s := Tick(m.s), phase := Expiring(left - 1, at))
    case Expiring(left, at) =>
      if CanExpire(m.s) then m.(s := Expire(m.s)) else m.(phase := Counting(left, at))
    case Choosing => m.(s := Select(m.s), phase := Idle)
  }

  function After(m: Machine, a: Action): Machine
    requires Enabled(m, a)
  {
    match a
    case Make(wanted) => m.(s := Create(m.s, wanted))
    case Sleep(d, waitFor) => m.(s := Delay(m.s, m.s.current.value, d, waitFor))
    case Interrupt(i) => m.(s := Signal(m.s, i))
    case Proceed(clock) => Scheduled(m, clock)
  }

  ghost predicate Runs(m: Machine, actions: seq<Action>)
    decreases |actions|
  {
    actions == [] || (Enabled(m, actions[0]) && Runs(After(m, actions[0]), actions[1..]))
  }

  function Run(m: Machine, actions: seq<Action>): Machine
    requires Runs(m, actions)
    decreases |actions|
  {
    if actions == [] then m else Run(After(m, actions[0]), actions[1..])
  }

  function Start(priorities: nat, modulus: nat, events: nat): Machine
    requires priorities > 0 && modulus > 0
  {
    Machine(Initial(priorities, modulus, events), Idle, 0)
  }

  // ----- what holds all along -----

  // The co-routine tick count is where the last reading of the clock left it, and
  // on its way to the new one while ticks are left.
  ghost predicate Clocked(m: Machine) {
    match m.phase
    case Counting(left, clock) => Nearing(m.s, left, clock)
    case Expiring(left, clock) => Nearing(m.s, left, clock)
    case _ => m.last == m.s.tick
  }

  ghost predicate Nearing(s: State, left: nat, clock: nat) {
    clock < s.modulus && left < s.modulus && (s.tick + left == clock || s.tick + left == clock + s.modulus)
  }

  // Nobody can time out, except in the loop that sees to it.
  ghost predicate MachineInv(m: Machine) {
    Inv(m.s) && Clocked(m) && (!m.phase.Expiring? ==> !CanExpire(m.s))
  }

  // Who is delayed was delayed before, for the same time.
  lemma StaysSettled(s: State, t: State)
    requires Inv(s) && !CanExpire(s) && Inv(t) && t.front == s.front && t.tick == s.tick
    requires s.Count() <= t.Count()
    requires forall c :: 0 <= c < t.Count() && t.generic.at[c] == OnDelay(t.front) ==>
               c < s.Count() && s.generic.at[c] == OnDelay(s.front) && s.value[c] == t.value[c]
    ensures !CanExpire(t)
  {
    FrontCanExpire(t);
    if t.Front() != [] {
      NotLate(s, t.Front()[0]);
    }
  }

  lemma DrainKeepsInv(m: Machine)
    requires MachineInv(m) && m.phase.Draining? && CanMovePending(m.s)
    ensures MachineInv(m.(s := MovePending(m.s)))
  {
    var c, t := m.s.event.pending.items[0], MovePending(m.s);
    ReleaseKeepsInv(m.s, c);
    ReleaseMoves(m.s, c);
    StaysSettled(m.s, t);
  }

  lemma TimeOutKeepsInv(m: Machine)
    requires MachineInv(m) && m.phase.Expiring? && CanExpire(m.s)
    ensures MachineInv(m.(s := Expire(m.s)))
  {
    ExpireReleases(m.s);
    ReleaseKeepsInv(m.s, m.s.Front()[0]);
    ReleaseMoves(m.s, m.s.Front()[0]);
  }

  lemma ChoiceKeepsInv(m: Machine)
    requires MachineInv(m) && m.phase.Choosing?
    ensures MachineInv(m.(s := Select(m.s), phase := Idle))
  {
    SelectKeepsInv(m.s);
    SelectHighest(m.s);
    StaysSettled(m.s, Select(m.s));
  }

  lemma ProceedKeepsInv(m: Machine, clock: nat)
    requires MachineInv(m) && clock < m.s.modulus
    ensures MachineInv(Scheduled(m, clock))
  {
    if m.phase.Draining? && CanMovePending(m.s) {
      DrainKeepsInv(m);
    } else if m.phase.Counting? && m.phase.left > 0 {
      TickKeepsInv(m.s);
    } else if m.phase.Expiring? && CanExpire(m.s) {
      TimeOutKeepsInv(m);
    } else if m.phase.Choosing? {
      ChoiceKeepsInv(m);
    }
  }

  lemma StepKeepsInv(m: Machine, a: Action)
    requires MachineInv(m) && Enabled(m, a)
    ensures MachineInv(After(m, a))
  {
    var n := After(m, a);
    match a
    case Make(wanted) =>
      CreateKeepsInv(m.s, wanted);
      if !m.phase.Expiring? {
        StaysSettled(m.s, n.s);
      }
    case Sleep(d, waitFor) =>
      DelayKeepsInv(m.s, m.s.current.value, d, waitFor);
      DelaySettles(m.s, m.s.current.value, d, waitFor);
    case Interrupt(i) =>
      SignalKeepsInv(m.s, i);
      if !m.phase.Expiring? {
        StaysSettled(m.s, n.s);
      }
    case Proceed(clock) =>
      ProceedKeepsInv(m, clock);
  }

  lemma {:induction false} RunKeepsInv(m: Machine, actions: seq<Action>)
    requires MachineInv(m) && Runs(m, actions)
    ensures MachineInv(Run(m, actions))
    decreases |actions|
  {
    if actions != [] {
      StepKeepsInv(m, actions[0]);
      RunKeepsInv(After(m, actions[0]), actions[1..]);
    }
  }

  // In every state that a run can reach, every co-routine's items are where they
  // should be, the lists are in order, the top priority is above all ready
  // co-routines and nobody who is due is still delayed.
  lemma EveryRun(priorities: nat, modulus: nat, events: nat, actions: seq<Action>)
    requires priorities > 0 && modulus > 0 && Runs(Start(priorities, modulus, events), actions)
    ensures MachineInv(Run(Start(priorities, modulus, events), actions))
  {
    InitialInv(priorities, modulus, events);
    RunKeepsInv(Start(priorities, modulus, events), actions);
  }

  // When the scheduler has counted the passed ticks, its tick count is the clock
  // it read, however many ticks that were.
  lemma CatchesUp(m: Machine, clock: nat)
    requires MachineInv(m) && clock < m.s.modulus && m.phase.Counting? && m.phase.left == 0
    ensures Scheduled(m, clock).last == m.s.tick == m.phase.clock
  {
  }

  // The delay lists change places only while the one in use is empty.
  lemma SwapsWhenEmpty(m: Machine, clock: nat)
    requires MachineInv(m) && clock < m.s.modulus
    requires Scheduled(m, clock).s.front != m.s.front
    ensures m.s.Front() == [] && Scheduled(m, clock).s.tick == 0
  {
    if m.phase.Expiring? && CanExpire(m.s) {
      ExpireReleases(m.s);
      ReleaseMoves(m.s, m.s.Front()[0]);
    } else if m.phase.Draining? && CanMovePending(m.s) {
      ReleaseMoves(m.s, m.s.event.pending.items[0]);
    } else if m.phase.Counting? && m.phase.left > 0 {
      SwapEmpty(m.s);
    }
  }

  // ----- exact wake-up -----

  // No call from c itself to delay it anew.
  ghost predicate LeftAlone(m: Machine, actions: seq<Action>, c: nat)
    requires Runs(m, actions)
    decreases |actions|
  {
    actions == [] ||
    (!(actions[0].Sleep? && m.s.current == Some(c)) && LeftAlone(After(m, actions[0]), actions[1..], c))
  }

  // The interrupt's event is the one that c is first to wait for.
  predicate Signals(m: Machine, a: Action, c: nat) {
    a.Interrupt? && CanSignal(m.s, a.list) && m.s.event.lists[a.list].items[0] == c
  }

  // No event readies c; others may come.
  ghost predicate Unsignalled(m: Machine, actions: seq<Action>, c: nat)
    requires Runs(m, actions)
    decreases |actions|
  {
    actions == [] || (!Signals(m, actions[0], c) && Unsignalled(After(m, actions[0]), actions[1..], c))
  }

  // c is still delayed until due, or is ready, and not before time if no event
  // came for it.
  ghost predicate Watched(s: State, c: nat, due: nat, quiet: bool) {
    && s.Shape() && c < s.Count()
    && (quiet ==> s.event.at[c] != OnPending)
    && ((s.generic.at[c].OnDelay? && s.due[c] == due)
        || (s.generic.at[c].OnReady? && (quiet ==> due <= s.Now())))
  }

  lemma ReleaseKeepsWatch(s: State, x: nat, c: nat, due: nat, quiet: bool)
    requires Watched(s, c, due, quiet) && x < s.Count() && s.priority[x] < s.priorities
    requires x == c && quiet ==> due <= s.Now()
    ensures Watched(Release(s, x), c, due, quiet)
  {
    ReleaseMoves(s, x);
  }

  lemma ProceedKeepsWatch(m: Machine, clock: nat, c: nat, due: nat, quiet: bool)
    requires MachineInv(m) && clock < m.s.modulus && Watched(m.s, c, due, quiet)
    ensures Watched(Scheduled(m, clock).s, c, due, quiet)
  {
    if m.phase.Draining? && CanMovePending(m.s) {
      var x := m.s.event.pending.items[0];
      assert x in m.s.event.pending.items;
      ReleaseKeepsWatch(m.s, x, c, due, quiet);
    } else if m.phase.Expiring? && CanExpire(m.s) {
      ExpireReleases(m.s);
      ExpireExact(m.s);
      ReleaseKeepsWatch(m.s, m.s.Front()[0], c, due, quiet);
    } else if m.phase.Choosing? {
      SelectHighest(m.s);
    }
  }

  lemma StepKeepsWatch(m: Machine, a: Action, c: nat, due: nat, quiet: bool)
    requires MachineInv(m) && Enabled(m, a) && Watched(m.s, c, due, quiet)
    requires !(a.Sleep? && m.s.current == Some(c)) && (quiet ==> !Signals(m, a, c))
    ensures Watched(After(m, a).s, c, due, quiet)
  {
    match a
    case Make(wanted) =>
    case Sleep(d, waitFor) =>
    case Interrupt(i) =>
      var x := m.s.event.lists[i].items[0];
      assert Holds(m.s.event.lists[i], m.s.event.at, OnEvent(i)) && x in m.s.event.lists[i].items;
    case Proceed(clock) =>
      ProceedKeepsWatch(m, clock, c, due, quiet);
  }

  lemma {:induction false} RunKeepsWatch(m: Machine, actions: seq<Action>, c: nat, due: nat, quiet: bool)
    requires MachineInv(m) && Runs(m, actions) && LeftAlone(m, actions, c) && Watched(m.s, c, due, quiet)
    requires quiet ==> Unsignalled(m, actions, c)
    ensures Watched(Run(m, actions).s, c, due, quiet)
    decreases |actions|
  {
    if actions != [] {
      StepKeepsInv(m, actions[0]);
      StepKeepsWatch(m, actions[0], c, due, quiet);
      RunKeepsWatch(After(m, actions[0]), actions[1..], c, due, quiet);
    }
  }

  // A co-routine that delays itself by d ticks, awaiting an event or not, is, after
  // any run in which it does not delay itself again, ready whenever time has come to
  // that tick and all who are due have been seen to; and if no event came for it, be
  // there events for others, it is ready then and not before. The counter may have
  // wrapped any number of times on the way.
  lemma ExactWake(m: Machine, d: nat, waitFor: Option<nat>, actions: seq<Action>)
    requires MachineInv(m) && Enabled(m, Sleep(d, waitFor))
    requires Runs(After(m, Sleep(d, waitFor)), actions)
    requires LeftAlone(After(m, Sleep(d, waitFor)), actions, m.s.current.value)
    ensures var c, due, k := m.s.current.value, m.s.Now() + d, After(m, Sleep(d, waitFor));
            var n := Run(k, actions);
            && c < n.s.Count() == |n.s.generic.at|
            && (n.s.Now() >= due && !n.phase.Expiring? ==> n.s.generic.at[c].OnReady?)
            && (m.s.event.at[c] != OnPending && Unsignalled(k, actions, c) ==>
                  && (n.s.generic.at[c].OnReady? ==> n.s.Now() >= due)
                  && (!n.phase.Expiring? ==> (n.s.generic.at[c].OnReady? <==> n.s.Now() >= due)))
  {
    var c, due := m.s.current.value, m.s.Now() + d;
    var a := Sleep(d, waitFor);
    var k := After(m, a);
    var quiet := m.s.event.at[c] != OnPending && Unsignalled(k, actions, c);
    StepKeepsInv(m, a);
    RunKeepsWatch(k, actions, c, due, quiet);
    RunKeepsInv(k, actions);
    var n := Run(k, actions);
    if n.s.Now() >= due && !n.phase.Expiring? && n.s.generic.at[c].OnDelay? {
      NotLate(n.s, c);
    }
  }

  // ----- waking on an event -----

  // c is ready, or an event has come for it.
  ghost predicate Roused(s: State, c: nat) {
    s.Shape() && c < s.Count() && (s.generic.at[c].OnReady? || s.event.at[c] == OnPending)
  }

  lemma ReleaseKeepsRoused(s: State, x: nat, c: nat)
    requires Roused(s, c) && x < s.Count() && s.priority[x] < s.priorities
    ensures Roused(Release(s, x), c)
  {
    ReleaseMoves(s, x);
  }

  lemma ProceedKeepsRoused(m: Machine, clock: nat, c: nat)
    requires MachineInv(m) && clock < m.s.modulus && Roused(m.s, c)
    ensures Roused(Scheduled(m, clock).s, c)
  {
    if m.phase.Draining? && CanMovePending(m.s) {
      ReleaseKeepsRoused(m.s, m.s.event.pending.items[0], c);
    } else if m.phase.Expiring? && CanExpire(m.s) {
      ExpireReleases(m.s);
      ReleaseKeepsRoused(m.s, m.s.Front()[0], c);
    } else if m.phase.Choosing? {
      SelectHighest(m.s);
    }
  }

  lemma StepKeepsRoused(m: Machine, a: Action, c: nat)
    requires MachineInv(m) && Enabled(m, a) && Roused(m.s, c)
    requires !(a.Sleep? && m.s.current == Some(c))
    ensures Roused(After(m, a).s, c)
  {
    match a
    case Make(wanted) =>
    case Sleep(d, waitFor) =>
    case Interrupt(i) =>
    case Proceed(clock) =>
      ProceedKeepsRoused(m, clock, c);
  }

  lemma {:induction false} RunKeepsRoused(m: Machine, actions: seq<Action>, c: nat)
    requires MachineInv(m) && Runs(m, actions) && LeftAlone(m, actions, c) && Roused(m.s, c)
    ensures Roused(Run(m, actions).s, c)
    decreases |actions|
  {
    if actions != [] {
      StepKeepsInv(m, actions[0]);
      StepKeepsRoused(m, actions[0], c);
      RunKeepsRoused(After(m, actions[0]), actions[1..], c);
    }
  }

  // A co-routine for which an event has come is ready as soon as the scheduler is
  // through with the pending list, whatever happens in between.
  lemma EventWakes(m: Machine, a: Action, c: nat, actions: seq<Action>, clock: nat)
    requires MachineInv(m) && Enabled(m, a) && c < m.s.Count() && Signals(m, a, c)
    requires Runs(After(m, a), actions) && LeftAlone(After(m, a), actions, c)
    requires Enabled(Run(After(m, a), actions), Proceed(clock))
    ensures var n := Run(After(m, a), actions);
            n.phase.Draining? && Scheduled(n, clock).phase.Counting? ==>
            c < |Scheduled(n, clock).s.generic.at| && Scheduled(n, clock).s.generic.at[c].OnReady?
  {
    var k := After(m, a);
    StepKeepsInv(m, a);
    SignalKeepsInv(m.s, a.list);
    RunKeepsRoused(k, actions, c);
    RunKeepsInv(k, actions);
    var n := Run(k, actions);
    if n.phase.Draining? && Scheduled(n, clock).phase.Counting? {
      assert Placed(n.s, c);
      PendingCanMove(n.s);
    }
  }
}
