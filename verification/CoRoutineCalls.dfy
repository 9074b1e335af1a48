// A call of vCoRoutineSchedule, round by round of its loops, comes to what its loops
// run to their ends come to, when nothing interrupts it.
module CoRoutineCalls {
  import opened Options
  import opened CoRoutines
  import opened Scheduling
  import opened CoRoutineRuns
  import opened CoRoutineRounds

  function Proceeds(clock: nat, n: nat): (actions: seq<Action>)
    ensures |actions| == n
  {
    seq(n, i => Proceed(clock))
  }

  // n rounds lead from m to t.
  ghost predicate Leads(m: Machine, t: Machine, clock: nat, n: nat) {
    Runs(m, Proceeds(clock, n)) && Run(m, Proceeds(clock, n)) == t
  }

  lemma NoRound(m: Machine, clock: nat)
    ensures Leads(m, m, clock, 0)
  {
    assert Proceeds(clock, 0) == [];
  }

  lemma OneRound(m: Machine, t: Machine, clock: nat, n: nat)
    requires m.s.Shape() && clock < m.s.modulus && Leads(Scheduled(m, clock), t, clock, n)
    ensures Leads(m, t, clock, n + 1)
  {
    var actions := Proceeds(clock, n + 1);
    assert actions[1..] == Proceeds(clock, n);
    assert Enabled(m, actions[0]) && After(m, actions[0]) == Scheduled(m, clock);
  }

  lemma {:induction false} Then(m: Machine, u: Machine, t: Machine, clock: nat, a: nat, b: nat)
    requires Leads(m, u, clock, a) && Leads(u, t, clock, b)
    ensures Leads(m, t, clock, a + b)
    decreases a
  {
    if a == 0 {
      assert Proceeds(clock, 0) == [];
    } else {
      var actions := Proceeds(clock, a);
      assert actions[1..] == Proceeds(clock, a - 1);
      var v := After(m, actions[0]);
      Then(v, u, t, clock, a - 1, b);
      OneRound(m, t, clock, a - 1 + b);
    }
  }

  lemma LeadsKeepsInv(m: Machine, t: Machine, clock: nat, n: nat)
    requires MachineInv(m) && Leads(m, t, clock, n)
    ensures MachineInv(t)
  {
    RunKeepsInv(m, Proceeds(clock, n));
  }

  // ----- the loops -----

  lemma {:induction false} Drains(m: Machine, clock: nat) returns (n: nat)
    requires MachineInv(m) && m.phase.Draining? && clock < m.s.modulus
    ensures Leads(m, Machine(Drained(m.s), Counting(Minus(clock, m.last, m.s.modulus), clock), m.last), clock, n)
    decreases |m.s.event.pending.items|
  {
    var u := Scheduled(m, clock);
    var t := Machine(Drained(m.s), Counting(Minus(clock, m.last, m.s.modulus), clock), m.last);
    if CanMovePending(m.s) {
      MovePendingShrinks(m.s);
      DrainKeepsInv(m);
      var k := Drains(u, clock);
      OneRound(m, t, clock, k);
      n := k + 1;
    } else {
      NoRound(u, clock);
      OneRound(m, u, clock, 0);
      n := 1;
    }
  }

  lemma {:induction false} Settles(m: Machine, clock: nat) returns (n: nat)
    requires MachineInv(m) && m.phase.Expiring? && clock < m.s.modulus
    ensures Leads(m, Machine(Settled(m.s), Counting(m.phase.left, m.phase.clock), m.last), clock, n)
    decreases |m.s.Front()|
  {
    var u, t := Scheduled(m, clock), Machine(Settled(m.s), Counting(m.phase.left, m.phase.clock), m.last);
    if CanExpire(m.s) {
      ExpireShrinks(m.s);
      TimeOutKeepsInv(m);
      var k := Settles(u, clock);
      OneRound(m, t, clock, k);
      n := k + 1;
    } else {
      NoRound(u, clock);
      OneRound(m, u, clock, 0);
      n := 1;
    }
  }

  lemma CountsOne(m: Machine, clock: nat) returns (v: Machine, n: nat)
    requires MachineInv(m) && m.phase.Counting? && m.phase.left > 0 && clock < m.s.modulus
    ensures v == Machine(NextTick(m.s), Counting(m.phase.left - 1, m.phase.clock), m.last)
    ensures Leads(m, v, clock, n) && MachineInv(v) && v.s.modulus == m.s.modulus
  {
    var u := Scheduled(m, clock);
    TickKeepsInv(m.s);
    ProceedKeepsInv(m, clock);
    var k := Settles(u, clock);
    v := Machine(Settled(u.s), Counting(m.phase.left - 1, m.phase.clock), m.last);
    LeadsKeepsInv(u, v, clock, k);
    OneRound(m, v, clock, k);
    n := k + 1;
  }

  lemma CountsNone(m: Machine, clock: nat)
    requires MachineInv(m) && m.phase.Counting? && m.phase.left == 0 && clock < m.s.modulus
    ensures Leads(m, Machine(m.s, Choosing, m.phase.clock), clock, 1)
  {
    NoRound(Scheduled(m, clock), clock);
    OneRound(m, Scheduled(m, clock), clock, 0);
  }

  lemma {:induction false} Counts(m: Machine, clock: nat, ticks: nat) returns (n: nat)
    requires MachineInv(m) && m.phase.Counting? && m.phase.left == ticks && clock < m.s.modulus
    ensures Leads(m, Machine(Counted(m.s, ticks), Choosing, m.phase.clock), clock, n)
    decreases ticks
  {
    if ticks == 0 {
      CountsNone(m, clock);
      n := 1;
    } else {
      var v, a := CountsOne(m, clock);
      CountedStep(m.s, ticks);
      var b := Counts(v, clock, ticks - 1);
      Then(m, v, Machine(Counted(m.s, ticks), Choosing, m.phase.clock), clock, a, b);
      n := a + b;
    }
  }

  lemma Chooses(m: Machine, clock: nat)
    requires m.s.Shape() && m.phase.Choosing? && clock < m.s.modulus
    ensures Leads(m, Machine(Select(m.s), Idle, m.last), clock, 1)
  {
    NoRound(Scheduled(m, clock), clock);
    OneRound(m, Scheduled(m, clock), clock, 0);
  }

  lemma Begins(m: Machine, clock: nat) returns (b: Machine, n: nat)
    requires MachineInv(m) && m.phase.Idle? && m.s.current.Some? && clock < m.s.modulus
    ensures b == Machine(Drained(m.s), Counting(Minus(clock, m.last, m.s.modulus), clock), m.last)
    ensures Leads(m, b, clock, n) && MachineInv(b) && b.s.modulus == m.s.modulus
  {
    var a := m.(phase := Draining);
    var k := Drains(a, clock);
    b := Machine(Drained(m.s), Counting(Minus(clock, m.last, m.s.modulus), clock), m.last);
    LeadsKeepsInv(a, b, clock, k);
    OneRound(m, b, clock, k);
    DrainedExactly(m.s);
    n := k + 1;
  }

  // A whole call, the clock showing `clock` when it is read, takes the machine from
  // one moment at which the scheduler is not called to the next, by what Round says.
  lemma WholeCall(m: Machine, clock: nat) returns (n: nat)
    requires MachineInv(m) && m.phase.Idle? && m.s.current.Some? && clock < m.s.modulus
    ensures Leads(m, Machine(Round(m.s, Minus(clock, m.last, m.s.modulus)), Idle, clock), clock, n)
  {
    var ticks := Minus(clock, m.last, m.s.modulus);
    var b, i := Begins(m, clock);
    var j := Counts(b, clock, ticks);
    var c := Machine(Counted(b.s, ticks), Choosing, clock);
    LeadsKeepsInv(b, c, clock, j);
    CountedModulus(b.s, ticks);
    Chooses(c, clock);
    var t := Machine(Select(c.s), Idle, clock);
    Then(m, b, c, clock, i, j);
    Then(m, c, t, clock, i + j, 1);
    n := i + j + 1;
  }

  lemma {:induction false} CountedModulus(s: State, ticks: nat)
    requires Quiet(s)
    ensures Counted(s, ticks).modulus == s.modulus
    decreases ticks
  {
    if ticks > 0 {
      TickKeepsInv(s);
      CountedStep(s, ticks);
      CountedModulus(NextTick(s), ticks - 1);
    }
  }
}
