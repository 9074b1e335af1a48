// The scheduler's loops run to their ends: every pending co-routine readied, every
// passed tick counted and every co-routine that is due readied.
module CoRoutineRounds {
  import opened RoundRobin
  import opened IdList
  import opened Options
  import opened CoRoutines
  import opened Scheduling

  // t is s with c readied, as far as it matters where items are.
  ghost predicate Released(s: State, t: State, c: nat) {
    && s.Shape() && c < s.Count()
    && t == s.(top := t.top, generic := t.generic, event := t.event)
    && t.generic.at == s.generic.at[c := OnReady(s.priority[c])] && t.event.at == s.event.at[c := Nowhere]
  }

  lemma MovePendingShrinks(s: State)
    requires Inv(s) && CanMovePending(s)
    ensures var t, c := MovePending(s), s.event.pending.items[0];
            && Inv(t) && |t.event.pending.items| == |s.event.pending.items| - 1
            && s.event.at[c] == OnPending
            && Released(s, t, c)
  {
    var c := s.event.pending.items[0];
    assert c in s.event.pending.items;
    ReleaseKeepsInv(s, c);
    ReleaseMoves(s, c);
    RemoveItemTakesOut(s.event.pending, c);
  }

  lemma ExpireShrinks(s: State)
    requires Inv(s) && CanExpire(s)
    ensures var t, c := Expire(s), s.Front()[0];
            && Inv(t) && |t.Front()| == |s.Front()| - 1
            && s.generic.at[c] == OnDelay(s.front) && s.due[c] == s.Now()
            && Released(s, t, c)
  {
    var c := s.Front()[0];
    ExpireExact(s);
    ExpireReleases(s);
    ReleaseKeepsInv(s, c);
    ReleaseMoves(s, c);
    assert c in s.Front();
    RemoveItemTakesOut(s.generic.delays[s.front], c);
  }

  // prvCheckPendingReadyList
  ghost function Drained(s: State): (t: State)
    requires Inv(s)
    ensures Inv(t)
    decreases |s.event.pending.items|
  {
    if CanMovePending(s) then MovePendingShrinks(s); Drained(MovePending(s)) else s
  }

  // The inner loop of prvCheckDelayedList
  ghost function Settled(s: State): (t: State)
    requires Inv(s)
    ensures Inv(t) && !CanExpire(t) && t == s.(top := t.top, generic := t.generic, event := t.event)
    decreases |s.Front()|
  {
    if CanExpire(s) then ExpireShrinks(s); Settled(Expire(s)) else s
  }

  // Nobody can time out, as it is whenever the scheduler is called.
  ghost predicate Quiet(s: State) {
    Inv(s) && !CanExpire(s)
  }

  // One round of its outer loop
  ghost function NextTick(s: State): (t: State)
    ensures Quiet(s) ==> Quiet(t)
  {
    if Quiet(s) then TickKeepsInv(s); Settled(Tick(s)) else s
  }

  ghost function Times<S>(f: S -> S, n: nat, s: S): S {
    if n == 0 then s else Times(f, n - 1, f(s))
  }

  // What one application does and what adds up, all applications do.
  lemma {:induction false} TimesRelates<S(!new)>(f: S -> S, P: S -> bool, R: (S, S, nat) -> bool, n: nat, s: S)
    requires forall x :: P(x) ==> P(f(x)) && R(x, f(x), 1) && R(x, x, 0)
    requires forall x, y, z, i: nat, j: nat :: R(x, y, i) && R(y, z, j) ==> R(x, z, i + j)
    requires P(s)
    ensures R(s, Times(f, n, s), n)
  {
    if n > 0 {
      TimesRelates(f, P, R, n - 1, f(s));
      assert R(s, Times(f, n, s), 1 + (n - 1));
    }
  }

  // All of them
  ghost function Counted(s: State, ticks: nat): State {
    Times(NextTick, ticks, s)
  }

  // Exactly the pending co-routines are readied.
  lemma {:induction false} DrainedExactly(s: State)
    requires Inv(s)
    ensures var t := Drained(s);
            && t.event.pending.items == []
            && t == s.(top := t.top, generic := t.generic, event := t.event)
            && forall c :: 0 <= c < s.Count() ==>
                 if s.event.at[c] == OnPending then
                   t.generic.at[c] == OnReady(s.priority[c]) && t.event.at[c] == Nowhere
                 else t.generic.at[c] == s.generic.at[c] && t.event.at[c] == s.event.at[c]
    decreases |s.event.pending.items|
  {
    PendingCanMove(s);
    if CanMovePending(s) {
      MovePendingShrinks(s);
      DrainedExactly(MovePending(s));
    }
  }

  lemma DrainedStaysSettled(s: State)
    requires Quiet(s)
    ensures Quiet(Drained(s))
  {
    DrainedExactly(s);
    var t := Drained(s);
    FrontCanExpire(t);
    if t.Front() != [] {
      NotLate(s, t.Front()[0]);
    }
  }

  lemma CountedStep(s: State, ticks: nat)
    requires ticks > 0
    ensures Counted(s, ticks) == Counted(NextTick(s), ticks - 1)
  {
  }

  // What seeing to all that is due by a time does to a co-routine's items.
  ghost predicate ReadiedIfDue(s: State, t: State, time: nat, c: nat)
    requires s.Shape() && t.Shape() && c < s.Count() == t.Count()
  {
    if s.generic.at[c].OnDelay? && s.due[c] <= time then
      t.generic.at[c] == OnReady(s.priority[c]) && t.event.at[c] == Nowhere
    else t.generic.at[c] == s.generic.at[c] && t.event.at[c] == s.event.at[c]
  }

  ghost predicate DueReadied(s: State, t: State, time: nat) {
    && s.Shape() && t.Shape() && t.Count() == s.Count() && t.priority == s.priority && t.due == s.due
    && forall c :: 0 <= c < s.Count() ==> ReadiedIfDue(s, t, time, c)
  }

  lemma DueReadiedTwice(s: State, u: State, t: State, time: nat, later: nat)
    requires DueReadied(s, u, time) && DueReadied(u, t, later) && time <= later
    ensures DueReadied(s, t, later)
  {
    forall c | 0 <= c < s.Count()
      ensures ReadiedIfDue(s, t, later, c)
    {
      assert ReadiedIfDue(s, u, time, c) && ReadiedIfDue(u, t, later, c);
    }
  }

  lemma NoneDue(s: State)
    requires Inv(s) && !CanExpire(s)
    ensures DueReadied(s, s, s.Now())
  {
    forall c | 0 <= c < s.Count()
      ensures ReadiedIfDue(s, s, s.Now(), c)
    {
      if s.generic.at[c].OnDelay? {
        NotLate(s, c);
      }
    }
  }

  lemma ReadiedAfterRelease(s: State, u: State, v: State, c: nat, time: nat)
    requires Released(s, u, c) && s.generic.at[c].OnDelay? && s.due[c] <= time && DueReadied(u, v, time)
    ensures DueReadied(s, v, time)
  {
    forall x | 0 <= x < s.Count()
      ensures ReadiedIfDue(s, v, time, x)
    {
      assert ReadiedIfDue(u, v, time, x);
    }
  }

  lemma {:induction false} SettledExactly(s: State)
    requires Inv(s)
    ensures DueReadied(s, Settled(s), s.Now())
    decreases |s.Front()|
  {
    if CanExpire(s) {
      var u, v := Expire(s), Settled(s);
      ExpireShrinks(s);
      SettledExactly(u);
      assert v == Settled(u) && u.Now() == s.Now();
      ReadiedAfterRelease(s, u, v, s.Front()[0], s.Now());
    } else {
      NoneDue(s);
    }
  }

  lemma NextTickExactly(s: State)
    requires Quiet(s)
    ensures DueReadied(s, NextTick(s), s.Now() + 1) && NextTick(s).Now() == s.Now() + 1
  {
    var t, u, time := Tick(s), NextTick(s), s.Now() + 1;
    TickKeepsInv(s);
    SettledExactly(t);
    forall c | 0 <= c < s.Count()
      ensures ReadiedIfDue(s, u, time, c)
    {
      assert ReadiedIfDue(t, u, time, c);
    }
  }

  // t is s some ticks on, with everybody readied who is due by then.
  ghost predicate Advanced(s: State, t: State, ticks: nat) {
    Quiet(t) && t.Now() == s.Now() + ticks && DueReadied(s, t, t.Now())
  }

  lemma AdvancedTwice(s: State, u: State, t: State, m: nat, n: nat)
    requires Advanced(s, u, m) && Advanced(u, t, n)
    ensures Advanced(s, t, m + n)
  {
    DueReadiedTwice(s, u, t, u.Now(), t.Now());
  }

  lemma NextTickAdvances()
    ensures forall u :: Quiet(u) ==> Quiet(NextTick(u)) && Advanced(u, NextTick(u), 1) && Advanced(u, u, 0)
  {
    forall u | Quiet(u)
      ensures Advanced(u, NextTick(u), 1) && Advanced(u, u, 0)
    {
      NextTickExactly(u);
      NoneDue(u);
    }
  }

  lemma AdvancesAdd()
    ensures forall s, u, t, m: nat, n: nat :: Advanced(s, u, m) && Advanced(u, t, n) ==> Advanced(s, t, m + n)
  {
    forall s, u, t, m: nat, n: nat | Advanced(s, u, m) && Advanced(u, t, n)
      ensures Advanced(s, t, m + n)
    {
      AdvancedTwice(s, u, t, m, n);
    }
  }

  // However many ticks have passed, exactly the co-routines due by now are
  // readied.
  lemma CountedExactly(s: State, ticks: nat)
    requires Quiet(s)
    ensures Advanced(s, Counted(s, ticks), ticks)
  {
    NextTickAdvances();
    AdvancesAdd();
    TimesRelates(NextTick, Quiet, Advanced, ticks, s);
  }

  // vCoRoutineSchedule, when no interrupt comes
  ghost function Round(s: State, ticks: nat): State
    requires Quiet(s)
  {
    DrainedStaysSettled(s);
    CountedExactly(Drained(s), ticks);
    Select(Counted(Drained(s), ticks))
  }

  // What a call does to where a co-routine's items are, when it counts up to `time`.
  ghost predicate SeenTo(s: State, t: State, time: nat, c: nat)
    requires s.Shape() && t.Shape() && c < s.Count() == t.Count()
  {
    if s.event.at[c] == OnPending || (s.generic.at[c].OnDelay? && s.due[c] <= time) then
      t.generic.at[c] == OnReady(s.priority[c]) && t.event.at[c] == Nowhere
    else t.generic.at[c] == s.generic.at[c] && t.event.at[c] == s.event.at[c]
  }

  ghost predicate AllSeenTo(s: State, t: State) {
    && s.Shape() && t.Shape() && t.Count() == s.Count() && t.priority == s.priority && t.due == s.due
    && forall c :: 0 <= c < s.Count() ==> SeenTo(s, t, t.Now(), c)
  }

  lemma SelectStaysQuiet(s: State)
    requires Quiet(s)
    ensures var t := Select(s);
            && Quiet(t) && t.generic.at == s.generic.at
            && t == s.(top := t.top, current := t.current, generic := t.generic)
  {
    SelectKeepsInv(s);
    SelectHighest(s);
    FrontCanExpire(s);
    FrontCanExpire(Select(s));
  }

  lemma DrainedThenCounted(s: State, u: State, v: State, ticks: nat)
    requires Quiet(s) && u == Drained(s) && Quiet(u) && v == Counted(u, ticks)
    ensures Quiet(v) && v.Now() == s.Now() + ticks && AllSeenTo(s, v)
  {
    DrainedExactly(s);
    CountedExactly(u, ticks);
    forall c | 0 <= c < s.Count()
      ensures SeenTo(s, v, v.Now(), c)
    {
      assert Placed(s, c) && ReadiedIfDue(u, v, v.Now(), c);
    }
  }

  ghost predicate SeenToAfter(s: State, t: State, ticks: nat) {
    Quiet(t) && t.Now() == s.Now() + ticks && AllSeenTo(s, t)
  }

  // A whole call readies exactly the pending co-routines and those due by then.
  lemma RoundExactly(s: State, ticks: nat)
    requires Quiet(s)
    ensures SeenToAfter(s, Round(s, ticks), ticks)
  {
    var u := Drained(s);
    DrainedStaysSettled(s);
    var v := Counted(u, ticks);
    DrainedThenCounted(s, u, v, ticks);
    SelectStaysQuiet(v);
    var t := Select(v);
    forall c | 0 <= c < s.Count()
      ensures SeenTo(s, t, t.Now(), c)
    {
      assert SeenTo(s, v, v.Now(), c);
    }
  }

  lemma SeenToTwice(s: State, t: State, u: State, v: State, m: nat, n: nat)
    requires AllPlaced(s) && SeenToAfter(s, t, m) && SeenToAfter(t, u, n) && SeenToAfter(s, v, m + n)
    ensures u.Now() == v.Now() && u.generic.at == v.generic.at && u.event.at == v.event.at
  {
    forall c | 0 <= c < s.Count()
      ensures u.generic.at[c] == v.generic.at[c] && u.event.at[c] == v.event.at[c]
    {
      assert Placed(s, c);
      assert SeenTo(s, t, t.Now(), c) && SeenTo(t, u, u.Now(), c) && SeenTo(s, v, v.Now(), c);
    }
  }

  // Two calls that count m and n ticks leave time and every co-routine's items where
  // one call that counts them all does: it does not matter when the scheduler was
  // called in between.
  lemma BatchesDoNotMatter(s: State, m: nat, n: nat)
    requires Quiet(s)
    ensures var t := Round(s, m);
            && Quiet(t)
            && var u, v := Round(t, n), Round(s, m + n);
            u.Now() == v.Now() && u.generic.at == v.generic.at && u.event.at == v.event.at
  {
    var t := Round(s, m);
    RoundExactly(s, m);
    RoundExactly(t, n);
    RoundExactly(s, m + n);
    SeenToTwice(s, t, Round(t, n), Round(s, m + n), m, n);
  }

  lemma RoundReadies(s: State, u: State, v: State, ticks: nat, c: nat)
    requires Quiet(s) && c < s.Count() && u == Drained(s) && Quiet(u) && v == Counted(u, ticks)
    requires s.generic.at[c].OnReady? || s.event.at[c] == OnPending || s.due[c] <= s.Now() + ticks
    ensures Inv(v) && c < v.Count() && v.generic.at[c].OnReady? && v.priority == s.priority
  {
    DrainedExactly(s);
    CountedExactly(u, ticks);
    assert Placed(u, c) && ReadiedIfDue(u, v, v.Now(), c);
  }

  // It runs a co-routine of the highest priority among those that were ready, were
  // readied by an event or have come to be due.
  lemma RoundRunsHighest(s: State, ticks: nat, c: nat)
    requires Quiet(s) && c < s.Count()
    requires s.generic.at[c].OnReady? || s.event.at[c] == OnPending || s.due[c] <= s.Now() + ticks
    ensures var t := Round(s, ticks);
            && t.priority == s.priority && t.current.Some? && t.current.value < t.Count()
            && s.priority[c] <= s.priority[t.current.value]
  {
    var u := Drained(s);
    DrainedStaysSettled(s);
    var v := Counted(u, ticks);
    RoundReadies(s, u, v, ticks, c);
    RunsTheHighest(v, c);
  }

  // ----- taking turns -----

  // The co-routines that n choices in a row make.
  function Chosen(s: State, n: nat): seq<Option<nat>>
    requires s.Shape()
    decreases n
  {
    if n == 0 then [] else [Select(s).current] + Chosen(Select(s), n - 1)
  }

  ghost predicate TopReady(s: State, p: nat) {
    && Inv(s) && p < s.priorities && s.generic.ready[p].items != []
    && forall q :: p < q < s.priorities ==> s.generic.ready[q].items == []
  }

  lemma SelectAdvances(s: State, p: nat)
    requires TopReady(s, p)
    ensures TopReady(Select(s), p) && Select(s).generic.ready[p] == s.generic.ready[p].Next()
    ensures Select(s).current == Some(s.generic.ready[p].Next().Current())
  {
    SelectHighest(s);
    SelectKeepsInv(s);
    NextRotates(s.generic.ready[p]);
  }

  function Somes(ids: seq<nat>): (r: seq<Option<nat>>)
    ensures |r| == |ids|
  {
    seq(|ids|, i requires 0 <= i < |ids| => Some(ids[i]))
  }

  lemma SomesFirst(c: nat, ids: seq<nat>)
    ensures Somes([c] + ids) == [Some(c)] + Somes(ids)
  {
  }

  lemma {:induction false} ChosenInTurn(s: State, p: nat, n: nat)
    requires TopReady(s, p)
    ensures Chosen(s, n) == Somes(Returned(s.generic.ready[p], n))
    decreases n
  {
    if n > 0 {
      var t, next := Select(s), s.generic.ready[p].Next();
      SelectAdvances(s, p);
      ChosenInTurn(t, p, n - 1);
      SomesFirst(next.Current(), Returned(next, n - 1));
    }
  }

  // As long as nobody else becomes ready, the co-routines of the highest priority
  // are run in turn, each of them once in as many calls as they are.
  lemma TakesTurns(s: State, p: nat)
    requires TopReady(s, p)
    ensures var list := s.generic.ready[p];
            && Chosen(s, |list.items|) == Somes(list.Upcoming())
            && multiset(list.Upcoming()) == multiset(list.items)
  {
    EachOnce(s.generic.ready[p]);
    ChosenInTurn(s, p, |s.generic.ready[p].items|);
  }
}
