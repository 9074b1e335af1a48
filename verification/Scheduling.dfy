// What holds in every state that CoRoutines can reach: where every co-routine's
// items are, that the lists are in order, that the top priority bounds the ready
// lists, and that delayed co-routines are where their wake-up time says.
module Scheduling {
  import opened RoundRobin
  import opened IdList
  import opened Options
  import opened CoRoutines

  // The list w holds exactly the co-routines whose item says so.
  ghost predicate Holds(w: Ids, at: seq<Container>, tag: Container) {
    Good(w) && forall c: nat :: c in w.items <==> c < |at| && at[c] == tag
  }

  ghost predicate GenericLists(g: Generic) {
    && |g.delays| == 2
    && (forall p :: 0 <= p < |g.ready| ==> Holds(g.ready[p], g.at, OnReady(p)))
    && (forall i :: 0 <= i < 2 ==> Holds(g.delays[i], g.at, OnDelay(i)))
  }

  ghost predicate EventLists(e: Event) {
    && Holds(e.pending, e.at, OnPending)
    && (forall i :: 0 <= i < |e.lists| ==> Holds(e.lists[i], e.at, OnEvent(i)))
  }

  // The generic item is in the co-routine's own ready list or in a delay list,
  // the event item in at most one list, and only while it is delayed.
  ghost predicate Placed(s: State, c: nat)
    requires s.Shape() && c < s.Count()
  {
    && s.priority[c] < s.priorities && s.order[c] == s.priorities - s.priority[c]
    && s.generic.at[c] in {OnReady(s.priority[c]), OnDelay(0), OnDelay(1)}
    && (s.event.at[c] in {Nowhere, OnPending} || (s.event.at[c].OnEvent? && s.event.at[c].event < |s.event.lists|))
    && (s.event.at[c] != Nowhere ==> s.generic.at[c].OnDelay?)
  }

  ghost predicate AllPlaced(s: State) {
    s.Shape() && (forall c :: 0 <= c < s.Count() ==> Placed(s, c))
    && (s.current.Some? ==> s.current.value < s.Count())
  }

  ghost predicate Membership(s: State) {
    GenericLists(s.generic) && EventLists(s.event) && AllPlaced(s)
  }

  // Delay lists are in wake-up order.
  ghost predicate InWakeOrder(g: Generic, value: seq<nat>) {
    |g.delays| == 2 && SortedBy(g.delays[0], value) && SortedBy(g.delays[1], value)
  }

  // Event lists are in order of priority, the highest first.
  ghost predicate InPriorityOrder(e: Event, order: seq<nat>) {
    forall i :: 0 <= i < |e.lists| ==> SortedBy(e.lists[i], order)
  }

  // No co-routine above the top priority is ready.
  ghost predicate Topped(g: Generic, top: nat) {
    forall p :: top < p < |g.ready| ==> g.ready[p].items == []
  }

  // A co-routine in the front delay list is due in this round of the counter and
  // one in the other list in the next round.
  ghost predicate Timely(s: State, c: nat)
    requires s.Shape() && c < s.Count()
  {
    && (s.generic.at[c] == OnDelay(s.front) ==>
          s.tick <= s.value[c] < s.modulus && s.due[c] == s.base + s.value[c])
    && (s.generic.at[c] == OnDelay(s.Back()) ==>
          s.value[c] < s.tick && s.due[c] == s.base + s.modulus + s.value[c])
  }

  ghost predicate Timed(s: State) {
    s.Shape() && forall c :: 0 <= c < s.Count() ==> Timely(s, c)
  }

  ghost predicate Inv(s: State) {
    && Membership(s) && Timed(s)
    && InWakeOrder(s.generic, s.value) && InPriorityOrder(s.event, s.order)
    && Topped(s.generic, s.top)
  }

  lemma InitialInv(priorities: nat, modulus: nat, events: nat)
    requires priorities > 0 && modulus > 0
    ensures Inv(Initial(priorities, modulus, events))
  {
  }

  // ----- moving items -----

  lemma HoldsTaken(w: Ids, at: seq<Container>, tag: Container, c: nat)
    requires Holds(w, at, tag) && c < |at| && tag != Nowhere
    ensures Holds(if at[c] == tag then RemoveItem(w, c) else w, at[c := Nowhere], tag)
  {
    RemoveItemTakesOut(w, c);
  }

  lemma HoldsPut(w: Ids, u: Ids, at: seq<Container>, tag: Container, c: nat)
    requires Holds(w, at, tag) && c < |at| && at[c] != tag
    requires Good(u) && forall x :: x in u.items <==> x in w.items || x == c
    ensures Holds(u, at[c := tag], tag)
  {
  }

  lemma HoldsOther(w: Ids, at: seq<Container>, tag: Container, c: nat, other: Container)
    requires Holds(w, at, tag) && c < |at| && at[c] != tag && other != tag
    ensures Holds(w, at[c := other], tag)
  {
  }

  lemma HoldsGrown(w: Ids, at: seq<Container>, tag: Container)
    requires Holds(w, at, tag) && tag != Nowhere
    ensures Holds(w, at + [Nowhere], tag)
  {
  }

  lemma GenericTaken(g: Generic, c: nat)
    requires GenericLists(g) && c < |g.at|
    ensures GenericLists(g.Take(c))
    ensures forall p :: 0 <= p < |g.ready| && g.ready[p].items == [] ==> g.Take(c).ready[p].items == []
  {
    var h := g.Take(c);
    forall p | 0 <= p < |g.ready|
      ensures Holds(h.ready[p], h.at, OnReady(p))
    {
      HoldsTaken(g.ready[p], g.at, OnReady(p), c);
    }
    forall i | 0 <= i < 2
      ensures Holds(h.delays[i], h.at, OnDelay(i))
    {
      HoldsTaken(g.delays[i], g.at, OnDelay(i), c);
    }
  }

  lemma GenericReadied(g: Generic, c: nat, q: nat)
    requires GenericLists(g) && c < |g.at| && q < |g.ready| && g.at[c] == Nowhere
    ensures GenericLists(g.PutReady(c, q))
  {
    var h := g.PutReady(c, q);
    forall p | 0 <= p < |g.ready|
      ensures Holds(h.ready[p], h.at, OnReady(p))
    {
      if p == q {
        InsertEndPutsIn(g.ready[p], c);
        HoldsPut(g.ready[p], h.ready[p], g.at, OnReady(p), c);
      } else {
        HoldsOther(g.ready[p], g.at, OnReady(p), c, OnReady(q));
      }
    }
    forall i | 0 <= i < 2
      ensures Holds(h.delays[i], h.at, OnDelay(i))
    {
      HoldsOther(g.delays[i], g.at, OnDelay(i), c, OnReady(q));
    }
  }

  lemma GenericDelayed(g: Generic, c: nat, list: nat, value: seq<nat>)
    requires GenericLists(g) && c < |g.at| == |value| && g.at[c] == Nowhere && list < 2
    requires SortedBy(g.delays[list], value)
    ensures var h := g.PutDelay(c, list, value);
            GenericLists(h) && SortedBy(h.delays[list], value)
  {
    var h := g.PutDelay(c, list, value);
    InsertSortedPutsIn(g.delays[list], value, c, value[c]);
    forall p | 0 <= p < |g.ready|
      ensures Holds(h.ready[p], h.at, OnReady(p))
    {
      HoldsOther(g.ready[p], g.at, OnReady(p), c, OnDelay(list));
    }
    forall i | 0 <= i < 2
      ensures Holds(h.delays[i], h.at, OnDelay(i))
    {
      if i == list {
        HoldsPut(g.delays[i], h.delays[i], g.at, OnDelay(i), c);
      } else {
        HoldsOther(g.delays[i], g.at, OnDelay(i), c, OnDelay(list));
      }
    }
  }

  lemma EventTaken(e: Event, c: nat, order: seq<nat>)
    requires EventLists(e) && c < |e.at| && InPriorityOrder(e, order)
    ensures EventLists(e.Take(c)) && InPriorityOrder(e.Take(c), order)
  {
    var f := e.Take(c);
    HoldsTaken(e.pending, e.at, OnPending, c);
    forall i | 0 <= i < |e.lists|
      ensures Holds(f.lists[i], f.at, OnEvent(i)) && SortedBy(f.lists[i], order)
    {
      HoldsTaken(e.lists[i], e.at, OnEvent(i), c);
      RemoveKeepsSorted(e.lists[i], order, c);
    }
  }

  lemma EventPending(e: Event, c: nat)
    requires EventLists(e) && c < |e.at| && e.at[c] == Nowhere
    ensures EventLists(e.PutPending(c))
  {
    var f := e.PutPending(c);
    InsertEndPutsIn(e.pending, c);
    HoldsPut(e.pending, f.pending, e.at, OnPending, c);
    forall i | 0 <= i < |e.lists|
      ensures Holds(f.lists[i], f.at, OnEvent(i))
    {
      HoldsOther(e.lists[i], e.at, OnEvent(i), c, OnPending);
    }
  }

  lemma EventAwaited(e: Event, c: nat, i: nat, order: seq<nat>)
    requires EventLists(e) && c < |e.at| == |order| && e.at[c] == Nowhere && i < |e.lists|
    requires InPriorityOrder(e, order)
    ensures EventLists(e.PutList(c, i, order)) && InPriorityOrder(e.PutList(c, i, order), order)
  {
    var f := e.PutList(c, i, order);
    InsertSortedPutsIn(e.lists[i], order, c, order[c]);
    HoldsPut(e.lists[i], f.lists[i], e.at, OnEvent(i), c);
    HoldsOther(e.pending, e.at, OnPending, c, OnEvent(i));
    forall x | 0 <= x < |e.lists| && x != i
      ensures Holds(f.lists[x], f.at, OnEvent(x))
    {
      HoldsOther(e.lists[x], e.at, OnEvent(x), c, OnEvent(i));
    }
  }

  lemma WakeOrderTaken(g: Generic, value: seq<nat>, c: nat)
    requires GenericLists(g) && InWakeOrder(g, value) && c < |g.at|
    ensures InWakeOrder(g.Take(c), value)
  {
    RemoveKeepsSorted(g.delays[0], value, c);
    RemoveKeepsSorted(g.delays[1], value, c);
  }

  // ----- readying a delayed co-routine -----

  lemma ReleaseMoves(s: State, c: nat)
    requires s.Shape() && c < s.Count() && s.priority[c] < s.priorities
    ensures var t := Release(s, c);
            && t == s.(top := t.top, generic := t.generic, event := t.event)
            && t.generic == s.generic.Take(c).PutReady(c, s.priority[c]) && t.event == s.event.Take(c)
            && t.top == (if s.priority[c] > s.top then s.priority[c] else s.top)
            && t.generic.at == s.generic.at[c := OnReady(s.priority[c])] && t.event.at == s.event.at[c := Nowhere]
  {
  }

  lemma ReleaseKeepsInv(s: State, c: nat)
    requires Inv(s) && c < s.Count()
    ensures s.priority[c] < s.priorities && Inv(Release(s, c))
  {
    assert Placed(s, c);
    ReleaseMoves(s, c);
    var g, t := s.generic.Take(c), Release(s, c);
    GenericTaken(s.generic, c);
    GenericReadied(g, c, s.priority[c]);
    EventTaken(s.event, c, s.order);
    WakeOrderTaken(s.generic, s.value, c);
    forall x | 0 <= x < t.Count()
      ensures Placed(t, x) && Timely(t, x)
    {
      assert Placed(s, x) && Timely(s, x);
    }
  }

  lemma ExpireReleases(s: State)
    requires CanExpire(s)
    ensures Expire(s) == Release(s, s.Front()[0])
  {
    var c := s.Front()[0];
    if s.event.at[c] == Nowhere {
      assert s.event.at[c := Nowhere] == s.event.at;
    }
  }

  // ----- the other steps -----

  lemma DelayPlaces(s: State, c: nat, d: nat, waitFor: Option<nat>)
    requires AllPlaced(s) && Timed(s) && CanDelay(s, c, d, waitFor)
    ensures AllPlaced(Delay(s, c, d, waitFor)) && Timed(Delay(s, c, d, waitFor))
  {
    var t := Delay(s, c, d, waitFor);
    forall x | 0 <= x < t.Count()
      ensures Placed(t, x) && Timely(t, x)
    {
      assert Placed(s, x) && Timely(s, x);
    }
  }

  lemma DelayKeepsInv(s: State, c: nat, d: nat, waitFor: Option<nat>)
    requires Inv(s) && CanDelay(s, c, d, waitFor)
    requires waitFor.Some? ==> s.event.at[c] == Nowhere
    ensures Inv(Delay(s, c, d, waitFor))
  {
    var t, g := Delay(s, c, d, waitFor), s.generic.Take(c);
    GenericTaken(s.generic, c);
    WakeOrderTaken(s.generic, s.value, c);
    SameKeysSameOrder(g.delays[0], s.value, t.value);
    SameKeysSameOrder(g.delays[1], s.value, t.value);
    GenericDelayed(g, c, t.generic.at[c].list, t.value);
    if waitFor.Some? {
      EventAwaited(s.event, c, waitFor.value, s.order);
    }
    DelayPlaces(s, c, d, waitFor);
  }

  lemma GenericGrown(g: Generic, value: seq<nat>, v: nat)
    requires GenericLists(g) && InWakeOrder(g, value) && |g.at| == |value|
    ensures var h := g.(at := g.at + [Nowhere]); GenericLists(h) && InWakeOrder(h, value + [v])
  {
    forall p | 0 <= p < |g.ready|
      ensures Holds(g.ready[p], g.at + [Nowhere], OnReady(p))
    {
      HoldsGrown(g.ready[p], g.at, OnReady(p));
    }
    forall i | 0 <= i < 2
      ensures Holds(g.delays[i], g.at + [Nowhere], OnDelay(i)) && SortedBy(g.delays[i], value + [v])
    {
      HoldsGrown(g.delays[i], g.at, OnDelay(i));
      SameKeysSameOrder(g.delays[i], value, value + [v]);
    }
  }

  lemma EventGrown(e: Event, order: seq<nat>, v: nat)
    requires EventLists(e) && InPriorityOrder(e, order) && |e.at| == |order|
    ensures var f := e.(at := e.at + [Nowhere]); EventLists(f) && InPriorityOrder(f, order + [v])
  {
    HoldsGrown(e.pending, e.at, OnPending);
    forall i | 0 <= i < |e.lists|
      ensures Holds(e.lists[i], e.at + [Nowhere], OnEvent(i)) && SortedBy(e.lists[i], order + [v])
    {
      HoldsGrown(e.lists[i], e.at, OnEvent(i));
      SameKeysSameOrder(e.lists[i], order, order + [v]);
    }
  }

  lemma CreatePlaces(s: State, wanted: nat)
    requires AllPlaced(s) && Timed(s)
    ensures AllPlaced(Create(s, wanted)) && Timed(Create(s, wanted))
  {
    var t, c := Create(s, wanted), s.Count();
    forall x | 0 <= x < t.Count()
      ensures Placed(t, x) && Timely(t, x)
    {
      assert x < c ==> Placed(s, x) && Timely(s, x);
    }
  }

  lemma CreateKeepsInv(s: State, wanted: nat)
    requires Inv(s)
    ensures Inv(Create(s, wanted))
  {
    var t, c := Create(s, wanted), s.Count();
    var p := if wanted >= s.priorities then s.priorities - 1 else wanted;
    var g := s.generic.(at := s.generic.at + [Nowhere]);
    GenericGrown(s.generic, s.value, 0);
    EventGrown(s.event, s.order, s.priorities - p);
    GenericReadied(g, c, p);
    assert t.generic == g.PutReady(c, p);
    CreatePlaces(s, wanted);
  }

  // A new co-routine is ready, within the priorities there are, and in turn behind
  // all others of its priority but the one that had the last turn; the first one
  // becomes the current one; nobody else changes.
  lemma CreateAddsOne(s: State, wanted: nat)
    requires Inv(s)
    ensures var t, c := Create(s, wanted), s.Count();
            && t.Count() == c + 1 && t.priority == s.priority + [t.priority[c]]
            && t.priority[c] < s.priorities && (wanted < s.priorities ==> t.priority[c] == wanted)
            && (wanted >= s.priorities ==> t.priority[c] + 1 == s.priorities)
            && t.generic.at == s.generic.at + [OnReady(t.priority[c])] && t.event.at == s.event.at + [Nowhere]
            && t.current == (if s.current.None? then Some(c) else s.current)
            && JoinsLast(s.generic.ready[t.priority[c]], t.generic.ready[t.priority[c]], c)
  {
    CreateParts(s, wanted);
    InsertEndComesLast(s.generic.ready[Create(s, wanted).priority[s.Count()]], s.Count());
  }

  lemma CreateParts(s: State, wanted: nat)
    requires Inv(s)
    ensures var t, c := Create(s, wanted), s.Count();
            && t.Count() == c + 1 && t.priority == s.priority + [t.priority[c]] && t.priority[c] < s.priorities
            && t.priority[c] == (if wanted < s.priorities then wanted else s.priorities - 1)
            && t.generic.at == s.generic.at + [OnReady(t.priority[c])] && t.event.at == s.event.at + [Nowhere]
            && t.generic.ready[t.priority[c]] == s.generic.ready[t.priority[c]].InsertEnd(c)
  {
    var c := s.Count();
    assert (s.generic.at + [Nowhere])[c := OnReady(Create(s, wanted).priority[c])]
        == s.generic.at + [OnReady(Create(s, wanted).priority[c])];
  }

  lemma SignalKeepsInv(s: State, i: nat)
    requires Inv(s) && CanSignal(s, i)
    ensures Inv(Signal(s, i))
    ensures Signal(s, i) == s.(event := Signal(s, i).event)
    ensures Signal(s, i).event.at == s.event.at[s.event.lists[i].items[0] := OnPending]
  {
    var t, c := Signal(s, i), s.event.lists[i].items[0];
    assert Holds(s.event.lists[i], s.event.at, OnEvent(i)) && c in s.event.lists[i].items;
    EventTaken(s.event, c, s.order);
    EventPending(s.event.Take(c), c);
    forall x | 0 <= x < t.Count()
      ensures Placed(t, x) && Timely(t, x)
    {
      assert Placed(s, x) && Timely(s, x);
    }
  }

  // A list that is not empty can be worked on.
  lemma PendingCanMove(s: State)
    requires Membership(s)
    ensures CanMovePending(s) <==> s.event.pending.items != []
  {
    if s.event.pending.items != [] {
      var c := s.event.pending.items[0];
      assert c in s.event.pending.items;
      assert Placed(s, c);
    }
  }

  lemma FrontCanExpire(s: State)
    requires Membership(s)
    ensures s.Front() != [] ==> s.Front()[0] < s.Count() && s.generic.at[s.Front()[0]] == OnDelay(s.front)
    ensures CanExpire(s) <==> s.Front() != [] && s.value[s.Front()[0]] <= s.tick
  {
    if s.Front() != [] {
      var c := s.Front()[0];
      assert Holds(s.generic.delays[s.front], s.generic.at, OnDelay(s.front)) && c in s.Front();
      assert Placed(s, c);
    }
  }

  // ----- time -----

  // A co-routine times out at the very time it is due ...
  lemma ExpireExact(s: State)
    requires Inv(s) && CanExpire(s)
    ensures var c := s.Front()[0]; s.generic.at[c] == OnDelay(s.front) && s.due[c] == s.Now()
  {
    FrontCanExpire(s);
    assert Timely(s, s.Front()[0]);
  }

  // ... and once no co-routine can time out, all those still delayed are due later.
  lemma NotLate(s: State, c: nat)
    requires Inv(s) && !CanExpire(s) && c < s.Count() && s.generic.at[c].OnDelay?
    ensures s.due[c] > s.Now()
    ensures s.generic.at[c] == OnDelay(s.front) ==> s.tick < s.value[c] < s.modulus
  {
    assert Placed(s, c) && Timely(s, c);
    if s.generic.at[c] == OnDelay(s.front) {
      FrontCanExpire(s);
      assert Holds(s.generic.delays[s.front], s.generic.at, OnDelay(s.front));
      assert SortedBy(s.generic.delays[s.front], s.value);
      HeadIsLeast(s.generic.delays[s.front], s.value, c);
    }
  }

  // When the counter is about to wrap, the delay list in use is empty.
  lemma SwapEmpty(s: State)
    requires Inv(s) && !CanExpire(s) && s.tick + 1 == s.modulus
    ensures s.Front() == []
  {
    if s.Front() != [] {
      FrontCanExpire(s);
      NotLate(s, s.Front()[0]);
    }
  }

  lemma TickKeepsInv(s: State)
    requires Inv(s) && !CanExpire(s)
    ensures Inv(Tick(s)) && Tick(s).Now() == s.Now() + 1
  {
    var t := Tick(s);
    forall c | 0 <= c < s.Count()
      ensures Placed(t, c) && Timely(t, c)
    {
      assert Placed(s, c) && Timely(s, c);
      if s.generic.at[c].OnDelay? {
        NotLate(s, c);
      }
    }
  }

  // A delay of at least one tick leaves nothing that could time out at once, and
  // none leaves something.
  lemma DelaySettles(s: State, c: nat, d: nat, waitFor: Option<nat>)
    requires Inv(s) && !CanExpire(s) && CanDelay(s, c, d, waitFor)
    requires waitFor.Some? ==> s.event.at[c] == Nowhere
    ensures CanExpire(Delay(s, c, d, waitFor)) <==> d == 0
  {
    var t := Delay(s, c, d, waitFor);
    DelayKeepsInv(s, c, d, waitFor);
    FrontCanExpire(t);
    if d == 0 {
      assert Holds(t.generic.delays[t.front], t.generic.at, OnDelay(t.front)) && c in t.Front();
      HeadIsLeast(t.generic.delays[t.front], t.value, c);
    } else if t.Front() != [] && t.Front()[0] != c {
      NotLate(s, t.Front()[0]);
    }
  }

  // Why the delay must not be none: in the last tick before the counter wraps, the
  // delay list is then not empty when the lists change places, and the co-routine
  // sleeps on although it is due.
  lemma ZeroDelayOverslept(s: State, c: nat)
    requires Inv(s) && !CanExpire(s) && c < s.Count() && s.tick + 1 == s.modulus > 1
    ensures var t := Tick(Delay(s, c, 0, None));
            t.generic.at[c] == OnDelay(t.Back()) && t.due[c] < t.Now() && !Inv(t)
  {
    var t := Tick(Delay(s, c, 0, None));
    assert !Timely(t, c);
  }

  // ----- priority -----

  ghost predicate NobodyReady(s: State)
    requires s.Shape()
  {
    forall p :: 0 <= p < s.priorities ==> s.generic.ready[p].items == []
  }

  // t runs the next co-routine of the highest priority of s that has any; nothing
  // moves but the cursor of its list.
  ghost predicate RunsNext(s: State, t: State)
    requires s.Shape() && t.Shape()
  {
    && t == s.(top := t.top, current := t.current, generic := t.generic)
    && (forall q :: t.top < q < s.priorities ==> s.generic.ready[q].items == [])
    && var list := s.generic.ready[t.top];
    && list.Upcoming() != [] && t.current == Some(list.Upcoming()[0])
    && t.generic == s.generic.(ready := s.generic.ready[t.top := list.Next()])
  }

  // The scheduler runs the next co-routine of the highest priority that has one,
  // and runs none only if none is ready.
  lemma SelectHighest(s: State)
    requires Inv(s)
    ensures if NobodyReady(s) then Select(s) == s.(top := 0) else RunsNext(s, Select(s))
  {
    var u := LowerTop(s);
    var list := s.generic.ready[u.top];
    if list.items != [] {
      NextRotates(list);
    }
  }

  // The one that runs is ready, with the priority of its list.
  lemma RunsReady(s: State, t: State)
    requires Inv(s) && t.Shape() && RunsNext(s, t)
    ensures var c := t.current.value;
            c < s.Count() && s.generic.at[c] == OnReady(t.top) && s.priority[c] == t.top
  {
    var list := s.generic.ready[t.top];
    var c := t.current.value;
    assert c in list.items;
    assert Holds(list, s.generic.at, OnReady(t.top));
    assert Placed(s, c);
  }

  // No ready co-routine has a higher priority than the one that runs.
  lemma RunsTheHighest(s: State, c: nat)
    requires Inv(s) && c < s.Count() && s.generic.at[c].OnReady?
    ensures var t := Select(s);
            && t.priority == s.priority && t.current.Some? && t.current.value < s.Count()
            && s.generic.at[t.current.value].OnReady? && s.priority[c] <= s.priority[t.current.value]
  {
    assert Placed(s, c);
    assert Holds(s.generic.ready[s.priority[c]], s.generic.at, OnReady(s.priority[c]));
    assert c in s.generic.ready[s.priority[c]].items;
    SelectHighest(s);
    RunsReady(s, Select(s));
  }

  lemma GenericRotated(g: Generic, p: nat)
    requires GenericLists(g) && p < |g.ready| && g.ready[p].items != []
    ensures var h := g.(ready := g.ready[p := g.ready[p].Next()]);
            GenericLists(h) && forall q :: 0 <= q < |g.ready| ==> h.ready[q].items == g.ready[q].items
  {
    NextKeeps(g.ready[p]);
    assert forall q :: 0 <= q < |g.ready| ==> Holds(g.ready[q], g.at, OnReady(q));
  }

  lemma SelectPlaces(s: State, t: State)
    requires Inv(s) && t.Shape() && t.generic.at == s.generic.at
    requires t == s.(top := t.top, current := t.current, generic := t.generic)
    requires t.current.Some? ==> t.current.value < s.Count()
    ensures AllPlaced(t) && Timed(t)
  {
    forall c | 0 <= c < s.Count()
      ensures Placed(t, c) && Timely(t, c)
    {
      assert Placed(s, c) && Timely(s, c);
    }
  }

  lemma SelectKeepsInv(s: State)
    requires Inv(s)
    ensures Inv(Select(s))
    ensures Select(s).generic.at == s.generic.at && Select(s).generic.delays == s.generic.delays
  {
    SelectHighest(s);
    var t := Select(s);
    if !NobodyReady(s) {
      GenericRotated(s.generic, t.top);
      RunsReady(s, t);
    }
    SelectPlaces(s, t);
  }

  // An event readies a co-routine of the highest priority among those that wait
  // for it.
  lemma SignalPicksHighest(s: State, i: nat, c: nat)
    requires Inv(s) && CanSignal(s, i) && c < s.Count() && s.event.at[c] == OnEvent(i)
    ensures s.priority[c] <= s.priority[s.event.lists[i].items[0]]
  {
    assert Holds(s.event.lists[i], s.event.at, OnEvent(i));
    assert c in s.event.lists[i].items;
    HeadIsLeast(s.event.lists[i], s.order, c);
    assert Placed(s, c) && Placed(s, s.event.lists[i].items[0]);
  }

  // c is ready and nobody ready has a higher priority.
  ghost predicate Foremost(s: State, c: nat) {
    && s.Shape() && c < s.Count() && s.generic.at[c].OnReady?
    && forall x :: 0 <= x < s.Count() && s.generic.at[x].OnReady? ==> s.priority[x] <= s.priority[c]
  }

  // The choice is a foremost co-routine, and there is none exactly if nobody is
  // ready.
  lemma ChoiceIsForemost(s: State)
    requires Inv(s)
    ensures NobodyReady(Select(s)) <==> NobodyReady(s)
    ensures NobodyReady(s) <==> forall c :: 0 <= c < s.Count() ==> !s.generic.at[c].OnReady?
    ensures !NobodyReady(s) ==> Select(s).current.Some? && Foremost(Select(s), Select(s).current.value)
  {
    var t := Select(s);
    SelectHighest(s);
    SelectKeepsInv(s);
    if !NobodyReady(s) {
      GenericRotated(s.generic, t.top);
      RunsReady(s, t);
    }
    forall c | 0 <= c < s.Count() && s.generic.at[c].OnReady?
      ensures !NobodyReady(s) && s.priority[c] <= s.priority[t.current.value]
    {
      RunsTheHighest(s, c);
      assert Placed(s, c) && Holds(s.generic.ready[s.priority[c]], s.generic.at, OnReady(s.priority[c]));
      assert c in s.generic.ready[s.priority[c]].items;
    }
  }

  // The answer to an interrupt is yes exactly if somebody who waits for the event
  // has at least the priority of the co-routine that runs.
  lemma AnswerTells(s: State, i: nat)
    requires Inv(s) && CanSignal(s, i) && s.current.Some?
    ensures SignalAnswer(s, i) <==>
            exists c :: 0 <= c < s.Count() && s.event.at[c] == OnEvent(i)
                        && s.priority[c] >= s.priority[s.current.value]
  {
    var first := s.event.lists[i].items[0];
    assert first in s.event.lists[i].items && Holds(s.event.lists[i], s.event.at, OnEvent(i));
    forall c | 0 <= c < s.Count() && s.event.at[c] == OnEvent(i)
      ensures s.priority[c] <= s.priority[first]
    {
      SignalPicksHighest(s, i, c);
    }
  }

  // ----- which lists a step changes, and where -----

  // c is in front of all waiters of a lower priority and behind all others.
  ghost predicate Joins(s: State, before: seq<nat>, after: seq<nat>, c: nat)
    requires s.Shape() && c < s.Count()
  {
    exists k :: 0 <= k <= |before| && after == before[..k] + [c] + before[k..]
      && (forall j :: 0 <= j < k ==> before[j] < s.Count() && s.priority[before[j]] >= s.priority[c])
      && (forall j :: k <= j < |before| ==> before[j] < s.Count() && s.priority[before[j]] < s.priority[c])
  }

  lemma PlacedByPriority(s: State, w: Ids, i: nat, c: nat)
    requires AllPlaced(s) && i < |s.event.lists| && w == s.event.lists[i] && c < s.Count()
    requires Holds(w, s.event.at, OnEvent(i)) && SortedBy(w, s.order)
    ensures Joins(s, w.items, InsertSorted(w, s.order, c, s.order[c]).items, c)
  {
    var keys, v := KeysOf(w.items, s.order), s.order[c];
    var k := Place(keys, v);
    PlaceIsStable(keys, v);
    assert Placed(s, c);
    forall j | 0 <= j < |w.items|
      ensures w.items[j] < s.Count() && keys[j] == s.priorities - s.priority[w.items[j]]
    {
      assert w.items[j] in w.items;
      assert Placed(s, w.items[j]);
    }
    assert InsertSorted(w, s.order, c, v).items == w.items[..k] + [c] + w.items[k..];
  }

  // A co-routine that delays itself leaves the ready list, is due then, and if it
  // awaits an event joins those who wait for it by priority; nobody else's items move.
  lemma DelayMoves(s: State, c: nat, d: nat, waitFor: Option<nat>)
    requires Inv(s) && CanDelay(s, c, d, waitFor)
    requires waitFor.Some? ==> s.event.at[c] == Nowhere
    ensures var t := Delay(s, c, d, waitFor);
            && t.due == s.due[c := s.Now() + d] && t.generic.at[c].OnDelay?
            && t.generic.at == s.generic.at[c := t.generic.at[c]]
            && (waitFor.None? ==> t.event == s.event)
            && (waitFor.Some? ==>
                  var i := waitFor.value;
                  && t.event.at == s.event.at[c := OnEvent(i)] && t.event.pending == s.event.pending
                  && t.event.lists == s.event.lists[i := t.event.lists[i]]
                  && Joins(s, s.event.lists[i].items, t.event.lists[i].items, c))
  {
    if waitFor.Some? {
      var i := waitFor.value;
      assert Holds(s.event.lists[i], s.event.at, OnEvent(i)) && SortedBy(s.event.lists[i], s.order);
      PlacedByPriority(s, s.event.lists[i], i, c);
    }
  }

  lemma HeadRemoved(w: Ids)
    requires w.items != []
    ensures RemoveItem(w, w.items[0]).items == w.items[1..]
  {
    assert IndexOf(w.items, w.items[0]) == 0;
  }

  lemma SignalParts(s: State, i: nat)
    requires Inv(s) && CanSignal(s, i)
    ensures var t, c := Signal(s, i), s.event.lists[i].items[0];
            && t.event.lists == s.event.lists[i := RemoveItem(s.event.lists[i], c)]
            && t.event.pending == s.event.pending.InsertEnd(c)
  {
    var c := s.event.lists[i].items[0];
    assert Holds(s.event.lists[i], s.event.at, OnEvent(i)) && c in s.event.lists[i].items;
    assert s.event.at[c] == OnEvent(i);
  }

  // An event takes the first waiter out and puts it last in turn among those
  // pending; no other list changes.
  lemma SignalMoves(s: State, i: nat)
    requires Inv(s) && CanSignal(s, i)
    ensures var t, c := Signal(s, i), s.event.lists[i].items[0];
            && t.event.lists == s.event.lists[i := t.event.lists[i]]
            && t.event.lists[i].items == s.event.lists[i].items[1..]
            && JoinsLast(s.event.pending, t.event.pending, c)
  {
    SignalParts(s, i);
    HeadRemoved(s.event.lists[i]);
    InsertEndComesLast(s.event.pending, s.event.lists[i].items[0]);
  }

  lemma ReadiedParts(s: State, c: nat)
    requires Inv(s) && c < s.Count() && s.generic.at[c].OnDelay?
    ensures var p := s.priority[c];
            p < s.priorities && Release(s, c).generic.ready == s.generic.ready[p := s.generic.ready[p].InsertEnd(c)]
  {
    assert Placed(s, c);
    ReleaseMoves(s, c);
    assert s.generic.Take(c).ready == s.generic.ready;
  }

  // A co-routine that is readied comes last in turn at its priority.
  lemma ReadiedComesLast(s: State, c: nat)
    requires Inv(s) && c < s.Count() && s.generic.at[c].OnDelay?
    ensures s.priority[c] < s.priorities
    ensures var t, p := Release(s, c), s.priority[c];
            && t.generic.ready == s.generic.ready[p := t.generic.ready[p]]
            && JoinsLast(s.generic.ready[p], t.generic.ready[p], c)
  {
    ReadiedParts(s, c);
    InsertEndComesLast(s.generic.ready[s.priority[c]], c);
  }

  // The one pending longest is readied first, and the one due first times out first.
  lemma FirstComesFirst(s: State)
    requires Inv(s)
    ensures CanMovePending(s) ==>
              && MovePending(s).event.pending.items == s.event.pending.items[1..]
              && MovePending(s).generic.at[s.event.pending.items[0]].OnReady?
    ensures CanExpire(s) ==>
              && Expire(s).Front() == s.Front()[1..] && Expire(s).generic.at[s.Front()[0]].OnReady?
              && forall c :: c in s.Front() ==> c < s.Count() && s.due[s.Front()[0]] <= s.due[c]
  {
    if CanMovePending(s) {
      var c := s.event.pending.items[0];
      assert Holds(s.event.pending, s.event.at, OnPending) && c in s.event.pending.items;
      assert Placed(s, c);
      ReleaseMoves(s, c);
    }
    if CanExpire(s) {
      FrontCanExpire(s);
      ExpireReleases(s);
      ReleaseMoves(s, s.Front()[0]);
      forall c | c in s.Front()
        ensures c < s.Count() && s.due[s.Front()[0]] <= s.due[c]
      {
        assert Holds(s.generic.delays[s.front], s.generic.at, OnDelay(s.front));
        HeadIsLeast(s.generic.delays[s.front], s.value, c);
        assert Timely(s, c) && Timely(s, s.Front()[0]);
      }
    }
  }
}
