// The variables of rtos/kernels/src/croutine.c and the functions that change
// them, on linked lists. Each is proved to do what its step, or its loop run to the
// end, says of the state that these stand for.
module CoRoutineKernel {
  import opened RoundRobin
  import opened IdList
  import opened Options
  import opened ItemLists
  import opened CoRoutines
  import opened Scheduling
  import opened CoRoutineRounds

  // ----- the lists as values -----

  // The generic items' lists: one for each priority and then the two delay lists.
  function GenericPlace(o: Option<nat>, n: nat): Container {
    match o
    case None => Nowhere
    case Some(j) => if j < n then OnReady(j) else OnDelay(j - n)
  }

  function GenericOf(at: seq<Option<nat>>, ids: seq<Ids>, n: nat): Generic
    requires |ids| == n + 2
  {
    Generic(seq(|at|, c requires 0 <= c < |at| => GenericPlace(at[c], n)), ids[..n], ids[n..])
  }

  // The event items' lists: the pending list and then one for each event.
  function EventPlace(o: Option<nat>): Container {
    match o
    case None => Nowhere
    case Some(j) => if j == 0 then OnPending else OnEvent(j - 1)
  }

  function EventOf(at: seq<Option<nat>>, ids: seq<Ids>): Event
    requires |ids| > 0
  {
    Event(seq(|at|, c requires 0 <= c < |at| => EventPlace(at[c])), ids[0], ids[1..])
  }

  lemma GenericPutReady(at: seq<Option<nat>>, ids: seq<Ids>, n: nat, c: nat, p: nat)
    requires |ids| == n + 2 && c < |at| && p < n
    ensures GenericOf(at[c := Some(p)], ids[p := ids[p].InsertEnd(c)], n) == GenericOf(at, ids, n).PutReady(c, p)
  {
  }

  lemma GenericPutDelay(at: seq<Option<nat>>, ids: seq<Ids>, n: nat, c: nat, i: nat, value: seq<nat>)
    requires |ids| == n + 2 && c < |at| == |value| && i < 2
    ensures GenericOf(at[c := Some(n + i)], ids[n + i := InsertSorted(ids[n + i], value, c, value[c])], n)
            == GenericOf(at, ids, n).PutDelay(c, i, value)
  {
  }

  lemma GenericTake(at: seq<Option<nat>>, ids: seq<Ids>, n: nat, c: nat)
    requires |ids| == n + 2 && c < |at| && at[c].Some? && at[c].value < n + 2
    ensures var j := at[c].value;
            GenericOf(at[c := None], ids[j := RemoveItem(ids[j], c)], n) == GenericOf(at, ids, n).Take(c)
  {
  }

  lemma GenericNext(at: seq<Option<nat>>, ids: seq<Ids>, n: nat, p: nat)
    requires |ids| == n + 2 && p < n && ids[p].items != []
    ensures var g := GenericOf(at, ids, n);
            GenericOf(at, ids[p := ids[p].Next()], n) == g.(ready := g.ready[p := g.ready[p].Next()])
  {
  }

  lemma GenericAdd(at: seq<Option<nat>>, ids: seq<Ids>, n: nat)
    requires |ids| == n + 2
    ensures var g := GenericOf(at, ids, n); GenericOf(at + [None], ids, n) == g.(at := g.at + [Nowhere])
  {
  }

  lemma EventPutPending(at: seq<Option<nat>>, ids: seq<Ids>, c: nat)
    requires |ids| > 0 && c < |at|
    ensures EventOf(at[c := Some(0)], ids[0 := ids[0].InsertEnd(c)]) == EventOf(at, ids).PutPending(c)
  {
  }

  lemma EventPutList(at: seq<Option<nat>>, ids: seq<Ids>, c: nat, i: nat, order: seq<nat>)
    requires i + 1 < |ids| && c < |at| == |order|
    ensures EventOf(at[c := Some(i + 1)], ids[i + 1 := InsertSorted(ids[i + 1], order, c, order[c])])
            == EventOf(at, ids).PutList(c, i, order)
  {
  }

  lemma EventTake(at: seq<Option<nat>>, ids: seq<Ids>, c: nat)
    requires |ids| > 0 && c < |at| && at[c].Some? && at[c].value < |ids|
    ensures var j := at[c].value;
            EventOf(at[c := None], ids[j := RemoveItem(ids[j], c)]) == EventOf(at, ids).Take(c)
  {
  }

  lemma EventAdd(at: seq<Option<nat>>, ids: seq<Ids>)
    requires |ids| > 0
    ensures var e := EventOf(at, ids); EventOf(at + [None], ids) == e.(at := e.at + [Nowhere])
  {
  }

  lemma NoItems(at: seq<Option<nat>>, g: seq<Ids>, e: seq<Ids>, n: nat, events: nat)
    requires |at| == 0 && g == seq(n + 2, i => EMPTY) && e == seq(events + 1, i => EMPTY)
    ensures GenericOf(at, g, n) == Generic([], seq(n, i => EMPTY), [EMPTY, EMPTY])
    ensures EventOf(at, e) == Event([], EMPTY, seq(events, i => EMPTY))
  {
  }

  // The lists that a delay leaves both items in
  function Moved(s: State, c: nat, wake: nat, waitFor: Option<nat>): (t: State)
    requires s.Shape() && c < s.Count() && (waitFor.Some? ==> waitFor.value < |s.event.lists|)
    ensures t.due == s.due && t.Shape()
  {
    var value, list := s.value[c := wake], if wake < s.tick then s.Back() else s.front;
    s.(value := value, generic := s.generic.Take(c).PutDelay(c, list, value),
       event := if waitFor.Some? then s.event.PutList(c, waitFor.value, s.order) else s.event)
  }

  lemma DelayInParts(s: State, c: nat, ticks: nat, waitFor: Option<nat>)
    requires CanDelay(s, c, ticks, waitFor)
    ensures var t := Moved(s, c, Plus(s.tick, ticks, s.modulus), waitFor);
            Delay(s, c, ticks, waitFor) == t.(due := t.due[c := s.Now() + ticks])
  {
  }

  // The search stops at an empty list only if all lists are empty.
  lemma TopTells(s: State)
    requires Inv(s)
    ensures var t := LowerTop(s); t.generic.ready[t.top].items == [] <==> NobodyReady(s)
  {
    assert Topped(s.generic, s.top);
  }

  // What a proof mentions where it is to look into Represents.
  predicate Open(n: nat) {
    n >= 0
  }

  class Kernel {
    const priorities: nat
    const modulus: nat
    // uxPriority of each control block, and the lists that its two items can be in
    var priority: seq<nat>
    const generic: ItemLists
    const event: ItemLists
    var front: nat
    // the counters
    var current: Option<nat>
    var top: nat
    var tick: nat
    var last: nat
    var passed: nat
    ghost var base: nat
    ghost var due: seq<nat>
    // the state that all this stands for
    ghost var state: State
    ghost var Repr: set<object>

    ghost predicate Apart()
      reads this, generic, event
    {
      && generic != event && generic.Repr !! event.Repr
      && {this, generic, event} !! generic.Repr && {this, generic, event} !! event.Repr
    }

    ghost predicate Sizes()
      reads this, generic, event
    {
      && |generic.lists| == |generic.ids| == priorities + 2 && |event.lists| == |event.ids| > 0
      && generic.greatest == event.greatest == modulus - 1 && priorities < modulus
      && |generic.items| == |event.items| == |generic.at| == |event.at| == |priority|
      && |generic.values| == |event.values| == |priority|
    }

    ghost predicate Valid()
      reads this, generic, generic.Repr, event, event.Repr
    {
      && Apart() && Repr == {this, generic, event} + generic.Repr + event.Repr
      && Sizes() && generic.Valid() && event.Valid()
    }

    ghost function View(): State
      requires Sizes()
      reads this, generic, event
    {
      State(priorities, modulus, priority, generic.values, event.values,
            GenericOf(generic.at, generic.ids, priorities), EventOf(event.at, event.ids),
            front, current, top, tick, base, due)
    }

    // The variables and the lists, where a proof looks into them, stand for the state.
    ghost predicate Represents()
      reads this, generic, generic.Repr, event, event.Repr
    {
      && priorities == state.priorities && modulus == state.modulus
      && current == state.current && top == state.top && tick == state.tick && front == state.front
      && forall n {:trigger Open(n)} :: Open(n) ==> Valid() && View() == state
    }

    // What most steps leave as it is
    ghost function Rest(): (nat, nat, set<object>)
      reads this
    {
      (last, passed, Repr)
    }

    // At start, with the lists as prvInitialiseCoRoutineLists leaves them; the
    // number of priorities is a value of the tick type.
    constructor (priorities: nat, modulus: nat, events: nat)
      requires 0 < priorities < modulus
      ensures Represents() && state == Initial(priorities, modulus, events)
      ensures Quiet(state) && last == state.tick
      ensures fresh(Repr)
    {
      this.priorities, this.modulus := priorities, modulus;
      priority, due := [], [];
      generic := new ItemLists(modulus - 1, priorities + 2);
      event := new ItemLists(modulus - 1, events + 1);
      front, current, top, tick, last, passed, base := 0, None, 0, 0, 0, 0, 0;
      state := Initial(priorities, modulus, events);
      new;
      Repr := {this, generic, event} + generic.Repr + event.Repr;
      NoItems(generic.at, generic.ids, event.ids, priorities, events);
      InitialInv(priorities, modulus, events);
      assert Valid();
      assert View() == state;
    }

    // prvAddCoRoutineToReadyQueue, the generic item being in no list
    method AddToReadyQueue(c: nat)
      requires Represents() && state.Shape()
      requires c < state.Count() && state.priority[c] < state.priorities && state.generic.at[c] == Nowhere
      modifies Repr
      ensures Represents() && Rest() == old(Rest())
      ensures state == AddReady(old(state), c)
    {
      var p := Priority(c);
      if p > top {
        SetTop(p);
      }
      PutReady(c, p);
    }

    method Priority(c: nat) returns (p: nat)
      requires Represents() && c < state.Count()
      ensures p == state.priority[c]
    {
      assert Open(0);
      return priority[c];
    }

    method SetTop(p: nat)
      requires Represents() && state.Shape() && p < priorities
      modifies Repr
      ensures Represents() && Rest() == old(Rest())
      ensures state == old(state).(top := p)
    {
      assert Open(0);
      top := p;
      state := state.(top := p);
      assert Valid();
    }

    method PutReady(c: nat, p: nat)
      requires Represents() && state.Shape() && c < state.Count() && state.generic.at[c] == Nowhere && p < priorities
      modifies Repr
      ensures Represents() && Rest() == old(Rest())
      ensures state == old(state).(generic := old(state).generic.PutReady(c, p))
    {
      assert Open(0);
      GenericPutReady(generic.at, generic.ids, priorities, c, p);
      generic.PutEnd(c, p);
      assert Valid();
      assert GenericOf(generic.at, generic.ids, priorities) == state.generic.PutReady(c, p);
      state := state.(generic := state.generic.PutReady(c, p));
      assert View() == state;
    }

    // The items of a new control block
    method AddItems(p: nat)
      requires Valid() && p < priorities
      modifies generic, event
      ensures Apart() && generic.Valid() && event.Valid()
      ensures fresh(generic.Repr - old(generic.Repr)) && fresh(event.Repr - old(event.Repr))
      ensures |generic.items| == old(|generic.items|) + 1 && |event.items| == old(|event.items|) + 1
      ensures generic.at == old(generic.at) + [None] && generic.ids == old(generic.ids)
      ensures event.at == old(event.at) + [None] && event.ids == old(event.ids)
      ensures generic.values == old(generic.values) + [0] && event.values == old(event.values) + [priorities - p]
    {
      generic.Add(0);
      event.Add(priorities - p);
    }

    // The part of xCoRoutineCreate that fills in the control block
    method FillIn(p: nat)
      requires Valid() && View().Shape() && p < priorities
      modifies this`priority, this`due, this`current, this`Repr, generic, event
      ensures Valid() && View() == CoRoutines.Allocate(old(View()), p)
      ensures fresh(Repr - old(Repr))
    {
      GenericAdd(generic.at, generic.ids, priorities);
      EventAdd(event.at, event.ids);
      AddItems(p);
      if current == None {
        current := Some(|priority|);
      }
      priority, due := priority + [p], due + [0];
      Repr := {this, generic, event} + generic.Repr + event.Repr;
    }

    method Allocate(p: nat)
      requires Represents() && state.Shape() && p < priorities
      modifies Repr
      ensures Represents() && last == old(last)
      ensures state == CoRoutines.Allocate(old(state), p)
      ensures fresh(Repr - old(Repr))
    {
      assert Open(0);
      FillIn(p);
      state := CoRoutines.Allocate(state, p);
      assert Valid();
      assert View() == state;
    }

    // xCoRoutineCreate
    method Create(wanted: nat)
      requires Represents() && state.Shape()
      modifies Repr
      ensures Represents() && last == old(last)
      ensures state == CoRoutines.Create(old(state), wanted)
      ensures fresh(Repr - old(Repr))
    {
      assert Open(0);
      var c, p := |priority|, wanted;
      if p >= priorities {
        p := priorities - 1;
      }
      Allocate(p);
      AddToReadyQueue(c);
    }

    // ----- items in and out of lists -----

    method TakeGeneric(c: nat)
      requires Represents() && state.Shape() && c < state.Count() && state.generic.at[c] != Nowhere
      modifies Repr
      ensures Represents() && Rest() == old(Rest())
      ensures state == old(state).(generic := old(state).generic.Take(c))
    {
      assert Open(0);
      GenericTake(generic.at, generic.ids, priorities, c);
      generic.Take(c);
      assert Valid();
      assert GenericOf(generic.at, generic.ids, priorities) == state.generic.Take(c);
      state := state.(generic := state.generic.Take(c));
      assert View() == state;
    }

    method TakeEvent(c: nat)
      requires Represents() && state.Shape() && c < state.Count() && state.event.at[c] != Nowhere
      modifies Repr
      ensures Represents() && Rest() == old(Rest())
      ensures state == old(state).(event := old(state).event.Take(c))
    {
      assert Open(0);
      EventTake(event.at, event.ids, c);
      event.Take(c);
      assert Valid();
      assert EventOf(event.at, event.ids) == state.event.Take(c);
      state := state.(event := state.event.Take(c));
      assert View() == state;
    }

    method SetWake(c: nat, wake: nat)
      requires Represents() && state.Shape() && c < state.Count() && state.generic.at[c] == Nowhere && wake < modulus
      modifies Repr
      ensures Represents() && Rest() == old(Rest())
      ensures state == old(state).(value := old(state).value[c := wake])
    {
      assert Open(0);
      generic.SetValue(c, wake);
      state := state.(value := state.value[c := wake]);
    }

    method PutDelayed(c: nat, i: nat)
      requires Represents() && state.Shape() && c < state.Count() && state.generic.at[c] == Nowhere && i < 2
      modifies Repr
      ensures Represents() && Rest() == old(Rest())
      ensures state == old(state).(generic := old(state).generic.PutDelay(c, i, old(state).value))
    {
      assert Open(0);
      GenericPutDelay(generic.at, generic.ids, priorities, c, i, generic.values);
      generic.PutInOrder(c, priorities + i);
      assert Valid();
      assert GenericOf(generic.at, generic.ids, priorities) == state.generic.PutDelay(c, i, state.value);
      state := state.(generic := state.generic.PutDelay(c, i, state.value));
      assert View() == state;
    }

    method PutWaiting(c: nat, i: nat)
      requires Represents() && state.Shape() && c < state.Count() && state.event.at[c] == Nowhere
      requires i < |state.event.lists|
      modifies Repr
      ensures Represents() && Rest() == old(Rest())
      ensures state == old(state).(event := old(state).event.PutList(c, i, old(state).order))
    {
      assert Open(0);
      EventPutList(event.at, event.ids, c, i, event.values);
      event.PutInOrder(c, i + 1);
      assert Valid();
      assert EventOf(event.at, event.ids) == state.event.PutList(c, i, state.order);
      state := state.(event := state.event.PutList(c, i, state.order));
      assert View() == state;
    }

    method PutPending(c: nat)
      requires Represents() && state.Shape() && c < state.Count() && state.event.at[c] == Nowhere
      modifies Repr
      ensures Represents() && Rest() == old(Rest())
      ensures state == old(state).(event := old(state).event.PutPending(c))
    {
      assert Open(0);
      EventPutPending(event.at, event.ids, c);
      event.PutEnd(c, 0);
      assert Valid();
      assert EventOf(event.at, event.ids) == state.event.PutPending(c);
      state := state.(event := state.event.PutPending(c));
      assert View() == state;
    }

    // The heads of the lists
    method EventHead(i: nat) returns (c: nat)
      requires Represents() && i < |state.event.lists| && state.event.lists[i].items != []
      ensures c == state.event.lists[i].items[0] && c < state.Count()
    {
      assert Open(0);
      c := event.Head(i + 1);
    }

    method PendingHead() returns (c: nat)
      requires Represents() && state.event.pending.items != []
      ensures c == state.event.pending.items[0] && c < state.Count()
    {
      assert Open(0);
      c := event.Head(0);
    }

    method FrontHead() returns (c: nat)
      requires Represents() && state.Shape() && state.Front() != []
      ensures c == state.Front()[0] && c < state.Count()
    {
      assert Open(0);
      c := generic.Head(priorities + front);
    }

    // ----- delaying and events -----

    // The part of vCoRoutineAddToDelayedList about the delay lists
    method MoveToDelayList(c: nat, wake: nat)
      requires Represents() && state.Shape() && c < state.Count() && state.generic.at[c] != Nowhere && wake < modulus
      modifies Repr
      ensures Represents() && Rest() == old(Rest())
      ensures var s := old(state);
              var value, list := s.value[c := wake], if wake < s.tick then s.Back() else s.front;
              state == s.(value := value, generic := s.generic.Take(c).PutDelay(c, list, value))
    {
      assert Open(0);
      TakeGeneric(c);
      SetWake(c, wake);
      if wake < tick {
        PutDelayed(c, 1 - front);
      } else {
        PutDelayed(c, front);
      }
    }

    ghost method NoteDue(c: nat, t: nat)
      requires Represents() && state.Shape() && c < state.Count()
      modifies Repr
      ensures Represents() && Rest() == old(Rest())
      ensures state == old(state).(due := old(state).due[c := t])
    {
      assert Open(0);
      due := due[c := t];
      state := state.(due := due);
    }

    // vCoRoutineAddToDelayedList, the event item being in no list if it is to wait
    method AddToDelayedList(ticks: nat, waitFor: Option<nat>)
      requires Represents() && Inv(state) && current.Some? && CanDelay(state, current.value, ticks, waitFor)
      requires waitFor.Some? ==> state.event.at[current.value] == Nowhere
      modifies Repr
      ensures Represents() && Rest() == old(Rest())
      ensures state == Delay(old(state), old(current).value, ticks, waitFor)
    {
      assert Open(0);
      var c := current.value;
      assert Placed(state, c);
      DelayItem(c, ticks, waitFor);
    }

    // Both items into their lists
    method MoveItems(c: nat, wake: nat, waitFor: Option<nat>)
      requires Represents() && state.Shape() && c < state.Count() && state.generic.at[c] != Nowhere && wake < modulus
      requires waitFor.Some? ==> waitFor.value < |state.event.lists| && state.event.at[c] == Nowhere
      modifies Repr
      ensures Represents() && Rest() == old(Rest())
      ensures state == Moved(old(state), c, wake, waitFor)
    {
      MoveToDelayList(c, wake);
      if waitFor.Some? {
        PutWaiting(c, waitFor.value);
      }
    }

    method DelayItem(c: nat, ticks: nat, waitFor: Option<nat>)
      requires Represents() && CanDelay(state, c, ticks, waitFor) && state.generic.at[c] != Nowhere
      requires waitFor.Some? ==> state.event.at[c] == Nowhere
      modifies Repr
      ensures Represents() && Rest() == old(Rest())
      ensures state == Delay(old(state), c, ticks, waitFor)
    {
      ghost var due := state.Now() + ticks;
      DelayInParts(state, c, ticks, waitFor);
      MoveItems(c, Plus(tick, ticks, modulus), waitFor);
      NoteDue(c, due);
    }

    // xCoRoutineRemoveFromEventList
    method RemoveFromEventList(i: nat) returns (higher: bool)
      requires Represents() && Inv(state) && CanSignal(state, i) && current.Some?
      modifies Repr
      ensures Represents() && Rest() == old(Rest())
      ensures state == Signal(old(state), i)
      ensures higher <==> exists c :: 0 <= c < old(state).Count() && old(state).event.at[c] == OnEvent(i)
                                      && old(state).priority[c] >= old(state).priority[old(current).value]
    {
      assert Open(0);
      AnswerTells(state, i);
      var c := EventHead(i);
      assert Holds(state.event.lists[i], state.event.at, OnEvent(i)) && c in state.event.lists[i].items;
      TakeEvent(c);
      PutPending(c);
      higher := priority[c] >= priority[current.value];
    }

    // ----- the loops of the scheduler -----

    // The body of the loop of prvCheckPendingReadyList
    method MoveHead()
      requires Represents() && Inv(state) && CanMovePending(state)
      modifies Repr
      ensures Represents() && Rest() == old(Rest())
      ensures state == MovePending(old(state))
    {
      var c := PendingHead();
      assert Holds(state.event.pending, state.event.at, OnPending) && c in state.event.pending.items;
      assert Placed(state, c);
      TakeEvent(c);
      TakeGeneric(c);
      AddToReadyQueue(c);
    }

    // Its test
    method NonePending() returns (none: bool)
      requires Represents() && Inv(state)
      ensures none <==> !CanMovePending(state)
    {
      assert Open(0);
      PendingCanMove(state);
      none := event.IsEmpty(0);
    }

    // One round of the loop
    method DrainHead() returns (none: bool)
      requires Represents() && Inv(state) && CanMovePending(state)
      modifies Repr
      ensures Represents() && Rest() == old(Rest())
      ensures state == MovePending(old(state)) && Inv(state) && (none <==> !CanMovePending(state))
      ensures Drained(state) == Drained(old(state))
      ensures |state.event.pending.items| < |old(state).event.pending.items|
    {
      MovePendingShrinks(state);
      MoveHead();
      none := NonePending();
    }

    // prvCheckPendingReadyList
    method CheckPendingReadyList()
      requires Represents() && Inv(state)
      modifies Repr
      ensures Represents() && Rest() == old(Rest())
      ensures state == Drained(old(state))
    {
      var none := NonePending();
      ghost var s, drained := state, Drained(state);
      while !none
        invariant Represents() && Rest() == old(Rest()) && state == s
        invariant Inv(s) && Drained(s) == drained && (CanMovePending(s) <==> !none)
        decreases |s.event.pending.items|
      {
        none := DrainHead();
        s := state;
      }
    }

    // The end of the inner loop's body of prvCheckDelayedList: c has timed out
    method TimeOut(c: nat)
      requires Represents() && Inv(state) && CanExpire(state) && c == state.Front()[0]
      modifies Repr
      ensures Represents() && Rest() == old(Rest())
      ensures state == Expire(old(state))
    {
      assert Open(0);
      assert Placed(state, c);
      TakeGeneric(c);
      var waits := event.InList(c);
      if waits {
        TakeEvent(c);
      }
      AddToReadyQueue(c);
    }

    // The loop's test: whether the head of the delay list in use is due
    method FrontDue() returns (ready: bool)
      requires Represents() && Inv(state)
      ensures ready <==> CanExpire(state)
    {
      assert Open(0);
      FrontCanExpire(state);
      var none := generic.IsEmpty(priorities + front);
      if none {
        return false;
      }
      var c := FrontHead();
      var value := generic.Value(c);
      return value <= tick;
    }

    // One round of the inner loop
    method WakeHead() returns (ready: bool)
      requires Represents() && Inv(state) && CanExpire(state)
      modifies Repr
      ensures Represents() && Rest() == old(Rest())
      ensures state == Expire(old(state)) && Inv(state) && (ready <==> CanExpire(state))
      ensures Settled(state) == Settled(old(state)) && |state.Front()| < |old(state).Front()|
    {
      ExpireShrinks(state);
      var c := FrontHead();
      TimeOut(c);
      ready := FrontDue();
    }

    // The inner loop of prvCheckDelayedList
    method WakeDue()
      requires Represents() && Inv(state)
      modifies Repr
      ensures Represents() && Rest() == old(Rest())
      ensures state == Settled(old(state))
    {
      var ready := FrontDue();
      ghost var s, settled := state, Settled(state);
      while ready
        invariant Represents() && Rest() == old(Rest()) && state == s
        invariant Inv(s) && Settled(s) == settled && (CanExpire(s) <==> ready)
        decreases |s.Front()|
      {
        ready := WakeHead();
        s := state;
      }
    }

    // The beginning of the outer loop's body
    method CountTick()
      requires Represents() && state.Shape() && passed > 0
      modifies Repr
      ensures Represents() && Repr == old(Repr) && last == old(last)
      ensures state == Tick(old(state)) && passed == old(passed) - 1
    {
      assert Open(0);
      tick := Plus(tick, 1, modulus);
      passed := passed - 1;
      if tick == 0 {
        front := 1 - front;
        base := base + modulus;
      }
      state := Tick(state);
      assert Valid();
    }

    method SetPassed(n: nat)
      requires Represents()
      modifies Repr
      ensures Represents() && Repr == old(Repr) && last == old(last) && state == old(state)
      ensures passed == n
    {
      assert Open(0);
      passed := n;
      assert Valid();
    }

    method SetLast()
      requires Represents()
      modifies Repr
      ensures Represents() && Repr == old(Repr) && state == old(state)
      ensures last == state.tick
    {
      assert Open(0);
      last := tick;
      assert Valid();
    }

    // One round of the outer loop
    method OneTick()
      requires Represents() && Quiet(state) && passed > 0
      modifies Repr
      ensures Represents() && Repr == old(Repr) && last == old(last)
      ensures Quiet(state) && Counted(state, passed) == Counted(old(state), old(passed))
      ensures passed == old(passed) - 1 && state.tick == Plus(old(state).tick, 1, modulus)
    {
      CountedStep(state, passed);
      TickKeepsInv(state);
      CountTick();
      WakeDue();
    }

    // The outer loop
    method CountPassed(clock: nat)
      requires Represents() && Quiet(state)
      requires passed < modulus && clock < modulus && Plus(state.tick, passed, modulus) == clock
      modifies Repr
      ensures Represents() && Repr == old(Repr)
      ensures state == Counted(old(state), old(passed)) && state.tick == clock
    {
      ghost var s, counted := state, Counted(state, passed);
      while passed != 0
        invariant Represents() && Repr == old(Repr) && state == s
        invariant Quiet(s) && Counted(s, passed) == counted
        invariant passed < modulus && Plus(s.tick, passed, modulus) == clock
        decreases passed
      {
        OneTick();
        s := state;
      }
    }

    // prvCheckDelayedList, clock being what xTaskGetTickCount returns
    method CheckDelayedList(clock: nat)
      requires Represents() && Quiet(state) && last == state.tick && clock < modulus
      modifies Repr
      ensures Represents() && Repr == old(Repr)
      ensures state == Counted(old(state), Minus(clock, old(last), modulus))
      ensures last == state.tick == clock
    {
      SetPassed(Minus(clock, last, modulus));
      CountPassed(clock);
      SetLast();
    }

    // ----- choosing -----

    // Whether the ready list of the top priority is empty
    method TopEmpty() returns (none: bool)
      requires Represents() && state.Shape()
      ensures none <==> state.generic.ready[state.top].items == []
    {
      assert Open(0);
      none := generic.IsEmpty(top);
    }

    // The search for the highest priority that is ready; none if there is no such
    method FindTop() returns (none: bool)
      requires Represents() && state.Shape()
      modifies Repr
      ensures Represents() && Rest() == old(Rest())
      ensures state == LowerTop(old(state))
      ensures none <==> state.generic.ready[state.top].items == []
    {
      none := TopEmpty();
      ghost var s, lowered := state, LowerTop(state);
      while none && top > 0
        invariant Represents() && Rest() == old(Rest()) && state == s && top == s.top
        invariant s.Shape() && LowerTop(s) == lowered && (none <==> s.generic.ready[s.top].items == [])
        decreases top
      {
        SetTop(top - 1);
        s := state;
        none := TopEmpty();
      }
    }

    method RunNext()
      requires Represents() && state.Shape() && state.generic.ready[state.top].items != []
      modifies Repr
      ensures Represents() && Rest() == old(Rest())
      ensures var s := old(state);
              var list := s.generic.ready[s.top].Next();
              state == s.(generic := s.generic.(ready := s.generic.ready[s.top := list]),
                          current := Some(list.Current()))
    {
      assert Open(0);
      GenericNext(generic.at, generic.ids, priorities, top);
      var c := generic.Next(top);
      current := Some(c);
      assert Valid();
      assert GenericOf(generic.at, generic.ids, priorities)
          == state.generic.(ready := state.generic.ready[top := state.generic.ready[top].Next()]);
      state := state.(generic := GenericOf(generic.at, generic.ids, priorities), current := current);
      assert View() == state;
    }

    // The end of vCoRoutineSchedule, up to the call of the co-routine it returns
    method Choose() returns (run: Option<nat>)
      requires Represents() && Inv(state)
      modifies Repr
      ensures Represents() && Rest() == old(Rest())
      ensures state == Select(old(state)) && Inv(state)
      ensures run.None? <==> NobodyReady(state)
      ensures run.Some? ==> run == state.current && Foremost(state, run.value)
    {
      ChoiceIsForemost(state);
      SelectKeepsInv(state);
      TopTells(state);
      var none := FindTop();
      if none {
        return None;
      }
      RunNext();
      run := current;
    }

    // What a call does once there is a co-routine
    method RunRound(clock: nat) returns (run: Option<nat>)
      requires Represents() && Quiet(state) && last == state.tick && clock < modulus
      modifies Repr
      ensures Represents() && Repr == old(Repr)
      ensures state == Round(old(state), Minus(clock, old(last), modulus))
      ensures last == state.tick == clock
      ensures run.None? <==> NobodyReady(state)
      ensures run.Some? ==> run == state.current && Foremost(state, run.value)
    {
      ghost var ticks := Minus(clock, last, modulus);
      DrainedStaysSettled(state);
      DrainedExactly(state);
      CheckPendingReadyList();
      CountedExactly(state, ticks);
      CheckDelayedList(clock);
      run := Choose();
    }

    // vCoRoutineSchedule: the co-routine to run, if there is one
    method Schedule(clock: nat) returns (run: Option<nat>)
      requires Represents() && Quiet(state) && last == state.tick && clock < modulus
      modifies Repr
      ensures Represents() && Repr == old(Repr)
      ensures if old(state).current.None? then state == old(state) && run == None
              else state == Round(old(state), Minus(clock, old(last), modulus)) && last == state.tick == clock
      ensures old(state).current.Some? ==> (run.None? <==> NobodyReady(state))
      ensures run.Some? ==> run == state.current && Foremost(state, run.value)
    {
      assert Open(0);
      if current.None? {
        return None;
      }
      run := RunRound(clock);
    }
  }
}
