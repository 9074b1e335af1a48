// rtos/kernels/src/croutine.c as a state machine: the ready lists, the two delay
// lists that change places when the tick counter wraps, the pending list and the
// event lists, and what each step of the scheduler, of a running co-routine and
// of an interrupt does to them.
//
// A step stands for a region that nothing can interleave with, or whose parts
// touch lists that no interrupt touches: one round of a loop of the scheduler,
// one call from a co-routine, one interrupt.
module CoRoutines {
  import opened RoundRobin
  import opened IdList
  import opened Options

  // pxContainer: the list an item is in.
  datatype Container = Nowhere | OnReady(priority: nat) | OnDelay(list: nat) | OnPending | OnEvent(event: nat)

  // The lists that the generic items are in, and which one each is in.
  datatype Generic = Generic(
    at: seq<Container>,
    ready: seq<Ids>,
    delays: seq<Ids>)      // xDelayedCoRoutineList1 and 2
  {
    // uxListRemove
    function Take(c: nat): (g: Generic)
      requires c < |at|
      ensures g.at == at[c := Nowhere] && |g.ready| == |ready| && |g.delays| == |delays|
    {
      var g := this.(at := at[c := Nowhere]);
      match at[c]
      case OnReady(p) => if p < |ready| then g.(ready := ready[p := RemoveItem(ready[p], c)]) else g
      case OnDelay(i) => if i < |delays| then g.(delays := delays[i := RemoveItem(delays[i], c)]) else g
      case _ => g
    }

    function PutReady(c: nat, p: nat): (g: Generic)
      requires c < |at| && p < |ready|
    {
      Generic(at[c := OnReady(p)], ready[p := ready[p].InsertEnd(c)], delays)
    }

    function PutDelay(c: nat, list: nat, value: seq<nat>): (g: Generic)
      requires c < |at| == |value| && list < |delays|
    {
      Generic(at[c := OnDelay(list)], ready, delays[list := InsertSorted(delays[list], value, c, value[c])])
    }
  }

  // The lists that the event items are in, and which one each is in, if any.
  datatype Event = Event(
    at: seq<Container>,
    pending: Ids,          // xPendingReadyCoRoutineList
    lists: seq<Ids>)
  {
    function Take(c: nat): (e: Event)
      requires c < |at|
      ensures e.at == at[c := Nowhere] && |e.lists| == |lists|
    {
      var e := this.(at := at[c := Nowhere]);
      match at[c]
      case OnPending => e.(pending := RemoveItem(pending, c))
      case OnEvent(i) => if i < |lists| then e.(lists := lists[i := RemoveItem(lists[i], c)]) else e
      case _ => e
    }

    function PutPending(c: nat): (e: Event)
      requires c < |at|
    {
      Event(at[c := OnPending], pending.InsertEnd(c), lists)
    }

    function PutList(c: nat, i: nat, order: seq<nat>): (e: Event)
      requires c < |at| == |order| && i < |lists|
    {
      Event(at[c := OnEvent(i)], pending, lists[i := InsertSorted(lists[i], order, c, order[c])])
    }
  }

  datatype State = State(
    priorities: nat,       // configMAX_CO_ROUTINE_PRIORITIES
    modulus: nat,          // the tick counter counts modulo this
    // the control blocks
    priority: seq<nat>,
    value: seq<nat>,       // xGenericListItem.xItemValue
    order: seq<nat>,       // xEventListItem.xItemValue
    generic: Generic,
    event: Event,
    // the file's variables
    front: nat,            // the delay list that pxDelayedCoRoutineList points to
    current: Option<nat>,
    top: nat,
    tick: nat,
    // history: the time at which the counter last was zero, and when each
    // co-routine that is delayed is due
    base: nat,
    due: seq<nat>)
  {
    predicate Shape() {
      && 0 < priorities == |generic.ready| && top < priorities
      && tick < modulus
      && |generic.delays| == 2 && front < 2
      && |value| == |order| == |generic.at| == |event.at| == |due| == |priority|
    }

    // The number of co-routines.
    function Count(): nat {
      |priority|
    }

    // Unbounded time.
    function Now(): nat {
      base + tick
    }

    function Back(): nat
      requires front < 2
    {
      1 - front
    }

    // The co-routines in pxDelayedCoRoutineList.
    function Front(): seq<nat>
      requires Shape()
    {
      generic.delays[front].items
    }
  }

  function Initial(priorities: nat, modulus: nat, events: nat): (s: State)
    requires priorities > 0 && modulus > 0
    ensures s.Shape()
  {
    State(priorities, modulus, [], [], [],
          Generic([], seq(priorities, i => EMPTY), [EMPTY, EMPTY]), Event([], EMPTY, seq(events, i => EMPTY)),
          0, None, 0, 0, 0, [])
  }

  // prvAddCoRoutineToReadyQueue, the generic item being in no list
  function AddReady(s: State, c: nat): (t: State)
    requires s.Shape() && c < s.Count() && s.priority[c] < s.priorities
    ensures t.Shape()
  {
    var p := s.priority[c];
    s.(top := if p > s.top then p else s.top, generic := s.generic.PutReady(c, p))
  }

  // ----- steps -----

  // The control block of a new co-routine, its items in no list
  function Allocate(s: State, p: nat): (t: State)
    requires s.Shape() && p < s.priorities
    ensures t.Shape()
  {
    s.(priority := s.priority + [p], value := s.value + [0], order := s.order + [s.priorities - p],
       generic := s.generic.(at := s.generic.at + [Nowhere]),
       event := s.event.(at := s.event.at + [Nowhere]),
       due := s.due + [0],
       current := if s.current.None? then Some(s.Count()) else s.current)
  }

  // xCoRoutineCreate, when there is memory
  function Create(s: State, wanted: nat): (t: State)
    requires s.Shape()
    ensures t.Shape()
  {
    AddReady(Allocate(s, if wanted >= s.priorities then s.priorities - 1 else wanted), s.Count())
  }

  // Sum and difference in the counter's width
  function Plus(a: nat, b: nat, modulus: nat): nat {
    if a + b >= modulus then a + b - modulus else a + b
  }

  function Minus(a: nat, b: nat, modulus: nat): nat
    requires a < modulus && b < modulus
  {
    if a >= b then a - b else a + modulus - b
  }

  predicate CanDelay(s: State, c: nat, d: nat, waitFor: Option<nat>) {
    && s.Shape() && c < s.Count() && d < s.modulus
    && (waitFor.Some? ==> waitFor.value < |s.event.lists|)
  }

  // vCoRoutineAddToDelayedList by co-routine c, the current one
  function Delay(s: State, c: nat, d: nat, waitFor: Option<nat>): (t: State)
    requires CanDelay(s, c, d, waitFor)
    ensures t.Shape()
  {
    var wake := Plus(s.tick, d, s.modulus);
    var list := if wake < s.tick then s.Back() else s.front;
    var value := s.value[c := wake];
    s.(value := value,
       generic := s.generic.Take(c).PutDelay(c, list, value),
       due := s.due[c := s.Now() + d],
       event := if waitFor.Some? then s.event.PutList(c, waitFor.value, s.order) else s.event)
  }

  predicate CanSignal(s: State, i: nat) {
    s.Shape() && i < |s.event.lists| && s.event.lists[i].items != [] && s.event.lists[i].items[0] < s.Count()
  }

  // xCoRoutineRemoveFromEventList, in an interrupt
  function Signal(s: State, i: nat): (t: State)
    requires CanSignal(s, i)
    ensures t.Shape()
  {
    var c := s.event.lists[i].items[0];
    s.(event := s.event.Take(c).PutPending(c))
  }

  // Its answer: whether the co-routine readied should run before the current one.
  predicate SignalAnswer(s: State, i: nat)
    requires CanSignal(s, i)
  {
    s.current.Some? && s.current.value < s.Count()
    && s.priority[s.event.lists[i].items[0]] >= s.priority[s.current.value]
  }

  // What a time-out and a pending event both come to: both items are taken from
  // their lists and the co-routine is ready.
  function Release(s: State, c: nat): (t: State)
    requires s.Shape() && c < s.Count() && s.priority[c] < s.priorities
    ensures t.Shape()
  {
    AddReady(s.(generic := s.generic.Take(c), event := s.event.Take(c)), c)
  }

  predicate CanMovePending(s: State) {
    s.Shape() && s.event.pending.items != [] && s.event.pending.items[0] < s.Count()
    && s.priority[s.event.pending.items[0]] < s.priorities
  }

  // One round of prvCheckPendingReadyList
  function MovePending(s: State): (t: State)
    requires CanMovePending(s)
    ensures t.Shape()
  {
    Release(s, s.event.pending.items[0])
  }

  // One round of the outer loop of prvCheckDelayedList: the counter advances, and
  // the delay lists change places when it wraps.
  function Tick(s: State): (t: State)
    requires s.Shape()
    ensures t.Shape()
  {
    var tick := Plus(s.tick, 1, s.modulus);
    if tick == 0 then s.(tick := 0, front := s.Back(), base := s.base + s.modulus) else s.(tick := tick)
  }

  predicate CanExpire(s: State) {
    s.Shape() && s.Front() != [] && s.Front()[0] < s.Count()
    && s.value[s.Front()[0]] <= s.tick && s.priority[s.Front()[0]] < s.priorities
  }

  // One round of its inner loop: the first co-routine in the list has timed out.
  function Expire(s: State): (t: State)
    requires CanExpire(s)
    ensures t.Shape()
  {
    var c := s.Front()[0];
    var event := if s.event.at[c] != Nowhere then s.event.Take(c) else s.event;
    AddReady(s.(generic := s.generic.Take(c), event := event), c)
  }

  // The search for the highest priority with a ready co-routine
  function LowerTop(s: State): (t: State)
    requires s.Shape()
    ensures t.Shape()
    ensures t == s.(top := t.top) && t.top <= s.top
    ensures forall p :: t.top < p <= s.top ==> s.generic.ready[p].items == []
    ensures t.top == 0 || s.generic.ready[t.top].items != []
    decreases s.top
  {
    if s.generic.ready[s.top].items == [] && s.top > 0 then LowerTop(s.(top := s.top - 1)) else s
  }

  // The end of vCoRoutineSchedule: the next co-routine of that priority becomes
  // the current one, if there is any.
  function Select(s: State): (t: State)
    requires s.Shape()
    ensures t.Shape()
  {
    var u := LowerTop(s);
    var list := u.generic.ready[u.top];
    if list.items == [] then u
    else
      u.(generic := u.generic.(ready := u.generic.ready[u.top := list.Next()]), current := Some(list.Next().Current()))
  }
}
