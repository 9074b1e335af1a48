// rtos/kernels/src/list.c and rtos/kernels/include/list.h: the kernel's circular
// doubly linked list with an end marker and a cursor.
//
// The ghost field `walk` is the list as a value of RoundRobin; every method is
// proved to take it through the corresponding step there.
module KernelList {
  import opened RoundRobin

  class ListItem {
    const owner: nat         // pvOwner: the number of the control block that the item is in
    var value: nat
    var next: ListItem?
    var prev: ListItem?
    var container: List?

    // vListInitialiseItem, and the item's owner
    constructor (value: nat, owner: nat)
      ensures this.value == value && this.owner == owner && container == null
    {
      this.value, this.owner := value, owner;
      next, prev, container := null, null, null;
    }
  }

  // Neighbouring positions in a ring of n.
  function After(k: nat, n: nat): (j: nat)
    requires k < n
    ensures j < n
  {
    if k + 1 == n then 0 else k + 1
  }

  function Before(k: nat, n: nat): (j: nat)
    requires k < n
    ensures j < n
  {
    if k == 0 then n - 1 else k - 1
  }

  // Going forwards and backwards through the links visits r in order, round and
  // round.
  ghost predicate Linked(r: seq<ListItem>)
    reads r`next, r`prev
  {
    && (forall k {:trigger r[k].next} :: 0 <= k < |r| ==> r[k].next == r[After(k, |r|)])
    && (forall k {:trigger r[k].prev} :: 0 <= k < |r| ==> r[k].prev == r[Before(k, |r|)])
  }

  ghost predicate Apart<T>(r: seq<T>, i: nat, j: nat) {
    i < j < |r| ==> r[i] != r[j]
  }

  ghost predicate Distinct<T>(r: seq<T>) {
    forall i: nat, j: nat :: Apart(r, i, j)
  }

  lemma OnlyAt<T>(r: seq<T>, k: nat)
    requires Distinct(r) && k < |r|
    ensures forall i :: 0 <= i < |r| && i != k ==> r[i] != r[k]
  {
    forall i | 0 <= i < |r| && i != k
      ensures r[i] != r[k]
    {
      assert Apart(r, i, k) && Apart(r, k, i);
    }
  }

  // r with x behind position k.
  function WithBehind<T>(r: seq<T>, k: nat, x: T): seq<T>
    requires k < |r|
  {
    r[..k + 1] + [x] + r[k + 1..]
  }

  // r without what is behind position k.
  function WithoutBehind<T>(r: seq<T>, k: nat): seq<T>
    requires k + 1 < |r|
  {
    r[..k + 1] + r[k + 2..]
  }

  lemma DistinctWith<T>(r: seq<T>, k: nat, x: T)
    requires Distinct(r) && k < |r| && x !in r
    ensures Distinct(WithBehind(r, k, x))
  {
    var s := WithBehind(r, k, x);
    forall i: nat, j: nat
      ensures Apart(s, i, j)
    {
      if i < j < |s| && i != k + 1 && j != k + 1 {
        assert Apart(r, if i <= k then i else i - 1, if j <= k then j else j - 1);
      }
    }
  }

  lemma DistinctWithout<T>(r: seq<T>, k: nat)
    requires Distinct(r) && k + 1 < |r|
    ensures Distinct(WithoutBehind(r, k))
  {
    var s := WithoutBehind(r, k);
    forall i: nat, j: nat
      ensures Apart(s, i, j)
    {
      assert Apart(r, if i <= k then i else i + 1, if j <= k then j else j + 1);
    }
  }

  // The links of r are whole except forwards from `from` and backwards from `to`.
  ghost predicate LinkedExcept(r: seq<ListItem>, from: nat, to: nat)
    reads r`next, r`prev
  {
    && (forall k {:trigger r[k].next} :: 0 <= k < |r| && k != from ==> r[k].next == r[After(k, |r|)])
    && (forall k {:trigger r[k].prev} :: 0 <= k < |r| && k != to ==> r[k].prev == r[Before(k, |r|)])
  }

  // x linked in between position k and the next one.
  lemma LinkedIn(r: seq<ListItem>, k: nat, x: ListItem)
    requires k < |r| && LinkedExcept(r, k, After(k, |r|))
    requires x.prev == r[k] && r[k].next == x
    requires x.next == r[After(k, |r|)] && r[After(k, |r|)].prev == x
    ensures Linked(WithBehind(r, k, x))
  {
    var s, n := WithBehind(r, k, x), |r|;
    forall i | 0 <= i < |s|
      ensures s[i].next == s[After(i, |s|)]
    {
      if i <= k {
        assert s[i] == r[i];
      } else if i > k + 1 {
        assert s[i] == r[i - 1];
      }
    }
    forall i | 0 <= i < |s|
      ensures s[i].prev == s[Before(i, |s|)]
    {
      if i <= k {
        assert s[i] == r[i];
      } else if i > k + 1 {
        assert s[i] == r[i - 1];
      }
    }
  }

  // What is behind position k bypassed.
  lemma LinkedPast(r: seq<ListItem>, k: nat)
    requires k + 1 < |r| && LinkedExcept(r, k, After(k + 1, |r|))
    requires r[After(k + 1, |r|)].prev == r[k] && r[k].next == r[After(k + 1, |r|)]
    ensures Linked(WithoutBehind(r, k))
  {
    var s, n := WithoutBehind(r, k), |r|;
    forall i | 0 <= i < |s|
      ensures s[i].next == s[After(i, |s|)]
    {
      if i <= k {
        assert s[i] == r[i];
      } else {
        assert s[i] == r[i + 1];
      }
    }
    forall i | 0 <= i < |s|
      ensures s[i].prev == s[Before(i, |s|)]
    {
      if i <= k {
        assert s[i] == r[i];
      } else {
        assert s[i] == r[i + 1];
      }
    }
  }

  // The four stores of vListInsert, behind the item the search stopped at.
  method SpliceBehind(x: ListItem, it: ListItem, ghost r: seq<ListItem>, ghost k: nat)
    requires Linked(r) && Distinct(r) && x !in r && k < |r| && it == r[k]
    modifies x`next, x`prev, r`next, r`prev
    ensures Linked(WithBehind(r, k, x))
  {
    OnlyAt(r, k);
    OnlyAt(r, After(k, |r|));
    assert it.next == r[After(k, |r|)];
    x.next := it.next;
    x.next.prev := x;
    x.prev := it;
    it.next := x;
    assert LinkedExcept(r, k, After(k, |r|));
    LinkedIn(r, k, x);
  }

  // The four stores of vListInsertEnd, in front of the cursor.
  method SpliceBefore(x: ListItem, index: ListItem, ghost r: seq<ListItem>, ghost k: nat)
    requires Linked(r) && Distinct(r) && x !in r && k < |r| && index == r[After(k, |r|)]
    modifies x`next, x`prev, r`next, r`prev
    ensures Linked(WithBehind(r, k, x))
  {
    OnlyAt(r, k);
    OnlyAt(r, After(k, |r|));
    assert index.prev == r[Before(After(k, |r|), |r|)] == r[k];
    x.next := index;
    x.prev := index.prev;
    index.prev.next := x;
    index.prev := x;
    assert LinkedExcept(r, k, After(k, |r|));
    LinkedIn(r, k, x);
  }

  // The two stores of uxListRemove
  method Join(a: ListItem, b: ListItem)
    modifies a`next, b`prev
    ensures a.next == b && b.prev == a
  {
    b.prev := a;
    a.next := b;
  }

  // They leave out what is behind position k.
  method Bypass(x: ListItem, ghost r: seq<ListItem>, ghost k: nat)
    requires Linked(r) && Distinct(r) && k + 1 < |r| && r[k + 1] == x
    modifies r`next, r`prev
    ensures Linked(WithoutBehind(r, k))
    ensures x.prev == r[k]
  {
    ghost var n := |r|;
    OnlyAt(r, k);
    OnlyAt(r, k + 1);
    OnlyAt(r, After(k + 1, n));
    assert x.next == r[After(k + 1, n)];
    assert x.prev == r[Before(k + 1, n)];
    Join(x.prev, x.next);
    assert LinkedExcept(r, k, After(k + 1, n));
    LinkedPast(r, k);
  }

  // What each step of a walk means for the ring.
  lemma RingAfterRemove<T>(w: Walk<T>, end: T, k: nat)
    requires w.Valid() && k < |w.items| && Distinct([end] + w.items)
    ensures var r, v := [end] + w.items, w.Remove(k);
            && [end] + v.items == WithoutBehind(r, k)
            && ([end] + v.items)[v.cursor] == (if w.cursor == k + 1 then r[k] else r[w.cursor])
            && (w.cursor == k + 1 <==> r[w.cursor] == w.items[k])
            && forall y :: y in v.items ==> y in w.items && y != w.items[k]
  {
    OnlyAt([end] + w.items, k + 1);
    var v := w.Remove(k);
    assert [end] + v.items == WithoutBehind([end] + w.items, k);
    forall y | y in v.items
      ensures y in w.items && y != w.items[k]
    {
      var i :| 0 <= i < |v.items| && v.items[i] == y;
      var j := if i < k then i else i + 1;
      assert w.items[j] == y && ([end] + w.items)[j + 1] == y;
    }
  }

  lemma RingAfterInsertEnd<T>(w: Walk<T>, end: T, x: T)
    requires w.Valid()
    ensures var r, v := [end] + w.items, w.InsertEnd(x);
            && [end] + v.items == WithBehind(r, Before(w.cursor, |r|), x)
            && ([end] + v.items)[v.cursor] == r[w.cursor]
            && forall y :: y in v.items <==> y in w.items || y == x
  {
    var v := w.InsertEnd(x);
    assert [end] + v.items == WithBehind([end] + w.items, Before(w.cursor, |w.items| + 1), x);
    if w.cursor > 0 {
      assert w.items == w.items[..w.cursor - 1] + w.items[w.cursor - 1..];
    }
  }

  lemma RingAfterInsertAt<T>(w: Walk<T>, end: T, k: nat, x: T)
    requires w.Valid() && k <= |w.items|
    ensures var r, v := [end] + w.items, w.InsertAt(k, x);
            && [end] + v.items == WithBehind(r, k, x)
            && ([end] + v.items)[v.cursor] == r[w.cursor]
            && forall y :: y in v.items <==> y in w.items || y == x
  {
    var v := w.InsertAt(k, x);
    assert [end] + v.items == WithBehind([end] + w.items, k, x);
    assert w.items == w.items[..k] + w.items[k..];
  }

  ghost function ValuesOf(items: seq<ListItem>): (v: seq<nat>)
    reads items
    ensures |v| == |items|
  {
    seq(|items|, i requires 0 <= i < |items| reads items => items[i].value)
  }

  lemma ValuesAfterInsert(items: seq<ListItem>, values: seq<nat>, k: nat, x: ListItem)
    requires k <= |items| == |values| && forall i :: 0 <= i < |items| ==> items[i].value == values[i]
    ensures ValuesOf(items[..k] + [x] + items[k..]) == values[..k] + [x.value] + values[k..]
  {
  }

  class List {
    // portMAX_DELAY, the greatest value there is
    const maxDelay: nat
    const end: ListItem
    var index: ListItem
    var count: nat
    ghost var walk: Walk<ListItem>

    // The end marker and then the items.
    ghost function Ring(): (r: seq<ListItem>)
      reads this
    {
      [end] + walk.items
    }

    ghost predicate Valid()
      reads this, end, walk.items
    {
      && walk.Valid()
      && Distinct(Ring()) && Linked(Ring())
      && index == Ring()[walk.cursor] && count == |walk.items|
      && end.value == maxDelay
      && forall x :: x in walk.items ==> x.container == this && x.value <= maxDelay
    }

    // vListInitialise
    constructor (maxDelay: nat)
      ensures Valid() && fresh(end) && walk == Walk([], 0) && this.maxDelay == maxDelay
    {
      var e := new ListItem(maxDelay, 0);
      this.maxDelay := maxDelay;
      end := e;
      index := e;
      count := 0;
      walk := Walk([], 0);
      new;
      e.next := e;
      e.prev := e;
    }

    // listLIST_IS_EMPTY
    method IsEmpty() returns (empty: bool)
      requires Valid()
      ensures empty <==> walk.items == []
    {
      return count == 0;
    }

    // listGET_HEAD_ENTRY
    method HeadEntry() returns (x: ListItem)
      requires Valid() && walk.items != []
      ensures x == walk.items[0]
    {
      assert Ring()[0].next == Ring()[After(0, |Ring()|)];
      return end.next;
    }

    // listGET_OWNER_OF_NEXT_ENTRY, up to the owner of the item
    method NextEntry() returns (x: ListItem)
      requires Valid() && walk.items != []
      modifies this`index, this`walk
      ensures Valid() && walk == old(walk).Next() && x == walk.Current()
    {
      ghost var r := Ring();
      OnlyAt(r, 0);
      assert r[walk.cursor].next == r[After(walk.cursor, |r|)];
      assert r[0].next == r[After(0, |r|)];
      index := index.next;
      if index == end {
        index := end.next;
      }
      walk := walk.Next();
      return index;
    }

    // vListInsertEnd
    method InsertEnd(x: ListItem)
      requires Valid() && x.container == null && x != end && x.value <= maxDelay
      modifies this`count, this`walk, x`next, x`prev, x`container, Ring()`next, Ring()`prev
      ensures Valid() && walk == old(walk).InsertEnd(x)
    {
      ghost var r, c := Ring(), walk.cursor;
      ghost var k := Before(c, |r|);
      DistinctWith(r, k, x);
      RingAfterInsertEnd(walk, end, x);
      SpliceBefore(x, index, r, k);
      ghost var s, items := WithBehind(r, k, x), walk.items;
      x.container := this;
      count := count + 1;
      walk := walk.InsertEnd(x);
      assert Ring() == s && Linked(s);
      forall y | y in walk.items
        ensures y.container == this && y.value <= maxDelay
      {
        assert y in items || y == x;
      }
    }

    // Where vListInsert stops: at the item, or the end marker, that the new one
    // goes behind.
    method Search(v: nat) returns (it: ListItem)
      requires Valid() && v <= maxDelay
      ensures it == Ring()[Place(ValuesOf(walk.items), v)]
    {
      ghost var r, values := Ring(), ValuesOf(walk.items);
      if v == maxDelay {
        assert r[0].prev == r[Before(0, |r|)];
        PlaceOfGreatest(values, v);
        return end.prev;
      }
      it := end;
      ghost var k := 0;
      assert r[0].next == r[After(0, |r|)];
      OnlyAt(r, 0);
      while it.next.value <= v
        invariant k <= Place(values, v) && it == r[k]
        invariant it.next == r[After(k, |r|)]
        decreases |values| - k
      {
        assert k + 1 < |r|;
        assert r[k + 1] == walk.items[k] && values[k] <= v;
        PlaceBeyond(values, v, k);
        it := it.next;
        k := k + 1;
        assert r[k].next == r[After(k, |r|)];
      }
      if k < |values| {
        assert r[k + 1] == walk.items[k] && values[k] > v;
      }
    }

    // The stores of vListInsert, behind item k.
    method InsertBehind(x: ListItem, it: ListItem, ghost k: nat)
      requires Valid() && x.container == null && x != end && x.value <= maxDelay
      requires k <= |walk.items| && it == Ring()[k]
      modifies this`count, this`walk, x`next, x`prev, x`container, Ring()`next, Ring()`prev
      ensures Valid() && walk == old(walk).InsertAt(k, x)
    {
      ghost var r := Ring();
      DistinctWith(r, k, x);
      RingAfterInsertAt(walk, end, k, x);
      SpliceBehind(x, it, r, k);
      ghost var s, items := WithBehind(r, k, x), walk.items;
      x.container := this;
      count := count + 1;
      walk := walk.InsertAt(k, x);
      assert Ring() == s && Linked(s);
      forall y | y in walk.items
        ensures y.container == this && y.value <= maxDelay
      {
        assert y in items || y == x;
      }
    }

    // vListInsert
    method Insert(x: ListItem)
      requires Valid() && x.container == null && x != end && x.value <= maxDelay
      modifies this`count, this`walk, x`next, x`prev, x`container, Ring()`next, Ring()`prev
      ensures Valid() && walk == old(walk.InsertAt(Place(ValuesOf(walk.items), x.value), x))
      ensures old(Sorted(ValuesOf(walk.items))) ==> Sorted(ValuesOf(walk.items))
    {
      ghost var values, items := ValuesOf(walk.items), walk.items;
      ghost var k := Place(values, x.value);
      var it := Search(x.value);
      InsertBehind(x, it, k);
      assert forall i :: 0 <= i < |items| ==> items[i].value == values[i];
      ValuesAfterInsert(items, values, k, x);
      if Sorted(values) {
        PlaceIsStable(values, x.value);
      }
    }

    // uxListRemove; the position is where x is.
    method Remove(x: ListItem, ghost k: nat) returns (left: nat)
      requires Valid() && x.container == this && k < |walk.items| && walk.items[k] == x
      modifies this`count, this`walk, this`index, x`container, Ring()`next, Ring()`prev
      ensures Valid() && walk == old(walk).Remove(k) && x.container == null && left == |walk.items|
    {
      ghost var r := Ring();
      ghost var s, items := WithoutBehind(r, k), walk.items;
      DistinctWithout(r, k);
      RingAfterRemove(walk, end, k);
      Bypass(x, r, k);
      if index == x {
        index := x.prev;
      }
      x.container := null;
      count := count - 1;
      walk := walk.Remove(k);
      assert Ring() == s && Linked(s) && Distinct(s);
      forall y | y in walk.items
        ensures y.container == this && y.value <= maxDelay
      {
        assert y in items && y != x;
      }
      return count;
    }
  }

  lemma PlaceOfGreatest(values: seq<nat>, v: nat)
    requires forall i :: 0 <= i < |values| ==> values[i] <= v
    ensures Place(values, v) == |values|
  {
  }

  // The search goes past every value not above v that no greater one precedes.
  lemma PlaceBeyond(values: seq<nat>, v: nat, k: nat)
    requires k < |values| && values[k] <= v && k <= Place(values, v)
    ensures k < Place(values, v)
  {
  }
}
