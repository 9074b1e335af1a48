// The lists that the items of one kind can be in, the generic ones or the event
// ones: every co-routine has one such item, which is in at most one of the lists.
//
// The ghost fields are the lists as values of IdList; every method is proved to
// take them through the corresponding step there, and to leave every other list as
// it is.
module ItemLists {
  import opened RoundRobin
  import opened IdList
  import opened KernelList
  import opened Options

  // The items in w are those of the co-routines in v.
  ghost predicate Stands(w: Walk<ListItem>, v: Walk<nat>, items: seq<ListItem>) {
    && w.cursor == v.cursor && |w.items| == |v.items|
    && forall k :: 0 <= k < |v.items| ==> v.items[k] < |items| && w.items[k] == items[v.items[k]]
  }

  // What a proof mentions where it is to look into Valid.
  predicate Look(n: nat) {
    n >= 0
  }

  // vListInsert; k is the place it comes to.
  method InsertAtPlace(l: List, x: ListItem, ghost k: nat)
    requires l.Valid() && x.container == null && x != l.end && x.value <= l.maxDelay
    requires k == Place(ValuesOf(l.walk.items), x.value)
    modifies l`count, l`walk, x`next, x`prev, x`container, l.Ring()`next, l.Ring()`prev
    ensures l.Valid() && l.walk == old(l.walk).InsertAt(k, x) && x.container == l
  {
    l.Insert(x);
    assert x == l.walk.items[k];
  }

  class ItemLists {
    const greatest: nat      // portMAX_DELAY
    const lists: seq<List>
    var items: seq<ListItem>
    // which list each item is in, the lists, and the items' values
    ghost var at: seq<Option<nat>>
    ghost var ids: seq<Ids>
    ghost var values: seq<nat>
    ghost var Repr: set<object>

    ghost predicate Sizes()
      reads this
    {
      && |ids| == |lists| && |at| == |values| == |items|
      && forall c :: 0 <= c < |at| && at[c].Some? ==> at[c].value < |lists|
    }

    // No list or item is another one's.
    ghost predicate Separate()
      reads this
    {
      && this !in Repr
      && (forall i, j :: 0 <= i < j < |lists| ==> lists[i] != lists[j] && lists[i].end != lists[j].end)
      && (forall b, c :: 0 <= b < c < |items| ==> items[b] != items[c])
      && (forall i, c :: 0 <= i < |lists| && 0 <= c < |items| ==> lists[i].end != items[c])
      && (forall i :: 0 <= i < |lists| ==> lists[i] in Repr && lists[i].end in Repr && lists[i].maxDelay == greatest)
      && (forall c :: 0 <= c < |items| ==> items[c] in Repr)
    }

    // Item c is where `at` says, in a list of `ids`.
    ghost predicate ItemOk(c: nat, at: seq<Option<nat>>, ids: seq<Ids>)
      requires c < |items| == |at| == |values| && |ids| == |lists| && (at[c].Some? ==> at[c].value < |lists|)
      reads this, items[c]
    {
      && items[c].owner == c && items[c].value == values[c] <= greatest
      && match at[c]
         case None => items[c].container == null
         case Some(i) => items[c].container == lists[i] && c in ids[i].items
    }

    // The lists are whole, where a proof looks.
    ghost predicate Valid()
      reads this, Repr
    {
      Sizes() && forall n {:trigger Look(n)} :: Look(n) ==> Whole()
    }

    ghost predicate Whole()
      reads this, Repr
    {
      && Sizes() && Separate()
      && (forall i :: 0 <= i < |lists| ==> Stands(lists[i].walk, ids[i], items))
      && (forall i :: 0 <= i < |lists| ==> lists[i].Valid())
      && (forall c :: 0 <= c < |items| ==> ItemOk(c, at, ids))
    }

    // Nothing that an operation on list j and item x changes is part of list i.
    lemma Elsewhere(i: nat, j: nat, c: nat)
      requires Whole() && i < |lists| && j < |lists| && i != j && c < |items|
      requires at[c].None? || at[c].value == j
      ensures lists[i] != lists[j] && lists[i].end != items[c] && lists[i].end !in lists[j].Ring()
      ensures forall x :: x in lists[i].walk.items ==> x != items[c] && x !in lists[j].Ring()
    {
      assert ItemOk(c, at, ids);
      assert lists[i] != lists[j] && lists[i].end != lists[j].end;
    }

    // n lists, initialised, and no items
    constructor (greatest: nat, n: nat)
      ensures Valid() && this.greatest == greatest && |lists| == n && |items| == 0
      ensures |at| == 0 && |values| == 0 && ids == seq(n, i => EMPTY)
      ensures fresh(Repr) && this !in Repr
    {
      this.greatest := greatest;
      var made: seq<List> := [];
      ghost var owned: set<object> := {};
      while |made| < n
        invariant |made| <= n && fresh(owned)
        invariant forall i :: 0 <= i < |made| ==>
          made[i].Valid() && made[i] in owned && made[i].end in owned && made[i].maxDelay == greatest
          && made[i].walk == Walk([], 0)
        invariant forall i, j :: 0 <= i < j < |made| ==> made[i] != made[j] && made[i].end != made[j].end
        decreases n - |made|
      {
        var list := new List(greatest);
        made := made + [list];
        owned := owned + {list, list.end};
      }
      lists, items := made, [];
      at, ids, values, Repr := [], seq(n, i => EMPTY), [], owned;
    }

    // What an operation on list j and item x changes is no part of another list.
    lemma OthersApart(j: nat, c: nat)
      requires Whole() && j < |lists| && c < |items|
      requires at[c].None? || at[c].value == j
      ensures forall i :: 0 <= i < |lists| && i != j ==>
                lists[i] != lists[j] && Untouched(lists[i].Ring(), lists[j].Ring(), items[c])
    {
      forall i | 0 <= i < |lists| && i != j
        ensures lists[i] != lists[j] && Untouched(lists[i].Ring(), lists[j].Ring(), items[c])
      {
        Elsewhere(i, j, c);
      }
    }

    // What the lists have come to hold is noted.
    ghost method Note(at: seq<Option<nat>>, ids: seq<Ids>)
      requires Sizes() && Separate() && |at| == |items| && |ids| == |lists|
      requires forall i :: 0 <= i < |lists| ==> Stands(lists[i].walk, ids[i], items)
      requires forall i :: 0 <= i < |lists| ==> lists[i].Valid()
      requires forall c :: 0 <= c < |items| ==> (at[c].Some? ==> at[c].value < |lists|) && ItemOk(c, at, ids)
      modifies this`at, this`ids
      ensures Whole() && this.at == at && this.ids == ids
    {
      this.at, this.ids := at, ids;
      forall i | 0 <= i < |lists|
        ensures lists[i].Valid()
      {
        assert old(lists[i].Valid());
        StillValid(lists[i]);
      }
      forall c | 0 <= c < |items|
        ensures ItemOk(c, at, ids)
      {
        assert old(ItemOk(c, at, ids));
      }
    }

    ghost function Containers(): (r: seq<List?>)
      reads this, items
      ensures |r| == |items|
    {
      seq(|items|, c requires 0 <= c < |items| reads this, items => items[c].container)
    }

    ghost predicate OwnersOk()
      requires Sizes()
      reads this, items
    {
      forall c :: 0 <= c < |items| ==> items[c].owner == c && items[c].value == values[c] <= greatest
    }

    // If these are the items' containers, they are where they should be.
    ghost predicate PlacesOk(containers: seq<List?>)
      requires Sizes() && |containers| == |items|
      reads this
    {
      forall c :: 0 <= c < |items| ==> PlaceOk(c, containers[c])
    }

    ghost predicate PlaceOk(c: nat, container: List?)
      requires Sizes() && c < |items|
      reads this
    {
      match at[c]
      case None => container == null
      case Some(i) => container == lists[i] && c in ids[i].items
    }

    lemma AllItemsOk()
      requires Whole()
      ensures OwnersOk() && PlacesOk(Containers())
    {
      forall c | 0 <= c < |items|
        ensures items[c].owner == c && items[c].value == values[c] <= greatest && PlaceOk(c, Containers()[c])
      {
        assert ItemOk(c, at, ids);
      }
    }

    // When item c has come to be at `place` and no other item's container has
    // changed, and list j holds what it held but for c, all are where they should be.
    lemma ItemsOk(c: nat, place: Option<nat>, j: nat, was: seq<List?>, a: seq<Option<nat>>, v: seq<Ids>)
      requires Sizes() && c < |items| == |was| && j < |lists| && (place.Some? ==> place.value == j)
      requires a == at[c := place] && |v| == |ids| && v == ids[j := v[j]]
      requires OwnersOk() && PlacesOk(was)
      requires forall b :: 0 <= b < |items| && b != c ==> items[b].container == was[b]
      requires if place.Some? then items[c].container == lists[j] && c in v[j].items else items[c].container == null
      requires forall b :: b in ids[j].items && b != c ==> b in v[j].items
      ensures forall b :: 0 <= b < |items| ==> (a[b].Some? ==> a[b].value < |lists|) && ItemOk(b, a, v)
    {
      forall b | 0 <= b < |items|
        ensures (a[b].Some? ==> a[b].value < |lists|) && ItemOk(b, a, v)
      {
        if b != c {
          assert PlaceOk(b, was[b]);
        }
      }
    }

    method LinkAtEnd(c: nat, j: nat)
      requires Whole() && c < |items| && j < |lists| && at[c].None?
      modifies Repr
      ensures Sizes() && Separate()
      ensures forall i :: 0 <= i < |lists| && i != j ==> lists[i].Valid() && lists[i].walk == old(lists[i].walk)
      ensures lists[j].Valid() && lists[j].walk == old(lists[j].walk).InsertEnd(items[c])
      ensures forall b :: 0 <= b < |items| ==> items[b].value == old(items[b].value)
      ensures forall b :: 0 <= b < |items| ==>
                items[b].container == if b == c then lists[j] else old(items[b].container)
    {
      var x := items[c];
      ghost var ring := lists[j].Ring();
      assert ItemOk(c, at, ids);
      OthersApart(j, c);
      lists[j].InsertEnd(x);
      forall i | 0 <= i < |lists| && i != j
        ensures lists[i].Valid() && lists[i].walk == old(lists[i].walk)
      {
        assert old(lists[i].Valid() && Untouched(lists[i].Ring(), ring, x));
        StillValid(lists[i]);
      }
    }

    // vListInsertEnd of item c on list j
    method PutEnd(c: nat, j: nat)
      requires Valid() && c < |items| && j < |lists| && at[c].None?
      modifies this`at, this`ids, Repr
      ensures Valid()
      ensures at == old(at)[c := Some(j)] && ids == old(ids)[j := old(ids[j]).InsertEnd(c)]
    {
      assert Look(0);
      ghost var a, v := at[c := Some(j)], ids[j := ids[j].InsertEnd(c)];
      EndMembers(ids[j], c);
      StandsAtEnd(lists[j].walk, ids[j], items, c);
      ghost var was := Containers();
      AllItemsOk();
      LinkAtEnd(c, j);
      ItemsOk(c, Some(j), j, was, a, v);
      Note(a, v);
    }

    lemma KeysAreValues(j: nat)
      requires Whole() && j < |lists|
      ensures ValuesOf(lists[j].walk.items) == KeysOf(ids[j].items, values)
    {
      forall k | 0 <= k < |ids[j].items|
        ensures lists[j].walk.items[k].value == values[ids[j].items[k]]
      {
        assert ItemOk(ids[j].items[k], at, ids);
      }
    }

    lemma PlaceByKeys(c: nat, j: nat)
      requires Whole() && c < |items| && j < |lists|
      ensures Place(ValuesOf(lists[j].walk.items), items[c].value) == Place(KeysOf(ids[j].items, values), values[c])
    {
      assert ItemOk(c, at, ids);
      KeysAreValues(j);
    }

    method LinkInOrder(c: nat, j: nat, ghost k: nat)
      requires Whole() && c < |items| && j < |lists| && at[c].None?
      requires k == Place(ValuesOf(lists[j].walk.items), items[c].value)
      modifies Repr
      ensures Sizes() && Separate()
      ensures forall i :: 0 <= i < |lists| && i != j ==> lists[i].Valid() && lists[i].walk == old(lists[i].walk)
      ensures lists[j].Valid() && lists[j].walk == old(lists[j].walk).InsertAt(k, items[c])
      ensures forall b :: 0 <= b < |items| ==> items[b].value == old(items[b].value)
      ensures forall b :: 0 <= b < |items| ==>
                items[b].container == if b == c then lists[j] else old(items[b].container)
    {
      var x := items[c];
      ghost var ring := lists[j].Ring();
      assert ItemOk(c, at, ids);
      OthersApart(j, c);
      InsertAtPlace(lists[j], x, k);
      forall i | 0 <= i < |lists| && i != j
        ensures lists[i].Valid() && lists[i].walk == old(lists[i].walk)
      {
        assert old(lists[i].Valid() && Untouched(lists[i].Ring(), ring, x));
        StillValid(lists[i]);
      }
    }

    // vListInsert of item c into list j
    method PutInOrder(c: nat, j: nat)
      requires Valid() && c < |items| && j < |lists| && at[c].None?
      modifies this`at, this`ids, Repr
      ensures Valid()
      ensures at == old(at)[c := Some(j)]
      ensures ids == old(ids)[j := InsertSorted(old(ids[j]), values, c, values[c])]
    {
      assert Look(0);
      PlaceByKeys(c, j);
      ghost var k := Place(KeysOf(ids[j].items, values), values[c]);
      ghost var a, v := at[c := Some(j)], ids[j := ids[j].InsertAt(k, c)];
      AtMembers(ids[j], k, c);
      StandsAt(lists[j].walk, ids[j], items, k, c);
      ghost var was := Containers();
      AllItemsOk();
      LinkInOrder(c, j, k);
      ItemsOk(c, Some(j), j, was, a, v);
      Note(a, v);
    }

    lemma EachOnceIn(j: nat)
      requires Whole() && j < |lists|
      ensures Good(ids[j])
    {
      var r, s := lists[j].Ring(), ids[j].items;
      forall i, k | 0 <= i < k < |s|
        ensures s[i] != s[k]
      {
        assert Apart(r, i + 1, k + 1);
        assert r[i + 1] == items[s[i]] && r[k + 1] == items[s[k]];
      }
    }

    method Unlink(c: nat, ghost j: nat, ghost k: nat)
      requires Whole() && c < |items| && at[c] == Some(j) && k < |ids[j].items| && ids[j].items[k] == c
      modifies Repr
      ensures Sizes() && Separate()
      ensures forall i :: 0 <= i < |lists| && i != j ==> lists[i].Valid() && lists[i].walk == old(lists[i].walk)
      ensures lists[j].Valid() && lists[j].walk == old(lists[j].walk).Remove(k)
      ensures forall b :: 0 <= b < |items| ==> items[b].value == old(items[b].value)
      ensures forall b :: 0 <= b < |items| ==>
                items[b].container == if b == c then null else old(items[b].container)
    {
      var x := items[c];
      ghost var ring := lists[j].Ring();
      assert ItemOk(c, at, ids);
      OthersApart(j, c);
      var _ := x.container.Remove(x, k);
      forall i | 0 <= i < |lists| && i != j
        ensures lists[i].Valid() && lists[i].walk == old(lists[i].walk)
      {
        assert old(lists[i].Valid() && Untouched(lists[i].Ring(), ring, x));
        StillValid(lists[i]);
      }
    }

    // uxListRemove of item c, from the list it is in
    method Take(c: nat)
      requires Valid() && c < |items| && at[c].Some?
      modifies this`at, this`ids, Repr
      ensures Valid()
      ensures at == old(at)[c := None]
      ensures var j := old(at)[c].value; ids == old(ids)[j := RemoveItem(old(ids)[j], c)]
    {
      assert Look(0);
      assert ItemOk(c, at, ids);
      ghost var j := at[c].value;
      ghost var k := IndexOf(ids[j].items, c);
      ghost var a, v := at[c := None], ids[j := RemoveItem(ids[j], c)];
      EachOnceIn(j);
      RemoveItemTakesOut(ids[j], c);
      StandsWithout(lists[j].walk, ids[j], items, k);
      ghost var was := Containers();
      AllItemsOk();
      Unlink(c, j, k);
      ItemsOk(c, None, j, was, a, v);
      Note(a, v);
    }

    // listLIST_IS_EMPTY
    method IsEmpty(j: nat) returns (empty: bool)
      requires Valid() && j < |lists|
      ensures empty <==> ids[j].items == []
    {
      assert Look(0);
      empty := lists[j].IsEmpty();
    }

    method AdvanceCursor(j: nat) returns (x: ListItem)
      requires Whole() && j < |lists| && ids[j].items != []
      modifies Repr
      ensures Sizes() && Separate()
      ensures forall i :: 0 <= i < |lists| && i != j ==> lists[i].Valid() && lists[i].walk == old(lists[i].walk)
      ensures lists[j].Valid() && lists[j].walk == old(lists[j].walk).Next() && x == lists[j].walk.Current()
      ensures forall b :: 0 <= b < |items| ==>
                items[b].value == old(items[b].value) && items[b].container == old(items[b].container)
    {
      x := lists[j].NextEntry();
      forall i | 0 <= i < |lists| && i != j
        ensures lists[i].Valid() && lists[i].walk == old(lists[i].walk)
      {
        assert old(lists[i].Valid());
        assert lists[i] != lists[j];
        StillValid(lists[i]);
      }
    }

    lemma OwnerOf(c: nat)
      requires Whole() && c < |items|
      ensures items[c].owner == c
    {
      assert ItemOk(c, at, ids);
    }

    // listGET_OWNER_OF_NEXT_ENTRY
    method Next(j: nat) returns (c: nat)
      requires Valid() && j < |lists| && ids[j].items != []
      modifies this`at, this`ids, Repr
      ensures Valid() && at == old(at) && ids == old(ids)[j := old(ids)[j].Next()] && c == ids[j].Current()
    {
      assert Look(0);
      ghost var v := ids[j := ids[j].Next()];
      StandsNext(lists[j].walk, ids[j], items);
      OwnerOf(ids[j].Next().Current());
      var x := AdvanceCursor(j);
      c := x.owner;
      forall b | 0 <= b < |items|
        ensures (at[b].Some? ==> at[b].value < |lists|) && ItemOk(b, at, v)
      {
        assert old(ItemOk(b, at, ids));
      }
      Note(at, v);
    }

    // listSET_LIST_ITEM_VALUE, of an item that is in no list
    method SetValue(c: nat, value: nat)
      requires Valid() && c < |items| && at[c].None? && value <= greatest
      modifies this`values, Repr
      ensures Valid() && values == old(values)[c := value]
    {
      assert Look(0);
      assert ItemOk(c, at, ids);
      var x := items[c];
      x.value := value;
      values := values[c := value];
      forall i | 0 <= i < |lists|
        ensures lists[i].Valid()
      {
        assert old(lists[i].Valid());
        StillValid(lists[i]);
      }
      forall b | 0 <= b < |items|
        ensures ItemOk(b, at, ids)
      {
        assert old(ItemOk(b, at, ids));
      }
    }

    // listGET_LIST_ITEM_VALUE
    method Value(c: nat) returns (value: nat)
      requires Valid() && c < |items|
      ensures value == values[c]
    {
      assert Look(0);
      assert ItemOk(c, at, ids);
      return items[c].value;
    }

    // Whether the item is in a list
    method InList(c: nat) returns (listed: bool)
      requires Valid() && c < |items|
      ensures listed <==> at[c].Some?
    {
      assert Look(0);
      assert ItemOk(c, at, ids);
      return items[c].container != null;
    }

    // The item of a new co-routine, in no list
    method Add(value: nat)
      requires Valid() && value <= greatest
      modifies this
      ensures Valid() && |items| == old(|items|) + 1
      ensures at == old(at) + [None] && values == old(values) + [value] && ids == old(ids)
      ensures old(Repr) <= Repr && fresh(Repr - old(Repr))
    {
      assert Look(0);
      var x := new ListItem(value, |items|);
      forall i | 0 <= i < |lists|
        ensures Stands(lists[i].walk, ids[i], items + [x])
      {
        StandsMore(lists[i].walk, ids[i], items, x);
      }
      items, at, values, Repr := items + [x], at + [None], values + [value], Repr + {x};
      forall i | 0 <= i < |lists|
        ensures lists[i].Valid()
      {
        assert old(lists[i].Valid());
        StillValid(lists[i]);
      }
      forall b | 0 <= b < |items|
        ensures ItemOk(b, at, ids)
      {
        assert b < |items| - 1 ==> old(ItemOk(b, at, ids));
      }
    }

    // listGET_OWNER_OF_HEAD_ENTRY
    method Head(j: nat) returns (c: nat)
      requires Valid() && j < |lists| && ids[j].items != []
      ensures c == ids[j].items[0] && c < |items|
    {
      assert Look(0);
      var x := lists[j].HeadEntry();
      assert ItemOk(ids[j].items[0], at, ids);
      return x.owner;
    }
  }

  // Links that nobody has touched
  twostate lemma StillLinked(r: seq<ListItem>)
    requires old(Linked(r))
    requires forall k :: 0 <= k < |r| ==> r[k].next == old(r[k].next) && r[k].prev == old(r[k].prev)
    ensures Linked(r)
  {
    forall k {:trigger r[k].next} {:trigger r[k].prev} | 0 <= k < |r|
      ensures r[k].next == r[After(k, |r|)] && r[k].prev == r[Before(k, |r|)]
    {
      assert old(r[k].next) == r[After(k, |r|)];
      assert old(r[k].prev) == r[Before(k, |r|)];
    }
  }

  // A list none of whose items was touched
  twostate lemma StillValid(l: List)
    requires old(l.Valid()) && unchanged(l)
    requires forall y :: y in old(l.Ring()) ==> y.next == old(y.next) && y.prev == old(y.prev)
    requires forall y :: y in old(l.Ring()) ==> y.value == old(y.value) && y.container == old(y.container)
    ensures l.Valid()
  {
    var r := l.Ring();
    assert forall k :: 0 <= k < |r| ==> r[k] in r;
    StillLinked(r);
    assert l.end in r;
    assert forall y :: y in l.walk.items ==> y in r;
  }

  ghost predicate Untouched(r: seq<ListItem>, ring: seq<ListItem>, x: ListItem) {
    forall y :: y in r ==> y != x && y !in ring
  }

  lemma StandsMore(w: Walk<ListItem>, v: Ids, items: seq<ListItem>, x: ListItem)
    requires Stands(w, v, items)
    ensures Stands(w, v, items + [x])
  {
  }

  lemma StandsAtEnd(w: Walk<ListItem>, v: Ids, items: seq<ListItem>, c: nat)
    requires Stands(w, v, items) && c < |items|
    ensures w.Valid() && Stands(w.InsertEnd(items[c]), v.InsertEnd(c), items)
  {
    var a, b, n := w.InsertEnd(items[c]), v.InsertEnd(c), if v.cursor == 0 then |v.items| else v.cursor - 1;
    forall k | 0 <= k < |b.items|
      ensures b.items[k] < |items| && a.items[k] == items[b.items[k]]
    {
      if k < n {
        assert b.items[k] == v.items[k] && a.items[k] == w.items[k];
      } else if k > n {
        assert b.items[k] == v.items[k - 1] && a.items[k] == w.items[k - 1];
      }
    }
  }

  lemma EndMembers(v: Ids, c: nat)
    ensures forall b :: b in v.InsertEnd(c).items <==> b in v.items || b == c
  {
    var u := v.InsertEnd(c);
    if v.cursor > 0 {
      assert v.items == v.items[..v.cursor - 1] + v.items[v.cursor - 1..];
    }
  }

  lemma StandsAt(w: Walk<ListItem>, v: Ids, items: seq<ListItem>, k: nat, c: nat)
    requires Stands(w, v, items) && c < |items| && k <= |v.items|
    ensures w.Valid() && Stands(w.InsertAt(k, items[c]), v.InsertAt(k, c), items)
  {
  }

  lemma AtMembers(v: Ids, k: nat, c: nat)
    requires k <= |v.items|
    ensures forall b :: b in v.InsertAt(k, c).items <==> b in v.items || b == c
  {
    assert v.items == v.items[..k] + v.items[k..];
  }

  lemma StandsWithout(w: Walk<ListItem>, v: Ids, items: seq<ListItem>, k: nat)
    requires Stands(w, v, items) && k < |v.items|
    ensures w.Valid() && Stands(w.Remove(k), v.Remove(k), items)
  {
  }

  lemma StandsNext(w: Walk<ListItem>, v: Ids, items: seq<ListItem>)
    requires Stands(w, v, items) && v.items != []
    ensures w.Valid() && w.items != [] && Stands(w.Next(), v.Next(), items)
    ensures v.Next().Current() < |items| && w.Next().Current() == items[v.Next().Current()]
  {
  }
}
