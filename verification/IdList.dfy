// The kernel's list as it is used by rtos/kernels/src/croutine.c: its items are
// co-routines, here their numbers, each in a list at most once.
module IdList {
  import opened RoundRobin

  type Ids = w: Walk<nat> | w.Valid() witness Walk([], 0)

  const EMPTY: Ids := Walk([], 0)

  ghost predicate Good(w: Ids) {
    forall i, j :: 0 <= i < j < |w.items| ==> w.items[i] != w.items[j]
  }

  function IndexOf(s: seq<nat>, c: nat): (k: nat)
    requires c in s
    ensures k < |s| && s[k] == c
  {
    if s[0] == c then 0 else 1 + IndexOf(s[1..], c)
  }

  // uxListRemove by way of the item's container
  function RemoveItem(w: Ids, c: nat): (v: Ids) {
    if c in w.items then w.Remove(IndexOf(w.items, c)) else w
  }

  lemma RemoveItemTakesOut(w: Ids, c: nat)
    requires Good(w)
    ensures Good(RemoveItem(w, c))
    ensures forall x :: x in RemoveItem(w, c).items <==> x in w.items && x != c
    ensures |RemoveItem(w, c).items| == |w.items| - if c in w.items then 1 else 0
  {
    if c in w.items {
      var k, s := IndexOf(w.items, c), w.items;
      var t := RemoveItem(w, c).items;
      assert t == s[..k] + s[k + 1..];
      forall x | x in s && x != c
        ensures x in t
      {
        var i :| 0 <= i < |s| && s[i] == x;
        assert t[if i < k then i else i - 1] == x;
      }
    }
  }

  lemma InsertEndPutsIn(w: Ids, c: nat)
    requires Good(w) && c !in w.items
    ensures Good(w.InsertEnd(c))
    ensures forall x :: x in w.InsertEnd(c).items <==> x in w.items || x == c
  {
    if w.cursor > 0 {
      InsertPutsIn(w, w.cursor - 1, c);
    }
  }

  lemma InsertPutsIn(w: Ids, k: nat, c: nat)
    requires Good(w) && c !in w.items && k <= |w.items|
    ensures Good(w.InsertAt(k, c))
    ensures forall x :: x in w.InsertAt(k, c).items <==> x in w.items || x == c
    ensures w.InsertAt(k, c).items == w.items[..k] + [c] + w.items[k..]
  {
    assert w.items == w.items[..k] + w.items[k..];
  }

  lemma NextKeeps(w: Ids)
    requires Good(w) && w.items != []
    ensures Good(w.Next()) && w.Next().items == w.items && w.Next().Current() in w.items
  {
  }

  // ----- sorted by a key -----

  // keys[c] is the value of co-routine c's list item.
  function KeysOf(items: seq<nat>, keys: seq<nat>): (v: seq<nat>)
    ensures |v| == |items|
  {
    seq(|items|, i requires 0 <= i < |items| => if items[i] < |keys| then keys[items[i]] else 0)
  }

  ghost predicate SortedBy(w: Ids, keys: seq<nat>) {
    Sorted(KeysOf(w.items, keys))
  }

  // vListInsert of c, whose value is v
  function InsertSorted(w: Ids, keys: seq<nat>, c: nat, v: nat): (u: Ids) {
    w.InsertAt(Place(KeysOf(w.items, keys), v), c)
  }

  lemma InsertSortedPutsIn(w: Ids, keys: seq<nat>, c: nat, v: nat)
    requires Good(w) && c !in w.items && SortedBy(w, keys)
    requires c < |keys| && keys[c] == v
    ensures var u := InsertSorted(w, keys, c, v);
            && Good(u) && SortedBy(u, keys)
            && forall x :: x in u.items <==> x in w.items || x == c
  {
    var values := KeysOf(w.items, keys);
    var k := Place(values, v);
    InsertPutsIn(w, k, c);
    PlaceIsStable(values, v);
    assert KeysOf(InsertSorted(w, keys, c, v).items, keys) == values[..k] + [v] + values[k..];
  }

  lemma RemoveKeepsSorted(w: Ids, keys: seq<nat>, c: nat)
    requires Good(w) && SortedBy(w, keys)
    ensures SortedBy(RemoveItem(w, c), keys)
  {
    if c in w.items {
      var k := IndexOf(w.items, c);
      var v := KeysOf(w.items, keys);
      assert KeysOf(RemoveItem(w, c).items, keys) == v[..k] + v[k + 1..];
    }
  }

  lemma SameKeysSameOrder(w: Ids, keys: seq<nat>, others: seq<nat>)
    requires SortedBy(w, keys) && |keys| <= |others|
    requires forall c :: c in w.items ==> c < |keys| && keys[c] == others[c]
    ensures SortedBy(w, others)
  {
    assert KeysOf(w.items, keys) == KeysOf(w.items, others);
  }

  // The head has the least key.
  lemma HeadIsLeast(w: Ids, keys: seq<nat>, c: nat)
    requires SortedBy(w, keys) && c in w.items
    requires forall x :: x in w.items ==> x < |keys|
    ensures w.items[0] < |keys| && c < |keys| && keys[w.items[0]] <= keys[c]
  {
    assert w.items[0] in w.items;
    var i :| 0 <= i < |w.items| && w.items[i] == c;
    var v := KeysOf(w.items, keys);
    assert v[0] <= v[i];
  }
}
