// The kernel's list as a value: the items in order and a cursor. Position 0 of
// the cursor is the end marker, position k the k-th item.
//
// rtos/kernels/src/list.c and rtos/kernels/include/list.h
module RoundRobin {
  import opened Sequences

  datatype Walk<T> = Walk(items: seq<T>, cursor: nat) {
    predicate Valid() {
      cursor <= |items|
    }

    // The items in the order in which stepping the cursor will return them; the
    // one the cursor is on comes last.
    function Upcoming(): (s: seq<T>)
      requires Valid()
    {
      items[cursor..] + items[..cursor]
    }

    // listGET_OWNER_OF_NEXT_ENTRY
    function Next(): (w: Walk<T>)
      requires Valid() && items != []
      ensures w.Valid() && w.cursor > 0
    {
      Walk(items, if cursor == |items| then 1 else cursor + 1)
    }

    function Current(): T
      requires Valid() && cursor > 0
    {
      items[cursor - 1]
    }

    // vListInsertEnd: in front of the cursor's position, going round.
    function InsertEnd(x: T): (w: Walk<T>)
      requires Valid()
      ensures w.Valid()
    {
      if cursor == 0 then Walk(items + [x], 0)
      else Walk(items[..cursor - 1] + [x] + items[cursor - 1..], cursor + 1)
    }

    // The item that becomes the k-th one; the cursor stays on its item.
    function InsertAt(k: nat, x: T): (w: Walk<T>)
      requires Valid() && k <= |items|
      ensures w.Valid()
    {
      Walk(items[..k] + [x] + items[k..], if cursor <= k then cursor else cursor + 1)
    }

    // uxListRemove of item k, counted from 0; a cursor on it steps back.
    function Remove(k: nat): (w: Walk<T>)
      requires Valid() && k < |items|
      ensures w.Valid()
    {
      Walk(items[..k] + items[k + 1..], if cursor <= k then cursor else cursor - 1)
    }
  }

  // Stepping returns the first upcoming item and sends it to the back.
  lemma NextRotates<T>(w: Walk<T>)
    requires w.Valid() && w.items != []
    ensures var s := w.Upcoming();
            s != [] && w.Next().Current() == s[0] && w.Next().Upcoming() == s[1..] + [s[0]]
  {
    var s, n := w.Upcoming(), |w.items|;
    if w.cursor == n {
      assert s == w.items;
    }
  }

  // The items that k steps return.
  function Returned<T>(w: Walk<T>, k: nat): seq<T>
    requires w.Valid() && w.items != []
    decreases k
  {
    if k == 0 then [] else [w.Next().Current()] + Returned(w.Next(), k - 1)
  }

  lemma RotatedPrefix<T>(s: seq<T>, k: nat)
    requires 0 < k <= |s|
    ensures s[..k] == [s[0]] + (s[1..] + [s[0]])[..k - 1]
  {
  }

  lemma {:induction false} ReturnedInOrder<T>(w: Walk<T>, k: nat)
    requires w.Valid() && w.items != [] && k <= |w.items|
    ensures Returned(w, k) == w.Upcoming()[..k]
    decreases k
  {
    if k > 0 {
      NextRotates(w);
      ReturnedInOrder(w.Next(), k - 1);
      RotatedPrefix(w.Upcoming(), k);
    }
  }

  lemma RotationKeepsItems<T>(s: seq<T>, c: nat)
    requires c <= |s|
    ensures multiset(s[c..] + s[..c]) == multiset(s)
  {
    assert s == s[..c] + s[c..];
  }

  // Any n consecutive steps through an unchanged list of n items return each item
  // exactly once.
  lemma EachOnce<T>(w: Walk<T>)
    requires w.Valid() && w.items != []
    ensures Returned(w, |w.items|) == w.Upcoming()
    ensures multiset(Returned(w, |w.items|)) == multiset(w.items)
  {
    ReturnedInOrder(w, |w.items|);
    RotationKeepsItems(w.items, w.cursor);
    var s := w.Upcoming();
    assert |s| == |w.items|;
    assert s[..|s|] == s;
  }

  // In turn x has come behind all others but the one the cursor is on, if it is on
  // one.
  predicate JoinsLast<T(==)>(w: Walk<T>, v: Walk<T>, x: T)
    requires w.Valid() && v.Valid()
  {
    var s := w.Upcoming();
    v.Upcoming() == if w.cursor == 0 then s + [x] else s[..|s| - 1] + [x] + [s[|s| - 1]]
  }

  // A new item at the end comes after every other item except the one the cursor
  // is on, if it is on one.
  lemma InsertEndComesLast<T>(w: Walk<T>, x: T)
    requires w.Valid()
    ensures JoinsLast(w, w.InsertEnd(x), x)
  {
    var s, c := w.Upcoming(), w.cursor;
    if c == 0 {
      assert s == w.items;
    } else {
      var after := w.InsertEnd(x).items;
      assert after[c + 1..] == w.items[c..];
      assert after[..c + 1] == w.items[..c - 1] + [x] + [w.items[c - 1]];
      assert s[..|s| - 1] == w.items[c..] + w.items[..c - 1];
    }
  }

  // Cutting out element k of a sequence rotated by c.
  lemma CutRotated<T>(s: seq<T>, c: nat, k: nat)
    requires c <= |s| && k < |s|
    ensures var r := s[c..] + s[..c];
            var i := if k >= c then k - c else k + |s| - c;
            && r[i] == s[k]
            && (k >= c ==> r[..i] == s[c..k] && r[i + 1..] == s[k + 1..] + s[..c])
            && (k < c ==> r[..i] == s[c..] + s[..k] && r[i + 1..] == s[k + 1..c])
  {
  }

  lemma RotateCut<T>(s: seq<T>, c: nat, k: nat)
    requires c <= |s| && k < |s|
    ensures var t := s[..k] + s[k + 1..];
            && (k >= c ==> t[c..] == s[c..k] + s[k + 1..] && t[..c] == s[..c])
            && (k < c ==> t[c - 1..] == s[c..] && t[..c - 1] == s[..k] + s[k + 1..c])
  {
  }

  lemma RemoveAhead<T>(s: seq<T>, c: nat, k: nat)
    requires c <= k < |s|
    ensures var r, t := s[c..] + s[..c], s[..k] + s[k + 1..];
            t[c..] + t[..c] == r[..k - c] + r[k - c + 1..]
  {
    CutRotated(s, c, k);
    RotateCut(s, c, k);
    Regroup(s[c..k], s[k + 1..], s[..c]);
  }

  lemma RemoveBehind<T>(s: seq<T>, c: nat, k: nat)
    requires k < c <= |s|
    ensures var r, t, i := s[c..] + s[..c], s[..k] + s[k + 1..], k + |s| - c;
            t[c - 1..] + t[..c - 1] == r[..i] + r[i + 1..]
  {
    CutRotated(s, c, k);
    RotateCut(s, c, k);
    Regroup(s[c..], s[..k], s[k + 1..c]);
  }

  // Removing an item, the cursor's own or another, takes it out of what is coming
  // and neither skips nor repeats any other.
  lemma RemoveOnlyRemoves<T>(w: Walk<T>, k: nat)
    requires w.Valid() && k < |w.items|
    ensures var s := w.Upcoming();
            var i := if k >= w.cursor then k - w.cursor else k + |w.items| - w.cursor;
            s[i] == w.items[k] && w.Remove(k).Upcoming() == s[..i] + s[i + 1..]
  {
    if k >= w.cursor {
      RemoveAhead(w.items, w.cursor, k);
    } else {
      RemoveBehind(w.items, w.cursor, k);
    }
  }

  // Removing what was just inserted gives the list back, cursor and all.
  lemma InsertThenRemove<T>(w: Walk<T>, k: nat, x: T)
    requires w.Valid() && k <= |w.items|
    ensures w.InsertAt(k, x).Remove(k) == w
  {
    assert w.items[..k] + w.items[k..] == w.items;
  }

  // Putting what was removed back in its place always gives the items back, and the
  // cursor if and only if it was not on that item.
  lemma RemoveThenInsert<T>(w: Walk<T>, k: nat)
    requires w.Valid() && k < |w.items|
    ensures var v := w.Remove(k).InsertAt(k, w.items[k]);
            v.items == w.items && (v == w <==> w.cursor != k + 1)
  {
    var t := w.Remove(k);
    assert t.items[..k] == w.items[..k] && t.items[k..] == w.items[k + 1..];
    assert w.items == w.items[..k] + [w.items[k]] + w.items[k + 1..];
  }

  // ----- sorted insertion -----

  predicate Sorted(values: seq<nat>) {
    forall i, j :: 0 <= i < j < |values| ==> values[i] <= values[j]
  }

  // Where the search of vListInsert stops: before the first greater value.
  function Place(values: seq<nat>, v: nat): (k: nat)
    ensures k <= |values|
    ensures forall i :: 0 <= i < k ==> values[i] <= v
    ensures k < |values| ==> values[k] > v
  {
    if values == [] || values[0] > v then 0 else 1 + Place(values[1..], v)
  }

  // In a sorted list the new value lands behind every value not above it, so
  // behind its equals, and the list stays sorted.
  lemma PlaceIsStable(values: seq<nat>, v: nat)
    requires Sorted(values)
    ensures var k := Place(values, v);
            && Sorted(values[..k] + [v] + values[k..])
            && forall i :: 0 <= i < |values| ==> (i < k <==> values[i] <= v)
  {
  }
}
