/** The id-keyed sortable lists behind the reorder grid and the merge file
    list: every element carries a random string id, drag-and-drop reports the
    id that was dragged (`active`) and the id it was dropped on (`over`), and
    remove filters by id. */
module Sortable {
  import opened Wrappers

  /** A list element: its id and what it stands for. */
  datatype Keyed<T> = Keyed(id: string, val: T)

  /** No id occurs twice. The ids come from `Math.random()`, which does not
      guarantee this; it is assumed wherever a property needs it. */
  predicate UniqueIds<T>(xs: seq<Keyed<T>>) {
    forall i, j :: 0 <= i < j < |xs| ==> xs[i].id != xs[j].id
  }

  predicate HasId<T>(xs: seq<Keyed<T>>, id: string) {
    exists i :: 0 <= i < |xs| && xs[i].id == id
  }

  function Ids<T>(xs: seq<Keyed<T>>): set<string> {
    set i | 0 <= i < |xs| :: xs[i].id
  }

  /** `items.findIndex(item => item.id === id)`: the first position holding
      `id`, or -1. */
  function FindIndex<T>(xs: seq<Keyed<T>>, id: string): (k: int)
    ensures -1 <= k < |xs|
    ensures k >= 0 ==> xs[k].id == id && forall j :: 0 <= j < k ==> xs[j].id != id
    ensures k == -1 <==> !HasId(xs, id)
  {
    if |xs| == 0 then -1
    else if xs[0].id == id then 0
    else
      var k := FindIndex(xs[1..], id);
      assert forall j :: 0 < j < |xs| ==> xs[j] == xs[1..][j - 1];
      if k == -1 then -1 else k + 1
  }

  function RemoveAt<T>(xs: seq<T>, i: nat): seq<T>
    requires i < |xs|
  {
    xs[..i] + xs[i + 1..]
  }

  function InsertAt<T>(xs: seq<T>, i: nat, x: T): seq<T>
    requires i <= |xs|
  {
    xs[..i] + [x] + xs[i..]
  }

  /** How `splice` reads an index in -1 .. n-1 on a list of length n: -1
      counts from the end. (In `arrayMove` the target's `length + to` is
      computed before the moved element is spliced out, so -1 is n-1 for both
      indices.) */
  function SpliceIndex(i: int, n: nat): (k: nat)
    requires n > 0 && -1 <= i < n
    ensures k < n
    ensures i >= 0 ==> k == i
  {
    if i < 0 then n - 1 else i
  }

  /** dnd-kit's `arrayMove(xs, from, to)`: splice the element at `from` out and
      splice it back in at `to`. The result is a permutation holding the moved
      element at `to`; deleting it there gives back the list with it deleted
      at `from`, so every other element keeps its relative order. */
  function ArrayMove<T>(xs: seq<T>, from: int, to: int): (r: seq<T>)
    requires |xs| > 0 && -1 <= from < |xs| && -1 <= to < |xs|
    ensures |r| == |xs|
    ensures multiset(r) == multiset(xs)
    ensures r[SpliceIndex(to, |xs|)] == xs[SpliceIndex(from, |xs|)]
    ensures RemoveAt(r, SpliceIndex(to, |xs|)) == RemoveAt(xs, SpliceIndex(from, |xs|))
  {
    var f := SpliceIndex(from, |xs|);
    var t := SpliceIndex(to, |xs|);
    var rest := RemoveAt(xs, f);
    RemoveAtMultiset(xs, f);
    InsertAtFacts(rest, t, xs[f]);
    InsertAt(rest, t, xs[f])
  }

  lemma {:induction false} RemoveAtMultiset<T>(xs: seq<T>, i: nat)
    requires i < |xs|
    ensures multiset(RemoveAt(xs, i)) + multiset{xs[i]} == multiset(xs)
  {
    assert xs == xs[..i] + [xs[i]] + xs[i + 1..];
  }

  /** Inserting at `i` puts the element there, adds it to the multiset, and
      deleting position `i` afterwards gives the original list back. */
  lemma {:induction false} InsertAtFacts<T>(xs: seq<T>, i: nat, x: T)
    requires i <= |xs|
    ensures InsertAt(xs, i, x)[i] == x
    ensures multiset(InsertAt(xs, i, x)) == multiset(xs) + multiset{x}
    ensures RemoveAt(InsertAt(xs, i, x), i) == xs
  {
    var r := InsertAt(xs, i, x);
    assert xs == xs[..i] + xs[i..];
    assert r[..i] == xs[..i];
    assert r[i + 1..] == xs[i..];
  }

  /** `handleDragEnd`: nothing happens when the drop has no target or the
      item is dropped on itself; otherwise both ids are looked up and the
      list is `arrayMove`d. An empty list renders no sortable item, so no drop
      can be reported on it. */
  function DragEnd<T>(xs: seq<Keyed<T>>, active: string, over: Option<string>): (r: seq<Keyed<T>>)
    ensures over.None? || over.value == active ==> r == xs
    ensures |r| == |xs|
    ensures multiset(r) == multiset(xs)
  {
    if over.Some? && active != over.value && |xs| > 0 then
      ArrayMove(xs, FindIndex(xs, active), FindIndex(xs, over.value))
    else xs
  }

  /** `prev.filter(item => item.id !== id)`. */
  function RemoveById<T>(xs: seq<Keyed<T>>, id: string): (r: seq<Keyed<T>>)
    ensures |r| <= |xs|
    ensures forall k :: 0 <= k < |r| ==> r[k].id != id
    ensures multiset(r) <= multiset(xs)
    ensures forall k :: 0 <= k < |xs| && xs[k].id != id ==> multiset(r)[xs[k]] == multiset(xs)[xs[k]]
  {
    if |xs| == 0 then []
    else
      assert xs == [xs[0]] + xs[1..];
      (if xs[0].id == id then [] else [xs[0]]) + RemoveById(xs[1..], id)
  }

  // ---------------------------------------------------------------------
  // Properties under unique ids
  // ---------------------------------------------------------------------

  lemma {:induction false} SubsetCard<X>(a: set<X>, b: set<X>)
    requires a <= b
    ensures |a| <= |b|
  {
    if a != {} {
      var x :| x in a;
      SubsetCard(a - {x}, b - {x});
    }
  }

  lemma {:induction false} PermutationKeepsIds<T>(xs: seq<Keyed<T>>, ys: seq<Keyed<T>>)
    requires multiset(xs) == multiset(ys)
    ensures Ids(xs) == Ids(ys)
  {
    forall id | id in Ids(xs) ensures id in Ids(ys) {
      var i :| 0 <= i < |xs| && xs[i].id == id;
      assert xs[i] in multiset(ys);
    }
    forall id | id in Ids(ys) ensures id in Ids(xs) {
      var i :| 0 <= i < |ys| && ys[i].id == id;
      assert ys[i] in multiset(xs);
    }
  }

  /** The ids of a non-empty list: the head's and the tail's. */
  lemma {:induction false} IdsCons<T>(xs: seq<Keyed<T>>)
    requires |xs| > 0
    ensures Ids(xs) == Ids(xs[1..]) + {xs[0].id}
  {
    var tail := xs[1..];
    forall id | id in Ids(xs) ensures id in Ids(tail) + {xs[0].id} {
      var i :| 0 <= i < |xs| && xs[i].id == id;
      if i > 0 { assert tail[i - 1] == xs[i]; }
    }
    forall id | id in Ids(tail) ensures id in Ids(xs) {
      var i :| 0 <= i < |tail| && tail[i].id == id;
      assert xs[i + 1] == tail[i];
    }
  }

  lemma {:induction false} IdsBound<T>(xs: seq<Keyed<T>>)
    ensures |Ids(xs)| <= |xs|
  {
    if |xs| > 0 {
      IdsCons(xs);
      IdsBound(xs[1..]);
    }
  }

  lemma {:induction false} UniqueIdsCount<T>(xs: seq<Keyed<T>>)
    requires UniqueIds(xs)
    ensures |Ids(xs)| == |xs|
  {
    if |xs| > 0 {
      var tail := xs[1..];
      IdsCons(xs);
      UniqueIdsCount(tail);
      forall i | 0 <= i < |tail| ensures tail[i].id != xs[0].id {
        assert tail[i] == xs[i + 1];
      }
      assert xs[0].id !in Ids(tail);
    }
  }

  /** Two positions sharing an id leave fewer ids than elements. */
  lemma {:induction false} SharedIdCount<T>(xs: seq<Keyed<T>>, i: nat, j: nat)
    requires i < j < |xs| && xs[i].id == xs[j].id
    ensures |Ids(xs)| < |xs|
  {
    var smaller := RemoveAt(xs, j);
    forall id | id in Ids(xs) ensures id in Ids(smaller) {
      var k :| 0 <= k < |xs| && xs[k].id == id;
      if k < j {
        assert smaller[k] == xs[k];
      } else if k == j {
        assert smaller[i] == xs[i];
      } else {
        assert smaller[k - 1] == xs[k];
      }
    }
    SubsetCard(Ids(xs), Ids(smaller));
    IdsBound(smaller);
  }

  /** A permutation of a unique-id list has unique ids. */
  lemma {:induction false} PermutationKeepsUniqueIds<T>(xs: seq<Keyed<T>>, ys: seq<Keyed<T>>)
    requires UniqueIds(xs) && multiset(xs) == multiset(ys)
    ensures UniqueIds(ys)
  {
    assert |ys| == |multiset(ys)| == |multiset(xs)| == |xs|;
    PermutationKeepsIds(xs, ys);
    UniqueIdsCount(xs);
    forall i, j | 0 <= i < j < |ys| ensures ys[i].id != ys[j].id {
      if ys[i].id == ys[j].id {
        SharedIdCount(ys, i, j);
        assert false;
      }
    }
  }

  /** A drag between two distinct listed ids puts the dragged item at the
      position the target held, leaves every other item in its relative
      order, and keeps the ids unique. */
  lemma {:induction false} DragEndMoves<T>(xs: seq<Keyed<T>>, active: string, over: string)
    requires UniqueIds(xs) && HasId(xs, active) && HasId(xs, over) && active != over
    ensures var r := DragEnd(xs, active, Some(over));
      var f := FindIndex(xs, active);
      var t := FindIndex(xs, over);
      && r[t] == xs[f] && r[t].id == active
      && RemoveAt(r, t) == RemoveAt(xs, f)
      && UniqueIds(r)
  {
    PermutationKeepsUniqueIds(xs, DragEnd(xs, active, Some(over)));
  }

  /** Removing an id that is not listed changes nothing. */
  lemma {:induction false} RemoveByIdAbsent<T>(xs: seq<Keyed<T>>, id: string)
    requires !HasId(xs, id)
    ensures RemoveById(xs, id) == xs
  {
    if |xs| > 0 {
      var tail := xs[1..];
      assert xs == [xs[0]] + tail;
      forall i | 0 <= i < |tail| ensures tail[i].id != id {
        assert tail[i] == xs[i + 1];
      }
      RemoveByIdAbsent(tail, id);
    }
  }

  /** Removing a listed id from a unique-id list deletes exactly its one
      position. */
  lemma {:induction false} RemoveByIdAt<T>(xs: seq<Keyed<T>>, k: nat)
    requires UniqueIds(xs) && k < |xs|
    ensures RemoveById(xs, xs[k].id) == RemoveAt(xs, k)
  {
    var id := xs[k].id;
    var tail := xs[1..];
    if k == 0 {
      TailUnique(xs);
      RemoveByIdCons(xs, id);
      RemoveByIdAbsent(tail, id);
    } else {
      TailUnique(xs);
      assert tail[k - 1] == xs[k];
      RemoveByIdAt(tail, k - 1);
      RemoveByIdCons(xs, id);
      ConsRemoveAt(xs, k);
    }
  }

  /** Deleting position `k > 0` keeps the head in front of the tail with
      position `k - 1` deleted. */
  lemma {:induction false} ConsRemoveAt<T>(xs: seq<T>, k: nat)
    requires 0 < k < |xs|
    ensures [xs[0]] + RemoveAt(xs[1..], k - 1) == RemoveAt(xs, k)
  {
    var l := [xs[0]] + RemoveAt(xs[1..], k - 1);
    var r := RemoveAt(xs, k);
    forall i | 0 <= i < |r| ensures l[i] == r[i] {
      if 0 < i < k {
        assert l[i] == xs[1..][i - 1];
      } else if i >= k {
        assert l[i] == xs[1..][i];
      }
    }
  }

  lemma {:induction false} TailUnique<T>(xs: seq<Keyed<T>>)
    requires UniqueIds(xs) && |xs| > 0
    ensures UniqueIds(xs[1..])
    ensures !HasId(xs[1..], xs[0].id)
  {
    forall i | 0 <= i < |xs| - 1 ensures xs[1..][i].id != xs[0].id {
      assert xs[1..][i] == xs[i + 1];
    }
  }

  /** One step of the filter. */
  lemma {:induction false} RemoveByIdCons<T>(xs: seq<Keyed<T>>, id: string)
    requires |xs| > 0
    ensures xs[0].id == id ==> RemoveById(xs, id) == RemoveById(xs[1..], id)
    ensures xs[0].id != id ==> RemoveById(xs, id) == [xs[0]] + RemoveById(xs[1..], id)
  {
  }

  /** Deleting one position of a unique-id list drops exactly that id. */
  lemma {:induction false} RemoveAtIds<T>(xs: seq<Keyed<T>>, k: nat)
    requires UniqueIds(xs) && k < |xs|
    ensures UniqueIds(RemoveAt(xs, k))
    ensures Ids(RemoveAt(xs, k)) == Ids(xs) - {xs[k].id}
  {
    var r := RemoveAt(xs, k);
    assert forall i :: 0 <= i < k ==> r[i] == xs[i];
    assert forall i :: k <= i < |r| ==> r[i] == xs[i + 1];
    forall x | x in Ids(xs) - {xs[k].id} ensures x in Ids(r) {
      var i :| 0 <= i < |xs| && xs[i].id == x;
      if i < k { assert r[i] == xs[i]; } else { assert r[i - 1] == xs[i]; }
    }
  }

  /** On a unique-id list, remove shortens the list by one exactly when the
      id is listed, keeps the ids unique, and drops just that id. */
  lemma {:induction false} RemoveByIdLength<T>(xs: seq<Keyed<T>>, id: string)
    requires UniqueIds(xs)
    ensures |RemoveById(xs, id)| == if HasId(xs, id) then |xs| - 1 else |xs|
    ensures UniqueIds(RemoveById(xs, id))
    ensures Ids(RemoveById(xs, id)) == Ids(xs) - {id}
  {
    if HasId(xs, id) {
      var k :| 0 <= k < |xs| && xs[k].id == id;
      RemoveByIdAt(xs, k);
      RemoveAtIds(xs, k);
    } else {
      RemoveByIdAbsent(xs, id);
      assert id !in Ids(xs);
    }
  }
}
