/** The order of identifiers, and lists put into that order. */
module IdOrder {
  import opened Basics

  type Id = string

  /** Lexicographic order of strings. */
  predicate AtMost(a: Id, b: Id) {
    a == [] || (b != [] && (a[0] < b[0] || (a[0] == b[0] && AtMost(a[1..], b[1..]))))
  }

  lemma {:induction false} AtMostTotal(a: Id, b: Id)
    ensures AtMost(a, b) || AtMost(b, a)
    ensures AtMost(a, b) && AtMost(b, a) ==> a == b
  {
    if a != [] && b != [] {
      AtMostTotal(a[1..], b[1..]);
      assert a == [a[0]] + a[1..] && b == [b[0]] + b[1..];
    }
  }

  lemma {:induction false} AtMostTransitive(a: Id, b: Id, c: Id)
    requires AtMost(a, b) && AtMost(b, c)
    ensures AtMost(a, c)
  {
    if a != [] {
      if a[0] == b[0] == c[0] {
        AtMostTransitive(a[1..], b[1..], c[1..]);
      }
    }
  }

  // ---------- lists sorted by a key

  predicate InOrder<T>(key: T -> Id, items: seq<T>) {
    forall i, j :: 0 <= i < j < |items| ==> AtMost(key(items[i]), key(items[j]))
  }

  function InsertBy<T>(key: T -> Id, x: T, items: seq<T>): seq<T> {
    if items == [] || AtMost(key(x), key(items[0])) then [x] + items else [items[0]] + InsertBy(key, x, items[1..])
  }

  function SortedBy<T>(key: T -> Id, items: seq<T>): seq<T> {
    if items == [] then [] else InsertBy(key, items[0], SortedBy(key, items[1..]))
  }

  /** The items with this key, in their order. */
  function WithKey<T>(key: T -> Id, items: seq<T>, id: Id): seq<T> {
    if items == [] then []
    else (if key(items[0]) == id then [items[0]] else []) + WithKey(key, items[1..], id)
  }

  lemma {:induction false} InsertedOnce<T>(key: T -> Id, x: T, items: seq<T>)
    ensures multiset(InsertBy(key, x, items)) == multiset{x} + multiset(items)
  {
    if items != [] {
      assert items == [items[0]] + items[1..];
      InsertedOnce(key, x, items[1..]);
    }
  }

  lemma {:induction false} InsertKeeps<T>(key: T -> Id, x: T, items: seq<T>)
    ensures InOrder(key, items) ==> InOrder(key, InsertBy(key, x, items))
  {
    if items != [] {
      AtMostTotal(key(x), key(items[0]));
      if AtMost(key(x), key(items[0])) {
        forall i | InOrder(key, items) && 0 <= i < |items|
          ensures AtMost(key(x), key(items[i]))
        {
          if i > 0 {
            AtMostTransitive(key(x), key(items[0]), key(items[i]));
          }
        }
      } else {
        InsertKeeps(key, x, items[1..]);
        InsertedOnce(key, x, items[1..]);
        var rest := InsertBy(key, x, items[1..]);
        forall i | InOrder(key, items) && 0 <= i < |rest|
          ensures AtMost(key(items[0]), key(rest[i]))
        {
          assert rest[i] in multiset(rest);
          if rest[i] in items[1..] {
            var j :| 1 <= j < |items| && items[j] == rest[i];
          }
        }
      }
    }
  }

  /** Sorting rearranges and orders. */
  lemma {:induction false} SortedIsRearranged<T>(key: T -> Id, items: seq<T>)
    ensures multiset(SortedBy(key, items)) == multiset(items) && InOrder(key, SortedBy(key, items))
    ensures |SortedBy(key, items)| == |items|
  {
    if items != [] {
      SortedIsRearranged(key, items[1..]);
      InsertedOnce(key, items[0], SortedBy(key, items[1..]));
      InsertKeeps(key, items[0], SortedBy(key, items[1..]));
      assert items == [items[0]] + items[1..];
    }
    assert |multiset(SortedBy(key, items))| == |SortedBy(key, items)| && |multiset(items)| == |items|;
  }

  lemma {:induction false} InsertIsStable<T>(key: T -> Id, x: T, items: seq<T>, id: Id)
    ensures WithKey(key, InsertBy(key, x, items), id)
            == (if key(x) == id then [x] else []) + WithKey(key, items, id)
  {
    if items == [] || AtMost(key(x), key(items[0])) {
      WithKeyFront(key, x, items, id);
    } else {
      var rest := InsertBy(key, x, items[1..]);
      WithKeyFront(key, items[0], rest, id);
      WithKeyFront(key, items[0], items[1..], id);
      assert items == [items[0]] + items[1..];
      InsertIsStable(key, x, items[1..], id);
      AtMostTotal(key(x), key(items[0]));
      hide WithKey;
      if key(x) == id {
        assert WithKey(key, items, id) == [] + WithKey(key, items[1..], id);
      }
    }
  }

  lemma WithKeyFront<T>(key: T -> Id, x: T, items: seq<T>, id: Id)
    ensures WithKey(key, [x] + items, id) == (if key(x) == id then [x] else []) + WithKey(key, items, id)
  {
    assert ([x] + items)[1..] == items;
  }

  /** Items with the same key stay in order. */
  lemma {:induction false} SortIsStable<T>(key: T -> Id, items: seq<T>, id: Id)
    ensures WithKey(key, SortedBy(key, items), id) == WithKey(key, items, id)
  {
    if items != [] {
      SortIsStable(key, items[1..], id);
      InsertIsStable(key, items[0], SortedBy(key, items[1..]), id);
    }
  }

  // ---------- sorted identifiers

  function Itself(id: Id): Id {
    id
  }

  function Sorted(ids: seq<Id>): seq<Id> {
    SortedBy(Itself, ids)
  }

  predicate Ascending(ids: seq<Id>) {
    InOrder(Itself, ids)
  }

  lemma {:induction false} DistinctIsOnce(ids: seq<Id>)
    ensures Distinct(ids) <==> forall id :: multiset(ids)[id] <= 1
  {
    if ids != [] {
      var front, last := ids[..|ids| - 1], ids[|ids| - 1];
      DistinctIsOnce(front);
      DistinctExtends(front, last);
      assert ids == front + [last];
      assert multiset(ids) == multiset(front) + multiset{last};
      assert forall id :: multiset(ids)[id] == multiset(front)[id] + if id == last then 1 else 0;
      assert last in front <==> multiset(front)[last] > 0;
    }
  }

  lemma SortedMembers(ids: seq<Id>)
    ensures Distinct(Sorted(ids)) <==> Distinct(ids)
    ensures forall id :: id in Sorted(ids) <==> id in ids
  {
    SortedIsRearranged(Itself, ids);
    DistinctIsOnce(ids);
    DistinctIsOnce(Sorted(ids));
    forall id
      ensures id in Sorted(ids) <==> id in ids
    {
      assert id in Sorted(ids) <==> id in multiset(Sorted(ids));
      assert id in ids <==> id in multiset(ids);
    }
  }

  /** In a sorted list duplicates stand side by side, so looking at neighbours finds them all. */
  lemma NeighboursSuffice(ids: seq<Id>)
    requires Ascending(ids)
    ensures Distinct(ids) <==> forall i :: 0 <= i < |ids| - 1 ==> ids[i] != ids[i + 1]
  {
    if i, j :| 0 <= i < j < |ids| && ids[i] == ids[j] {
      if j > i + 1 {
        AtMostTotal(ids[i], ids[i + 1]);
        assert AtMost(ids[i + 1], ids[j]);
      }
      assert ids[i] == ids[i + 1];
    }
  }
}
