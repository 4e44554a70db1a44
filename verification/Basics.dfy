/** Bytes, lists without repetition and small facts about products, shared by the models. */
module Basics {
  type byte = x: int | 0 <= x < 256
  type Bytes = seq<byte>

  // ---------- lists without repetition

  predicate Distinct<T(==)>(items: seq<T>) {
    forall i, j :: 0 <= i < j < |items| ==> items[i] != items[j]
  }

  function Elements<T(==)>(items: seq<T>): set<T> {
    set x | x in items
  }

  lemma {:induction false} DistinctCount<T>(items: seq<T>)
    ensures |Elements(items)| <= |items|
    ensures |Elements(items)| == |items| <==> Distinct(items)
  {
    if items == [] {
      assert Elements(items) == {};
    } else {
      var front, last := items[..|items| - 1], items[|items| - 1];
      DistinctCount(front);
      assert items == front + [last];
      assert Elements(items) == Elements(front) + {last};
      if last in front {
        assert Elements(items) == Elements(front);
        var i :| 0 <= i < |front| && front[i] == last;
        assert items[i] == items[|items| - 1];
      }
    }
  }

  lemma DistinctExtends<T>(items: seq<T>, last: T)
    ensures Distinct(items + [last]) <==> Distinct(items) && last !in items
  {
    var all := items + [last];
    if Distinct(all) {
      forall i, j | 0 <= i < j < |items|
        ensures items[i] != items[j]
      {
        assert all[i] != all[j];
      }
      forall i | 0 <= i < |items|
        ensures items[i] != last
      {
        assert all[i] != all[|items|];
      }
    }
  }

  lemma DistinctConcat<T>(a: seq<T>, b: seq<T>)
    ensures Distinct(a + b) <==>
            Distinct(a) && Distinct(b) && forall x :: x in a ==> x !in b
  {
    var both := a + b;
    if Distinct(both) {
      forall i, j | 0 <= i < j < |a|
        ensures a[i] != a[j]
      {
        assert both[i] != both[j];
      }
      forall i, j | 0 <= i < j < |b|
        ensures b[i] != b[j]
      {
        assert both[|a| + i] != both[|a| + j];
      }
      forall i, j | 0 <= i < |a| && 0 <= j < |b|
        ensures a[i] != b[j]
      {
        assert both[i] != both[|a| + j];
      }
    }
    if Distinct(a) && Distinct(b) && forall x :: x in a ==> x !in b {
      forall i, j | 0 <= i < j < |both|
        ensures both[i] != both[j]
      {
        if i >= |a| {
          assert b[i - |a|] != b[j - |a|];
        } else if j >= |a| {
          assert both[i] in a && both[j] in b;
        }
      }
    }
  }

  // ---------- lists of lists

  function Joined<T>(parts: seq<seq<T>>): seq<T> {
    if parts == [] then [] else parts[0] + Joined(parts[1..])
  }

  lemma {:induction false} JoinedSnoc<T>(parts: seq<seq<T>>, last: seq<T>)
    ensures Joined(parts + [last]) == Joined(parts) + last
  {
    if parts == [] {
      assert Joined([last]) == last + Joined([]);
    } else {
      assert (parts + [last])[1..] == parts[1..] + [last];
      JoinedSnoc(parts[1..], last);
    }
  }

  // ---------- products

  lemma OneMore(n: nat, unit: nat)
    ensures (n + 1) * unit == n * unit + unit
  {
  }

  lemma ProductOrdered(a: nat, b: nat, unit: nat)
    requires a <= b
    ensures a * unit <= b * unit
  {
    assert b * unit == a * unit + (b - a) * unit;
  }
}
