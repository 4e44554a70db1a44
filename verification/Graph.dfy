/** Directed graphs as successor lists, their walks and their cycles. */
module Graph {
  import opened Basics

  /** A node without an entry has no successors. */
  function Succ<T(==)>(g: map<T, seq<T>>, n: T): seq<T> {
    if n in g then g[n] else []
  }

  predicate Edge<T(==)>(g: map<T, seq<T>>, from: T, to: T) {
    to in Succ(g, from)
  }

  predicate Walk<T(==)>(g: map<T, seq<T>>, p: seq<T>) {
    p != [] && forall i :: 0 <= i < |p| - 1 ==> Edge(g, p[i], p[i + 1])
  }

  predicate WalkBetween<T(==)>(g: map<T, seq<T>>, a: T, b: T, p: seq<T>) {
    Walk(g, p) && p[0] == a && p[|p| - 1] == b
  }

  ghost predicate Reaches<T(!new)>(g: map<T, seq<T>>, a: T, b: T) {
    exists p :: WalkBetween(g, a, b, p)
  }

  /** A closed walk with at least one edge passes through `a`. */
  ghost predicate OnCycle<T(!new)>(g: map<T, seq<T>>, a: T) {
    exists p :: WalkBetween(g, a, a, p) && |p| >= 2
  }

  ghost predicate CycleReachable<T(!new)>(g: map<T, seq<T>>, a: T) {
    exists b :: Reaches(g, a, b) && OnCycle(g, b)
  }

  /** `n` is the number of nodes on the longest walk from `a`. */
  ghost predicate LongestWalk<T(!new)>(g: map<T, seq<T>>, a: T, n: nat) {
    && (exists p :: Walk(g, p) && p[0] == a && |p| == n)
    && (forall p :: Walk(g, p) && p[0] == a ==> |p| <= n)
  }

  lemma WalkSplit<T>(g: map<T, seq<T>>, p: seq<T>, i: nat)
    requires Walk(g, p) && i < |p|
    ensures Walk(g, p[..i + 1]) && Walk(g, p[i..])
  {
  }

  /** Two walks that share an endpoint. */
  lemma WalkJoin<T>(g: map<T, seq<T>>, p: seq<T>, q: seq<T>)
    requires Walk(g, p) && Walk(g, q) && p[|p| - 1] == q[0]
    ensures Walk(g, p + q[1..]) && (p + q[1..])[|p| + |q| - 2] == q[|q| - 1]
  {
    var r := p + q[1..];
    forall i | 0 <= i < |r| - 1
      ensures Edge(g, r[i], r[i + 1])
    {
      if i < |p| - 1 {
        assert Edge(g, p[i], p[i + 1]);
      } else {
        assert Edge(g, q[i - |p| + 1], q[i - |p| + 2]);
        assert r[i] == q[i - |p| + 1];
      }
    }
  }

  lemma WalkExtend<T>(g: map<T, seq<T>>, p: seq<T>, n: T)
    requires Walk(g, p) && Edge(g, p[|p| - 1], n)
    ensures Walk(g, p + [n])
  {
    forall i | 0 <= i < |p|
      ensures Edge(g, (p + [n])[i], (p + [n])[i + 1])
    {
      if i < |p| - 1 {
        assert Edge(g, p[i], p[i + 1]);
      }
    }
  }

  lemma WalkPrepend<T>(g: map<T, seq<T>>, n: T, p: seq<T>)
    requires Walk(g, p) && Edge(g, n, p[0])
    ensures Walk(g, [n] + p)
  {
    forall i | 0 <= i < |p|
      ensures Edge(g, ([n] + p)[i], ([n] + p)[i + 1])
    {
      if i > 0 {
        assert Edge(g, p[i - 1], p[i]);
      }
    }
  }

  lemma ReachesStep<T(!new)>(g: map<T, seq<T>>, a: T, b: T, c: T)
    requires Reaches(g, a, b) && Edge(g, b, c)
    ensures Reaches(g, a, c)
  {
    var p :| WalkBetween(g, a, b, p);
    WalkExtend(g, p, c);
    assert WalkBetween(g, a, c, p + [c]);
  }

  lemma ReachesRefl<T(!new)>(g: map<T, seq<T>>, a: T)
    ensures Reaches(g, a, a)
  {
    assert WalkBetween(g, a, a, [a]);
  }

  /** A repeated node on a walk lies on a cycle. */
  lemma RepeatIsCycle<T(!new)>(g: map<T, seq<T>>, p: seq<T>, i: nat, j: nat)
    requires Walk(g, p) && i < j < |p| && p[i] == p[j]
    ensures Reaches(g, p[0], p[i]) && OnCycle(g, p[i]) && CycleReachable(g, p[0])
  {
    WalkSplit(g, p, i);
    assert WalkBetween(g, p[0], p[i], p[..i + 1]);
    WalkSplit(g, p[i..], j - i);
    assert p[i..][..j - i + 1] == p[i..j + 1];
    assert WalkBetween(g, p[i], p[i], p[i..j + 1]);
  }

  /** If a cycle can be reached, some walk repeats a node. */
  lemma CycleGivesRepeat<T(!new)>(g: map<T, seq<T>>, a: T) returns (p: seq<T>)
    requires CycleReachable(g, a)
    ensures Walk(g, p) && p[0] == a && !Distinct(p)
  {
    var b :| Reaches(g, a, b) && OnCycle(g, b);
    var q :| WalkBetween(g, a, b, q);
    var c :| WalkBetween(g, b, b, c) && |c| >= 2;
    WalkJoin(g, q, c);
    p := q + c[1..];
    assert p[|q| - 1] == p[|p| - 1];
  }

  /** A closed walk can be cut down to one that repeats nothing but its start. */
  lemma {:induction false} SimpleCycle<T(!new)>(g: map<T, seq<T>>, a: T, p: seq<T>) returns (c: seq<T>)
    requires WalkBetween(g, a, a, p) && |p| >= 2
    ensures c != [] && Walk(g, c) && c[0] == a && Distinct(c) && Edge(g, c[|c| - 1], a)
    decreases |p|
  {
    c := p[..|p| - 1];
    assert Edge(g, p[|p| - 2], p[|p| - 1]);
    if !Distinct(c) {
      var i, j :| 0 <= i < j < |c| && c[i] == c[j];
      WalkSplit(g, p, i);
      WalkSplit(g, p, j);
      WalkJoin(g, p[..i + 1], p[j..]);
      c := SimpleCycle(g, a, p[..i + 1] + p[j..][1..]);
    }
  }

  // ---------- depth-first walks guarded by the nodes on the current path

  /** A guarded depth-first walk from `n`, with `path` the nodes on the way to it, meets a node
      of its own path. */
  predicate Revisits<T(==)>(g: map<T, seq<T>>, n: T, path: set<T>)
    decreases g.Keys - path
  {
    n in path || (n in g && exists child :: child in g[n] && Revisits(g, child, path + {n}))
  }

  ghost predicate WalkRevisits<T(!new)>(g: map<T, seq<T>>, n: T, path: set<T>, p: seq<T>) {
    Walk(g, p) && p[0] == n && (p[|p| - 1] in path || !Distinct(p))
  }

  /** The guard fires exactly when some walk returns to the path or to itself. */
  lemma {:induction false} RevisitsIsWalk<T(!new)>(g: map<T, seq<T>>, n: T, path: set<T>)
    ensures Revisits(g, n, path) ==> exists p :: WalkRevisits(g, n, path, p)
    decreases g.Keys - path
  {
    if Revisits(g, n, path) {
      if n in path {
        assert WalkRevisits(g, n, path, [n]);
      } else {
        var child :| child in g[n] && Revisits(g, child, path + {n});
        RevisitsIsWalk(g, child, path + {n});
        var q :| WalkRevisits(g, child, path + {n}, q);
        WalkPrepend(g, n, q);
        var p := [n] + q;
        if Distinct(q) && q[|q| - 1] !in path {
          assert p[0] == p[|p| - 1];
        } else if !Distinct(q) {
          var i, j :| 0 <= i < j < |q| && q[i] == q[j];
          assert p[i + 1] == p[j + 1];
        }
        assert WalkRevisits(g, n, path, p);
      }
    }
  }

  lemma {:induction false} WalkIsRevisit<T(!new)>(g: map<T, seq<T>>, n: T, path: set<T>, p: seq<T>)
    requires Walk(g, p) && p[0] == n && p[|p| - 1] in path
    ensures Revisits(g, n, path)
    decreases |p|
  {
    if n !in path {
      assert Edge(g, p[0], p[1]);
      WalkSplit(g, p, 1);
      WalkIsRevisit(g, p[1], path + {n}, p[1..]);
    }
  }

  lemma {:induction false} RepeatIsRevisit<T(!new)>(g: map<T, seq<T>>, n: T, path: set<T>, p: seq<T>)
    requires Walk(g, p) && p[0] == n && !Distinct(p)
    ensures Revisits(g, n, path)
    decreases |p|
  {
    if n !in path {
      var i, j :| 0 <= i < j < |p| && p[i] == p[j];
      assert Edge(g, p[0], p[1]);
      WalkSplit(g, p, 1);
      if i == 0 {
        WalkSplit(g, p[1..], j - 1);
        WalkIsRevisit(g, p[1], path + {n}, p[1..][..j]);
      } else {
        assert p[1..][i - 1] == p[1..][j - 1];
        RepeatIsRevisit(g, p[1], path + {n}, p[1..]);
      }
    }
  }

  /** Started with an empty path, the guard fires exactly when a cycle can be reached. */
  lemma RevisitsIffCycle<T(!new)>(g: map<T, seq<T>>, n: T)
    ensures Revisits(g, n, {}) <==> CycleReachable(g, n)
  {
    if Revisits(g, n, {}) {
      RevisitsIsWalk(g, n, {});
      var p :| WalkRevisits(g, n, {}, p);
      var i, j :| 0 <= i < j < |p| && p[i] == p[j];
      RepeatIsCycle(g, p, i, j);
    }
    if CycleReachable(g, n) {
      var p := CycleGivesRepeat(g, n);
      RepeatIsRevisit(g, n, {}, p);
    }
  }
}
