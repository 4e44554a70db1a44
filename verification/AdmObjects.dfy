/** Walks over audioObject references: nesting depth with cycle detection, and the objects that
    a programme reaches. */
module AdmObjects {
  import opened Wrappers
  import opened Graph

  type Id = string
  type References = map<Id, seq<Id>>

  const MAX_NESTING := 6

  /** References to undeclared objects are ignored. */
  function Known(objects: References, references: seq<Id>): seq<Id> {
    if references == [] then []
    else
      var before := Known(objects, references[..|references| - 1]);
      var last := references[|references| - 1];
      if last in objects then before + [last] else before
  }

  function KnownGraph(objects: References): References {
    map id | id in objects :: Known(objects, objects[id])
  }

  lemma {:induction false} KnownIsFilter(objects: References, references: seq<Id>, id: Id)
    ensures id in Known(objects, references) <==> id in references && id in objects
  {
    if references != [] {
      KnownIsFilter(objects, references[..|references| - 1], id);
      assert references == references[..|references| - 1] + [references[|references| - 1]];
    }
  }

  /** Declared objects, each named by the one before it. */
  predicate DeclaredPath(objects: References, p: seq<Id>) {
    && p != []
    && (forall i :: 0 <= i < |p| ==> p[i] in objects)
    && (forall i :: 0 <= i < |p| - 1 ==> p[i + 1] in objects[p[i]])
  }

  lemma DeclaredPathsAreWalks(objects: References, p: seq<Id>)
    ensures DeclaredPath(objects, p) <==> Walk(KnownGraph(objects), p) && p[0] in objects
  {
    forall from, to
      ensures Edge(KnownGraph(objects), from, to) <==> from in objects && to in objects[from] && to in objects
    {
      if from in objects {
        KnownIsFilter(objects, objects[from], to);
      }
    }
    if Walk(KnownGraph(objects), p) && p[0] in objects {
      forall i | 0 <= i < |p|
        ensures p[i] in objects
      {
        if i > 0 {
          assert Edge(KnownGraph(objects), p[i - 1], p[i]);
        }
      }
      forall i | 0 <= i < |p| - 1
        ensures p[i + 1] in objects[p[i]]
      {
        assert Edge(KnownGraph(objects), p[i], p[i + 1]);
      }
    }
  }

  // ---------- nesting depth

  /** Depth below `id`, or the id at which the walk came back to its own path. */
  function Depth(g: References, id: Id, visiting: set<Id>): Result<nat, Id>
    decreases g.Keys - visiting, 1
  {
    if id in visiting then Err(id)
    else if id !in g then Ok(1)
    else DepthOver(g, id, g[id], visiting + {id})
  }

  function DepthOver(g: References, id: Id, children: seq<Id>, visiting: set<Id>): Result<nat, Id>
    decreases g.Keys - visiting, 2, |children|
  {
    if children == [] then Ok(1)
    else
      var before :- DepthOver(g, id, children[..|children| - 1], visiting);
      var below :- Depth(g, children[|children| - 1], visiting);
      Ok(if 1 + below > before then 1 + below else before)
  }

  class Visiting {
    var ids: set<Id>

    constructor ()
      ensures ids == {}
    {
      ids := {};
    }

    /** On success the path set is as it was. */
    method ObjectDepth(g: References, id: Id) returns (r: Result<nat, Id>)
      modifies this
      ensures r == Depth(g, id, old(ids))
      ensures r.Ok? ==> ids == old(ids)
      decreases g.Keys - ids
    {
      if id in ids {
        return Err(id);
      }
      ids := ids + {id};
      if id !in g {
        ids := ids - {id};
        return Ok(1);
      }
      var depth, children := 1, g[id];
      for k := 0 to |children|
        invariant ids == old(ids) + {id}
        invariant DepthOver(g, id, children[..k], ids) == Ok(depth)
      {
        assert children[..k + 1][..k] == children[..k];
        var below := ObjectDepth(g, children[k]);
        if below.Err? {
          FirstErrorStays(g, id, children, old(ids) + {id}, k + 1);
          return below;
        }
        depth := if 1 + below.value > depth then 1 + below.value else depth;
      }
      assert children[..|children|] == children;
      ids := ids - {id};
      r := Ok(depth);
    }
  }

  lemma {:induction false} FirstErrorStays(g: References, id: Id, children: seq<Id>, visiting: set<Id>, k: nat)
    requires k <= |children| && DepthOver(g, id, children[..k], visiting).Err?
    ensures DepthOver(g, id, children, visiting) == DepthOver(g, id, children[..k], visiting)
    decreases |children|
  {
    if k == |children| {
      assert children[..k] == children;
    } else {
      assert children[..|children| - 1][..k] == children[..k];
      FirstErrorStays(g, id, children[..|children| - 1], visiting, k);
    }
  }

  lemma {:induction false} DepthFailsOnRevisit(g: References, id: Id, visiting: set<Id>)
    ensures Depth(g, id, visiting).Err? <==> Revisits(g, id, visiting)
    decreases g.Keys - visiting, 1
  {
    if id !in visiting && id in g {
      DepthOverFails(g, id, g[id], visiting + {id});
    }
  }

  lemma {:induction false} DepthOverFails(g: References, id: Id, children: seq<Id>, visiting: set<Id>)
    ensures DepthOver(g, id, children, visiting).Err? <==>
            exists child :: child in children && Revisits(g, child, visiting)
    decreases g.Keys - visiting, 2, |children|
  {
    if children != [] {
      var front, last := children[..|children| - 1], children[|children| - 1];
      DepthOverFails(g, id, front, visiting);
      DepthFailsOnRevisit(g, last, visiting);
      assert children == front + [last];
    }
  }

  /** An error exactly when a cycle can be reached. */
  lemma DepthFailsIffCycle(g: References, id: Id)
    ensures Depth(g, id, {}).Err? <==> CycleReachable(g, id)
  {
    DepthFailsOnRevisit(g, id, {});
    RevisitsIffCycle(g, id);
  }

  lemma {:induction false} WalksAreNoDeeper(g: References, p: seq<Id>, visiting: set<Id>)
    requires Walk(g, p) && Depth(g, p[0], visiting).Ok?
    ensures |p| <= Depth(g, p[0], visiting).value
    decreases |p|
  {
    if |p| > 1 {
      assert Edge(g, p[0], p[1]);
      WalkSplit(g, p, 1);
      ChildIsLessDeep(g, p[0], g[p[0]], visiting + {p[0]}, p[1]);
      WalksAreNoDeeper(g, p[1..], visiting + {p[0]});
    } else if p[0] in g {
      DepthOverLeast(g, p[0], g[p[0]], visiting + {p[0]});
    }
  }

  lemma {:induction false} DepthOverLeast(g: References, id: Id, children: seq<Id>, visiting: set<Id>)
    requires DepthOver(g, id, children, visiting).Ok?
    ensures DepthOver(g, id, children, visiting).value >= 1
    decreases |children|
  {
    if children != [] {
      DepthOverLeast(g, id, children[..|children| - 1], visiting);
    }
  }

  lemma {:induction false} ChildIsLessDeep(g: References, id: Id, children: seq<Id>, visiting: set<Id>, child: Id)
    requires DepthOver(g, id, children, visiting).Ok? && child in children
    ensures Depth(g, child, visiting).Ok?
    ensures 1 + Depth(g, child, visiting).value <= DepthOver(g, id, children, visiting).value
    decreases |children|
  {
    var front, last := children[..|children| - 1], children[|children| - 1];
    if child != last {
      assert children == front + [last];
      ChildIsLessDeep(g, id, front, visiting, child);
    }
  }

  lemma {:induction false} DeepestWalk(g: References, id: Id, visiting: set<Id>) returns (p: seq<Id>)
    requires Depth(g, id, visiting).Ok?
    ensures Walk(g, p) && p[0] == id && |p| == Depth(g, id, visiting).value
    decreases g.Keys - visiting, 1
  {
    p := [id];
    if id in g {
      var child := DeepestChild(g, id, g[id], visiting + {id});
      if child.Some? {
        assert Edge(g, id, child.value);
        var q := DeepestWalk(g, child.value, visiting + {id});
        WalkPrepend(g, id, q);
        p := [id] + q;
      }
    }
  }

  lemma {:induction false} DeepestChild(g: References, id: Id, children: seq<Id>, visiting: set<Id>)
    returns (child: Option<Id>)
    requires DepthOver(g, id, children, visiting).Ok?
    ensures child.None? ==> DepthOver(g, id, children, visiting).value == 1
    ensures child.Some? ==> child.value in children && Depth(g, child.value, visiting).Ok?
    ensures child.Some? ==>
              1 + Depth(g, child.value, visiting).value == DepthOver(g, id, children, visiting).value
    decreases |children|
  {
    child := None;
    if children != [] {
      var front, last := children[..|children| - 1], children[|children| - 1];
      child := DeepestChild(g, id, front, visiting);
      if DepthOver(g, id, children, visiting).value > DepthOver(g, id, front, visiting).value {
        child := Some(last);
      }
    }
  }

  /** Otherwise the depth is the number of objects on the longest reference path. */
  lemma DepthIsLongestPath(g: References, id: Id)
    requires Depth(g, id, {}).Ok?
    ensures LongestWalk(g, id, Depth(g, id, {}).value)
  {
    var p := DeepestWalk(g, id, {});
    forall q | Walk(g, q) && q[0] == id
      ensures |q| <= Depth(g, id, {}).value
    {
      WalksAreNoDeeper(g, q, {});
    }
  }

  /** The nesting rule passes exactly when no path of declared objects is longer than six, which
      leaves no room for a cycle; the depth reported is then that of the longest path. */
  method ValidateObjectGraph(objects: References) returns (passed: bool, maximumDepth: nat)
    ensures passed <==> forall p :: DeclaredPath(objects, p) ==> |p| <= MAX_NESTING
    ensures passed ==> forall p :: DeclaredPath(objects, p) ==> |p| <= maximumDepth && (|p| > 1 ==> p[0] != p[|p| - 1])
    ensures passed && objects != map[] ==> exists p :: DeclaredPath(objects, p) && |p| == maximumDepth
  {
    var g := KnownGraph(objects);
    maximumDepth := 0;
    var cyclic: set<Id> := {};
    var pending := objects.Keys;
    ghost var deepest: Option<Id> := None;
    while pending != {}
      invariant pending <= objects.Keys
      invariant cyclic == {} <==> forall id :: id in objects.Keys - pending ==> Depth(g, id, {}).Ok?
      invariant forall id :: id in objects.Keys - pending && Depth(g, id, {}).Ok? ==>
                  Depth(g, id, {}).value <= maximumDepth
      invariant deepest.None? ==> maximumDepth == 0
      invariant deepest.Some? ==> deepest.value in objects.Keys - pending
                                  && Depth(g, deepest.value, {}) == Ok(maximumDepth)
      decreases pending
    {
      var id :| id in pending;
      var visiting := new Visiting();
      var depth := visiting.ObjectDepth(g, id);
      if depth.Ok? {
        DepthIsLongestPath(g, id);
        if depth.value > maximumDepth {
          maximumDepth := depth.value;
          deepest := Some(id);
        }
      } else {
        cyclic := cyclic + {depth.error};
      }
      pending := pending - {id};
    }
    passed := cyclic == {} && maximumDepth <= MAX_NESTING;
    NestingRule(g, objects.Keys);
    hide Depth, KnownGraph, Walk, CycleReachable, DeclaredPath;
    forall p
      ensures DeclaredPath(objects, p) <==> Walk(g, p) && p[0] in objects
      ensures passed && DeclaredPath(objects, p) ==> |p| <= maximumDepth && (|p| > 1 ==> p[0] != p[|p| - 1])
    {
      DeclaredPathsAreWalks(objects, p);
      if passed && Walk(g, p) && p[0] in objects {
        DepthIsLongestPath(g, p[0]);
        ClosedWalkIsCycle(g, p);
      }
    }
    if passed && objects != map[] {
      var id :| id in objects;
      DepthIsLongestPath(g, id);
      OneNodeWalk(g, id);
      DepthIsLongestPath(g, deepest.value);
    }
  }

  lemma ClosedWalkIsCycle(g: References, p: seq<Id>)
    requires Walk(g, p)
    ensures |p| > 1 && p[0] == p[|p| - 1] ==> CycleReachable(g, p[0])
  {
    ReachesRefl(g, p[0]);
    if |p| > 1 && p[0] == p[|p| - 1] {
      assert WalkBetween(g, p[0], p[0], p);
    }
  }

  lemma OneNodeWalk(g: References, id: Id)
    ensures Walk(g, [id]) && [id][0] == id
  {
  }

  lemma NestingRule(g: References, ids: set<Id>)
    ensures (forall id :: id in ids ==> Depth(g, id, {}).Ok? && Depth(g, id, {}).value <= MAX_NESTING) <==>
            forall p :: Walk(g, p) && p[0] in ids ==> |p| <= MAX_NESTING
    ensures forall id :: id in ids && Depth(g, id, {}).Ok? ==> !CycleReachable(g, id)
  {
    forall id | id in ids
      ensures Depth(g, id, {}).Ok? ==> !CycleReachable(g, id) && LongestWalk(g, id, Depth(g, id, {}).value)
    {
      DepthFailsIffCycle(g, id);
      if Depth(g, id, {}).Ok? {
        DepthIsLongestPath(g, id);
      }
    }
    if forall p :: Walk(g, p) && p[0] in ids ==> |p| <= MAX_NESTING {
      forall id | id in ids
        ensures Depth(g, id, {}).Ok? && Depth(g, id, {}).value <= MAX_NESTING
      {
        DepthFailsIffCycle(g, id);
        if CycleReachable(g, id) {
          var b :| Reaches(g, id, b) && OnCycle(g, b);
          var q :| WalkBetween(g, id, b, q);
          var c :| WalkBetween(g, b, b, c) && |c| >= 2;
          LongWalk(g, q, c, MAX_NESTING + 1);
        }
      }
    }
  }

  /** Going round a cycle makes walks of any length. */
  lemma {:induction false} LongWalk(g: References, q: seq<Id>, c: seq<Id>, n: nat)
    requires Walk(g, q) && WalkBetween(g, q[|q| - 1], q[|q| - 1], c) && |c| >= 2
    ensures exists p :: Walk(g, p) && p[0] == q[0] && |p| >= n
    decreases n - |q|
  {
    if |q| < n {
      WalkJoin(g, q, c);
      LongWalk(g, q + c[1..], c, n);
    }
  }

  // ---------- reachable objects

  ghost predicate ReachedFrom(g: References, roots: seq<Id>, id: Id) {
    exists root :: root in roots && Reaches(g, root, id)
  }

  ghost function AllIds(g: References, roots: seq<Id>): set<Id> {
    (set id | id in roots) + (set n, m | n in g && m in g[n] :: m)
  }

  ghost function Reached(g: References, roots: seq<Id>): set<Id> {
    set id | id in AllIds(g, roots) && ReachedFrom(g, roots, id)
  }

  /** The worklist holds what is still to be followed; everything seen is truly reached. */
  ghost predicate WorklistOk(g: References, roots: seq<Id>, reachable: set<Id>, pending: seq<Id>) {
    && (forall id :: id in pending || id in reachable ==>
          ReachedFrom(g, roots, id) && id in AllIds(g, roots))
    && (forall root :: root in roots ==> root in reachable || root in pending)
    && (forall id, next :: id in reachable && Edge(g, id, next) ==> next in reachable || next in pending)
  }

  /** The objects reachable from the roots, on cyclic references too. */
  method ReachableObjects(roots: seq<Id>, children: References) returns (reachable: set<Id>)
    ensures forall id :: id in reachable <==> ReachedFrom(children, roots, id)
    ensures reachable == Reached(children, roots)
  {
    hide *;
    reachable := {};
    var pending := roots;
    NothingReached(children, roots);
    while pending != []
      invariant WorklistOk(children, roots, reachable, pending)
      decreases AllIds(children, roots) - reachable, |pending|
    {
      var id, rest := pending[|pending| - 1], pending[..|pending| - 1];
      assert pending == rest + [id];
      if id in reachable {
        AlreadyFollowed(children, roots, reachable, rest, id);
        pending := rest;
      } else {
        Followed(children, roots, reachable, rest, id);
        reachable := reachable + {id};
        pending := if id in children then rest + children[id] else rest;
      }
    }
    NothingPending(children, roots, reachable);
  }

  lemma NothingReached(g: References, roots: seq<Id>)
    ensures WorklistOk(g, roots, {}, roots)
  {
    RootsReached(g, roots);
  }

  lemma AlreadyFollowed(g: References, roots: seq<Id>, reachable: set<Id>, rest: seq<Id>, id: Id)
    requires id in reachable && WorklistOk(g, roots, reachable, rest + [id])
    ensures WorklistOk(g, roots, reachable, rest)
  {
    assert forall other :: other in rest ==> other in rest + [id];
  }

  lemma NothingPending(g: References, roots: seq<Id>, reachable: set<Id>)
    requires WorklistOk(g, roots, reachable, [])
    ensures forall id :: id in reachable <==> ReachedFrom(g, roots, id)
    ensures reachable == Reached(g, roots)
  {
    forall id | ReachedFrom(g, roots, id)
      ensures id in reachable
    {
      var root :| root in roots && Reaches(g, root, id);
      var p :| WalkBetween(g, root, id, p);
      ClosedHoldsWalk(g, reachable, p);
    }
  }

  /** Following a new id keeps the worklist sound and uses up one of finitely many ids. */
  lemma Followed(g: References, roots: seq<Id>, reachable: set<Id>, rest: seq<Id>, id: Id)
    requires id !in reachable && WorklistOk(g, roots, reachable, rest + [id])
    ensures WorklistOk(g, roots, reachable + {id}, if id in g then rest + g[id] else rest)
    ensures AllIds(g, roots) - (reachable + {id}) < AllIds(g, roots) - reachable
  {
    assert id in rest + [id];
    var next := if id in g then rest + g[id] else rest;
    forall other | other in next || other in reachable + {id}
      ensures ReachedFrom(g, roots, other) && other in AllIds(g, roots)
    {
      if other !in reachable + {id} && other !in rest {
        assert Edge(g, id, other);
        var root :| root in roots && Reaches(g, root, id);
        ReachesStep(g, root, id, other);
      } else {
        assert other in rest + [id] || other in reachable;
      }
    }
    assert id in AllIds(g, roots) - reachable;
    assert forall other :: other in rest + [id] ==> other in rest || other == id;
  }

  lemma RootsReached(g: References, roots: seq<Id>)
    ensures forall root :: root in roots ==> ReachedFrom(g, roots, root)
  {
    forall root | root in roots
      ensures ReachedFrom(g, roots, root)
    {
      ReachesRefl(g, root);
    }
  }

  /** A set closed under references holds every walk that starts in it. */
  lemma {:induction false} ClosedHoldsWalk(g: References, closed: set<Id>, p: seq<Id>)
    requires forall id, next :: id in closed && Edge(g, id, next) ==> next in closed
    requires Walk(g, p) && p[0] in closed
    ensures p[|p| - 1] in closed
    decreases |p|
  {
    if |p| > 1 {
      assert Edge(g, p[0], p[1]);
      WalkSplit(g, p, 1);
      ClosedHoldsWalk(g, closed, p[1..]);
    }
  }
}
