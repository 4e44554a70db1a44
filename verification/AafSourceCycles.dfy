/** The search for cycles in Mob derivation: every simple path from each start is followed on
    an explicit stack, each entry with its own copy of the path's nodes. */
module AafSourceCycles {
  import opened Wrappers
  import opened Basics
  import opened Graph

  /** A Mob's path in the file; only equality of paths matters here. */
  type Mob = seq<string>

  /** Targets of the edges that leave `from`, in the order of the list. */
  function Targets(edges: seq<(Mob, Mob)>, from: Mob): seq<Mob> {
    if edges == [] then []
    else
      var last := edges[|edges| - 1];
      Targets(edges[..|edges| - 1], from) + if last.0 == from then [last.1] else []
  }

  ghost predicate IsAdjacency(adjacency: map<Mob, seq<Mob>>, edges: seq<(Mob, Mob)>) {
    forall from :: Succ(adjacency, from) == Targets(edges, from) && (from in adjacency <==> Targets(edges, from) != [])
  }

  method BuildAdjacency(edges: seq<(Mob, Mob)>) returns (adjacency: map<Mob, seq<Mob>>)
    ensures IsAdjacency(adjacency, edges)
  {
    adjacency := map[];
    for i := 0 to |edges|
      invariant IsAdjacency(adjacency, edges[..i])
    {
      assert edges[..i + 1][..i] == edges[..i];
      var (from, to) := edges[i];
      adjacency := adjacency[from := Succ(adjacency, from) + [to]];
    }
    assert edges[..|edges|] == edges;
  }

  lemma {:induction false} EdgesAreListed(edges: seq<(Mob, Mob)>, from: Mob, to: Mob)
    ensures to in Targets(edges, from) <==> (from, to) in edges
  {
    if edges != [] {
      EdgesAreListed(edges[..|edges| - 1], from, to);
      assert edges == edges[..|edges| - 1] + [edges[|edges| - 1]];
    }
  }

  /** A chain of derivations that leads from `mob` back to it. */
  ghost predicate ClosedChain(edges: seq<(Mob, Mob)>, mob: Mob, p: seq<Mob>) {
    |p| >= 2 && p[0] == mob == p[|p| - 1] && forall i :: 0 <= i < |p| - 1 ==> (p[i], p[i + 1]) in edges
  }

  lemma CyclesAreChains(adjacency: map<Mob, seq<Mob>>, edges: seq<(Mob, Mob)>, mob: Mob)
    requires IsAdjacency(adjacency, edges)
    ensures OnCycle(adjacency, mob) <==> exists p :: ClosedChain(edges, mob, p)
  {
    forall from, to
      ensures Edge(adjacency, from, to) <==> (from, to) in edges
    {
      assert Succ(adjacency, from) == Targets(edges, from);
      EdgesAreListed(edges, from, to);
    }
    if p :| WalkBetween(adjacency, mob, mob, p) && |p| >= 2 {
      assert ClosedChain(edges, mob, p);
    }
    if p :| ClosedChain(edges, mob, p) {
      assert WalkBetween(adjacency, mob, mob, p);
    }
  }

  // ---------- the stack and its weight

  datatype Entry = Entry(node: Mob, visited: set<Mob>)

  function SetOf(p: seq<Mob>): set<Mob> {
    set n | n in p
  }

  ghost function Nodes(g: map<Mob, seq<Mob>>): set<Mob> {
    g.Keys + set n, m | n in g && m in g[n] :: m
  }

  ghost function Power(base: nat, exponent: nat): nat {
    if exponent == 0 then 1 else base * Power(base, exponent - 1)
  }

  /** No node has more than `degree` successors. */
  ghost predicate DegreeAtMost(g: map<Mob, seq<Mob>>, degree: nat) {
    forall n :: n in g ==> |g[n]| <= degree
  }

  ghost function Room(entry: Entry, total: nat): nat {
    if |entry.visited| <= total then total - |entry.visited| else 0
  }

  /** One entry weighs more than all the entries it can be replaced by. */
  ghost function Weight(stack: seq<Entry>, total: nat, degree: nat): nat {
    if stack == [] then 0
    else Weight(stack[..|stack| - 1], total, degree) + Power(degree + 1, Room(stack[|stack| - 1], total))
  }

  lemma {:induction false} PowerPositive(base: nat, exponent: nat)
    requires base > 0
    ensures Power(base, exponent) > 0
  {
    if exponent > 0 {
      PowerPositive(base, exponent - 1);
    }
  }

  lemma {:induction false} WeightOfPushed(rest: seq<Entry>, pushed: seq<Entry>, total: nat, degree: nat, unit: nat)
    requires forall i :: 0 <= i < |pushed| ==> Power(degree + 1, Room(pushed[i], total)) == unit
    ensures Weight(rest + pushed, total, degree) == Weight(rest, total, degree) + |pushed| * unit
  {
    if pushed == [] {
      assert rest + pushed == rest;
    } else {
      var front := pushed[..|pushed| - 1];
      assert (rest + pushed)[..|rest + pushed| - 1] == rest + front;
      WeightOfPushed(rest, front, total, degree, unit);
      OneMore(|front|, unit);
      hide Power, Room;
    }
  }

  lemma FewerUnits(n: nat, degree: nat, unit: nat)
    requires n <= degree && unit > 0
    ensures n * unit < (degree + 1) * unit
  {
    assert (degree + 1) * unit == n * unit + (degree + 1 - n) * unit;
    assert (degree + 1 - n) * unit >= unit;
  }

  ghost predicate OneLonger(top: Entry, entry: Entry, total: nat) {
    |entry.visited| == |top.visited| + 1 <= total
  }

  lemma {:induction false} WeightFalls(rest: seq<Entry>, top: Entry, pushed: seq<Entry>, total: nat, degree: nat)
    requires |pushed| <= degree && |top.visited| <= total
    requires forall i :: 0 <= i < |pushed| ==> OneLonger(top, pushed[i], total)
    ensures Weight(rest + pushed, total, degree) < Weight(rest + [top], total, degree)
  {
    assert (rest + [top])[..|rest|] == rest;
    PowerPositive(degree + 1, Room(top, total));
    if pushed == [] {
      assert rest + pushed == rest;
    } else {
      assert OneLonger(top, pushed[0], total);
      var unit := Power(degree + 1, Room(top, total) - 1);
      forall i | 0 <= i < |pushed|
        ensures Power(degree + 1, Room(pushed[i], total)) == unit
      {
        assert Room(pushed[i], total) == Room(top, total) - 1;
      }
      WeightOfPushed(rest, pushed, total, degree, unit);
      PowerPositive(degree + 1, Room(top, total) - 1);
      FewerUnits(|pushed|, degree, unit);
    }
  }

  // ---------- the search

  ghost predicate EntryOk(g: map<Mob, seq<Mob>>, start: Mob, entry: Entry) {
    entry.node in entry.visited && entry.visited <= Nodes(g) && Reaches(g, start, entry.node)
  }

  /** Some entry stands on the cycle `c` with exactly the cycle's nodes so far as its path. */
  ghost predicate Tracks(stack: seq<Entry>, c: seq<Mob>) {
    exists e, i :: 0 <= e < |stack| && 0 <= i < |c| && stack[e] == Entry(c[i], SetOf(c[..i + 1]))
  }

  /** One entry's successors, up to the first that closes a cycle. */
  method Expand(start: Mob, top: Entry, successors: seq<Mob>) returns (closes: bool, pushed: seq<Entry>)
    ensures closes <==> start in successors
    ensures |pushed| <= |successors|
    ensures forall i :: 0 <= i < |pushed| ==>
              && pushed[i].node in successors && pushed[i].node !in top.visited
              && pushed[i].visited == top.visited + {pushed[i].node}
    ensures !closes ==> forall next :: next in successors && next !in top.visited ==>
              Entry(next, top.visited + {next}) in pushed
  {
    closes, pushed := false, [];
    for j := 0 to |successors|
      invariant start !in successors[..j] && |pushed| <= j
      invariant forall i :: 0 <= i < |pushed| ==>
                  && pushed[i].node in successors && pushed[i].node !in top.visited
                  && pushed[i].visited == top.visited + {pushed[i].node}
      invariant forall k :: 0 <= k < j && successors[k] !in top.visited ==>
                  Entry(successors[k], top.visited + {successors[k]}) in pushed
    {
      var next := successors[j];
      if next == start {
        return true, pushed;
      }
      if next !in top.visited {
        pushed := pushed + [Entry(next, top.visited + {next})];
      }
    }
  }

  ghost predicate AllOk(g: map<Mob, seq<Mob>>, start: Mob, stack: seq<Entry>) {
    forall e :: 0 <= e < |stack| ==> EntryOk(g, start, stack[e])
  }

  ghost predicate IsSimpleCycle(g: map<Mob, seq<Mob>>, start: Mob, c: seq<Mob>) {
    c != [] && Walk(g, c) && c[0] == start && Distinct(c) && Edge(g, c[|c| - 1], start)
  }

  /** Takes the top entry off the stack and puts its continuations on it. */
  method FollowTop(g: map<Mob, seq<Mob>>, start: Mob, stack: seq<Entry>, ghost degree: nat)
    returns (closes: bool, next: seq<Entry>)
    requires stack != [] && AllOk(g, start, stack) && DegreeAtMost(g, degree)
    ensures AllOk(g, start, next)
    ensures Weight(next, |Nodes(g)|, degree) < Weight(stack, |Nodes(g)|, degree)
    ensures closes ==> OnCycle(g, start)
    ensures !closes ==> forall c :: IsSimpleCycle(g, start, c) && Tracks(stack, c) ==> Tracks(next, c)
  {
    var top, rest := stack[|stack| - 1], stack[..|stack| - 1];
    assert stack == rest + [top];
    var pushed;
    closes, pushed := Expand(start, top, Succ(g, top.node));
    next := rest + pushed;
    PushedOk(g, start, top, pushed);
    WeightFalls(rest, top, pushed, |Nodes(g)|, degree);
    if closes {
      ClosingIsCycle(g, start, top.node);
    } else {
      forall c | IsSimpleCycle(g, start, c) && Tracks(stack, c)
        ensures Tracks(next, c)
      {
        TrackingMovesOn(g, rest, top, pushed, c);
      }
    }
  }

  /** At least one finding for a start exactly when the start lies on a directed cycle. */
  method CyclesFrom(adjacency: map<Mob, seq<Mob>>, start: Mob, ghost degree: nat) returns (findings: nat)
    requires DegreeAtMost(adjacency, degree) && start in adjacency
    ensures findings > 0 <==> OnCycle(adjacency, start)
  {
    findings := 0;
    var stack := [Entry(start, {start})];
    ReachesRefl(adjacency, start);
    FirstEntryTracks(adjacency, start);
    while stack != []
      invariant AllOk(adjacency, start, stack)
      invariant findings > 0 ==> OnCycle(adjacency, start)
      invariant findings == 0 ==> forall c :: IsSimpleCycle(adjacency, start, c) ==> Tracks(stack, c)
      decreases Weight(stack, |Nodes(adjacency)|, degree)
    {
      var closes;
      closes, stack := FollowTop(adjacency, start, stack, degree);
      if closes {
        findings := findings + 1;
      }
    }
    if OnCycle(adjacency, start) {
      SimpleCycleExists(adjacency, start);
    }
  }

  lemma FirstEntryTracks(g: map<Mob, seq<Mob>>, start: Mob)
    ensures forall c :: IsSimpleCycle(g, start, c) ==> Tracks([Entry(start, {start})], c)
  {
    forall c | IsSimpleCycle(g, start, c)
      ensures Tracks([Entry(start, {start})], c)
    {
      assert c[..0 + 1] == [start];
      assert SetOf(c[..0 + 1]) == {start};
      assert [Entry(start, {start})][0] == Entry(c[0], SetOf(c[..0 + 1]));
    }
  }

  lemma SimpleCycleExists(g: map<Mob, seq<Mob>>, start: Mob)
    requires OnCycle(g, start)
    ensures exists c :: IsSimpleCycle(g, start, c)
  {
    var p :| WalkBetween(g, start, start, p) && |p| >= 2;
    var c := SimpleCycle(g, start, p);
    assert IsSimpleCycle(g, start, c);
  }

  lemma ClosingIsCycle(g: map<Mob, seq<Mob>>, start: Mob, node: Mob)
    requires Reaches(g, start, node) && Edge(g, node, start)
    ensures OnCycle(g, start)
  {
    var p :| WalkBetween(g, start, node, p);
    WalkExtend(g, p, start);
    assert WalkBetween(g, start, start, p + [start]) && |p + [start]| >= 2;
  }

  lemma PushedOk(g: map<Mob, seq<Mob>>, start: Mob, top: Entry, pushed: seq<Entry>)
    requires EntryOk(g, start, top)
    requires forall i :: 0 <= i < |pushed| ==>
               && pushed[i].node in Succ(g, top.node) && pushed[i].node !in top.visited
               && pushed[i].visited == top.visited + {pushed[i].node}
    ensures forall i :: 0 <= i < |pushed| ==> EntryOk(g, start, pushed[i])
    ensures |top.visited| <= |Nodes(g)|
    ensures forall i :: 0 <= i < |pushed| ==> OneLonger(top, pushed[i], |Nodes(g)|)
  {
    SubsetSize(top.visited, Nodes(g));
    forall i | 0 <= i < |pushed|
      ensures EntryOk(g, start, pushed[i])
      ensures OneLonger(top, pushed[i], |Nodes(g)|)
    {
      ReachesStep(g, start, top.node, pushed[i].node);
      SubsetSize(pushed[i].visited, Nodes(g));
    }
  }

  lemma {:induction false} SubsetSize(small: set<Mob>, large: set<Mob>)
    requires small <= large
    ensures |small| <= |large|
    decreases small
  {
    if small != {} {
      var n :| n in small;
      SubsetSize(small - {n}, large - {n});
    }
  }

  /** The entry that stands on the cycle is replaced by one a step further, or stays. */
  lemma TrackingMovesOn(g: map<Mob, seq<Mob>>, rest: seq<Entry>, top: Entry, pushed: seq<Entry>, c: seq<Mob>)
    requires c != [] && Walk(g, c) && Distinct(c) && Edge(g, c[|c| - 1], c[0])
    requires Tracks(rest + [top], c) && c[0] !in Succ(g, top.node)
    requires forall next :: next in Succ(g, top.node) && next !in top.visited ==>
               Entry(next, top.visited + {next}) in pushed
    ensures Tracks(rest + pushed, c)
  {
    var e, i :| 0 <= e < |rest + [top]| && 0 <= i < |c| && (rest + [top])[e] == Entry(c[i], SetOf(c[..i + 1]));
    if e < |rest| {
      assert (rest + pushed)[e] == Entry(c[i], SetOf(c[..i + 1]));
    } else {
      assert i + 1 < |c|;
      assert Edge(g, c[i], c[i + 1]);
      assert c[i + 1] !in SetOf(c[..i + 1]);
      assert c[..i + 2] == c[..i + 1] + [c[i + 1]];
      assert SetOf(c[..i + 2]) == SetOf(c[..i + 1]) + {c[i + 1]};
      var moved := Entry(c[i + 1], SetOf(c[..i + 2]));
      assert moved in pushed;
      var k :| 0 <= k < |pushed| && pushed[k] == moved;
      assert (rest + pushed)[|rest| + k] == Entry(c[i + 1], SetOf(c[..i + 1 + 1]));
    }
  }

  /** The Mobs that are reported are exactly those that derive from themselves. */
  method ValidateSourceCycles(edges: seq<(Mob, Mob)>) returns (reported: set<Mob>)
    ensures forall mob :: mob in reported <==> exists p :: ClosedChain(edges, mob, p)
  {
    var adjacency := BuildAdjacency(edges);
    DegreeBound(adjacency, edges);
    reported := {};
    var pending := adjacency.Keys;
    while pending != {}
      invariant pending <= adjacency.Keys
      invariant forall mob :: mob in reported <==> mob in adjacency.Keys - pending && OnCycle(adjacency, mob)
      decreases pending
    {
      var start :| start in pending;
      var findings := CyclesFrom(adjacency, start, |edges|);
      if findings > 0 {
        reported := reported + {start};
      }
      pending := pending - {start};
    }
    forall mob
      ensures mob in reported <==> exists p :: ClosedChain(edges, mob, p)
    {
      CyclesAreChains(adjacency, edges, mob);
      if OnCycle(adjacency, mob) {
        var p :| WalkBetween(adjacency, mob, mob, p) && |p| >= 2;
        assert Edge(adjacency, p[0], p[1]);
      }
    }
  }

  lemma DegreeBound(adjacency: map<Mob, seq<Mob>>, edges: seq<(Mob, Mob)>)
    requires IsAdjacency(adjacency, edges)
    ensures DegreeAtMost(adjacency, |edges|)
  {
    forall n | n in adjacency
      ensures |adjacency[n]| <= |edges|
    {
      assert Succ(adjacency, n) == Targets(edges, n);
      TargetsBounded(edges, n);
    }
  }

  lemma {:induction false} TargetsBounded(edges: seq<(Mob, Mob)>, from: Mob)
    ensures |Targets(edges, from)| <= |edges|
  {
    if edges != [] {
      TargetsBounded(edges[..|edges| - 1], from);
    }
  }
}
