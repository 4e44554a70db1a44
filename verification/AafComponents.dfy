/** The recursive walk over timeline components: lengths, transitions and scopes are compared on
    the way, and a set of the paths being visited guards against recursive ownership. */
module AafComponents {
  import opened Wrappers
  import opened Basics
  import opened Graph
  import opened AafVarying
  import Ownership = AafOwnership

  type Path = Ownership.Path

  const SEQUENCE := 0x0f
  const NESTED_SCOPE := 0x0b
  const TRANSITION := 0x17
  const OPERATION_GROUP := 0x0a
  const VARYING_VALUE := 0x3e

  const I64_MIN := -0x8000_0000_0000_0000
  const I64_MAX := 0x7fff_ffff_ffff_ffff

  /** Class, data definition, Length (0x0202) and CutPoint (0x1802) of a stored object; of a
      parameter the definition (0x4c01), and of a control point the time (0x1a03). */
  datatype Component = Component(
    code: Option<nat>,
    definition: Option<string>,
    length: Option<int>,
    cutPoint: Option<int>,
    parameter: Option<Bytes>,
    time: Option<Rational>)

  datatype Model = Model(components: map<Path, Component>, references: map<(Path, nat), seq<Path>>)

  function Targets(m: Model, path: Path, pid: nat): seq<Path> {
    if (path, pid) in m.references then m.references[(path, pid)] else []
  }

  function Present(m: Model, targets: seq<Path>): seq<Path> {
    if targets == [] then []
    else
      var before := Present(m, targets[..|targets| - 1]);
      var last := targets[|targets| - 1];
      if last in m.components then before + [last] else before
  }

  /** The lists a component's walk goes through, by class; a transition follows one target. */
  function Followed(m: Model, path: Path): seq<Path>
    requires path in m.components
  {
    match m.components[path].code
    case Some(0x0f) => Targets(m, path, 0x1001)
    case Some(0x0a) => Targets(m, path, 0x0b02)
    case Some(0x0b) => Targets(m, path, 0x0c01)
    case Some(0x0e) => Targets(m, path, 0x0f01) + Targets(m, path, 0x0f02)
    case Some(0x17) => var list := Targets(m, path, 0x1801); if list == [] then [] else [list[0]]
    case _ => []
  }

  function WalkGraph(m: Model): map<Path, seq<Path>> {
    map path | path in m.components :: Present(m, Followed(m, path))
  }

  // ---------- what is found at each component

  datatype Findings = Findings(timeline: nat, effects: nat, recursions: nat)

  function Plus(a: Findings, b: Findings): Findings {
    Findings(a.timeline + b.timeline, a.effects + b.effects, a.recursions + b.recursions)
  }

  function One(condition: bool): nat {
    if condition then 1 else 0
  }

  function Saturate(x: int): int {
    if x < I64_MIN then I64_MIN else if x > I64_MAX then I64_MAX else x
  }

  /** What a visited child reports as its length: nothing when it is being visited already. */
  function LengthSeen(m: Model, child: Path, visiting: set<Path>): Option<int>
    requires child in m.components
  {
    if child in visiting then None else m.components[child].length
  }

  function ShorterThan(m: Model, targets: seq<Path>, k: int, length: int): bool {
    && 0 <= k < |targets| && targets[k] in m.components
    && m.components[targets[k]].length.Some? && m.components[targets[k]].length.value < length
  }

  /** A Sequence added up so far: its findings, the length, and whether all lengths were known. */
  datatype Sum = Sum(timeline: nat, calculated: int, complete: bool)

  function AddChild(m: Model, targets: seq<Path>, k: nat, length: Option<int>, sum: Sum): Sum
    requires k < |targets| && targets[k] in m.components
  {
    var child := m.components[targets[k]];
    if child.code == Some(TRANSITION) then
      var edge := One(k == 0 || k + 1 == |targets|);
      if length.None? || child.cutPoint.None? then
        sum.(timeline := sum.timeline + edge, complete := false)
      else
        var value, cut := length.value, child.cutPoint.value;
        sum.(timeline := sum.timeline + edge + One(cut < 0 || cut > value)
                         + One(ShorterThan(m, targets, k - 1, value)) + One(ShorterThan(m, targets, k + 1, value)),
             calculated := Saturate(sum.calculated - value))
    else if length.Some? then sum.(calculated := Saturate(sum.calculated + length.value))
    else sum.(complete := false)
  }

  function SumOf(m: Model, targets: seq<Path>, k: nat, visiting: set<Path>): Sum
    requires k <= |targets|
  {
    if k == 0 then Sum(0, 0, true)
    else
      var before := SumOf(m, targets, k - 1, visiting);
      if targets[k - 1] !in m.components then before.(complete := false)
      else AddChild(m, targets, k - 1, LengthSeen(m, targets[k - 1], visiting), before)
  }

  /** Lengths of the first `k` slots, where they report one, in order. */
  function SlotLengths(m: Model, slots: seq<Path>, k: nat, visiting: set<Path>): seq<int>
    requires k <= |slots|
  {
    if k == 0 then []
    else
      var before := SlotLengths(m, slots, k - 1, visiting);
      if slots[k - 1] in m.components && LengthSeen(m, slots[k - 1], visiting).Some?
      then before + [LengthSeen(m, slots[k - 1], visiting).value] else before
  }

  predicate Uneven(lengths: seq<int>) {
    exists i :: 0 <= i < |lengths| - 1 && lengths[i] != lengths[i + 1]
  }

  function SequenceFindings(m: Model, path: Path, visiting: set<Path>): Findings
    requires path in m.components
  {
    var targets, length := Followed(m, path), m.components[path].length;
    var sum := SumOf(m, targets, |targets|, visiting);
    Findings(One(targets == []) + sum.timeline
             + One(sum.complete && length.Some? && length.value != sum.calculated), 0, 0)
  }

  function ScopeFindings(m: Model, path: Path, visiting: set<Path>): Findings
    requires path in m.components
  {
    var slots := Followed(m, path);
    Findings(0, One(slots == []) + One(Uneven(SlotLengths(m, slots, |slots|, visiting))), 0)
  }

  /** A transition's operation must take its inputs from the neighbours. */
  function TransitionFindings(m: Model, path: Path): Findings
    requires path in m.components
  {
    var operations := Present(m, Followed(m, path));
    Findings(0, One(operations != [] && Targets(m, operations[0], 0x0b02) != []), 0)
  }

  /** The times of a varying value's control points, where they are known. */
  function PointTimes(m: Model, varying: Path): seq<Option<Rational>> {
    var points := Targets(m, varying, 0x4e02);
    seq(|points|, i requires 0 <= i < |points| =>
      if points[i] in m.components then m.components[points[i]].time else None)
  }

  function ParameterDefinitions(m: Model, parameters: seq<Path>): seq<Option<Bytes>> {
    seq(|parameters|, i requires 0 <= i < |parameters| =>
      if parameters[i] in m.components then m.components[parameters[i]].parameter else None)
  }

  predicate IsVarying(m: Model, path: Path) {
    path in m.components && m.components[path].code == Some(VARYING_VALUE)
  }

  function VaryingUpTo(m: Model, parameters: seq<Path>, k: nat): nat
    requires k <= |parameters|
  {
    if k == 0 then 0
    else VaryingUpTo(m, parameters, k - 1)
         + if IsVarying(m, parameters[k - 1]) then VaryingFindings(PointTimes(m, parameters[k - 1])) else 0
  }

  function GroupFindings(m: Model, path: Path): Findings {
    var parameters := Targets(m, path, 0x0b03);
    Findings(0, Repeats(ParameterDefinitions(m, parameters), |parameters|)
                + VaryingUpTo(m, parameters, |parameters|), 0)
  }

  method ValidateParameters(m: Model, path: Path) returns (findings: nat)
    ensures Findings(0, findings, 0) == GroupFindings(m, path)
  {
    var parameters := Targets(m, path, 0x0b03);
    findings := CountRepeats(ParameterDefinitions(m, parameters));
    for k := 0 to |parameters|
      invariant findings == Repeats(ParameterDefinitions(m, parameters), |parameters|) + VaryingUpTo(m, parameters, k)
    {
      if IsVarying(m, parameters[k]) {
        var more := ValidateVaryingValue(PointTimes(m, parameters[k]));
        findings := findings + more;
      }
    }
  }

  /** Findings about the component's parts taken together. */
  function PartFindings(m: Model, path: Path, visiting: set<Path>): Findings
    requires path in m.components
  {
    match m.components[path].code
    case Some(0x0f) => SequenceFindings(m, path, visiting)
    case Some(0x0b) => ScopeFindings(m, path, visiting)
    case Some(0x17) => TransitionFindings(m, path)
    case Some(0x0a) => GroupFindings(m, path)
    case _ => Findings(0, 0, 0)
  }

  /** Findings about the component itself. */
  function OwnFindings(c: Component, expected: Option<string>): Findings {
    Findings(One(expected.Some? && c.definition.Some? && expected != c.definition)
             + One(c.length.Some? && c.length.value < 0), 0, 0)
  }

  /** Everything the walk from `path` finds, `visiting` being the paths on the way to it. */
  function Examine(m: Model, path: Path, expected: Option<string>, visiting: set<Path>): Findings
    requires path in m.components
    decreases m.components.Keys - visiting, 1
  {
    if path in visiting then Findings(0, 0, 1)
    else
      var definition := m.components[path].definition;
      Plus(OwnFindings(m.components[path], expected),
           Plus(PartFindings(m, path, visiting + {path}),
                ExamineAll(m, Present(m, Followed(m, path)), definition, visiting + {path})))
  }

  function ExamineAll(m: Model, children: seq<Path>, expected: Option<string>, visiting: set<Path>): Findings
    decreases m.components.Keys - visiting, 2, |children|
  {
    if children == [] then Findings(0, 0, 0)
    else
      var last := children[|children| - 1];
      var before := ExamineAll(m, children[..|children| - 1], expected, visiting);
      if last in m.components then Plus(before, Examine(m, last, expected, visiting)) else before
  }

  // ---------- the walk as it runs

  class Walker {
    var visited: set<Path>
    var timeline: nat
    var effects: nat
    var recursions: nat

    function Found(): Findings
      reads this
    {
      Findings(timeline, effects, recursions)
    }

    constructor ()
      ensures visited == {} && Found() == Findings(0, 0, 0)
    {
      visited, timeline, effects, recursions := {}, 0, 0, 0;
    }

    /** Leaves the visited set as it was and adds what the walk below the component finds. */
    method Visit(m: Model, path: Path, expected: Option<string>) returns (length: Option<int>)
      requires path in m.components
      modifies this
      ensures visited == old(visited)
      ensures length == LengthSeen(m, path, old(visited))
      ensures Found() == Plus(old(Found()), Examine(m, path, expected, old(visited)))
      decreases m.components.Keys - visited, 0
    {
      hide PartFindings, ExamineAll;
      if path in visited {
        recursions := recursions + 1;
        return None;
      }
      visited := visited + {path};
      var component := m.components[path];
      if expected.Some? && component.definition.Some? && expected != component.definition {
        timeline := timeline + 1;
      }
      if component.length.Some? && component.length.value < 0 {
        timeline := timeline + 1;
      }
      VisitParts(m, path);
      visited := visited - {path};
      length := component.length;
    }

    method VisitParts(m: Model, path: Path)
      requires path in m.components
      modifies this
      ensures visited == old(visited)
      ensures Found() == Plus(old(Found()), Plus(PartFindings(m, path, visited),
                ExamineAll(m, Present(m, Followed(m, path)), m.components[path].definition, visited)))
      decreases m.components.Keys - visited, 4
    {
      hide SequenceFindings, ScopeFindings, GroupFindings, ExamineAll, Followed;
      var component := m.components[path];
      if component.code == Some(SEQUENCE) {
        VisitSequence(m, path);
      } else if component.code == Some(NESTED_SCOPE) {
        VisitScope(m, path);
      } else {
        var followed := Present(m, Followed(m, path));
        if component.code == Some(TRANSITION) && followed != [] && Targets(m, followed[0], 0x0b02) != [] {
          effects := effects + 1;
        }
        VisitEach(m, followed, component.definition);
        if component.code == Some(OPERATION_GROUP) {
          var findings := ValidateParameters(m, path);
          effects := effects + findings;
        }
      }
    }

    /** The operands of groups, selectors and transitions. */
    method VisitEach(m: Model, children: seq<Path>, definition: Option<string>)
      modifies this
      ensures visited == old(visited)
      ensures Found() == Plus(old(Found()), ExamineAll(m, children, definition, old(visited)))
      decreases m.components.Keys - visited, 2
    {
      assert ExamineAll(m, children[..0], definition, visited) == Findings(0, 0, 0);
      hide Examine, ExamineAll;
      for k := 0 to |children|
        invariant visited == old(visited)
        invariant Found() == Plus(old(Found()), ExamineAll(m, children[..k], definition, visited))
      {
        ExamineNext(m, children, k, definition, visited);
        var _ := VisitIfPresent(m, children[k], definition);
      }
      assert children[..|children|] == children;
    }

    method VisitSequence(m: Model, path: Path)
      requires path in m.components
      modifies this
      ensures visited == old(visited)
      ensures Found() == Plus(old(Found()), Plus(SequenceFindings(m, path, visited),
                ExamineAll(m, Present(m, Followed(m, path)), m.components[path].definition, visited)))
      decreases m.components.Keys - visited, 3
    {
      hide Followed, ExamineAll, Examine, Present, SumOf;
      var targets, length := Followed(m, path), m.components[path].length;
      var sum := VisitChildren(m, targets, m.components[path].definition);
      Note(One(targets == []) + sum.timeline
           + One(sum.complete && length.Some? && length.value != sum.calculated), 0);
    }

    method VisitChildren(m: Model, targets: seq<Path>, definition: Option<string>) returns (sum: Sum)
      modifies this
      ensures visited == old(visited)
      ensures sum == SumOf(m, targets, |targets|, visited)
      ensures Found() == Plus(old(Found()), ExamineAll(m, Present(m, targets), definition, visited))
      decreases m.components.Keys - visited, 2
    {
      sum := Sum(0, 0, true);
      ChildVisitsAre(m, targets, |targets|, definition, visited);
      assert targets[..|targets|] == targets;
      hide ExamineAll, Present, LengthSeen, Examine, SumOf, AddChild;
      for index := 0 to |targets|
        invariant visited == old(visited)
        invariant ChildVisits(m, targets, index, definition, visited).sum == sum
        invariant Found() == Plus(old(Found()), ChildVisits(m, targets, index, definition, visited).findings)
      {
        var length := VisitIfPresent(m, targets[index], definition);
        sum := if targets[index] in m.components then AddChild(m, targets, index, length, sum)
               else sum.(complete := false);
      }
    }

    method Note(moreTimeline: nat, moreEffects: nat)
      modifies this
      ensures visited == old(visited)
      ensures Found() == Plus(old(Found()), Findings(moreTimeline, moreEffects, 0))
    {
      timeline := timeline + moreTimeline;
      effects := effects + moreEffects;
    }

    method VisitScope(m: Model, path: Path)
      requires path in m.components
      modifies this
      ensures visited == old(visited)
      ensures Found() == Plus(old(Found()), Plus(ScopeFindings(m, path, visited),
                ExamineAll(m, Present(m, Followed(m, path)), m.components[path].definition, visited)))
      decreases m.components.Keys - visited, 3
    {
      hide Followed, ExamineAll, Examine, Present, SlotLengths, Uneven;
      var slots := Followed(m, path);
      var lengths := VisitSlots(m, slots, m.components[path].definition);
      Note(0, One(slots == []) + One(Uneven(lengths)));
    }

    method VisitSlots(m: Model, slots: seq<Path>, definition: Option<string>) returns (lengths: seq<int>)
      modifies this
      ensures visited == old(visited)
      ensures lengths == SlotLengths(m, slots, |slots|, visited)
      ensures Found() == Plus(old(Found()), ExamineAll(m, Present(m, slots), definition, visited))
      decreases m.components.Keys - visited, 2
    {
      lengths := [];
      SlotVisitsAre(m, slots, |slots|, definition, visited);
      assert slots[..|slots|] == slots;
      hide ExamineAll, Present, LengthSeen, Examine, SlotLengths;
      for k := 0 to |slots|
        invariant visited == old(visited)
        invariant SlotVisits(m, slots, k, definition, visited).lengths == lengths
        invariant Found() == Plus(old(Found()), SlotVisits(m, slots, k, definition, visited).findings)
      {
        var length := VisitIfPresent(m, slots[k], definition);
        if length.Some? {
          lengths := lengths + [length.value];
        }
      }
    }

    method VisitIfPresent(m: Model, path: Path, definition: Option<string>) returns (length: Option<int>)
      modifies this
      ensures visited == old(visited)
      ensures length == if path in m.components then LengthSeen(m, path, visited) else None
      ensures Found() == if path in m.components then Plus(old(Found()), Examine(m, path, definition, visited))
                         else old(Found())
      decreases m.components.Keys - visited, 1
    {
      length := None;
      if path in m.components {
        length := Visit(m, path, definition);
      }
    }
  }

  /** What visiting the first `k` slots yields, side by side. */
  datatype Visits = Visits(lengths: seq<int>, findings: Findings)

  function SlotVisits(m: Model, slots: seq<Path>, k: nat, definition: Option<string>, visiting: set<Path>): Visits
    requires k <= |slots|
  {
    if k == 0 then Visits([], Findings(0, 0, 0))
    else
      var before := SlotVisits(m, slots, k - 1, definition, visiting);
      var slot := slots[k - 1];
      if slot !in m.components then before
      else
        var length := LengthSeen(m, slot, visiting);
        Visits(if length.Some? then before.lengths + [length.value] else before.lengths,
               Plus(before.findings, Examine(m, slot, definition, visiting)))
  }

  lemma {:induction false} SlotVisitsAre(
      m: Model, slots: seq<Path>, k: nat, definition: Option<string>, visiting: set<Path>)
    requires k <= |slots|
    ensures SlotVisits(m, slots, k, definition, visiting)
            == Visits(SlotLengths(m, slots, k, visiting), ExamineAll(m, Present(m, slots[..k]), definition, visiting))
  {
    if k == 0 {
      assert slots[..0] == [];
    } else {
      hide Examine, ExamineAll, Present, LengthSeen;
      SlotVisitsAre(m, slots, k - 1, definition, visiting);
      PresentStep(m, slots, k - 1, definition, visiting);
    }
  }

  /** What visiting the first `k` children of a Sequence yields, side by side. */
  datatype Additions = Additions(sum: Sum, findings: Findings)

  function ChildVisits(m: Model, targets: seq<Path>, k: nat, definition: Option<string>, visiting: set<Path>)
    : Additions
    requires k <= |targets|
  {
    if k == 0 then Additions(Sum(0, 0, true), Findings(0, 0, 0))
    else
      var before := ChildVisits(m, targets, k - 1, definition, visiting);
      var child := targets[k - 1];
      if child !in m.components then before.(sum := before.sum.(complete := false))
      else
        Additions(AddChild(m, targets, k - 1, LengthSeen(m, child, visiting), before.sum),
                  Plus(before.findings, Examine(m, child, definition, visiting)))
  }

  lemma {:induction false} ChildVisitsAre(
      m: Model, targets: seq<Path>, k: nat, definition: Option<string>, visiting: set<Path>)
    requires k <= |targets|
    ensures ChildVisits(m, targets, k, definition, visiting)
            == Additions(SumOf(m, targets, k, visiting),
                         ExamineAll(m, Present(m, targets[..k]), definition, visiting))
  {
    if k == 0 {
      assert targets[..0] == [];
    } else {
      hide Examine, ExamineAll, Present, LengthSeen, AddChild;
      ChildVisitsAre(m, targets, k - 1, definition, visiting);
      PresentStep(m, targets, k - 1, definition, visiting);
    }
  }

  lemma {:induction false} PresentStep(
      m: Model, targets: seq<Path>, k: nat, expected: Option<string>, visiting: set<Path>)
    requires k < |targets|
    ensures var before := ExamineAll(m, Present(m, targets[..k]), expected, visiting);
            ExamineAll(m, Present(m, targets[..k + 1]), expected, visiting) ==
              if targets[k] in m.components then Plus(before, Examine(m, targets[k], expected, visiting)) else before
  {
    assert targets[..k + 1][..k] == targets[..k];
    var before, last := Present(m, targets[..k]), targets[k];
    assert (before + [last])[..|before|] == before;
  }

  lemma {:induction false} ExamineNext(
      m: Model, children: seq<Path>, k: nat, expected: Option<string>, visiting: set<Path>)
    requires k < |children|
    ensures var before := ExamineAll(m, children[..k], expected, visiting);
            ExamineAll(m, children[..k + 1], expected, visiting) ==
              if children[k] in m.components then Plus(before, Examine(m, children[k], expected, visiting)) else before
  {
    assert children[..k + 1][..k] == children[..k];
  }

  // ---------- recursion is reported exactly when it is there

  lemma {:induction false} PresentIsFilter(m: Model, targets: seq<Path>, path: Path)
    ensures path in Present(m, targets) <==> path in targets && path in m.components
  {
    if targets != [] {
      PresentIsFilter(m, targets[..|targets| - 1], path);
      assert targets == targets[..|targets| - 1] + [targets[|targets| - 1]];
    }
  }

  lemma {:induction false} RecursionIsRevisit(m: Model, path: Path, expected: Option<string>, visiting: set<Path>)
    requires path in m.components
    ensures Examine(m, path, expected, visiting).recursions > 0 <==> Revisits(WalkGraph(m), path, visiting)
    decreases m.components.Keys - visiting, 1
  {
    if path !in visiting {
      AllRecursions(m, Present(m, Followed(m, path)), m.components[path].definition, visiting + {path});
      assert WalkGraph(m)[path] == Present(m, Followed(m, path));
      forall child | child in WalkGraph(m)[path]
        ensures child in m.components
      {
        PresentIsFilter(m, Followed(m, path), child);
      }
    }
  }

  lemma {:induction false} AllRecursions(m: Model, children: seq<Path>, expected: Option<string>, visiting: set<Path>)
    ensures ExamineAll(m, children, expected, visiting).recursions > 0 <==>
            exists child :: child in children && child in m.components && Revisits(WalkGraph(m), child, visiting)
    decreases m.components.Keys - visiting, 2, |children|
  {
    hide Examine, Revisits, WalkGraph;
    if children != [] {
      var front, last := children[..|children| - 1], children[|children| - 1];
      AllRecursions(m, front, expected, visiting);
      if last in m.components {
        RecursionIsRevisit(m, last, expected, visiting);
      }
      assert children == front + [last];
    }
  }

  /** A walk from a segment reports recursion exactly when a cycle of components can be reached. */
  lemma {:induction false} RecursionIffCycle(m: Model, path: Path, expected: Option<string>)
    requires path in m.components
    ensures Examine(m, path, expected, {}).recursions > 0 <==> CycleReachable(WalkGraph(m), path)
  {
    RecursionIsRevisit(m, path, expected, {});
    RevisitsIffCycle(WalkGraph(m), path);
  }

  // ---------- resolved references cannot recurse

  lemma {:induction false} FollowedAreListed(m: Model, from: Path, to: Path) returns (pid: nat)
    requires from in m.components && to in Followed(m, from)
    ensures (from, pid) in m.references && to in m.references[(from, pid)]
  {
    match m.components[from].code
    case Some(0x0f) => pid := 0x1001;
    case Some(0x0a) => pid := 0x0b02;
    case Some(0x0b) => pid := 0x0c01;
    case Some(0x0e) => pid := if to in Targets(m, from, 0x0f01) then 0x0f01 else 0x0f02;
    case Some(0x17) => pid := 0x1801;
  }

  lemma {:induction false} FollowedAreChildren(m: Model, paths: set<Path>, from: Path, to: Path)
    requires Ownership.DirectChildren(m.references, paths) && Edge(WalkGraph(m), from, to)
    ensures Ownership.IsChildOf(to, from)
  {
    PresentIsFilter(m, Followed(m, from), to);
    var pid := FollowedAreListed(m, from, to);
    var list := m.references[(from, pid)];
    var i :| 0 <= i < |list| && list[i] == to;
  }

  lemma {:induction false} WalksDescend(m: Model, paths: set<Path>, p: seq<Path>)
    requires Ownership.DirectChildren(m.references, paths) && Walk(WalkGraph(m), p)
    ensures |p[|p| - 1]| == |p[0]| + |p| - 1
    decreases |p|
  {
    if |p| > 1 {
      assert Edge(WalkGraph(m), p[0], p[1]);
      FollowedAreChildren(m, paths, p[0], p[1]);
      WalkSplit(WalkGraph(m), p, 1);
      WalksDescend(m, paths, p[1..]);
    }
  }

  /** On references made by strong-reference resolution the guard never fires. */
  lemma {:induction false} ResolvedNeverRecurses(m: Model, paths: set<Path>, path: Path, expected: Option<string>)
    requires Ownership.DirectChildren(m.references, paths) && path in m.components
    ensures Examine(m, path, expected, {}).recursions == 0
  {
    if CycleReachable(WalkGraph(m), path) {
      var b :| Reaches(WalkGraph(m), path, b) && OnCycle(WalkGraph(m), b);
      var c :| WalkBetween(WalkGraph(m), b, b, c) && |c| >= 2;
      WalksDescend(m, paths, c);
    }
    RecursionIffCycle(m, path, expected);
  }
}
