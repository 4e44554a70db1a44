/** What a component walk without findings means: everything that can be reached is sound, and
    what soundness is for sequences, scopes and transitions. */
module AafTimeline {
  import opened Wrappers
  import opened Basics
  import opened Graph
  import opened AafVarying
  import opened AafComponents
  import Ownership = AafOwnership

  /** Findings are kept in two lists. */
  datatype Ledger = Timeline | Effects

  function In(findings: Findings, ledger: Ledger): nat {
    match ledger
    case Timeline => findings.timeline
    case Effects => findings.effects
  }

  /** A timeline finding unless one of the definitions is not known. */
  predicate DefinitionsAgree(expected: Option<string>, actual: Option<string>, ledger: Ledger) {
    ledger.Timeline? && expected.Some? && actual.Some? ==> expected == actual
  }

  /** So is a negative length. */
  predicate LengthOk(c: Component, ledger: Ledger) {
    ledger.Timeline? && c.length.Some? ==> c.length.value >= 0
  }

  /** The components that a component's walk goes on to, by class: the parts of a Sequence, the
      operands of a group, the slots of a scope, both lists of a selector, and the operation of a
      transition. */
  predicate LeadsTo(m: Model, path: Path, child: Path)
    requires path in m.components
  {
    && child in m.components
    && match m.components[path].code
       case Some(0x0f) => child in Targets(m, path, 0x1001)
       case Some(0x0a) => child in Targets(m, path, 0x0b02)
       case Some(0x0b) => child in Targets(m, path, 0x0c01)
       case Some(0x0e) => child in Targets(m, path, 0x0f01) || child in Targets(m, path, 0x0f02)
       case Some(0x17) => Targets(m, path, 0x1801) != [] && child == Targets(m, path, 0x1801)[0]
       case _ => false
  }

  /** Nothing is wrong with the component's parts taken together: a Sequence is a matter of the
      timeline, the other classes of effects. */
  predicate ClassSound(m: Model, path: Path, ledger: Ledger)
    requires path in m.components
  {
    match m.components[path].code
    case Some(0x0f) => ledger.Timeline? ==> SequenceOk(m, Targets(m, path, 0x1001), m.components[path].length)
    case Some(0x0b) => ledger.Effects? ==> ScopeOk(m, Targets(m, path, 0x0c01))
    case Some(0x17) => ledger.Effects? ==> OperationOk(m, Targets(m, path, 0x1801))
    case Some(0x0a) => ledger.Effects? ==> GroupOk(m, Targets(m, path, 0x0b03))
    case _ => true
  }

  /** The component by itself and against the components it leads to. */
  predicate LocallySound(m: Model, path: Path, ledger: Ledger)
    requires path in m.components
  {
    var c := m.components[path];
    && LengthOk(c, ledger) && ClassSound(m, path, ledger)
    && forall child :: child in m.components && LeadsTo(m, path, child) ==>
         DefinitionsAgree(c.definition, m.components[child].definition, ledger)
  }

  ghost predicate SoundBelow(m: Model, path: Path, ledger: Ledger) {
    forall n :: n in m.components && Reaches(WalkGraph(m), path, n) ==> LocallySound(m, n, ledger)
  }

  // ---------- the walk finds nothing exactly when everything below is sound

  lemma ReachesFromChild(g: map<Path, seq<Path>>, a: Path, b: Path)
    ensures Reaches(g, a, b) <==> a == b || exists c :: Edge(g, a, c) && Reaches(g, c, b)
  {
    if a == b {
      ReachesRefl(g, a);
    }
    if Reaches(g, a, b) && a != b {
      var p :| WalkBetween(g, a, b, p);
      WalkSplit(g, p, 1);
      assert Edge(g, a, p[1]) && WalkBetween(g, p[1], b, p[1..]);
    }
    if c :| Edge(g, a, c) && Reaches(g, c, b) {
      var p :| WalkBetween(g, c, b, p);
      WalkPrepend(g, a, p);
      assert WalkBetween(g, a, b, [a] + p);
    }
  }

  lemma SoundBelowSplits(m: Model, path: Path, ledger: Ledger)
    requires path in m.components
    ensures SoundBelow(m, path, ledger) <==>
            LocallySound(m, path, ledger) && forall c :: Edge(WalkGraph(m), path, c) ==> SoundBelow(m, c, ledger)
  {
    hide LocallySound;
    var g := WalkGraph(m);
    forall n
      ensures Reaches(g, path, n) <==> path == n || exists c :: Edge(g, path, c) && Reaches(g, c, n)
    {
      ReachesFromChild(g, path, n);
    }
    if SoundBelow(m, path, ledger) {
      assert Reaches(g, path, path);
    }
  }

  /** The walk leads from a component to these. */
  lemma EdgesAre(m: Model, path: Path, child: Path)
    ensures Edge(WalkGraph(m), path, child) <==> path in m.components && LeadsTo(m, path, child)
  {
    if path in m.components {
      ChildrenAre(m, path);
      FollowedAre(m, path, child);
    }
  }

  lemma FollowedAre(m: Model, path: Path, child: Path)
    requires path in m.components
    ensures child in Followed(m, path) && child in m.components <==> LeadsTo(m, path, child)
  {
    hide Targets;
  }

  lemma ChildrenAre(m: Model, path: Path)
    requires path in m.components
    ensures WalkGraph(m)[path] == Present(m, Followed(m, path))
    ensures forall c :: Edge(WalkGraph(m), path, c) <==> c in Followed(m, path) && c in m.components
  {
    forall c
      ensures Edge(WalkGraph(m), path, c) <==> c in Followed(m, path) && c in m.components
    {
      PresentIsFilter(m, Followed(m, path), c);
    }
  }

  /** Unless it runs into its own path, the walk finds nothing, in either list, exactly when the
      component fits its parent and all that it reaches is sound. */
  lemma {:induction false} CleanWalk(
      m: Model, path: Path, expected: Option<string>, visiting: set<Path>, ledger: Ledger)
    requires path in m.components && !Revisits(WalkGraph(m), path, visiting)
    ensures In(Examine(m, path, expected, visiting), ledger) == 0 <==>
            DefinitionsAgree(expected, m.components[path].definition, ledger) && SoundBelow(m, path, ledger)
    decreases m.components.Keys - visiting, 1
  {
    hide *;
    var deeper, children := visiting + {path}, Present(m, Followed(m, path));
    ChildrenAre(m, path);
    NotRevisiting(m, path, visiting);
    PartsUnaffected(m, path, deeper);
    CleanChildren(m, children, m.components[path].definition, deeper, ledger);
    SoundBelowSplits(m, path, ledger);
    ExamineSplits(m, path, expected, visiting, ledger);
    SoundSplits(m, path, ledger);
  }

  lemma NotRevisiting(m: Model, path: Path, visiting: set<Path>)
    requires path in m.components && !Revisits(WalkGraph(m), path, visiting)
    ensures path !in visiting
    ensures forall c :: Edge(WalkGraph(m), path, c) ==> !Revisits(WalkGraph(m), c, visiting + {path})
    ensures forall c :: c in Present(m, Followed(m, path)) <==> Edge(WalkGraph(m), path, c)
    ensures forall c :: c in Followed(m, path) && c in m.components ==> c !in visiting + {path}
  {
    ChildrenAre(m, path);
  }

  lemma ExamineSplits(m: Model, path: Path, expected: Option<string>, visiting: set<Path>, ledger: Ledger)
    requires path in m.components && path !in visiting
    ensures var c := m.components[path];
      In(Examine(m, path, expected, visiting), ledger) == 0 <==>
        && DefinitionsAgree(expected, c.definition, ledger) && LengthOk(c, ledger)
        && In(PartFindings(m, path, visiting + {path}), ledger) == 0
        && In(ExamineAll(m, Present(m, Followed(m, path)), c.definition, visiting + {path}), ledger) == 0
  {
    hide PartFindings, ExamineAll, Followed, Present, OwnFindings, Plus, In;
    var c, deeper := m.components[path], visiting + {path};
    var parts := PartFindings(m, path, deeper);
    var below := ExamineAll(m, Present(m, Followed(m, path)), c.definition, deeper);
    assert Examine(m, path, expected, visiting) == Plus(OwnFindings(c, expected), Plus(parts, below));
    PlusParts(OwnFindings(c, expected), Plus(parts, below), ledger);
    PlusParts(parts, below, ledger);
    OwnNothing(c, expected, ledger);
  }

  lemma PlusParts(a: Findings, b: Findings, ledger: Ledger)
    ensures In(Plus(a, b), ledger) == In(a, ledger) + In(b, ledger)
  {
  }

  lemma OwnNothing(c: Component, expected: Option<string>, ledger: Ledger)
    ensures In(OwnFindings(c, expected), ledger) == 0 <==>
            DefinitionsAgree(expected, c.definition, ledger) && LengthOk(c, ledger)
  {
  }

  lemma SoundSplits(m: Model, path: Path, ledger: Ledger)
    requires path in m.components
    ensures var c := m.components[path];
      LocallySound(m, path, ledger) <==>
        && LengthOk(c, ledger) && In(PartFindings(m, path, {}), ledger) == 0
        && forall child :: child in Present(m, Followed(m, path)) ==>
             Edge(WalkGraph(m), path, child) && child in m.components
             && DefinitionsAgree(c.definition, m.components[child].definition, ledger)
  {
    hide PartFindings, Followed, DefinitionsAgree, LeadsTo, ClassSound, In, LengthOk;
    ChildrenAre(m, path);
    ClassSoundIff(m, path, ledger);
    forall child
      ensures child in Followed(m, path) && child in m.components <==> child in m.components && LeadsTo(m, path, child)
    {
      FollowedAre(m, path, child);
    }
  }

  lemma {:induction false} CleanChildren(
      m: Model, children: seq<Path>, expected: Option<string>, visiting: set<Path>, ledger: Ledger)
    requires forall c :: c in children ==> c in m.components && !Revisits(WalkGraph(m), c, visiting)
    ensures In(ExamineAll(m, children, expected, visiting), ledger) == 0 <==>
            forall c :: c in children ==>
              DefinitionsAgree(expected, m.components[c].definition, ledger) && SoundBelow(m, c, ledger)
    decreases m.components.Keys - visiting, 2, |children|
  {
    hide *;
    if children == [] {
      NothingExamined(m, expected, visiting, ledger);
    } else {
      var front, last := children[..|children| - 1], children[|children| - 1];
      assert children == front + [last];
      CleanChildren(m, front, expected, visiting, ledger);
      CleanWalk(m, last, expected, visiting, ledger);
      ExamineAllSplits(m, children, expected, visiting, ledger);
    }
  }

  lemma NothingExamined(m: Model, expected: Option<string>, visiting: set<Path>, ledger: Ledger)
    ensures In(ExamineAll(m, [], expected, visiting), ledger) == 0
  {
  }

  lemma ExamineAllSplits(m: Model, children: seq<Path>, expected: Option<string>, visiting: set<Path>, ledger: Ledger)
    requires children != [] && children[|children| - 1] in m.components
    ensures In(ExamineAll(m, children, expected, visiting), ledger) == 0 <==>
            && In(ExamineAll(m, children[..|children| - 1], expected, visiting), ledger) == 0
            && In(Examine(m, children[|children| - 1], expected, visiting), ledger) == 0
  {
    hide Examine, ExamineAll, Plus, In;
    var last := |children| - 1;
    assert children[..last + 1] == children;
    ExamineNext(m, children, last, expected, visiting);
    var before := ExamineAll(m, children[..last], expected, visiting);
    PlusParts(before, Examine(m, children[last], expected, visiting), ledger);
  }

  /** On acyclic references a walk from the top finds nothing in a list exactly when everything
      reachable is sound in that respect, and it never recurses. */
  lemma CleanSegment(m: Model, path: Path, ledger: Ledger)
    requires path in m.components && !CycleReachable(WalkGraph(m), path)
    ensures In(Examine(m, path, None, {}), ledger) == 0 <==> SoundBelow(m, path, ledger)
    ensures Examine(m, path, None, {}).recursions == 0
  {
    hide Examine, In, SoundBelow;
    RevisitsIffCycle(WalkGraph(m), path);
    CleanWalk(m, path, None, {}, ledger);
    RecursionIffCycle(m, path, None);
  }

  /** References that resolution made are acyclic. */
  lemma ResolvedSegment(m: Model, paths: set<Path>, path: Path, ledger: Ledger)
    requires Ownership.DirectChildren(m.references, paths) && path in m.components
    ensures In(Examine(m, path, None, {}), ledger) == 0 <==> SoundBelow(m, path, ledger)
    ensures Examine(m, path, None, {}).recursions == 0
  {
    hide *;
    ResolvedNeverRecurses(m, paths, path, None);
    RecursionIffCycle(m, path, None);
    CleanSegment(m, path, ledger);
  }

  // ---------- lengths seen do not depend on the path so far

  lemma {:induction false} SumUnaffected(m: Model, targets: seq<Path>, k: nat, visiting: set<Path>)
    requires k <= |targets| && forall c :: c in targets && c in m.components ==> c !in visiting
    ensures SumOf(m, targets, k, visiting) == SumOf(m, targets, k, {})
  {
    hide AddChild;
    if k > 0 {
      SumUnaffected(m, targets, k - 1, visiting);
    }
  }

  lemma {:induction false} SlotsUnaffected(m: Model, slots: seq<Path>, k: nat, visiting: set<Path>)
    requires k <= |slots| && forall c :: c in slots && c in m.components ==> c !in visiting
    ensures SlotLengths(m, slots, k, visiting) == SlotLengths(m, slots, k, {})
  {
    if k > 0 {
      SlotsUnaffected(m, slots, k - 1, visiting);
    }
  }

  lemma PartsUnaffected(m: Model, path: Path, visiting: set<Path>)
    requires path in m.components
    requires forall c :: c in Followed(m, path) && c in m.components ==> c !in visiting
    ensures PartFindings(m, path, visiting) == PartFindings(m, path, {})
  {
    hide Followed, SumOf, SlotLengths, Uneven;
    SumUnaffected(m, Followed(m, path), |Followed(m, path)|, visiting);
    SlotsUnaffected(m, Followed(m, path), |Followed(m, path)|, visiting);
  }

  // ---------- sequences

  predicate IsTransition(m: Model, targets: seq<Path>, k: nat)
    requires k < |targets|
  {
    targets[k] in m.components && m.components[targets[k]].code == Some(TRANSITION)
  }

  predicate NoShorter(m: Model, path: Path, length: int) {
    LengthOf(m, path).Some? ==> LengthOf(m, path).value >= length
  }

  /** A transition stands between two components, its cut lies within it, and neither neighbour
      is known to be shorter than it. */
  predicate TransitionSound(m: Model, targets: seq<Path>, k: nat)
    requires k < |targets| && targets[k] in m.components
  {
    var c := m.components[targets[k]];
    && 0 < k < |targets| - 1
    && (c.length.Some? && c.cutPoint.Some? ==>
          && 0 <= c.cutPoint.value <= c.length.value
          && NoShorter(m, targets[k - 1], c.length.value) && NoShorter(m, targets[k + 1], c.length.value))
  }

  /** A child whose share of the sequence is known. */
  predicate Measured(m: Model, targets: seq<Path>, k: nat)
    requires k < |targets|
  {
    && targets[k] in m.components && m.components[targets[k]].length.Some?
    && (IsTransition(m, targets, k) ==> m.components[targets[k]].cutPoint.Some?)
  }

  /** The exact extent of the first `k` children: transitions overlap, all others add. */
  function Extent(m: Model, targets: seq<Path>, k: nat): int
    requires k <= |targets|
  {
    if k == 0 then 0
    else
      Extent(m, targets, k - 1) +
      if !Measured(m, targets, k - 1) then 0
      else if IsTransition(m, targets, k - 1) then -m.components[targets[k - 1]].length.value
      else m.components[targets[k - 1]].length.value
  }

  predicate WithinI64(m: Model, targets: seq<Path>) {
    forall k :: 0 <= k <= |targets| ==> I64_MIN <= Extent(m, targets, k) <= I64_MAX
  }

  lemma {:induction false} SumMeans(m: Model, targets: seq<Path>, k: nat)
    requires k <= |targets|
    ensures var sum := SumOf(m, targets, k, {});
      && (sum.timeline == 0 <==>
            forall j :: 0 <= j < k && IsTransition(m, targets, j) ==> TransitionSound(m, targets, j))
      && (sum.complete <==> forall j :: 0 <= j < k ==> Measured(m, targets, j))
      && (WithinI64(m, targets) ==> sum.calculated == Extent(m, targets, k))
  {
    hide ShorterThan;
    if k > 0 {
      SumMeans(m, targets, k - 1);
      ChildMeans(m, targets, k - 1, SumOf(m, targets, k - 1, {}));
      hide AddChild, TransitionSound, Measured, IsTransition, Extent;
      assert I64_MIN <= Extent(m, targets, k) <= I64_MAX || !WithinI64(m, targets);
    }
  }

  lemma ShorterMeans(m: Model, targets: seq<Path>, k: nat, length: int)
    requires k < |targets|
    ensures ShorterThan(m, targets, k, length) <==> !NoShorter(m, targets[k], length)
  {
  }

  lemma ChildMeans(m: Model, targets: seq<Path>, k: nat, before: Sum)
    requires k < |targets|
    ensures targets[k] !in m.components ==> !Measured(m, targets, k) && !IsTransition(m, targets, k)
    ensures targets[k] in m.components ==>
      var sum := AddChild(m, targets, k, LengthSeen(m, targets[k], {}), before);
      && (sum.timeline == before.timeline <==> (IsTransition(m, targets, k) ==> TransitionSound(m, targets, k)))
      && sum.timeline >= before.timeline
      && (sum.complete <==> before.complete && Measured(m, targets, k))
      && (before.calculated == Extent(m, targets, k) && I64_MIN <= Extent(m, targets, k + 1) <= I64_MAX ==>
            sum.calculated == Extent(m, targets, k + 1))
    ensures targets[k] !in m.components ==> Extent(m, targets, k + 1) == Extent(m, targets, k)
  {
    hide ShorterThan, NoShorter;
    if targets[k] in m.components && m.components[targets[k]].length.Some? && 0 < k < |targets| - 1 {
      ShorterMeans(m, targets, k - 1, m.components[targets[k]].length.value);
      ShorterMeans(m, targets, k + 1, m.components[targets[k]].length.value);
    }
  }

  /** The length that the parts of a Sequence add up to: the exact extent, unless a partial one
      leaves 64 bits and the sum saturates. */
  function TotalLength(m: Model, targets: seq<Path>): int {
    if WithinI64(m, targets) then Extent(m, targets, |targets|) else SumOf(m, targets, |targets|, {}).calculated
  }

  /** A Sequence that is not empty, whose transitions are sound and whose declared length is what
      its parts add up to, if all of them are measured. */
  predicate SequenceOk(m: Model, targets: seq<Path>, length: Option<int>) {
    && targets != []
    && (forall k :: 0 <= k < |targets| && IsTransition(m, targets, k) ==> TransitionSound(m, targets, k))
    && ((forall k :: 0 <= k < |targets| ==> Measured(m, targets, k)) && length.Some? ==>
          length.value == TotalLength(m, targets))
  }

  lemma SequenceSound(m: Model, path: Path)
    requires path in m.components && m.components[path].code == Some(SEQUENCE)
    ensures PartFindings(m, path, {}).timeline == 0 <==>
            SequenceOk(m, Targets(m, path, 0x1001), m.components[path].length)
    ensures PartFindings(m, path, {}).effects == 0
  {
    hide Targets, SumOf, IsTransition, TransitionSound, Measured, Extent, WithinI64;
    var targets := Targets(m, path, 0x1001);
    SumMeans(m, targets, |targets|);
  }

  // ---------- scopes

  lemma EvenMeansEqual(lengths: seq<int>)
    ensures !Uneven(lengths) <==> forall i, j :: 0 <= i < j < |lengths| ==> lengths[i] == lengths[j]
  {
    if !Uneven(lengths) {
      for n := 0 to |lengths|
        invariant forall i, j :: 0 <= i < j < n ==> lengths[i] == lengths[j]
      {
        assert n > 0 ==> lengths[n - 1] == lengths[n - 1 + 1];
      }
    } else {
      var i :| 0 <= i < |lengths| - 1 && lengths[i] != lengths[i + 1];
    }
  }

  predicate HasLength(m: Model, slots: seq<Path>, k: nat, length: int)
    requires k < |slots|
  {
    slots[k] in m.components && m.components[slots[k]].length == Some(length)
  }

  lemma {:induction false} SlotLengthsAre(m: Model, slots: seq<Path>, k: nat, length: int)
    requires k <= |slots|
    ensures length in SlotLengths(m, slots, k, {}) <==> exists j :: 0 <= j < k && HasLength(m, slots, j, length)
  {
    if k > 0 {
      SlotLengthsAre(m, slots, k - 1, length);
      assert HasLength(m, slots, k - 1, length) <==>
             slots[k - 1] in m.components && LengthSeen(m, slots[k - 1], {}) == Some(length);
    }
  }

  lemma LengthIs(m: Model, slots: seq<Path>, k: nat, length: int)
    requires k < |slots|
    ensures HasLength(m, slots, k, length) <==> LengthOf(m, slots[k]) == Some(length)
  {
  }

  /** A scope with slots, no two of which have different lengths. */
  predicate ScopeOk(m: Model, slots: seq<Path>) {
    && slots != []
    && forall i, j :: 0 <= i < |slots| && 0 <= j < |slots| && LengthOf(m, slots[i]).Some? && LengthOf(m, slots[j]).Some?
         ==> LengthOf(m, slots[i]) == LengthOf(m, slots[j])
  }

  function LengthOf(m: Model, path: Path): Option<int> {
    if path in m.components then m.components[path].length else None
  }

  lemma ScopeSound(m: Model, path: Path)
    requires path in m.components && m.components[path].code == Some(NESTED_SCOPE)
    ensures PartFindings(m, path, {}).effects == 0 <==> ScopeOk(m, Targets(m, path, 0x0c01))
    ensures PartFindings(m, path, {}).timeline == 0
  {
    hide Targets, SlotLengths, HasLength, Uneven, LengthOf;
    var slots := Targets(m, path, 0x0c01);
    var lengths := SlotLengths(m, slots, |slots|, {});
    EvenMeansEqual(lengths);
    forall length
      ensures length in lengths <==> exists j :: 0 <= j < |slots| && HasLength(m, slots, j, length)
    {
      SlotLengthsAre(m, slots, |slots|, length);
    }
    forall i, length | 0 <= i < |slots|
      ensures HasLength(m, slots, i, length) <==> LengthOf(m, slots[i]) == Some(length)
    {
      LengthIs(m, slots, i, length);
    }
    if !Uneven(lengths) {
      forall i, j | 0 <= i < |slots| && 0 <= j < |slots|
             && LengthOf(m, slots[i]).Some? && LengthOf(m, slots[j]).Some?
        ensures LengthOf(m, slots[i]) == LengthOf(m, slots[j])
      {
        var a, b := LengthOf(m, slots[i]).value, LengthOf(m, slots[j]).value;
        assert HasLength(m, slots, i, a) && HasLength(m, slots, j, b);
        assert a in lengths && b in lengths;
      }
    } else {
      var i, j :| 0 <= i < j < |lengths| && lengths[i] != lengths[j];
      assert lengths[i] in lengths && lengths[j] in lengths;
    }
  }

  // ---------- operation groups

  /** No two parameters have the same definition, and every varying value among them has points in
      order. */
  predicate GroupOk(m: Model, parameters: seq<Path>) {
    && (forall i, j :: 0 <= i < j < |parameters| && ParameterOf(m, parameters[i]).Some? ==>
          ParameterOf(m, parameters[i]) != ParameterOf(m, parameters[j]))
    && forall k :: 0 <= k < |parameters| && ClassOf(m, parameters[k]) == Some(0x3e) ==>
         PointsOk(m, Targets(m, parameters[k], 0x4e02))
  }

  function ClassOf(m: Model, path: Path): Option<nat> {
    if path in m.components then m.components[path].code else None
  }

  function ParameterOf(m: Model, path: Path): Option<Bytes> {
    if path in m.components then m.components[path].parameter else None
  }

  function TimeOf(m: Model, path: Path): Option<Rational> {
    if path in m.components then m.components[path].time else None
  }

  /** There are points, and each known time follows the known one before it. */
  predicate PointsOk(m: Model, points: seq<Path>) {
    && points != []
    && forall j, k :: 0 <= j < k < |points| && NextKnown(m, points, j, k) ==>
         Follows(TimeOf(m, points[j]).value, TimeOf(m, points[k]).value)
  }

  predicate NextKnown(m: Model, points: seq<Path>, j: nat, k: nat)
    requires j < k < |points|
  {
    && TimeOf(m, points[j]).Some? && TimeOf(m, points[k]).Some?
    && forall i :: j < i < k ==> TimeOf(m, points[i]).None?
  }

  lemma VaryingPoints(m: Model, path: Path)
    ensures VaryingFindings(PointTimes(m, path)) == 0 <==> PointsOk(m, Targets(m, path, 0x4e02))
  {
    hide Targets, Follows, VaryingFindings;
    var points, times := Targets(m, path, 0x4e02), PointTimes(m, path);
    VaryingMeans(times);
    assert |times| == |points| && forall i :: 0 <= i < |points| ==> times[i] == TimeOf(m, points[i]);
    hide PointTimes, TimeOf;
    forall j, k | 0 <= j < k < |points|
      ensures Neighbours(times, j, k) <==> NextKnown(m, points, j, k)
    {
    }
  }

  lemma GroupSound(m: Model, path: Path)
    requires path in m.components && m.components[path].code == Some(OPERATION_GROUP)
    ensures PartFindings(m, path, {}).effects == 0 <==> GroupOk(m, Targets(m, path, 0x0b03))
    ensures PartFindings(m, path, {}).timeline == 0
  {
    hide VaryingFindings, PointTimes, PointsOk, VaryingUpTo, Repeats, Targets;
    var parameters := Targets(m, path, 0x0b03);
    var definitions := ParameterDefinitions(m, parameters);
    NoRepeats(definitions, |parameters|);
    VaryingAllSound(m, parameters, |parameters|);
    assert forall i :: 0 <= i < |parameters| ==> definitions[i] == ParameterOf(m, parameters[i]);
    forall k | 0 <= k < |parameters|
      ensures VaryingFindings(PointTimes(m, parameters[k])) == 0 <==> PointsOk(m, Targets(m, parameters[k], 0x4e02))
    {
      VaryingPoints(m, parameters[k]);
    }
  }

  lemma {:induction false} VaryingAllSound(m: Model, parameters: seq<Path>, k: nat)
    requires k <= |parameters|
    ensures VaryingUpTo(m, parameters, k) == 0 <==>
            forall i :: 0 <= i < k && IsVarying(m, parameters[i]) ==> VaryingFindings(PointTimes(m, parameters[i])) == 0
  {
    hide VaryingFindings, PointTimes;
    if k > 0 {
      VaryingAllSound(m, parameters, k - 1);
    }
  }

  // ---------- transitions

  /** The operation of a transition, if it is there, names no operands: it takes them from the
      neighbours. */
  predicate OperationOk(m: Model, operations: seq<Path>) {
    operations != [] && operations[0] in m.components ==> Targets(m, operations[0], 0x0b02) == []
  }

  lemma OperationSound(m: Model, path: Path)
    requires path in m.components && m.components[path].code == Some(TRANSITION)
    ensures PartFindings(m, path, {}).effects == 0 <==> OperationOk(m, Targets(m, path, 0x1801))
    ensures PartFindings(m, path, {}).timeline == 0
  {
    hide Targets;
    var list := Targets(m, path, 0x1801);
    if list != [] {
      OnePresent(m, list[0]);
    }
  }

  lemma OnePresent(m: Model, path: Path)
    ensures Present(m, [path]) == if path in m.components then [path] else []
  {
    assert [path][..0] == [];
  }

  /** Nothing follows the operation group of a sound transition. */
  lemma TransitionEndsWalk(m: Model, path: Path, operation: Path, next: Path)
    requires path in m.components && m.components[path].code == Some(TRANSITION) && ClassSound(m, path, Effects)
    requires Edge(WalkGraph(m), path, operation) && operation in m.components
    requires m.components[operation].code == Some(OPERATION_GROUP)
    ensures !Edge(WalkGraph(m), operation, next)
  {
    hide Targets;
    EdgesAre(m, path, operation);
    EdgesAre(m, operation, next);
  }

  // ---------- all classes

  /** A component's parts give no findings exactly when they are sound for its class. */
  lemma ClassSoundIff(m: Model, path: Path, ledger: Ledger)
    requires path in m.components
    ensures In(PartFindings(m, path, {}), ledger) == 0 <==> ClassSound(m, path, ledger)
  {
    hide SequenceOk, ScopeOk, OperationOk, GroupOk, SequenceFindings, ScopeFindings, TransitionFindings, GroupFindings,
         Targets;
    match m.components[path].code
    case Some(0x0f) => SequenceSound(m, path);
    case Some(0x0b) => ScopeSound(m, path);
    case Some(0x17) => OperationSound(m, path);
    case Some(0x0a) => GroupSound(m, path);
    case _ =>
  }
}
