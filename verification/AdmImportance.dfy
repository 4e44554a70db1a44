/** Importance of objects: ranks as audited, and the threshold plan that brings the number of
    objects down to a target without touching protected ones. */
module AdmImportance {
  import opened Wrappers
  import opened IdOrder

  const MAX_IMPORTANCE: nat := 10

  datatype Ranked = Ranked(id: Id, value: Option<nat>, valid: bool)

  /** An importance attribute: absent, or read as an 8-bit number if it is one. */
  type Attribute = Option<Option<nat>>

  datatype Kind = ObjectElement | PackElement | BlockElement

  datatype Element = Element(kind: Kind, id: Id, importance: Attribute)

  // ---------- the audit of ranks

  function InRange(value: Option<nat>): Option<nat> {
    if value.Some? && value.value <= MAX_IMPORTANCE then value else None
  }

  predicate ValidAttribute(importance: Attribute) {
    importance.None? || InRange(importance.value).Some?
  }

  function RankOf(e: Element): Ranked {
    Ranked(e.id, if e.importance.Some? then InRange(e.importance.value) else None, ValidAttribute(e.importance))
  }

  function RanksOf(elements: seq<Element>): seq<Ranked> {
    if elements == [] then []
    else
      var before, last := RanksOf(elements[..|elements| - 1]), elements[|elements| - 1];
      if last.kind == ObjectElement then before + [RankOf(last)] else before
  }

  function IdOf(r: Ranked): Id {
    r.id
  }

  /** How many elements of a kind state their importance, and how many do not. */
  datatype Tally = Tally(explicit: nat, unspecified: nat)

  datatype Audit = Audit(objects: Tally, packs: Tally, blocks: Tally, invalid: nat, ranked: seq<Ranked>)

  function TallyOf(elements: seq<Element>, kind: Kind): Tally {
    Tally(Count(elements, (e: Element) => e.kind == kind && e.importance.Some?),
          Count(elements, (e: Element) => e.kind == kind && e.importance.None?))
  }

  function Tallied(t: Tally, importance: Attribute): Tally {
    if importance.Some? then t.(explicit := t.explicit + 1) else t.(unspecified := t.unspecified + 1)
  }

  function InvalidCount(elements: seq<Element>): nat {
    Count(elements, (e: Element) => !ValidAttribute(e.importance))
  }

  lemma TallyNext(elements: seq<Element>, e: Element, kind: Kind)
    ensures TallyOf(elements + [e], kind)
            == if e.kind == kind then Tallied(TallyOf(elements, kind), e.importance) else TallyOf(elements, kind)
  {
    CountNext(elements, e, (e: Element) => e.kind == kind && e.importance.Some?);
    CountNext(elements, e, (e: Element) => e.kind == kind && e.importance.None?);
  }

  lemma RanksNext(elements: seq<Element>, e: Element)
    ensures RanksOf(elements + [e]) == RanksOf(elements) + if e.kind == ObjectElement then [RankOf(e)] else []
  {
    assert (elements + [e])[..|elements|] == elements;
  }

  /** One pass over the elements; the objects' ranks are then sorted by id. */
  method AuditImportance(elements: seq<Element>) returns (audit: Audit)
    ensures audit.ranked == SortedBy(IdOf, RanksOf(elements))
    ensures audit.objects == TallyOf(elements, ObjectElement) && audit.packs == TallyOf(elements, PackElement)
    ensures audit.blocks == TallyOf(elements, BlockElement)
    ensures audit.invalid == InvalidCount(elements)
  {
    var objects, packs, blocks := Tally(0, 0), Tally(0, 0), Tally(0, 0);
    var ranked, invalid := [], 0;
    assert elements[..0] == [];
    for i := 0 to |elements|
      invariant ranked == RanksOf(elements[..i]) && invalid == InvalidCount(elements[..i])
      invariant objects == TallyOf(elements[..i], ObjectElement) && packs == TallyOf(elements[..i], PackElement)
      invariant blocks == TallyOf(elements[..i], BlockElement)
    {
      var e := elements[i];
      AuditNext(elements, i);
      match e.kind {
        case ObjectElement => objects := Tallied(objects, e.importance);
        case PackElement => packs := Tallied(packs, e.importance);
        case BlockElement => blocks := Tallied(blocks, e.importance);
      }
      var value := if e.importance.Some? then e.importance.value else None;
      var valid := e.importance.None? || (value.Some? && value.value <= MAX_IMPORTANCE);
      if e.importance.Some? && !valid {
        invalid := invalid + 1;
      }
      if e.kind == ObjectElement {
        ranked := ranked + [Ranked(e.id, InRange(value), valid)];
      }
    }
    assert elements[..|elements|] == elements;
    audit := Audit(objects, packs, blocks, invalid, SortedBy(IdOf, ranked));
  }

  lemma AuditNext(elements: seq<Element>, i: nat)
    requires i < |elements|
    ensures var front, next, e := elements[..i], elements[..i + 1], elements[i];
      && RanksOf(next) == RanksOf(front) + (if e.kind == ObjectElement then [RankOf(e)] else [])
      && InvalidCount(next) == InvalidCount(front) + (if ValidAttribute(e.importance) then 0 else 1)
      && forall kind :: TallyOf(next, kind)
                        == if e.kind == kind then Tallied(TallyOf(front, kind), e.importance) else TallyOf(front, kind)
  {
    assert elements[..i + 1] == elements[..i] + [elements[i]];
    RanksNext(elements[..i], elements[i]);
    CountNext(elements[..i], elements[i], (e: Element) => !ValidAttribute(e.importance));
    forall kind
      ensures TallyOf(elements[..i + 1], kind)
              == if elements[i].kind == kind then Tallied(TallyOf(elements[..i], kind), elements[i].importance)
                 else TallyOf(elements[..i], kind)
    {
      TallyNext(elements[..i], elements[i], kind);
    }
  }

  /** A value is kept only when it is valid, and then it is at most ten. */
  predicate WellRanked(objects: seq<Ranked>) {
    forall o :: o in objects && o.value.Some? ==> o.valid && o.value.value <= MAX_IMPORTANCE
  }

  lemma {:induction false} RanksWell(elements: seq<Element>)
    ensures WellRanked(RanksOf(elements))
    ensures |RanksOf(elements)| == Count(elements, (e: Element) => e.kind == ObjectElement)
  {
    if elements != [] {
      RanksWell(elements[..|elements| - 1]);
    }
  }

  /** What is planned over: the objects, each once, in the order of their ids, those with the same
      id as they stand in the document, and no value out of range. */
  lemma AuditedObjects(elements: seq<Element>)
    ensures var objects := SortedBy(IdOf, RanksOf(elements));
      && WellRanked(objects) && InOrder(IdOf, objects)
      && |objects| == Count(elements, (e: Element) => e.kind == ObjectElement)
      && multiset(objects) == multiset(RanksOf(elements))
      && forall id :: WithKey(IdOf, objects, id) == WithKey(IdOf, RanksOf(elements), id)
  {
    var ranked := RanksOf(elements);
    var objects := SortedBy(IdOf, ranked);
    RanksWell(elements);
    SortedIsRearranged(IdOf, ranked);
    forall id
      ensures WithKey(IdOf, objects, id) == WithKey(IdOf, ranked, id)
    {
      SortIsStable(IdOf, ranked, id);
    }
    forall o | o in objects
      ensures o in ranked
    {
      assert o in multiset(objects);
    }
  }

  /** The element is an object of this id that states this number, and the number is in range; or,
      for none, that states no such number. */
  function StatesValue(id: Id, value: Option<nat>): Element -> bool {
    (e: Element) => e.kind == ObjectElement && e.id == id &&
      match value
      case Some(v) => v <= MAX_IMPORTANCE && e.importance == Some(Some(v))
      case None => forall v: nat :: v <= MAX_IMPORTANCE ==> e.importance != Some(Some(v))
  }

  function HasValue(id: Id, value: Option<nat>): Ranked -> bool {
    (r: Ranked) => r.id == id && r.value == value
  }

  /** An attribute that is there but is no number from 0 to 10. */
  predicate Misstates(e: Element) {
    e.importance.Some? && forall v: nat :: v <= MAX_IMPORTANCE ==> e.importance != Some(Some(v))
  }

  lemma RankIs(e: Element, id: Id, value: Option<nat>)
    requires e.kind == ObjectElement
    ensures HasValue(id, value)(RankOf(e)) <==> StatesValue(id, value)(e)
    ensures RankOf(e).valid <==> !Misstates(e)
  {
    if e.importance.Some? && e.importance.value.Some? && e.importance.value.value <= MAX_IMPORTANCE {
      assert e.importance == Some(Some(e.importance.value.value));
    }
  }

  lemma {:induction false} RanksState(elements: seq<Element>, id: Id, value: Option<nat>)
    ensures Count(RanksOf(elements), HasValue(id, value)) == Count(elements, StatesValue(id, value))
  {
    hide HasValue, StatesValue, RankOf;
    if elements != [] {
      var front, last := elements[..|elements| - 1], elements[|elements| - 1];
      RanksState(front, id, value);
      OnlyObjects(last, id, value);
      if last.kind == ObjectElement {
        RankIs(last, id, value);
        CountNext(RanksOf(front), RankOf(last), HasValue(id, value));
      }
    }
  }

  lemma InvalidIs(elements: seq<Element>)
    ensures InvalidCount(elements) == Count(elements, (e: Element) => Misstates(e))
  {
    forall e: Element
      ensures Misstates(e) <==> !ValidAttribute(e.importance)
    {
      RankIs(e.(kind := ObjectElement), e.id, None);
    }
    CountCompare(elements, (e: Element) => Misstates(e), (e: Element) => !ValidAttribute(e.importance));
    CountCompare(elements, (e: Element) => !ValidAttribute(e.importance), (e: Element) => Misstates(e));
  }

  lemma OnlyObjects(e: Element, id: Id, value: Option<nat>)
    ensures StatesValue(id, value)(e) ==> e.kind == ObjectElement
  {
  }

  lemma {:induction false} CountWithKey(ranks: seq<Ranked>, id: Id, value: Option<nat>)
    ensures Count(ranks, HasValue(id, value)) == Count(WithKey(IdOf, ranks, id), HasValue(id, value))
  {
    if ranks != [] {
      CountWithKey(ranks[1..], id, value);
      CountFront(ranks[0], ranks[1..], HasValue(id, value));
      CountFront(ranks[0], WithKey(IdOf, ranks[1..], id), HasValue(id, value));
      assert ranks == [ranks[0]] + ranks[1..];
      assert [] + WithKey(IdOf, ranks[1..], id) == WithKey(IdOf, ranks[1..], id);
    }
  }

  lemma {:induction false} CountFront<T>(item: T, items: seq<T>, keep: T -> bool)
    ensures Count([item] + items, keep) == (if keep(item) then 1 else 0) + Count(items, keep)
  {
    var all := [item] + items;
    if items == [] {
      assert all[..0] == [];
    } else {
      assert all[..|all| - 1] == [item] + items[..|items| - 1];
      CountFront(item, items[..|items| - 1], keep);
    }
  }

  /** As many ranks of an id have a value as objects of that id state it. */
  lemma RanksAreStated(elements: seq<Element>, id: Id, value: Option<nat>)
    ensures Count(SortedBy(IdOf, RanksOf(elements)), HasValue(id, value)) == Count(elements, StatesValue(id, value))
  {
    hide HasValue, StatesValue, RanksOf, SortedBy, WithKey, Count;
    RanksState(elements, id, value);
    SortIsStable(IdOf, RanksOf(elements), id);
    CountWithKey(RanksOf(elements), id, value);
    CountWithKey(SortedBy(IdOf, RanksOf(elements)), id, value);
  }

  // ---------- counting

  function Count<T>(items: seq<T>, keep: T -> bool): (n: nat)
    ensures n <= |items|
  {
    if items == [] then 0
    else Count(items[..|items| - 1], keep) + if keep(items[|items| - 1]) then 1 else 0
  }

  lemma CountNext<T>(items: seq<T>, item: T, keep: T -> bool)
    ensures Count(items + [item], keep) == Count(items, keep) + if keep(item) then 1 else 0
  {
    assert (items + [item])[..|items|] == items;
  }

  /** Keeping more items counts at least as many, and keeping other items counts the rest. */
  lemma {:induction false} CountCompare<T>(items: seq<T>, fewer: T -> bool, more: T -> bool)
    requires forall x :: x in items && fewer(x) ==> more(x)
    ensures Count(items, fewer) <= Count(items, more)
  {
    if items != [] {
      CountCompare(items[..|items| - 1], fewer, more);
    }
  }

  lemma {:induction false} CountSplit<T>(items: seq<T>, all: T -> bool, a: T -> bool, b: T -> bool)
    requires forall x :: x in items ==> (all(x) <==> a(x) || b(x)) && !(a(x) && b(x))
    ensures Count(items, all) == Count(items, a) + Count(items, b)
  {
    if items != [] {
      CountSplit(items[..|items| - 1], all, a, b);
      assert items[|items| - 1] in items;
    }
  }

  // ---------- the plan

  predicate Unranked(o: Ranked) {
    !o.valid || o.value.None?
  }

  predicate TopRanked(o: Ranked) {
    o.value == Some(MAX_IMPORTANCE)
  }

  predicate Protected(o: Ranked) {
    Unranked(o) || TopRanked(o)
  }

  predicate Retained(o: Ranked, threshold: nat) {
    Protected(o) || o.value.value >= threshold
  }

  predicate Discarded(o: Ranked, threshold: nat) {
    o.valid && o.value.Some? && o.value.value < threshold && o.value.value < MAX_IMPORTANCE
  }

  function RetainedCount(objects: seq<Ranked>, threshold: nat): nat {
    Count(objects, (o: Ranked) => Retained(o, threshold))
  }

  /** The discarded objects' ids, in order. */
  function Discards(objects: seq<Ranked>, threshold: nat): seq<Id> {
    if objects == [] then []
    else
      var before, last := Discards(objects[..|objects| - 1], threshold), objects[|objects| - 1];
      if Discarded(last, threshold) then before + [last.id] else before
  }

  datatype Step = Step(threshold: nat, retained: nat, discarded: nat)

  datatype Plan = Plan(
    selected: Option<nat>, resulting: nat, topRanked: nat, unranked: nat, discards: seq<Id>, steps: seq<Step>)
  {
    predicate Achievable() {
      selected.Some?
    }
  }

  function StepAt(objects: seq<Ranked>, threshold: nat): Step
  {
    Step(threshold, RetainedCount(objects, threshold), |objects| - RetainedCount(objects, threshold))
  }

  /** The plan for these objects: the least threshold that meets the target, if there is one, with
      the steps tried up to it, what is left at the last of them and what is discarded. */
  ghost predicate IsPlan(objects: seq<Ranked>, target: nat, plan: Plan) {
    && (plan.Achievable() <==> exists t: nat :: t <= MAX_IMPORTANCE && RetainedCount(objects, t) <= target)
    && (plan.Achievable() ==>
          && plan.selected.value <= MAX_IMPORTANCE
          && RetainedCount(objects, plan.selected.value) <= target
          && forall t: nat :: t < plan.selected.value ==> RetainedCount(objects, t) > target)
    && |plan.steps| == plan.selected.GetOr(MAX_IMPORTANCE) + 1
    && (forall t :: 0 <= t < |plan.steps| ==> plan.steps[t] == StepAt(objects, t))
    && plan.resulting == RetainedCount(objects, plan.selected.GetOr(MAX_IMPORTANCE))
    && plan.discards == (if plan.Achievable() then Discards(objects, plan.selected.value) else [])
    && plan.topRanked == Count(objects, (o: Ranked) => TopRanked(o))
    && plan.unranked == Count(objects, (o: Ranked) => Unranked(o))
  }

  /** Thresholds are tried in turn. */
  method BuildPlan(objects: seq<Ranked>, target: nat) returns (plan: Plan)
    ensures IsPlan(objects, target, plan)
  {
    var steps, selected, resulting := [], None, |objects|;
    var threshold := 0;
    while threshold <= MAX_IMPORTANCE
      invariant threshold <= MAX_IMPORTANCE + 1 && selected == None
      invariant |steps| == threshold
      invariant forall t :: 0 <= t < threshold ==> steps[t] == StepAt(objects, t)
      invariant forall t: nat :: t < threshold ==> RetainedCount(objects, t) > target
      invariant threshold > 0 ==> resulting == RetainedCount(objects, threshold - 1)
    {
      var retained := Count(objects, (o: Ranked) => Retained(o, threshold));
      assert retained == RetainedCount(objects, threshold);
      steps := steps + [Step(threshold, retained, |objects| - retained)];
      resulting := retained;
      if retained <= target {
        selected := Some(threshold);
        break;
      }
      threshold := threshold + 1;
    }
    var discards := if selected.Some? then Discards(objects, selected.value) else [];
    plan := Plan(selected, resulting, Count(objects, (o: Ranked) => TopRanked(o)),
                 Count(objects, (o: Ranked) => Unranked(o)), discards, steps);
  }

  // ---------- what the plan means

  /** Raising the threshold never retains more. */
  lemma RetainedFalls(objects: seq<Ranked>, low: nat, high: nat)
    requires low <= high
    ensures RetainedCount(objects, high) <= RetainedCount(objects, low)
  {
    CountCompare(objects, (o: Ranked) => Retained(o, high), (o: Ranked) => Retained(o, low));
  }

  /** The discards are exactly the objects not retained: nothing protected, each counted once. */
  lemma {:induction false} DiscardsAreTheRest(objects: seq<Ranked>, threshold: nat)
    requires threshold <= MAX_IMPORTANCE
    ensures forall id :: id in Discards(objects, threshold) <==>
              exists o :: o in objects && o.id == id && !Retained(o, threshold)
    ensures forall o :: o in objects && Protected(o) ==> Retained(o, threshold)
    ensures |Discards(objects, threshold)| + RetainedCount(objects, threshold) == |objects|
  {
    if objects != [] {
      var front, last := objects[..|objects| - 1], objects[|objects| - 1];
      DiscardsAreTheRest(front, threshold);
      CountNext(front, last, (o: Ranked) => Retained(o, threshold));
      assert objects == front + [last];
      forall id
        ensures id in Discards(objects, threshold) <==>
                exists o :: o in objects && o.id == id && !Retained(o, threshold)
      {
        if o :| o in objects && o.id == id && !Retained(o, threshold) {
          assert o in front || o == last;
        }
      }
    }
  }

  /** A lower threshold discards a part of what a higher one does, so the least threshold that
      meets the target discards least. */
  lemma {:induction false} LeastThresholdDiscardsLeast(objects: seq<Ranked>, low: nat, high: nat)
    requires low <= high <= MAX_IMPORTANCE
    ensures forall id :: id in Discards(objects, low) ==> id in Discards(objects, high)
  {
    DiscardsAreTheRest(objects, low);
    DiscardsAreTheRest(objects, high);
    forall id | id in Discards(objects, low)
      ensures id in Discards(objects, high)
    {
      var o :| o in objects && o.id == id && !Retained(o, low);
      assert !Retained(o, high);
    }
  }

  /** At the highest threshold exactly the protected objects are left. */
  lemma ProtectedRemain(objects: seq<Ranked>)
    requires WellRanked(objects)
    ensures RetainedCount(objects, MAX_IMPORTANCE)
            == Count(objects, (o: Ranked) => TopRanked(o)) + Count(objects, (o: Ranked) => Unranked(o))
  {
    CountSplit(objects, (o: Ranked) => Retained(o, MAX_IMPORTANCE),
      (o: Ranked) => TopRanked(o), (o: Ranked) => Unranked(o));
  }

  /** The target can be met exactly when the protected objects alone do not exceed it. */
  lemma AchievableIff(objects: seq<Ranked>, target: nat)
    requires WellRanked(objects)
    ensures (exists t: nat :: t <= MAX_IMPORTANCE && RetainedCount(objects, t) <= target) <==>
            Count(objects, (o: Ranked) => TopRanked(o)) + Count(objects, (o: Ranked) => Unranked(o)) <= target
  {
    ProtectedRemain(objects);
    if t: nat :| t <= MAX_IMPORTANCE && RetainedCount(objects, t) <= target {
      RetainedFalls(objects, t, MAX_IMPORTANCE);
    }
  }

  /** Discards of sorted objects are sorted. */
  lemma {:induction false} DiscardsInOrder(objects: seq<Ranked>, threshold: nat)
    requires InOrder(IdOf, objects)
    ensures Ascending(Discards(objects, threshold))
    ensures forall id :: id in Discards(objects, threshold) ==> exists o :: o in objects && o.id == id
  {
    if objects != [] {
      var front, last := objects[..|objects| - 1], objects[|objects| - 1];
      DiscardsInOrder(front, threshold);
      var before := Discards(front, threshold);
      assert objects == front + [last];
      forall i | 0 <= i < |before|
        ensures AtMost(before[i], last.id)
      {
        assert before[i] in before;
        var o :| o in front && o.id == before[i];
        var j :| 0 <= j < |front| && front[j] == o;
        assert AtMost(IdOf(objects[j]), IdOf(objects[|objects| - 1]));
      }
    }
  }

  lemma PlanSteps(objects: seq<Ranked>, target: nat, plan: Plan)
    requires IsPlan(objects, target, plan)
    ensures forall i :: 0 < i < |plan.steps| ==> plan.steps[i].retained <= plan.steps[i - 1].retained
  {
    hide RetainedCount, Discards, Count;
    forall i | 0 < i < |plan.steps|
      ensures plan.steps[i].retained <= plan.steps[i - 1].retained
    {
      assert plan.steps[i] == StepAt(objects, i) && plan.steps[i - 1] == StepAt(objects, i - 1);
      RetainedFalls(objects, i - 1, i);
    }
  }

  lemma PlanCounts(objects: seq<Ranked>, target: nat, plan: Plan)
    requires WellRanked(objects) && IsPlan(objects, target, plan)
    ensures plan.Achievable() <==> plan.topRanked + plan.unranked <= target
    ensures plan.Achievable() ==> plan.resulting <= target && |plan.discards| + plan.resulting == |objects|
    ensures !plan.Achievable() ==> plan.resulting == plan.topRanked + plan.unranked && plan.discards == []
  {
    hide RetainedCount, Discards, Count;
    AchievableIff(objects, target);
    ProtectedRemain(objects);
    if plan.Achievable() {
      DiscardsAreTheRest(objects, plan.selected.value);
    }
  }

  lemma PlanDiscards(objects: seq<Ranked>, target: nat, plan: Plan)
    requires WellRanked(objects) && InOrder(IdOf, objects) && IsPlan(objects, target, plan)
    ensures Ascending(plan.discards)
    ensures plan.Achievable() ==> forall id :: id in plan.discards <==>
              exists o :: o in objects && o.id == id && o.value.Some? && o.value.value < plan.selected.value
  {
    hide RetainedCount, Discards, Count;
    if plan.Achievable() {
      DiscardsAreTheRest(objects, plan.selected.value);
      DiscardsInOrder(objects, plan.selected.value);
      forall o | o in objects
        ensures !Retained(o, plan.selected.value) <==> o.value.Some? && o.value.value < plan.selected.value
      {
      }
    }
  }

  /** Audit and plan together, from the elements as they stand in the document. */
  method PlanFromDocument(elements: seq<Element>, target: nat) returns (audit: Audit, plan: Plan)
    ensures WellRanked(audit.ranked) && audit.ranked == SortedBy(IdOf, RanksOf(elements))
    ensures |audit.ranked| == Count(elements, (e: Element) => e.kind == ObjectElement)
    ensures forall id, value :: Count(audit.ranked, HasValue(id, value)) == Count(elements, StatesValue(id, value))
    ensures audit.invalid == Count(elements, (e: Element) => Misstates(e))
    ensures IsPlan(audit.ranked, target, plan)
    ensures plan.Achievable() <==> plan.topRanked + plan.unranked <= target
    ensures plan.Achievable() ==> plan.resulting <= target && |plan.discards| + plan.resulting == |audit.ranked|
    ensures !plan.Achievable() ==> plan.resulting == plan.topRanked + plan.unranked && plan.discards == []
    ensures forall i :: 0 < i < |plan.steps| ==> plan.steps[i].retained <= plan.steps[i - 1].retained
    ensures Ascending(plan.discards)
    ensures plan.Achievable() ==> forall id :: id in plan.discards <==>
              exists o :: o in audit.ranked && o.id == id && o.value.Some? && o.value.value < plan.selected.value
  {
    hide IsPlan, WellRanked, InOrder, Ascending, SortedBy, RanksOf, Count, Protected, HasValue, StatesValue, Misstates,
         InvalidCount;
    audit := AuditImportance(elements);
    AuditedObjects(elements);
    InvalidIs(elements);
    forall id, value
      ensures Count(audit.ranked, HasValue(id, value)) == Count(elements, StatesValue(id, value))
    {
      RanksAreStated(elements, id, value);
    }
    plan := BuildPlan(audit.ranked, target);
    PlanSteps(audit.ranked, target, plan);
    PlanCounts(audit.ranked, target, plan);
    PlanDiscards(audit.ranked, target, plan);
  }
}
