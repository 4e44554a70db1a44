/** Enumeration of presentations: for every programme, each choice of one candidate per group. */
module AdmEnumeration {
  import opened Wrappers
  import opened Basics
  import opened IdOrder
  import opened AdmInventory

  datatype Variant = Variant(programme: nat, selected: seq<Id>)

  datatype EnumerationError = BeyondLimit | InventoryChanged

  /** Every combination extended by every candidate, the candidates varying fastest. */
  function Expanded(combinations: seq<seq<Id>>, candidates: seq<Id>): seq<seq<Id>> {
    if candidates == [] then []
    else
      var n := |candidates|;
      seq(|combinations| * n, i requires 0 <= i < |combinations| * n =>
        Positioned(i, n, |combinations|); combinations[i / n] + [candidates[i % n]])
  }

  function Choices(groups: seq<Group>): seq<seq<Id>> {
    if groups == [] then [[]]
    else Expanded(Choices(groups[..|groups| - 1]), groups[|groups| - 1].candidates)
  }

  function VariantsOf(items: seq<Item>, k: nat): seq<Variant>
    requires k <= |items|
  {
    if k == 0 then []
    else
      var choices := Choices(items[k - 1].groups);
      VariantsOf(items, k - 1) + seq(|choices|, i requires 0 <= i < |choices| => Variant(k - 1, choices[i]))
  }

  /** What enumeration answers for any inventory, accepted or not. */
  function Enumerated(inventory: Inventory, limit: nat): Result<seq<Variant>, EnumerationError> {
    var variants := VariantsOf(inventory.items, |inventory.items|);
    if |variants| > limit then Err(BeyondLimit)
    else if |variants| != inventory.count then Err(InventoryChanged)
    else Ok(variants)
  }

  lemma Positioned(i: nat, n: nat, rows: nat)
    requires n > 0 && i < rows * n
    ensures 0 <= i / n < rows && 0 <= i % n < n
  {
    assert i == i / n * n + i % n;
    if i / n >= rows {
      ProductOrdered(rows, i / n, n);
    }
  }

  lemma RowAndColumn(row: nat, column: nat, n: nat)
    requires column < n
    ensures (row * n + column) / n == row && (row * n + column) % n == column
  {
    var i := row * n + column;
    assert i == i / n * n + i % n;
    if i / n < row {
      ProductOrdered(i / n + 1, row, n);
    } else if i / n > row {
      ProductOrdered(row + 1, i / n, n);
    }
  }

  // ---------- the loops

  lemma ExpandedAt(combinations: seq<seq<Id>>, candidates: seq<Id>, row: nat, column: nat)
    requires row < |combinations| && column < |candidates|
    ensures var all, i := Expanded(combinations, candidates), row * |candidates| + column;
            i < |all| && all[i] == combinations[row] + [candidates[column]]
  {
    var n, i := |candidates|, row * |candidates| + column;
    RowAndColumn(row, column, n);
    assert i < |combinations| * n by {
      ProductOrdered(row + 1, |combinations|, n);
      assert (row + 1) * n == row * n + n;
    }
    ExpandedEntry(combinations, candidates, i);
    hide Expanded;
  }

  lemma ExpandedEntry(combinations: seq<seq<Id>>, candidates: seq<Id>, i: nat)
    requires i < |combinations| * |candidates| && candidates != []
    ensures var all, n := Expanded(combinations, candidates), |candidates|;
            && |all| == |combinations| * n && i / n < |combinations| && i % n < n
            && all[i] == combinations[i / n] + [candidates[i % n]]
  {
    Positioned(i, |candidates|, |combinations|);
  }

  /** One round of the loop over groups. */
  method Expand(combinations: seq<seq<Id>>, candidates: seq<Id>) returns (expanded: seq<seq<Id>>)
    ensures expanded == Expanded(combinations, candidates)
  {
    expanded := [];
    ghost var all := Expanded(combinations, candidates);
    ghost var n := |candidates|;
    assert |all| == |combinations| * n;
    hide Expanded;
    for row := 0 to |combinations|
      invariant |expanded| == row * n
      invariant expanded <= all
    {
      for column := 0 to |candidates|
        invariant |expanded| == row * n + column
        invariant expanded <= all
      {
        ExpandedAt(combinations, candidates, row, column);
        expanded := expanded + [combinations[row] + [candidates[column]]];
      }
    }
  }

  method ChoicesOf(groups: seq<Group>) returns (combinations: seq<seq<Id>>)
    ensures combinations == Choices(groups)
  {
    combinations := [[]];
    for k := 0 to |groups|
      invariant combinations == Choices(groups[..k])
    {
      assert groups[..k + 1][..k] == groups[..k];
      combinations := Expand(combinations, groups[k].candidates);
    }
    assert groups[..|groups|] == groups;
  }

  method EnumerateVariants(inventory: Inventory, limit: nat) returns (r: Result<seq<Variant>, EnumerationError>)
    ensures r == Enumerated(inventory, limit)
  {
    var variants, items := [], inventory.items;
    for programme := 0 to |items|
      invariant variants == VariantsOf(items, programme) && |variants| <= limit
    {
      var combinations := ChoicesOf(items[programme].groups);
      for i := 0 to |combinations|
        invariant variants == VariantsOf(items, programme)
                  + seq(i, j requires 0 <= j < i => Variant(programme, combinations[j]))
      {
        variants := variants + [Variant(programme, combinations[i])];
      }
      MoreVariants(items, programme + 1, |items|);
      if |variants| > limit {
        return Err(BeyondLimit);
      }
    }
    if |variants| != inventory.count {
      return Err(InventoryChanged);
    }
    r := Ok(variants);
  }

  lemma {:induction false} MoreVariants(items: seq<Item>, k: nat, n: nat)
    requires k <= n <= |items|
    ensures |VariantsOf(items, k)| <= |VariantsOf(items, n)|
    decreases n
  {
    if k < n {
      MoreVariants(items, k, n - 1);
    }
  }

  // ---------- what the choices are

  /** One candidate of each group, in group order. */
  predicate Selects(groups: seq<Group>, selected: seq<Id>) {
    |selected| == |groups| && forall k :: 0 <= k < |groups| ==> selected[k] in groups[k].candidates
  }

  /** At the first group where two selections differ, `a` takes the earlier candidate. */
  predicate FirstDifferAt(groups: seq<Group>, a: seq<Id>, b: seq<Id>, k: nat) {
    && k < |groups| && k < |a| && k < |b| && a[..k] == b[..k]
    && exists i, j :: 0 <= i < j < |groups[k].candidates|
                      && a[k] == groups[k].candidates[i] && b[k] == groups[k].candidates[j]
  }

  predicate Precedes(groups: seq<Group>, a: seq<Id>, b: seq<Id>) {
    exists k: nat :: k < |groups| && FirstDifferAt(groups, a, b, k)
  }

  lemma {:induction false} ChoicesCounted(groups: seq<Group>)
    ensures |Choices(groups)| == Product(groups)
  {
    if groups != [] {
      ChoicesCounted(groups[..|groups| - 1]);
    }
  }

  lemma {:induction false} ChoicesSelect(groups: seq<Group>, i: nat)
    requires i < |Choices(groups)|
    ensures Selects(groups, Choices(groups)[i])
  {
    if groups != [] {
      var front, n := groups[..|groups| - 1], |groups[|groups| - 1].candidates|;
      Positioned(i, n, |Choices(front)|);
      ChoicesSelect(front, i / n);
    }
  }

  /** No selection is missing. */
  lemma {:induction false} EverySelectionChosen(groups: seq<Group>, selected: seq<Id>) returns (i: nat)
    requires Selects(groups, selected)
    ensures i < |Choices(groups)| && Choices(groups)[i] == selected
  {
    if groups == [] {
      return 0;
    }
    var last := |groups| - 1;
    var candidates := groups[last].candidates;
    var row := EverySelectionChosen(groups[..last], selected[..last]);
    var column :| 0 <= column < |candidates| && candidates[column] == selected[last];
    ExpandedAt(Choices(groups[..last]), candidates, row, column);
    hide Expanded;
    i := row * |candidates| + column;
    assert selected == selected[..last] + [selected[last]];
  }

  lemma ExtendingKeepsOrder(groups: seq<Group>, a: seq<Id>, b: seq<Id>, x: Id, y: Id)
    requires groups != [] && Precedes(groups[..|groups| - 1], a, b)
    ensures Precedes(groups, a + [x], b + [y])
  {
    var front := groups[..|groups| - 1];
    var k: nat :| k < |front| && FirstDifferAt(front, a, b, k);
    assert (a + [x])[..k] == a[..k] && (b + [y])[..k] == b[..k];
    assert FirstDifferAt(groups, a + [x], b + [y], k);
  }

  lemma EarlierRow(i: nat, j: nat, n: nat)
    requires n > 0 && i < j
    ensures i / n < j / n || (i / n == j / n && i % n < j % n)
  {
    assert i == i / n * n + i % n && j == j / n * n + j % n;
    if i / n > j / n {
      ProductOrdered(j / n + 1, i / n, n);
    }
  }

  /** Earlier choices take earlier candidates at the first group where they differ. */
  lemma {:induction false} ChoicesOrdered(groups: seq<Group>, i: nat, j: nat)
    requires i < j < |Choices(groups)|
    ensures Precedes(groups, Choices(groups)[i], Choices(groups)[j])
  {
    var last := |groups| - 1;
    var front, n := groups[..last], |groups[last].candidates|;
    var before := Choices(front);
    Positioned(i, n, |before|);
    Positioned(j, n, |before|);
    EarlierRow(i, j, n);
    if i / n < j / n {
      ChoicesOrdered(front, i / n, j / n);
      ExtendingKeepsOrder(groups, before[i / n], before[j / n],
        groups[last].candidates[i % n], groups[last].candidates[j % n]);
    } else {
      ChoicesSelect(front, i / n);
      LastDiffers(groups, before[i / n], i % n, j % n);
    }
  }

  lemma LastDiffers(groups: seq<Group>, a: seq<Id>, i: nat, j: nat)
    requires groups != [] && |a| == |groups| - 1 && i < j < |groups[|groups| - 1].candidates|
    ensures var candidates := groups[|groups| - 1].candidates;
            Precedes(groups, a + [candidates[i]], a + [candidates[j]])
  {
    var candidates := groups[|groups| - 1].candidates;
    assert FirstDifferAt(groups, a + [candidates[i]], a + [candidates[j]], |a|);
  }

  // ---------- disjoint groups

  lemma {:induction false} TouchingDisjoint(groups: seq<Group>, reachable: set<Id>)
    requires Distinct(Members(groups))
    ensures Distinct(Members(Touching(groups, reachable)))
    ensures forall id :: id in Members(Touching(groups, reachable)) ==> id in Members(groups)
  {
    if groups != [] {
      var front, last := groups[..|groups| - 1], groups[|groups| - 1];
      DistinctConcat(Members(front), last.candidates);
      TouchingDisjoint(front, reachable);
      var before := Touching(front, reachable);
      DistinctConcat(Members(before), last.candidates);
      assert (before + [last])[..|before|] == before;
    }
  }

  lemma {:induction false} MembersAreCandidates(groups: seq<Group>, k: nat, id: Id)
    requires k < |groups| && id in groups[k].candidates
    ensures id in Members(groups)
    decreases |groups|
  {
    if k < |groups| - 1 {
      MembersAreCandidates(groups[..|groups| - 1], k, id);
    }
  }

  /** In disjoint groups a candidate tells its group and its place in it. */
  lemma {:induction false} OneGroupEach(groups: seq<Group>, a: nat, b: nat, id: Id)
    requires Distinct(Members(groups)) && a < |groups| && b < |groups|
    requires id in groups[a].candidates && id in groups[b].candidates
    ensures a == b && Distinct(groups[a].candidates)
    decreases |groups|
  {
    var last := |groups| - 1;
    DistinctConcat(Members(groups[..last]), groups[last].candidates);
    if a < last {
      MembersAreCandidates(groups[..last], a, id);
    }
    if b < last {
      MembersAreCandidates(groups[..last], b, id);
    }
    if a < last && b < last {
      OneGroupEach(groups[..last], a, b, id);
    }
  }

  /** Two selections that switch on the same objects are the same selection. */
  lemma SameObjectsSameSelection(groups: seq<Group>, a: seq<Id>, b: seq<Id>)
    requires Distinct(Members(groups)) && Selects(groups, a) && Selects(groups, b)
    requires forall id :: id in a <==> id in b
    ensures a == b
  {
    forall k | 0 <= k < |groups|
      ensures a[k] == b[k]
    {
      assert a[k] in b;
      var j :| 0 <= j < |b| && b[j] == a[k];
      OneGroupEach(groups, k, j, a[k]);
    }
  }

  lemma PrecedingDiffers(groups: seq<Group>, a: seq<Id>, b: seq<Id>)
    requires Distinct(Members(groups)) && Precedes(groups, a, b)
    ensures a != b
  {
    var k: nat :| k < |groups| && FirstDifferAt(groups, a, b, k);
    OneGroupEach(groups, k, k, a[k]);
  }

  // ---------- the whole list

  /** The order of the list: by programme, then by the first group that differs. */
  predicate Before(items: seq<Item>, v: Variant, w: Variant)
    requires v.programme < |items|
  {
    || v.programme < w.programme
    || (v.programme == w.programme && Precedes(items[v.programme].groups, v.selected, w.selected))
  }

  lemma {:induction false} VariantsSelect(items: seq<Item>, k: nat)
    requires k <= |items|
    ensures forall v :: v in VariantsOf(items, k) <==>
              v.programme < k && Selects(items[v.programme].groups, v.selected)
  {
    if k > 0 {
      VariantsSelect(items, k - 1);
      var choices := Choices(items[k - 1].groups);
      var added := seq(|choices|, i requires 0 <= i < |choices| => Variant(k - 1, choices[i]));
      forall v
        ensures v in added <==> v.programme == k - 1 && Selects(items[k - 1].groups, v.selected)
      {
        if v in added {
          var i :| 0 <= i < |added| && added[i] == v;
          ChoicesSelect(items[k - 1].groups, i);
        }
        if v.programme == k - 1 && Selects(items[k - 1].groups, v.selected) {
          var i := EverySelectionChosen(items[k - 1].groups, v.selected);
          assert added[i] == v;
        }
      }
      assert VariantsOf(items, k) == VariantsOf(items, k - 1) + added;
    }
  }

  lemma {:induction false} VariantsOrdered(items: seq<Item>, k: nat, i: nat, j: nat)
    requires k <= |items| && i < j < |VariantsOf(items, k)|
    ensures VariantsOf(items, k)[i].programme < |items|
    ensures Before(items, VariantsOf(items, k)[i], VariantsOf(items, k)[j])
  {
    var before, choices := VariantsOf(items, k - 1), Choices(items[k - 1].groups);
    if j < |before| {
      VariantsOrdered(items, k - 1, i, j);
    } else if i >= |before| {
      ChoicesOrdered(items[k - 1].groups, i - |before|, j - |before|);
    } else {
      VariantsSelect(items, k - 1);
      assert before[i] in before;
    }
  }

  lemma {:induction false} VariantsCounted(doc: Document, k: nat)
    requires k <= |doc.programmes|
    ensures |VariantsOf(ItemsFor(doc, k), k)| == Total(ItemsFor(doc, k))
  {
    hide Choices, GroupsOf;
    if k > 0 {
      VariantsCounted(doc, k - 1);
      TotalStep(doc, k - 1);
      ChoicesCounted(ItemsFor(doc, k)[k - 1].groups);
      VariantsDependOnPrefix(ItemsFor(doc, k - 1), ItemsFor(doc, k), k - 1);
    }
  }

  lemma {:induction false} VariantsDependOnPrefix(a: seq<Item>, b: seq<Item>, k: nat)
    requires k <= |a| && k <= |b| && a[..k] == b[..k]
    ensures VariantsOf(a, k) == VariantsOf(b, k)
  {
    if k > 0 {
      assert a[..k - 1] == a[..k][..k - 1] && b[..k - 1] == b[..k][..k - 1];
      assert a[k - 1] == a[..k][k - 1] && b[k - 1] == b[..k][k - 1];
      VariantsDependOnPrefix(a, b, k - 1);
    }
  }

  lemma {:induction false} ItemsDisjoint(doc: Document, k: nat, i: nat)
    requires i < k <= |doc.programmes| && ObjectsAcceptable(doc.objects)
    ensures Distinct(Members(ItemsFor(doc, k)[i].groups))
  {
    if i < k - 1 {
      ItemsDisjoint(doc, k - 1, i);
    } else {
      var contents := Sorted(doc.programmes[i].contents);
      TouchingDisjoint(GroupsOf(doc.objects, |doc.objects|),
        Objects.Reached(ChildMap(doc.objects, |doc.objects|), RootsOf(doc, contents)));
    }
  }

  /** The list is complete, strictly ordered, without repetition, and of the promised length. */
  ghost predicate Exact(items: seq<Item>, variants: seq<Variant>) {
    && (forall v :: v in variants <==> v.programme < |items| && Selects(items[v.programme].groups, v.selected))
    && (forall i, j :: 0 <= i < j < |variants| ==>
          variants[i].programme < |items| && Before(items, variants[i], variants[j]))
    && (forall i, j :: 0 <= i < j < |variants| ==> variants[i] != variants[j])
  }

  /** For an accepted document and the same limit enumeration cannot fail, and lists every
      presentation once and in order. */
  lemma EnumerationExact(doc: Document, limit: nat)
    requires Acceptable(doc, limit)
    ensures var inventory, r := InventoryFor(doc), Enumerated(InventoryFor(doc), limit);
            && r.Ok? && |r.value| == inventory.count <= limit
            && Exact(inventory.items, r.value)
  {
    var items := ItemsFor(doc, |doc.programmes|);
    var variants := VariantsOf(items, |items|);
    VariantsCounted(doc, |items|);
    VariantsSelect(items, |items|);
    forall i, j | 0 <= i < j < |variants|
      ensures variants[i].programme < |items| && Before(items, variants[i], variants[j])
      ensures variants[i] != variants[j]
    {
      VariantsOrdered(items, |items|, i, j);
      ItemsDisjoint(doc, |items|, variants[i].programme);
      if variants[i].programme == variants[j].programme {
        PrecedingDiffers(items[variants[i].programme].groups, variants[i].selected, variants[j].selected);
      }
    }
  }

  /** Presentations of one programme are told apart by the objects they switch on. */
  lemma PresentationsDiffer(doc: Document, limit: nat, v: Variant, w: Variant)
    requires Acceptable(doc, limit) && v.programme == w.programme
    requires v in VariantsOf(InventoryFor(doc).items, |doc.programmes|)
    requires w in VariantsOf(InventoryFor(doc).items, |doc.programmes|)
    requires forall id :: id in v.selected <==> id in w.selected
    ensures v == w
  {
    var items := InventoryFor(doc).items;
    VariantsSelect(items, |items|);
    ItemsDisjoint(doc, |items|, v.programme);
    SameObjectsSameSelection(items[v.programme].groups, v.selected, w.selected);
  }
}
