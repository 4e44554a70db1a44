/** What a document offers for rendering: complementary groups, the groups each programme
    touches, and the number of presentations, counted with checked machine arithmetic. */
module AdmInventory {
  import opened Wrappers
  import opened Basics
  import opened IdOrder
  import Objects = AdmObjects

  const HARD_MAX_PRESENTATIONS: nat := 4096
  const USIZE_MAX: nat := 0xffff_ffff_ffff_ffff

  datatype AdmObject = AdmObject(id: Id, children: seq<Id>, complements: seq<Id>)
  /** `loudness` says whether the programme's loudness metadata can be read. */
  datatype Programme = Programme(id: Id, contents: seq<Id>, loudness: bool)

  /** Definitions as read, objects and programmes in the order of their ids. */
  datatype Document = Document(programmes: seq<Programme>, contents: map<Id, seq<Id>>, objects: seq<AdmObject>)

  datatype Group = Group(root: Id, candidates: seq<Id>)
  datatype Item = Item(id: Id, contents: seq<Id>, reachable: set<Id>, groups: seq<Group>, count: nat)
  datatype Inventory = Inventory(groupCount: nat, count: nat, items: seq<Item>)

  datatype Error =
    | BadLimit
    | NoProgramme
    | UnknownReference(owner: Id, reference: Id)
    | DuplicateComplement(root: Id)
    | SharedMember(member: Id, previous: Id, root: Id)
    | DuplicateContent(programme: Id)
    | NoContent(programme: Id)
    | NoObject(content: Id)
    | CountOverflow(programme: Id)
    | TooManyPresentations
    | BadLoudness(programme: Id)

  function Ids(objects: seq<AdmObject>): set<Id> {
    set o | o in objects :: o.id
  }

  function FirstUnknown(references: seq<Id>, known: set<Id>): (unknown: Option<Id>)
    ensures unknown.None? <==> forall id :: id in references ==> id in known
    ensures unknown.Some? ==> unknown.value in references && unknown.value !in known
  {
    if references == [] then None
    else if references[0] !in known then Some(references[0])
    else FirstUnknown(references[1..], known)
  }

  // ---------- groups

  function GroupFor(o: AdmObject): Group {
    Group(o.id, [o.id] + Sorted(o.complements))
  }

  /** One group for each of the first `k` objects that names complements. */
  function GroupsOf(objects: seq<AdmObject>, k: nat): seq<Group>
    requires k <= |objects|
  {
    if k == 0 then []
    else
      var before, last := GroupsOf(objects, k - 1), objects[k - 1];
      if last.complements == [] then before else before + [GroupFor(last)]
  }

  function ChildMap(objects: seq<AdmObject>, k: nat): Objects.References
    requires k <= |objects|
  {
    if k == 0 then map[] else ChildMap(objects, k - 1)[objects[k - 1].id := objects[k - 1].children]
  }

  /** All candidates of all groups, one list after the other. */
  function Members(groups: seq<Group>): seq<Id> {
    if groups == [] then [] else Members(groups[..|groups| - 1]) + groups[|groups| - 1].candidates
  }

  predicate ObjectAcceptable(o: AdmObject, known: set<Id>) {
    && (forall id :: id in o.children ==> id in known)
    && (forall id :: id in o.complements ==> id in known)
    && Distinct(o.complements)
  }

  predicate ObjectsAcceptable(objects: seq<AdmObject>) {
    && (forall o :: o in objects ==> ObjectAcceptable(o, Ids(objects)))
    && Distinct(Members(GroupsOf(objects, |objects|)))
  }

  lemma {:induction false} FewerObjectsFewerMembers(objects: seq<AdmObject>, k: nat, n: nat)
    requires k <= n <= |objects|
    ensures Distinct(Members(GroupsOf(objects, n))) ==> Distinct(Members(GroupsOf(objects, k)))
    decreases n
  {
    if k < n {
      FewerObjectsFewerMembers(objects, k, n - 1);
      MembersGrow(objects, n - 1);
      DistinctConcat(Members(GroupsOf(objects, n - 1)), GroupFor(objects[n - 1]).candidates);
    }
  }

  lemma MembersGrow(objects: seq<AdmObject>, k: nat)
    requires k < |objects|
    ensures Members(GroupsOf(objects, k + 1)) == Members(GroupsOf(objects, k))
              + if objects[k].complements == [] then [] else GroupFor(objects[k]).candidates
  {
    var groups := GroupsOf(objects, k);
    assert (groups + [GroupFor(objects[k])])[..|groups|] == groups;
  }

  /** The membership map after entering candidates in turn. */
  function Entered(membership: map<Id, Id>, candidates: seq<Id>, root: Id): map<Id, Id> {
    if candidates == [] then membership
    else Entered(membership, candidates[..|candidates| - 1], root)[candidates[|candidates| - 1] := root]
  }

  lemma {:induction false} EnteredKeys(membership: map<Id, Id>, candidates: seq<Id>, root: Id)
    ensures Entered(membership, candidates, root).Keys == membership.Keys + Elements(candidates)
  {
    if candidates != [] {
      EnteredKeys(membership, candidates[..|candidates| - 1], root);
      assert candidates == candidates[..|candidates| - 1] + [candidates[|candidates| - 1]];
    }
  }

  predicate CanEnter(membership: map<Id, Id>, candidates: seq<Id>) {
    Distinct(candidates) && forall id :: id in candidates ==> id !in membership
  }

  lemma EnterNext(membership: map<Id, Id>, candidates: seq<Id>, k: nat, root: Id)
    requires k < |candidates| && CanEnter(membership, candidates[..k])
    ensures CanEnter(membership, candidates[..k + 1]) <==> candidates[k] !in Entered(membership, candidates[..k], root)
    ensures CanEnter(membership, candidates) ==> CanEnter(membership, candidates[..k + 1])
    ensures Entered(membership, candidates[..k + 1], root)
            == Entered(membership, candidates[..k], root)[candidates[k] := root]
  {
    var front, next := candidates[..k], candidates[..k + 1];
    assert next == front + [candidates[k]] && next[..k] == front;
    DistinctExtends(front, candidates[k]);
    EnteredKeys(membership, front, root);
    assert candidates == next + candidates[k + 1..];
    DistinctConcat(next, candidates[k + 1..]);
    hide Distinct, Entered;
  }

  /** Enters a group's candidates, unless one of them is entered already. */
  method EnterMembers(membership: map<Id, Id>, group: Group) returns (r: Result<map<Id, Id>, Error>)
    ensures r.Ok? <==> CanEnter(membership, group.candidates)
    ensures r.Ok? ==> r.value == Entered(membership, group.candidates, group.root)
    ensures r.Err? ==> r.error.SharedMember? && r.error.member in group.candidates && r.error.root == group.root
  {
    var entered, candidates := membership, group.candidates;
    assert candidates[..0] == [] && CanEnter(membership, []);
    hide CanEnter, Entered;
    for k := 0 to |candidates|
      invariant CanEnter(membership, candidates[..k])
      invariant entered == Entered(membership, candidates[..k], group.root)
    {
      EnterNext(membership, candidates, k, group.root);
      if candidates[k] in entered {
        return Err(SharedMember(candidates[k], entered[candidates[k]], group.root));
      }
      entered := entered[candidates[k] := group.root];
    }
    assert candidates[..|candidates|] == candidates;
    r := Ok(entered);
  }

  /** The object's complements in order, if its references are in order. */
  method CheckObject(o: AdmObject, known: set<Id>) returns (r: Result<seq<Id>, Error>)
    ensures r.Ok? <==> ObjectAcceptable(o, known)
    ensures r.Ok? ==> r.value == Sorted(o.complements) && (r.value == [] <==> o.complements == [])
  {
    var unknown := FirstUnknown(o.children, known);
    if unknown.Some? {
      return Err(UnknownReference(o.id, unknown.value));
    }
    if o.complements == [] {
      return Ok([]);
    }
    DistinctCount(o.complements);
    if |Elements(o.complements)| != |o.complements| {
      return Err(DuplicateComplement(o.id));
    }
    SortedIsRearranged(Itself, o.complements);
    SortedMembers(o.complements);
    var complements := Sorted(o.complements);
    unknown := FirstUnknown(complements, known);
    if unknown.Some? {
      return Err(UnknownReference(o.id, unknown.value));
    }
    r := Ok(complements);
  }

  predicate Collected(objects: seq<AdmObject>, k: nat, membership: map<Id, Id>)
    requires k <= |objects|
  {
    && (forall i :: 0 <= i < k ==> ObjectAcceptable(objects[i], Ids(objects)))
    && Distinct(Members(GroupsOf(objects, k)))
    && membership.Keys == Elements(Members(GroupsOf(objects, k)))
  }

  lemma NotCollected(objects: seq<AdmObject>, k: nat, membership: map<Id, Id>)
    requires k < |objects| && Collected(objects, k, membership)
    requires || !ObjectAcceptable(objects[k], Ids(objects))
             || (objects[k].complements != [] && !CanEnter(membership, GroupFor(objects[k]).candidates))
    ensures !ObjectsAcceptable(objects)
  {
    assert objects[k] in objects;
    MembersGrow(objects, k);
    DistinctConcat(Members(GroupsOf(objects, k)), GroupFor(objects[k]).candidates);
    FewerObjectsFewerMembers(objects, k + 1, |objects|);
  }

  lemma NothingCollected(objects: seq<AdmObject>)
    ensures GroupsOf(objects, 0) == [] && Collected(objects, 0, map[])
  {
  }

  lemma NextCollected(objects: seq<AdmObject>, k: nat, membership: map<Id, Id>, entered: map<Id, Id>)
    requires k < |objects| && Collected(objects, k, membership) && ObjectAcceptable(objects[k], Ids(objects))
    requires var group := GroupFor(objects[k]);
             if objects[k].complements == [] then entered == membership
             else CanEnter(membership, group.candidates) && entered == Entered(membership, group.candidates, group.root)
    ensures Collected(objects, k + 1, entered)
    ensures GroupsOf(objects, k + 1) == GroupsOf(objects, k)
              + if objects[k].complements == [] then [] else [GroupFor(objects[k])]
  {
    MembersGrow(objects, k);
    DistinctConcat(Members(GroupsOf(objects, k)), GroupFor(objects[k]).candidates);
    EnteredKeys(membership, GroupFor(objects[k]).candidates, objects[k].id);
    hide ObjectAcceptable, Members, Distinct, Entered;
  }

  /** Accepts exactly disjoint, duplicate-free groups of declared objects. */
  method CollectGroups(objects: seq<AdmObject>) returns (r: Result<seq<Group>, Error>)
    ensures r.Ok? <==> ObjectsAcceptable(objects)
    ensures r.Ok? ==> r.value == GroupsOf(objects, |objects|)
  {
    var groups, membership: map<Id, Id> := [], map[];
    var known := Ids(objects);
    NothingCollected(objects);
    hide Entered, Collected, CanEnter, ObjectAcceptable, ObjectsAcceptable, GroupsOf, GroupFor, Members, Ids, Elements,
         Sorted, Distinct;
    for k := 0 to |objects|
      invariant groups == GroupsOf(objects, k) && Collected(objects, k, membership)
    {
      var o := objects[k];
      if || !ObjectAcceptable(o, known)
         || (o.complements != [] && !CanEnter(membership, GroupFor(o).candidates)) {
        NotCollected(objects, k, membership);
      }
      var complements :- CheckObject(o, known);
      ghost var before := membership;
      if complements != [] {
        var group := Group(o.id, [o.id] + complements);
        IsGroupFor(o, group);
        membership :- EnterMembers(membership, group);
        groups := groups + [group];
      }
      NextCollected(objects, k, before, membership);
    }
    AllCollected(objects, membership);
    r := Ok(groups);
  }

  lemma IsGroupFor(o: AdmObject, group: Group)
    requires group == Group(o.id, [o.id] + Sorted(o.complements))
    ensures group == GroupFor(o)
  {
  }

  lemma AllCollected(objects: seq<AdmObject>, membership: map<Id, Id>)
    requires Collected(objects, |objects|, membership)
    ensures ObjectsAcceptable(objects)
  {
  }

  // ---------- programmes

  function RootsOf(doc: Document, contents: seq<Id>): seq<Id> {
    if contents == [] then []
    else
      var before, last := RootsOf(doc, contents[..|contents| - 1]), contents[|contents| - 1];
      if last in doc.contents then before + doc.contents[last] else before
  }

  predicate Touched(group: Group, reachable: set<Id>) {
    exists id :: id in group.candidates && id in reachable
  }

  function Touching(groups: seq<Group>, reachable: set<Id>): seq<Group> {
    if groups == [] then []
    else
      var before, last := Touching(groups[..|groups| - 1], reachable), groups[|groups| - 1];
      if Touched(last, reachable) then before + [last] else before
  }

  /** The number of ways to pick one candidate from each group. */
  function Product(groups: seq<Group>): nat {
    if groups == [] then 1 else Product(groups[..|groups| - 1]) * |groups[|groups| - 1].candidates|
  }

  predicate ContentAcceptable(doc: Document, content: Id) {
    && content in doc.contents && doc.contents[content] != []
    && forall id :: id in doc.contents[content] ==> id in Ids(doc.objects)
  }

  predicate ProgrammeAcceptable(doc: Document, p: Programme) {
    Distinct(p.contents) && p.contents != [] && forall c :: c in p.contents ==> ContentAcceptable(doc, c)
  }

  ghost function ItemFor(doc: Document, groups: seq<Group>, p: Programme): Item {
    var contents := Sorted(p.contents);
    var reachable := Objects.Reached(ChildMap(doc.objects, |doc.objects|), RootsOf(doc, contents));
    var touching := Touching(groups, reachable);
    Item(p.id, contents, reachable, touching, Product(touching))
  }

  predicate AllChoosable(groups: seq<Group>) {
    forall g :: g in groups ==> g.candidates != []
  }

  lemma {:induction false} TouchingIsPart(groups: seq<Group>, reachable: set<Id>)
    ensures forall g :: g in Touching(groups, reachable) <==> g in groups && Touched(g, reachable)
  {
    if groups != [] {
      TouchingIsPart(groups[..|groups| - 1], reachable);
      assert groups == groups[..|groups| - 1] + [groups[|groups| - 1]];
    }
  }

  lemma {:induction false} GroupsAreChoosable(objects: seq<AdmObject>, k: nat)
    requires k <= |objects|
    ensures AllChoosable(GroupsOf(objects, k))
  {
    if k > 0 {
      GroupsAreChoosable(objects, k - 1);
    }
  }

  lemma {:induction false} ProductGrows(groups: seq<Group>, k: nat)
    requires k <= |groups| && AllChoosable(groups)
    ensures 1 <= Product(groups[..k]) <= Product(groups)
    decreases |groups|
  {
    if k == |groups| {
      assert groups[..k] == groups;
      if k > 0 {
        ProductGrows(groups[..k - 1], k - 1);
        assert groups[..k - 1][..k - 1] == groups[..k - 1];
        AtLeastOnce(Product(groups[..k - 1]), |groups[k - 1].candidates|);
      }
    } else {
      var front := groups[..|groups| - 1];
      ProductGrows(front, k);
      assert front[..k] == groups[..k];
      AtLeastOnce(Product(front), |groups[|groups| - 1].candidates|);
    }
  }

  lemma AtLeastOnce(a: nat, b: nat)
    requires 1 <= a && 1 <= b
    ensures a <= a * b
  {
    assert a * b == a + a * (b - 1);
  }

  /** Overflow is found exactly when the true product does not fit. */
  method CountChoices(groups: seq<Group>) returns (count: Option<nat>)
    requires AllChoosable(groups)
    ensures count == if Product(groups) <= USIZE_MAX then Some(Product(groups)) else None
  {
    var product := 1;
    for k := 0 to |groups|
      invariant product == Product(groups[..k]) <= USIZE_MAX
    {
      assert groups[..k + 1][..k] == groups[..k];
      ProductGrows(groups, k + 1);
      if product * |groups[k].candidates| > USIZE_MAX {
        return None;
      }
      product := product * |groups[k].candidates|;
    }
    assert groups[..|groups|] == groups;
    count := Some(product);
  }

  method CollectRoots(doc: Document, contents: seq<Id>) returns (r: Result<seq<Id>, Error>)
    requires forall c :: c in contents ==> c in doc.contents
    ensures r.Ok? <==> forall c :: c in contents ==> ContentAcceptable(doc, c)
    ensures r.Ok? ==> r.value == RootsOf(doc, contents)
  {
    var roots := [];
    for k := 0 to |contents|
      invariant forall c :: c in contents[..k] ==> ContentAcceptable(doc, c)
      invariant roots == RootsOf(doc, contents[..k])
    {
      assert contents[..k + 1] == contents[..k] + [contents[k]];
      var references := doc.contents[contents[k]];
      assert contents[k] in contents;
      if references == [] {
        assert !ContentAcceptable(doc, contents[k]);
        return Err(NoObject(contents[k]));
      }
      var unknown := FirstUnknown(references, Ids(doc.objects));
      if unknown.Some? {
        return Err(UnknownReference(contents[k], unknown.value));
      }
      roots := roots + references;
    }
    assert contents[..|contents|] == contents;
    r := Ok(roots);
  }

  /** Whether two neighbours are the same. */
  predicate NeighboursEqual(ids: seq<Id>) {
    exists i :: 0 <= i < |ids| - 1 && ids[i] == ids[i + 1]
  }

  method ProgrammeContents(doc: Document, p: Programme) returns (r: Result<seq<Id>, Error>)
    ensures r.Ok? <==> Distinct(p.contents) && p.contents != [] && forall c :: c in p.contents ==> c in doc.contents
    ensures r.Ok? ==> r.value == Sorted(p.contents)
  {
    var contents := Sorted(p.contents);
    SortedIsRearranged(Itself, p.contents);
    SortedMembers(p.contents);
    NeighboursSuffice(contents);
    if NeighboursEqual(contents) {
      return Err(DuplicateContent(p.id));
    }
    if contents == [] {
      return Err(NoContent(p.id));
    }
    var unknown := FirstUnknown(contents, doc.contents.Keys);
    if unknown.Some? {
      return Err(UnknownReference(p.id, unknown.value));
    }
    r := Ok(contents);
  }

  method ProgrammeItem(doc: Document, groups: seq<Group>, children: Objects.References, p: Programme)
    returns (r: Result<Item, Error>)
    requires AllChoosable(groups) && children == ChildMap(doc.objects, |doc.objects|)
    ensures r.Ok? <==> ProgrammeAcceptable(doc, p) && ItemFor(doc, groups, p).count <= USIZE_MAX
    ensures r.Ok? ==> r.value == ItemFor(doc, groups, p)
  {
    SortedMembers(p.contents);
    var contents :- ProgrammeContents(doc, p);
    var roots :- CollectRoots(doc, contents);
    var reachable := Objects.ReachableObjects(roots, children);
    var touching := Touching(groups, reachable);
    TouchingIsPart(groups, reachable);
    var count := CountChoices(touching);
    if count.None? {
      return Err(CountOverflow(p.id));
    }
    r := Ok(Item(p.id, contents, reachable, touching, count.value));
  }

  // ---------- the inventory

  function Total(items: seq<Item>): nat {
    if items == [] then 0 else Total(items[..|items| - 1]) + items[|items| - 1].count
  }

  ghost function ItemsFor(doc: Document, k: nat): (items: seq<Item>)
    requires k <= |doc.programmes|
    ensures |items| == k
  {
    if k == 0 then []
    else ItemsFor(doc, k - 1) + [ItemFor(doc, GroupsOf(doc.objects, |doc.objects|), doc.programmes[k - 1])]
  }

  ghost function InventoryFor(doc: Document): Inventory {
    var items := ItemsFor(doc, |doc.programmes|);
    Inventory(|GroupsOf(doc.objects, |doc.objects|)|, Total(items), items)
  }

  ghost predicate Acceptable(doc: Document, limit: nat) {
    && 1 <= limit <= HARD_MAX_PRESENTATIONS
    && doc.programmes != []
    && ObjectsAcceptable(doc.objects)
    && (forall p :: p in doc.programmes ==> ProgrammeAcceptable(doc, p) && p.loudness)
    && InventoryFor(doc).count <= limit
  }

  lemma {:induction false} TotalGrows(doc: Document, k: nat, n: nat)
    requires k <= n <= |doc.programmes|
    ensures Total(ItemsFor(doc, k)) <= Total(ItemsFor(doc, n))
    decreases n
  {
    hide *;
    if k < n {
      TotalGrows(doc, k, n - 1);
      TotalStep(doc, n - 1);
    }
  }

  lemma TotalStep(doc: Document, k: nat)
    requires k < |doc.programmes|
    ensures var item := ItemFor(doc, GroupsOf(doc.objects, |doc.objects|), doc.programmes[k]);
            && ItemsFor(doc, k + 1) == ItemsFor(doc, k) + [item]
            && Total(ItemsFor(doc, k + 1)) == Total(ItemsFor(doc, k)) + item.count
  {
    var before := ItemsFor(doc, k);
    assert ItemsFor(doc, k + 1)[..k] == before;
  }

  lemma Rejected(doc: Document, limit: nat, k: nat)
    requires k < |doc.programmes|
    requires !ProgrammeAcceptable(doc, doc.programmes[k]) || !doc.programmes[k].loudness
             || Total(ItemsFor(doc, k + 1)) > limit
    ensures !Acceptable(doc, limit)
  {
    hide Total, ItemsFor, ProgrammeAcceptable, ObjectsAcceptable;
    TotalGrows(doc, k + 1, |doc.programmes|);
    assert doc.programmes[k] in doc.programmes;
  }

  lemma AcceptableParts(doc: Document, limit: nat)
    ensures Acceptable(doc, limit) ==>
              1 <= limit <= HARD_MAX_PRESENTATIONS && doc.programmes != [] && ObjectsAcceptable(doc.objects)
  {
  }

  lemma NoItems(doc: Document)
    ensures ItemsFor(doc, 0) == [] && Total([]) == 0
  {
  }

  lemma Accepted(doc: Document, limit: nat)
    requires 1 <= limit <= HARD_MAX_PRESENTATIONS && doc.programmes != [] && ObjectsAcceptable(doc.objects)
    requires forall i :: 0 <= i < |doc.programmes| ==>
               ProgrammeAcceptable(doc, doc.programmes[i]) && doc.programmes[i].loudness
    requires Total(ItemsFor(doc, |doc.programmes|)) <= limit
    ensures Acceptable(doc, limit)
    ensures InventoryFor(doc) == Inventory(|GroupsOf(doc.objects, |doc.objects|)|,
                                   Total(ItemsFor(doc, |doc.programmes|)), ItemsFor(doc, |doc.programmes|))
  {
  }

  method BuildChildMap(objects: seq<AdmObject>) returns (children: Objects.References)
    ensures children == ChildMap(objects, |objects|)
  {
    children := map[];
    for k := 0 to |objects|
      invariant children == ChildMap(objects, k)
    {
      children := children[objects[k].id := objects[k].children];
    }
  }

  /** Machine arithmetic and early exits included, accepted documents are exactly those that are
      well formed and whose true number of presentations is within the limit. */
  method InventoryFrom(doc: Document, limit: nat) returns (r: Result<Inventory, Error>)
    ensures r.Ok? <==> Acceptable(doc, limit)
    ensures r.Ok? ==> r.value == InventoryFor(doc)
  {
    hide Acceptable, Total, ItemsFor, ItemFor, InventoryFor, ProgrammeAcceptable, ObjectsAcceptable, AllChoosable,
         ChildMap, GroupsOf;
    AcceptableParts(doc, limit);
    if limit == 0 || limit > HARD_MAX_PRESENTATIONS {
      return Err(BadLimit);
    }
    if doc.programmes == [] {
      return Err(NoProgramme);
    }
    var groups :- CollectGroups(doc.objects);
    var children := BuildChildMap(doc.objects);
    GroupsAreChoosable(doc.objects, |doc.objects|);
    NoItems(doc);
    var items, total := [], 0;
    for k := 0 to |doc.programmes|
      invariant forall i :: 0 <= i < k ==> ProgrammeAcceptable(doc, doc.programmes[i]) && doc.programmes[i].loudness
      invariant items == ItemsFor(doc, k) && total == Total(items) <= limit
    {
      TotalStep(doc, k);
      var p := doc.programmes[k];
      if !ProgrammeAcceptable(doc, p) || !p.loudness || Total(ItemsFor(doc, k + 1)) > limit {
        Rejected(doc, limit, k);
      }
      var item :- ProgrammeItem(doc, groups, children, p);
      if total + item.count > USIZE_MAX {
        return Err(TooManyPresentations);
      }
      total := total + item.count;
      if total > limit {
        return Err(TooManyPresentations);
      }
      if !p.loudness {
        return Err(BadLoudness(p.id));
      }
      items := items + [item];
    }
    Accepted(doc, limit);
    r := Ok(Inventory(|groups|, total, items));
  }
}
