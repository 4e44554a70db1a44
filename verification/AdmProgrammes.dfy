/** What an accepted document's programmes offer, read off its references: the objects that lie on a
    path from their contents, and the groups that such a path meets in any candidate. */
module AdmProgrammes {
  import opened Basics
  import opened Graph
  import opened IdOrder
  import opened AdmInventory
  import Objects = AdmObjects

  // ---------- paths of references

  /** The source keeps definitions in maps, so an identifier is defined once. */
  predicate DefinedOnce(doc: Document) {
    forall i, j :: 0 <= i < j < |doc.objects| ==> doc.objects[i].id != doc.objects[j].id
  }

  predicate Names(doc: Document, from: Id, to: Id) {
    exists o :: o in doc.objects && o.id == from && to in o.children
  }

  predicate ObjectPath(doc: Document, path: seq<Id>) {
    path != [] && forall i :: 0 <= i < |path| - 1 ==> Names(doc, path[i], path[i + 1])
  }

  /** One of the programme's contents names the object. */
  predicate Starts(doc: Document, p: Programme, id: Id) {
    exists content :: content in p.contents && content in doc.contents && id in doc.contents[content]
  }

  /** A path of references leads from one of the programme's contents to the object. */
  ghost predicate InProgramme(doc: Document, p: Programme, id: Id) {
    exists path :: ObjectPath(doc, path) && Starts(doc, p, path[0]) && path[|path| - 1] == id
  }

  // ---------- the same in the maps that are built

  lemma {:induction false} ChildMapHolds(objects: seq<AdmObject>, k: nat)
    requires k <= |objects|
    requires forall i, j :: 0 <= i < j < |objects| ==> objects[i].id != objects[j].id
    ensures forall id :: id in ChildMap(objects, k) <==> exists i :: 0 <= i < k && objects[i].id == id
    ensures forall i :: 0 <= i < k ==> ChildMap(objects, k)[objects[i].id] == objects[i].children
  {
    if k > 0 {
      ChildMapHolds(objects, k - 1);
    }
  }

  lemma EdgesAreNames(doc: Document, from: Id, to: Id)
    requires DefinedOnce(doc)
    ensures Edge(ChildMap(doc.objects, |doc.objects|), from, to) <==> Names(doc, from, to)
  {
    var g := ChildMap(doc.objects, |doc.objects|);
    ChildMapHolds(doc.objects, |doc.objects|);
    if o :| o in doc.objects && o.id == from && to in o.children {
      var i :| 0 <= i < |doc.objects| && doc.objects[i] == o;
      assert g[doc.objects[i].id] == o.children;
    }
  }

  lemma PathsAreWalks(doc: Document, path: seq<Id>)
    requires DefinedOnce(doc)
    ensures ObjectPath(doc, path) <==> Walk(ChildMap(doc.objects, |doc.objects|), path)
  {
    hide ChildMap, Names, Edge;
    forall i | 0 <= i < |path| - 1
      ensures Edge(ChildMap(doc.objects, |doc.objects|), path[i], path[i + 1]) <==> Names(doc, path[i], path[i + 1])
    {
      EdgesAreNames(doc, path[i], path[i + 1]);
    }
  }

  lemma {:induction false} RootsAre(doc: Document, contents: seq<Id>, id: Id)
    ensures id in RootsOf(doc, contents) <==>
            exists content :: content in contents && content in doc.contents && id in doc.contents[content]
  {
    if contents != [] {
      var front, last := contents[..|contents| - 1], contents[|contents| - 1];
      RootsAre(doc, front, id);
      assert contents == front + [last];
    }
  }

  /** Reaching needs no bound: what is reached is a root or is named. */
  lemma ReachedIff(g: Objects.References, roots: seq<Id>, id: Id)
    ensures id in Objects.Reached(g, roots) <==> Objects.ReachedFrom(g, roots, id)
  {
    if Objects.ReachedFrom(g, roots, id) {
      var root :| root in roots && Reaches(g, root, id);
      var p :| WalkBetween(g, root, id, p);
      if |p| > 1 {
        assert Edge(g, p[|p| - 2], p[|p| - 1]);
      }
    }
  }

  /** The objects kept for a programme are those in it. */
  lemma ObjectsAre(doc: Document, groups: seq<Group>, p: Programme, id: Id)
    requires DefinedOnce(doc)
    ensures id in ItemFor(doc, groups, p).reachable <==> InProgramme(doc, p, id)
  {
    hide ChildMap, RootsOf, Names, Touching, Product, DefinedOnce, Starts;
    var g, contents := ChildMap(doc.objects, |doc.objects|), Sorted(p.contents);
    var roots := RootsOf(doc, contents);
    ReachedIff(g, roots, id);
    forall root
      ensures root in roots <==> Starts(doc, p, root)
    {
      RootsStart(doc, p, root);
    }
    if InProgramme(doc, p, id) {
      var path :| ObjectPath(doc, path) && Starts(doc, p, path[0]) && path[|path| - 1] == id;
      PathsAreWalks(doc, path);
      assert WalkBetween(g, path[0], id, path);
    }
    if Objects.ReachedFrom(g, roots, id) {
      var root :| root in roots && Reaches(g, root, id);
      var path :| WalkBetween(g, root, id, path);
      PathsAreWalks(doc, path);
    }
  }

  lemma RootsStart(doc: Document, p: Programme, root: Id)
    ensures root in RootsOf(doc, Sorted(p.contents)) <==> Starts(doc, p, root)
  {
    RootsAre(doc, Sorted(p.contents), root);
    SortedMembers(p.contents);
  }

  // ---------- groups

  /** The group of an object and its complements: the object first, the others in order. */
  predicate IsGroupOf(group: Group, o: AdmObject) {
    && o.complements != []
    && group.root == o.id
    && |group.candidates| == 1 + |o.complements| && group.candidates[0] == o.id
    && multiset(group.candidates[1..]) == multiset(o.complements) && Ascending(group.candidates[1..])
  }

  /** One of the object and its complements is in the programme. */
  ghost predicate Met(doc: Document, p: Programme, o: AdmObject) {
    InProgramme(doc, p, o.id) || exists id :: id in o.complements && InProgramme(doc, p, id)
  }

  lemma GroupForIs(o: AdmObject)
    requires o.complements != []
    ensures IsGroupOf(GroupFor(o), o)
    ensures forall id :: id in GroupFor(o).candidates <==> id == o.id || id in o.complements
  {
    SortedIsRearranged(Itself, o.complements);
    SortedMembers(o.complements);
    var candidates := GroupFor(o).candidates;
    assert candidates[1..] == Sorted(o.complements);
  }

  lemma {:induction false} GroupsAre(objects: seq<AdmObject>, k: nat)
    requires k <= |objects|
    ensures forall g :: g in GroupsOf(objects, k) <==>
              exists i :: 0 <= i < k && objects[i].complements != [] && g == GroupFor(objects[i])
  {
    hide GroupFor;
    if k > 0 {
      GroupsAre(objects, k - 1);
    }
  }

  /** A programme's groups are those that it meets in some candidate, whichever. */
  lemma GroupsMet(doc: Document, p: Programme, o: AdmObject)
    requires DefinedOnce(doc) && o.complements != []
    ensures var item := ItemFor(doc, GroupsOf(doc.objects, |doc.objects|), p);
            Touched(GroupFor(o), item.reachable) <==> Met(doc, p, o)
  {
    hide ItemFor, InProgramme, DefinedOnce, GroupFor, GroupsOf;
    var groups := GroupsOf(doc.objects, |doc.objects|);
    GroupForIs(o);
    forall id
      ensures id in ItemFor(doc, groups, p).reachable <==> InProgramme(doc, p, id)
    {
      ObjectsAre(doc, groups, p, id);
    }
  }

  lemma {:induction false} RootsOnce(objects: seq<AdmObject>, k: nat)
    requires k <= |objects|
    requires forall i, j :: 0 <= i < j < |objects| ==> objects[i].id != objects[j].id
    ensures OnceEach(GroupsOf(objects, k))
    ensures forall g :: g in GroupsOf(objects, k) ==> exists i :: 0 <= i < k && g.root == objects[i].id
  {
    if k > 0 {
      RootsOnce(objects, k - 1);
    }
  }

  predicate OnceEach(groups: seq<Group>) {
    forall i, j :: 0 <= i < j < |groups| ==> groups[i].root != groups[j].root
  }

  lemma {:induction false} TouchingOnce(groups: seq<Group>, reachable: set<Id>)
    requires OnceEach(groups)
    ensures OnceEach(Touching(groups, reachable))
  {
    hide Touched;
    if groups != [] {
      var front, last := groups[..|groups| - 1], groups[|groups| - 1];
      TouchingOnce(front, reachable);
      TouchingIsPart(front, reachable);
      forall g | g in Touching(front, reachable)
        ensures g.root != last.root
      {
        var i :| 0 <= i < |front| && front[i] == g;
        assert groups[i].root != groups[|groups| - 1].root;
      }
    }
  }

  /** An item of the inventory: the objects of the programme, and, each once, the groups of those
      objects with complements that the programme meets in one of the candidates. */
  ghost predicate Describes(doc: Document, p: Programme, item: Item) {
    && item.id == p.id && multiset(item.contents) == multiset(p.contents) && Ascending(item.contents)
    && (forall id :: id in item.reachable <==> InProgramme(doc, p, id))
    && (forall g :: g in item.groups ==> exists o :: o in doc.objects && IsGroupOf(g, o) && Met(doc, p, o))
    && (forall o :: o in doc.objects && o.complements != [] && Met(doc, p, o) ==>
          exists g :: g in item.groups && IsGroupOf(g, o))
    && OnceEach(item.groups) && item.count == Product(item.groups)
  }

  lemma ItemMeans(doc: Document, p: Programme)
    requires DefinedOnce(doc)
    ensures Describes(doc, p, ItemFor(doc, GroupsOf(doc.objects, |doc.objects|), p))
  {
    hide GroupsOf, Touching, Touched, IsGroupOf, GroupFor, InProgramme, Met, OnceEach, Product, RootsOf, ChildMap;
    var groups := GroupsOf(doc.objects, |doc.objects|);
    var item := ItemFor(doc, groups, p);
    SortedIsRearranged(Itself, p.contents);
    RootsOnce(doc.objects, |doc.objects|);
    TouchingOnce(groups, item.reachable);
    TouchingIsPart(groups, item.reachable);
    GroupsAre(doc.objects, |doc.objects|);
    forall id
      ensures id in item.reachable <==> InProgramme(doc, p, id)
    {
      ObjectsAre(doc, groups, p, id);
    }
    forall o | o in doc.objects && o.complements != []
      ensures IsGroupOf(GroupFor(o), o)
      ensures GroupFor(o) in groups
      ensures Touched(GroupFor(o), item.reachable) <==> Met(doc, p, o)
    {
      GroupForIs(o);
      GroupsMet(doc, p, o);
    }
  }

  lemma {:induction false} ItemAt(doc: Document, n: nat, k: nat)
    requires k < n <= |doc.programmes|
    ensures ItemsFor(doc, n)[k] == ItemFor(doc, GroupsOf(doc.objects, |doc.objects|), doc.programmes[k])
  {
    hide ItemFor;
    if k < n - 1 {
      ItemAt(doc, n - 1, k);
    }
  }

  /** The inventory describes each of its programmes. */
  lemma InventoryDescribes(doc: Document, k: nat)
    requires DefinedOnce(doc) && k < |doc.programmes|
    ensures |InventoryFor(doc).items| == |doc.programmes|
    ensures Describes(doc, doc.programmes[k], InventoryFor(doc).items[k])
  {
    hide ItemFor, Describes, DefinedOnce;
    ItemAt(doc, |doc.programmes|, k);
    ItemMeans(doc, doc.programmes[k]);
  }

  // ---------- which documents are accepted

  /** A candidate of the object's group, if it has one. */
  predicate Offers(o: AdmObject, id: Id) {
    o.complements != [] && (id == o.id || id in o.complements)
  }

  predicate Declared(doc: Document, id: Id) {
    exists o :: o in doc.objects && o.id == id
  }

  /** No complement is named twice or is the object itself. */
  predicate ComplementsOnce(o: AdmObject) {
    Distinct(o.complements) && o.id !in o.complements
  }

  ghost predicate NoneShared(a: AdmObject, b: AdmObject) {
    forall id :: Offers(a, id) ==> !Offers(b, id)
  }

  /** References lead to declared objects, complements are named once, and no object is a candidate
      of two groups. */
  ghost predicate ObjectsInOrder(doc: Document) {
    && (forall o, id :: o in doc.objects && (id in o.children || id in o.complements) ==> Declared(doc, id))
    && (forall o :: o in doc.objects ==> ComplementsOnce(o))
    && (forall i, j :: 0 <= i < j < |doc.objects| ==> NoneShared(doc.objects[i], doc.objects[j]))
  }

  lemma {:induction false} MembersAre(objects: seq<AdmObject>, k: nat, id: Id)
    requires k <= |objects|
    ensures id in Members(GroupsOf(objects, k)) <==> exists i :: 0 <= i < k && Offers(objects[i], id)
  {
    hide GroupFor, Members, GroupsOf;
    if k == 0 {
      NoMembers(objects);
    } else {
      MembersAre(objects, k - 1, id);
      MembersGrow(objects, k - 1);
      if objects[k - 1].complements != [] {
        GroupForIs(objects[k - 1]);
      }
    }
  }

  lemma CandidatesDistinct(o: AdmObject)
    requires o.complements != []
    ensures Distinct(GroupFor(o).candidates) <==> ComplementsOnce(o)
    ensures forall id :: id in GroupFor(o).candidates <==> Offers(o, id)
  {
    SortedMembers(o.complements);
    DistinctConcat([o.id], Sorted(o.complements));
    GroupForIs(o);
  }

  lemma {:induction false} MembersDistinct(objects: seq<AdmObject>, k: nat)
    requires k <= |objects|
    ensures Distinct(Members(GroupsOf(objects, k))) <==>
      && (forall i :: 0 <= i < k ==> objects[i].complements == [] || ComplementsOnce(objects[i]))
      && (forall i, j :: 0 <= i < j < k ==> NoneShared(objects[i], objects[j]))
  {
    hide Members, GroupsOf, GroupFor, Distinct, ComplementsOnce, Offers;
    if k == 0 {
      NoMembers(objects);
    } else {
      var before, last := Members(GroupsOf(objects, k - 1)), objects[k - 1];
      MembersDistinct(objects, k - 1);
      MembersGrow(objects, k - 1);
      forall id
        ensures id in before <==> exists i :: 0 <= i < k - 1 && Offers(objects[i], id)
      {
        MembersAre(objects, k - 1, id);
      }
      if last.complements != [] {
        CandidatesDistinct(last);
        DistinctConcat(before, GroupFor(last).candidates);
      } else {
        NothingOffered(last);
        assert before + [] == before;
      }
    }
  }

  lemma NothingOffered(o: AdmObject)
    requires o.complements == []
    ensures forall id :: !Offers(o, id)
  {
  }

  lemma NoMembers(objects: seq<AdmObject>)
    ensures Members(GroupsOf(objects, 0)) == [] && Distinct(Members(GroupsOf(objects, 0)))
  {
  }

  /** What the walk over the objects accepts, object by object. */
  lemma ObjectsAcceptableIff(doc: Document)
    ensures ObjectsAcceptable(doc.objects) <==> ObjectsInOrder(doc)
  {
    hide Members, GroupsOf, Distinct, NoneShared;
    MembersDistinct(doc.objects, |doc.objects|);
    assert forall id :: id in Ids(doc.objects) <==> Declared(doc, id);
    NoneDistinct();
    forall o | o in doc.objects
      ensures exists i :: 0 <= i < |doc.objects| && doc.objects[i] == o
    {
    }
  }

  lemma NoneDistinct()
    ensures Distinct<Id>([])
  {
  }

  /** Every object of an accepted programme is declared. */
  lemma {:induction false} PathsAreDeclared(doc: Document, limit: nat, p: Programme, path: seq<Id>)
    requires Acceptable(doc, limit) && p in doc.programmes && ObjectPath(doc, path) && Starts(doc, p, path[0])
    ensures forall i :: 0 <= i < |path| ==> Declared(doc, path[i])
  {
    ObjectsAcceptableIff(doc);
    assert ProgrammeAcceptable(doc, p);
    forall i | 0 <= i < |path|
      ensures Declared(doc, path[i])
    {
      if i > 0 {
        assert Names(doc, path[i - 1], path[i]);
      }
    }
  }
}
