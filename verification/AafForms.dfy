/** Which definitions have which storage form, and exactly which type graphs can be laid out, read
    off the definitions alone: renames are looked through, and a collection is named by what its
    elements are. */
module AafForms {
  import opened Wrappers
  import opened Basics
  import opened Graph
  import opened AafTypes
  import opened AafTypeLaws

  // ---------- looking through renames

  /** Renames up to a definition that is none, or that is missing. */
  predicate RenameChain(m: Model, p: seq<Id>) {
    && p != []
    && (forall i :: 0 <= i < |p| - 1 ==> p[i] in m && m[p[i]] == Rename(p[i + 1]))
    && (p[|p| - 1] in m ==> !m[p[|p| - 1]].Rename?)
  }

  ghost predicate StandsFor(m: Model, id: Id, end: Id) {
    exists p :: RenameChain(m, p) && p[0] == id && p[|p| - 1] == end
  }

  /** The type is a renamed one of this kind. */
  ghost predicate EndsIn(m: Model, id: Id, test: Kind -> bool) {
    exists end :: StandsFor(m, id, end) && end in m && test(m[end])
  }

  predicate IsStrongRef(kind: Kind) {
    kind.StrongRef?
  }

  predicate IsWeakRef(kind: Kind) {
    kind.WeakRef?
  }

  predicate IsStream(kind: Kind) {
    kind.Stream?
  }

  predicate IsSet(kind: Kind) {
    kind.Set?
  }

  predicate IsVariableArray(kind: Kind) {
    kind.VariableArray?
  }

  /** The type is a renamed collection of this kind, of elements of that kind. */
  ghost predicate Collects(m: Model, id: Id, outer: Kind -> bool, inner: Kind -> bool) {
    exists end :: StandsFor(m, id, end) && end in m && outer(m[end])
      && (m[end].Set? || m[end].VariableArray?) && EndsIn(m, m[end].element, inner)
  }

  predicate FixedKind(kind: Kind) {
    || kind.Integer? || kind.Character? || kind.ExtendibleEnumeration?
    || kind.Enumeration? || kind.FixedArray? || kind.Record?
  }

  /** The type is a renamed one whose values all have the same size. */
  ghost predicate Fixed(m: Model, id: Id) {
    exists end :: StandsFor(m, id, end) && (end in m ==> FixedKind(m[end]))
  }

  lemma {:induction false} ChainsAgree(m: Model, p: seq<Id>, q: seq<Id>)
    requires RenameChain(m, p) && RenameChain(m, q) && p[0] == q[0]
    ensures p == q
    decreases |p|
  {
    if |p| == 1 {
      if |q| > 1 {
        FirstRename(m, q);
        assert false;
      }
      assert p == [p[0]] && q == [q[0]];
    } else {
      assert m[p[0]] == Rename(p[1]) && |q| > 1;
      ChainRest(m, p);
      ChainRest(m, q);
      ChainsAgree(m, p[1..], q[1..]);
      assert p == [p[0]] + p[1..] && q == [q[0]] + q[1..];
    }
  }

  lemma FirstRename(m: Model, p: seq<Id>)
    requires RenameChain(m, p) && |p| > 1
    ensures p[0] in m && m[p[0]] == Rename(p[1])
  {
  }

  lemma ChainRest(m: Model, p: seq<Id>)
    requires RenameChain(m, p) && |p| > 1
    ensures RenameChain(m, p[1..])
  {
  }

  lemma OneEnd(m: Model, id: Id, a: Id, b: Id)
    requires StandsFor(m, id, a) && StandsFor(m, id, b)
    ensures a == b
  {
    var p :| RenameChain(m, p) && p[0] == id && p[|p| - 1] == a;
    var q :| RenameChain(m, q) && q[0] == id && q[|q| - 1] == b;
    ChainsAgree(m, p, q);
  }

  /** A laid-out type stands for one that is laid out in the same form. */
  lemma {:induction false} EndOf(m: Model, id: Id, stack: seq<Id>, depth: nat)
    returns (end: Id, below: seq<Id>, at: nat)
    requires StorageFor(m, id, stack, depth).Ok?
    ensures at >= depth
    ensures StandsFor(m, id, end) && (end in m ==> !m[end].Rename?)
    ensures StorageFor(m, end, below, at).Ok?
    ensures StorageFor(m, end, below, at).value.storage == StorageFor(m, id, stack, depth).value.storage
    decreases MAX_MODEL_DEPTH + 1 - depth
  {
    hide StandsFor;
    if id in m && m[id].Rename? {
      end, below, at := EndOf(m, m[id].renamed, stack + [id], depth + 1);
      StandsFurther(m, id, end);
    } else {
      end, below, at := id, stack, depth;
      StandsForItself(m, id);
    }
  }

  lemma StandsForItself(m: Model, id: Id)
    requires id in m ==> !m[id].Rename?
    ensures StandsFor(m, id, id)
  {
    assert RenameChain(m, [id]);
  }

  lemma StandsFurther(m: Model, id: Id, end: Id)
    requires id in m && m[id].Rename? && StandsFor(m, m[id].renamed, end)
    ensures StandsFor(m, id, end)
  {
    var p :| RenameChain(m, p) && p[0] == m[id].renamed && p[|p| - 1] == end;
    assert RenameChain(m, [id] + p);
  }

  // ---------- the eight forms

  /** The storage form of a type is that of what it stands for: a reference, a stream, a collection
      of references, or data. */
  lemma {:induction false} FormsIff(m: Model, id: Id, stack: seq<Id>, depth: nat)
    requires StorageFor(m, id, stack, depth).Ok?
    ensures var s := StorageFor(m, id, stack, depth).value.storage;
      && (s.StrongRefStore? <==> EndsIn(m, id, IsStrongRef))
      && (s.WeakRefStore? <==> EndsIn(m, id, IsWeakRef))
      && (s.StreamStore? <==> EndsIn(m, id, IsStream))
      && (s.StrongSet? <==> Collects(m, id, IsSet, IsStrongRef))
      && (s.WeakSet? <==> Collects(m, id, IsSet, IsWeakRef))
      && (s.StrongVector? <==> Collects(m, id, IsVariableArray, IsStrongRef))
      && (s.WeakVector? <==> Collects(m, id, IsVariableArray, IsWeakRef))
      && (IsFixed(s) <==> Fixed(m, id))
    decreases MAX_MODEL_DEPTH + 1 - depth
  {
    hide StorageFor, StandsFor, Combine;
    var end, below, at := EndOf(m, id, stack, depth);
    OnlyEnd(m, id, end);
    FormOfEnd(m, end, below, at);
    if end in m && (m[end].Set? || m[end].VariableArray?) {
      CollectionLaidOut(m, end, below, at);
      FormsIff(m, m[end].element, below + [end], at + 1);
    }
  }

  lemma OnlyEnd(m: Model, id: Id, end: Id)
    requires StandsFor(m, id, end)
    ensures forall test :: EndsIn(m, id, test) <==> end in m && test(m[end])
    ensures forall outer, inner :: Collects(m, id, outer, inner) <==>
              end in m && outer(m[end]) && (m[end].Set? || m[end].VariableArray?) && EndsIn(m, m[end].element, inner)
    ensures Fixed(m, id) <==> (end in m ==> FixedKind(m[end]))
  {
    forall other | StandsFor(m, id, other)
      ensures other == end
    {
      OneEnd(m, id, other, end);
    }
    hide StandsFor;
  }

  lemma CollectionLaidOut(m: Model, id: Id, stack: seq<Id>, depth: nat)
    requires StorageFor(m, id, stack, depth).Ok? && id in m && (m[id].Set? || m[id].VariableArray?)
    ensures depth <= MAX_MODEL_DEPTH && StorageFor(m, m[id].element, stack + [id], depth + 1).Ok?
    ensures var s, part := StorageFor(m, id, stack, depth).value.storage,
                           StorageFor(m, m[id].element, stack + [id], depth + 1).value.storage;
      && (s.StrongSet? <==> m[id].Set? && part.StrongRefStore?)
      && (s.WeakSet? <==> m[id].Set? && part.WeakRefStore?)
      && (s.StrongVector? <==> m[id].VariableArray? && part.StrongRefStore?)
      && (s.WeakVector? <==> m[id].VariableArray? && part.WeakRefStore?)
  {
  }

  /** The form of a type that renames none, as far as its own kind says. */
  lemma FormOfEnd(m: Model, id: Id, stack: seq<Id>, depth: nat)
    requires StorageFor(m, id, stack, depth).Ok? && (id in m ==> !m[id].Rename?)
    ensures var s := StorageFor(m, id, stack, depth).value.storage;
      && (s.StrongRefStore? <==> id in m && m[id].StrongRef?)
      && (s.WeakRefStore? <==> id in m && m[id].WeakRef?)
      && (s.StreamStore? <==> id in m && m[id].Stream?)
      && (s.StrongSet? || s.WeakSet? ==> id in m && m[id].Set?)
      && (s.StrongVector? || s.WeakVector? ==> id in m && m[id].VariableArray?)
      && (IsFixed(s) <==> (id in m ==> FixedKind(m[id])))
  {
    hide RecordLayout;
  }

  // ---------- which graphs can be laid out

  /** The size of values of a type that has one. */
  ghost function SizeOf(m: Model, id: Id): nat {
    var layout := StorageFor(m, id, [], 0);
    if layout.Ok? && IsFixed(layout.value.storage) then layout.value.storage.size.value else 0
  }

  ghost function SumOf(m: Model, members: seq<Id>): nat {
    if members == [] then 0 else SumOf(m, members[..|members| - 1]) + SizeOf(m, members[|members| - 1])
  }

  /** The definition can use its parts: they have a size where one is needed, arrays and records do
      not overflow, and characters take one, two or four bytes. */
  ghost predicate WellBuilt(m: Model, id: Id)
    requires id in m
  {
    match m[id]
    case Enumeration(element, _) => Fixed(m, element)
    case FixedArray(element, count) => Fixed(m, element) && SizeOf(m, element) * count <= USIZE_MAX
    case VariableArray(element) => Fixed(m, element) || EndsIn(m, element, IsStrongRef) || EndsIn(m, element, IsWeakRef)
    case Set(element) => Fixed(m, element) || EndsIn(m, element, IsStrongRef) || EndsIn(m, element, IsWeakRef)
    case String(element) => Fixed(m, element) && SizeOf(m, element) in {1, 2, 4}
    case Record(members) => (forall part :: part in members ==> Fixed(m, part)) && SumOf(m, members) <= USIZE_MAX
    case _ => true
  }

  /** The size of a definition from the sizes of its parts. */
  ghost function BuiltSize(m: Model, id: Id): nat {
    if id !in m then BaselineSize(id).GetOr(0)
    else match m[id]
         case Integer(size, _) => size
         case Character(size) => size
         case ExtendibleEnumeration(_) => 16
         case Enumeration(element, _) => SizeOf(m, element)
         case FixedArray(element, count) => SizeOf(m, element) * count
         case Rename(renamed) => SizeOf(m, renamed)
         case Record(members) => SumOf(m, members)
         case _ => 0
  }

  /** Sizes are built up from those of the parts. */
  lemma SizeMeans(m: Model, id: Id, stack: seq<Id>, depth: nat)
    requires StorageFor(m, id, stack, depth).Ok? && Fixed(m, id)
    ensures SizeOf(m, id) == BuiltSize(m, id)
  {
    hide StorageFor, RecordLayout, Fixed;
    FormsIff(m, id, stack, depth);
    SizeAnywhere(m, id, stack, depth);
    if id in m && m[id].Record? {
      MembersSize(m, id, stack, depth);
    } else {
      PartSize(m, id, stack, depth);
    }
  }

  /** A layout gives the size wherever it is made. */
  lemma SizeAnywhere(m: Model, id: Id, stack: seq<Id>, depth: nat)
    requires StorageFor(m, id, stack, depth).Ok?
    ensures var s := StorageFor(m, id, stack, depth).value.storage;
            IsFixed(s) ==> SizeOf(m, id) == s.size.value
  {
    hide StorageFor;
    Room(m, id, stack, depth);
    LayoutTransfers(m, id, stack, depth, [], 0);
    LayoutIndependent(m, id, stack, depth, [], 0);
  }

  lemma Room(m: Model, id: Id, stack: seq<Id>, depth: nat)
    requires StorageFor(m, id, stack, depth).Ok?
    ensures StorageFor(m, id, stack, depth).value.depth <= MAX_MODEL_DEPTH + 1
  {
    hide StorageFor, Walk, Definitions;
    var p := LongestChain(m, id, stack, depth);
    WalkFresh(m, p, stack, depth);
  }

  lemma PartSize(m: Model, id: Id, stack: seq<Id>, depth: nat)
    requires StorageFor(m, id, stack, depth).Ok? && (id in m ==> !m[id].Record?)
    ensures var s := StorageFor(m, id, stack, depth).value.storage;
      IsFixed(s) ==> s.size.value == BuiltSize(m, id)
  {
    hide RecordLayout, SizeOf, SumOf;
    if id in m && Parts(m[id]) != [] {
      SizeAnywhere(m, Parts(m[id])[0], stack + [id], depth + 1);
    }
  }

  lemma MembersSize(m: Model, id: Id, stack: seq<Id>, depth: nat)
    requires StorageFor(m, id, stack, depth).Ok? && id in m && m[id].Record?
    ensures StorageFor(m, id, stack, depth).value.storage == Data(Some(SumOf(m, m[id].members)))
    ensures SumOf(m, m[id].members) <= USIZE_MAX && forall part :: part in m[id].members ==> Fixed(m, part)
  {
    MembersAddUp(m, m[id].members, stack + [id], depth);
  }

  lemma {:induction false} MembersAddUp(m: Model, members: seq<Id>, stack: seq<Id>, depth: nat)
    requires depth <= MAX_MODEL_DEPTH && RecordLayout(m, members, stack, depth).Ok?
    ensures RecordLayout(m, members, stack, depth).value.0 == SumOf(m, members) <= USIZE_MAX
    ensures forall part :: part in members ==> Fixed(m, part)
    decreases |members|
  {
    hide StorageFor, SizeOf, Fixed;
    if members != [] {
      var front, last := members[..|members| - 1], members[|members| - 1];
      MembersAddUp(m, front, stack, depth);
      FormsIff(m, last, stack, depth + 1);
      SizeAnywhere(m, last, stack, depth + 1);
      assert members == front + [last];
    }
  }

  predicate AllLaidOut(m: Model, parts: seq<Id>, stack: seq<Id>, depth: nat) {
    forall part :: part in parts ==> StorageFor(m, part, stack, depth).Ok?
  }

  lemma FrontLaidOut(m: Model, parts: seq<Id>, stack: seq<Id>, depth: nat)
    requires AllLaidOut(m, parts, stack, depth) && parts != []
    ensures AllLaidOut(m, parts[..|parts| - 1], stack, depth)
    ensures StorageFor(m, parts[|parts| - 1], stack, depth).Ok?
  {
    assert parts == parts[..|parts| - 1] + [parts[|parts| - 1]];
  }

  /** A definition whose parts are laid out is itself exactly when it can use them. */
  lemma PartFits(m: Model, id: Id, stack: seq<Id>, depth: nat)
    requires depth <= MAX_MODEL_DEPTH && id !in stack && id in m && !m[id].Record?
    requires AllLaidOut(m, Parts(m[id]), stack + [id], depth + 1)
    ensures StorageFor(m, id, stack, depth).Ok? <==> WellBuilt(m, id)
  {
    hide RecordLayout, SizeOf, SumOf, Fixed, EndsIn, Collects;
    if Parts(m[id]) != [] {
      var part := Parts(m[id])[0];
      assert part in Parts(m[id]);
      FormsIff(m, part, stack + [id], depth + 1);
      SizeAnywhere(m, part, stack + [id], depth + 1);
    }
  }

  lemma {:induction false} MembersFit(m: Model, members: seq<Id>, stack: seq<Id>, depth: nat)
    requires depth <= MAX_MODEL_DEPTH
    requires AllLaidOut(m, members, stack, depth + 1)
    ensures RecordLayout(m, members, stack, depth).Ok? <==>
            (forall part :: part in members ==> Fixed(m, part)) && SumOf(m, members) <= USIZE_MAX
    decreases |members|
  {
    hide SizeOf, Fixed, StorageFor, RecordLayout, IsFixed, AllLaidOut;
    if members == [] {
      NoMembers(m, stack, depth);
    } else {
      var front, last := members[..|members| - 1], members[|members| - 1];
      assert members == front + [last] && last in members;
      FrontLaidOut(m, members, stack, depth + 1);
      MemberNext(m, members, stack, depth);
      MembersFit(m, front, stack, depth);
      FormsIff(m, last, stack, depth + 1);
      SizeAnywhere(m, last, stack, depth + 1);
      if RecordLayout(m, front, stack, depth).Ok? {
        MembersAddUp(m, front, stack, depth);
      }
    }
  }

  lemma NoMembers(m: Model, stack: seq<Id>, depth: nat)
    requires depth <= MAX_MODEL_DEPTH
    ensures RecordLayout(m, [], stack, depth).Ok?
  {
  }

  lemma MemberNext(m: Model, members: seq<Id>, stack: seq<Id>, depth: nat)
    requires depth <= MAX_MODEL_DEPTH && members != []
    requires StorageFor(m, members[|members| - 1], stack, depth + 1).Ok?
    ensures var front := RecordLayout(m, members[..|members| - 1], stack, depth);
      var s := StorageFor(m, members[|members| - 1], stack, depth + 1).value.storage;
      RecordLayout(m, members, stack, depth).Ok? <==>
        front.Ok? && IsFixed(s) && front.value.0 + s.size.value <= USIZE_MAX
  {
    hide StorageFor;
  }

  lemma DefinitionFits(m: Model, id: Id, stack: seq<Id>, depth: nat)
    requires depth <= MAX_MODEL_DEPTH && id !in stack && id in m
    requires AllLaidOut(m, Parts(m[id]), stack + [id], depth + 1)
    ensures StorageFor(m, id, stack, depth).Ok? <==> WellBuilt(m, id)
  {
    if m[id].Record? {
      assert Parts(m[id]) == m[id].members;
      MembersFit(m, m[id].members, stack + [id], depth);
      hide RecordLayout, SizeOf, SumOf, Fixed;
    } else {
      PartFits(m, id, stack, depth);
    }
  }

  lemma LaidOutIsWellBuilt(m: Model, id: Id, stack: seq<Id>, depth: nat)
    requires StorageFor(m, id, stack, depth).Ok? && id in m
    ensures WellBuilt(m, id)
  {
    assert depth <= MAX_MODEL_DEPTH && id !in stack;
    hide StorageFor, WellBuilt;
    PartsAreSuccessors(m, id);
    forall part | part in Parts(m[id])
      ensures StorageFor(m, part, stack + [id], depth + 1).Ok?
    {
      PartLaidOut(m, id, stack, depth, part);
    }
    DefinitionFits(m, id, stack, depth);
  }

  /** Everything the type is built from is there and can use its own parts. */
  ghost predicate BuiltThroughout(m: Model, id: Id) {
    forall other :: Reaches(Definitions(m), id, other) ==> Resolved(m, other) && (other in m ==> WellBuilt(m, other))
  }

  lemma Downward(m: Model, id: Id, part: Id, depth: nat)
    requires Edge(Definitions(m), id, part)
    ensures Shallow(m, id, depth) ==> Shallow(m, part, depth + 1)
    ensures CycleReachable(Definitions(m), part) ==> CycleReachable(Definitions(m), id)
    ensures BuiltThroughout(m, id) ==> BuiltThroughout(m, part)
    ensures forall other :: Reaches(Definitions(m), part, other) ==> Reaches(Definitions(m), id, other)
    ensures Reaches(Definitions(m), part, id) ==> CycleReachable(Definitions(m), id)
  {
    hide Definitions, WellBuilt, Resolved, Edge;
    forall other | Reaches(Definitions(m), part, other)
      ensures Reaches(Definitions(m), id, other) && (other == id ==> CycleReachable(Definitions(m), id))
    {
      EdgeThenReaches(m, id, part, other);
    }
    forall p | Walk(Definitions(m), p) && p[0] == part
      ensures Walk(Definitions(m), [id] + p) && ([id] + p)[0] == id
    {
      WalkPrepend(Definitions(m), id, p);
    }
  }

  lemma {:induction false} LaysOut(m: Model, id: Id, stack: seq<Id>, depth: nat)
    requires Shallow(m, id, depth) && !CycleReachable(Definitions(m), id) && BuiltThroughout(m, id)
    requires forall i :: 0 <= i < |stack| ==> !Reaches(Definitions(m), id, stack[i])
    ensures StorageFor(m, id, stack, depth).Ok?
    decreases MAX_MODEL_DEPTH + 1 - depth
  {
    hide StorageFor, Shallow, CycleReachable, BuiltThroughout, WellBuilt, Definitions, Reaches;
    AtLeastHere(m, id, depth);
    if id in m {
      forall part | part in Parts(m[id])
        ensures StorageFor(m, part, stack + [id], depth + 1).Ok?
      {
        PartsAreSuccessors(m, id);
        Downward(m, id, part, depth);
        LaysOut(m, part, stack + [id], depth + 1);
      }
      DefinitionFits(m, id, stack, depth);
    } else {
      BaselineLaysOut(m, id, stack, depth);
    }
  }

  lemma AtLeastHere(m: Model, id: Id, depth: nat)
    requires Shallow(m, id, depth) && BuiltThroughout(m, id)
    ensures depth <= MAX_MODEL_DEPTH && Reaches(Definitions(m), id, id)
    ensures if id in m then WellBuilt(m, id) else BaselineSize(id).Some?
  {
    hide WellBuilt, Definitions;
    ReachesRefl(Definitions(m), id);
    assert Walk(Definitions(m), [id]) && [id][0] == id;
  }

  lemma BaselineLaysOut(m: Model, id: Id, stack: seq<Id>, depth: nat)
    requires depth <= MAX_MODEL_DEPTH && id !in stack && id !in m && BaselineSize(id).Some?
    ensures StorageFor(m, id, stack, depth).Ok?
  {
  }

  /** A type can be laid out exactly when what it is built from has no cycle, is no deeper than the
      limit, is all there, and every definition in it can use its parts. */
  lemma LaidOutIff(m: Model, id: Id, depth: nat)
    ensures StorageFor(m, id, [], depth).Ok? <==>
            !CycleReachable(Definitions(m), id) && Shallow(m, id, depth) && BuiltThroughout(m, id)
  {
    hide StorageFor, WellBuilt, Definitions, Edge;
    if StorageFor(m, id, [], depth).Ok? {
      LaidOutIsFinite(m, id, [], depth);
      forall p | Walk(Definitions(m), p) && p[0] == id
        ensures depth + |p| <= MAX_MODEL_DEPTH + 1
      {
        WalkFresh(m, p, [], depth);
      }
      forall other | Reaches(Definitions(m), id, other) && other in m
        ensures WellBuilt(m, other)
      {
        var p :| WalkBetween(Definitions(m), id, other, p);
        WalkLaidOut(m, p, [], depth);
        LaidOutIsWellBuilt(m, other, [] + p[..|p| - 1], depth + |p| - 1);
      }
    } else if !CycleReachable(Definitions(m), id) && Shallow(m, id, depth) && BuiltThroughout(m, id) {
      LaysOut(m, id, [], depth);
    }
  }

  // ---------- measuring

  /** A size is answered exactly for a type that can be laid out and has a size other than zero. */
  lemma MeasuredIff(m: Model, id: Id, depth: nat)
    ensures FixedDataSize(m, id, depth).Ok? <==>
            && !CycleReachable(Definitions(m), id) && Shallow(m, id, depth) && BuiltThroughout(m, id)
            && Fixed(m, id) && SizeOf(m, id) > 0
    ensures FixedDataSize(m, id, depth).Ok? ==> FixedDataSize(m, id, depth).value == SizeOf(m, id)
  {
    hide StorageFor, Definitions, CycleReachable, Shallow, BuiltThroughout, Fixed, SizeOf, EndsIn, Collects;
    LaidOutIff(m, id, depth);
    if StorageFor(m, id, [], depth).Ok? {
      FormsIff(m, id, [], depth);
      SizeAnywhere(m, id, [], depth);
    }
  }

  /** Integers that no file defines: unsigned and then signed, of one, two, four and eight bytes. */
  lemma BaselineIntegers(code: byte)
    ensures BaselineInteger(BaselineId(1, code))
            == if 1 <= code <= 8 then Some(([1, 2, 4, 8][(code - 1) % 4], code > 4)) else None
  {
    hide BaselineId;
    forall a: byte, b: byte
      ensures BaselineId(1, a) == BaselineId(1, b) ==> a == b
    {
      if BaselineId(1, a) == BaselineId(1, b) {
        OneCode(a, b);
      }
    }
  }

  lemma OneCode(a: byte, b: byte)
    requires BaselineId(1, a) == BaselineId(1, b)
    ensures a == b
  {
    assert BaselineId(1, a)[1] == a && BaselineId(1, b)[1] == b;
  }

  lemma NoOtherIntegers(id: Id)
    requires BaselineInteger(id).Some?
    ensures exists code: byte :: id == BaselineId(1, code)
  {
    hide BaselineId;
  }
}
