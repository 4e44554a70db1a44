/** What layout and validation promise each other, for every type graph. */
module AafTypeLaws {
  import opened Wrappers
  import opened Basics
  import opened Graph
  import opened AafTypes

  // ---------- layouts do not depend on where the layout starts

  /** Two successful layouts of a type agree on storage and on the height of its definitions. */
  lemma {:induction false} LayoutIndependent(m: Model, id: Id, s1: seq<Id>, d1: nat, s2: seq<Id>, d2: nat)
    requires StorageFor(m, id, s1, d1).Ok? && StorageFor(m, id, s2, d2).Ok?
    ensures StorageFor(m, id, s1, d1).value.storage == StorageFor(m, id, s2, d2).value.storage
    ensures StorageFor(m, id, s1, d1).value.depth - d1 == StorageFor(m, id, s2, d2).value.depth - d2
    decreases MAX_MODEL_DEPTH + 1 - d1, 1
  {
    if id in m {
      if m[id].Record? {
        RecordIndependent(m, m[id].members, s1 + [id], d1, s2 + [id], d2);
      } else if Parts(m[id]) != [] {
        LayoutIndependent(m, Parts(m[id])[0], s1 + [id], d1 + 1, s2 + [id], d2 + 1);
      }
    }
  }

  lemma {:induction false} RecordIndependent(m: Model, members: seq<Id>, s1: seq<Id>, d1: nat, s2: seq<Id>, d2: nat)
    requires d1 <= MAX_MODEL_DEPTH && d2 <= MAX_MODEL_DEPTH
    requires RecordLayout(m, members, s1, d1).Ok? && RecordLayout(m, members, s2, d2).Ok?
    ensures RecordLayout(m, members, s1, d1).value.0 == RecordLayout(m, members, s2, d2).value.0
    ensures RecordLayout(m, members, s1, d1).value.1 - d1 == RecordLayout(m, members, s2, d2).value.1 - d2
    decreases MAX_MODEL_DEPTH + 1 - d1, 0, |members|
  {
    if members != [] {
      RecordIndependent(m, members[..|members| - 1], s1, d1, s2, d2);
      LayoutIndependent(m, members[|members| - 1], s1, d1 + 1, s2, d2 + 1);
    }
  }

  // ---------- layout and validation agree

  /** What accepted data must look like, given the type's storage form. */
  predicate Fits(storage: Storage, data: Bytes) {
    storage.Data? && (storage.size.Some? ==> |data| == storage.size.value)
  }

  /** A type laid out as `n` bytes accepts only values of `n` bytes; a type stored as a
      reference, a collection of references or a stream accepts no inline value. */
  lemma {:induction false} LayoutAgrees(m: Model, id: Id, stack: seq<Id>, depth: nat, data: Bytes, at: nat)
    requires StorageFor(m, id, stack, depth).Ok?
    requires ValidateData(m, id, data, at) == Accept
    ensures Fits(StorageFor(m, id, stack, depth).value.storage, data)
    decreases MAX_MODEL_DEPTH + 1 - at
  {
    if id in m {
      var inner := stack + [id];
      match m[id]
      case Enumeration(part, _) => LayoutAgrees(m, part, inner, depth + 1, data, at + 1);
      case Rename(part) => LayoutAgrees(m, part, inner, depth + 1, data, at + 1);
      case Record(members) => MembersSum(m, members, inner, depth, data, at);
      case FixedArray(part, _) => ElementMeasured(m, id, stack, depth, data, at);
      case VariableArray(part) => ElementMeasured(m, id, stack, depth, data, at);
      case Set(part) => ElementMeasured(m, id, stack, depth, data, at);
      case _ =>
    }
  }

  lemma ElementMeasured(m: Model, id: Id, stack: seq<Id>, depth: nat, data: Bytes, at: nat)
    requires id in m && (m[id].FixedArray? || m[id].VariableArray? || m[id].Set?)
    requires StorageFor(m, id, stack, depth).Ok? && ValidateData(m, id, data, at) == Accept
    ensures Fits(StorageFor(m, id, stack, depth).value.storage, data)
  {
    var part := m[id].element;
    assert StorageFor(m, part, stack + [id], depth + 1).Ok?;
    assert FixedDataSize(m, part, at + 1).Ok?;
    MeasureIsLayout(m, part, stack + [id], depth + 1, at + 1);
  }

  lemma MeasureIsLayout(m: Model, id: Id, stack: seq<Id>, depth: nat, at: nat)
    requires StorageFor(m, id, stack, depth).Ok? && FixedDataSize(m, id, at).Ok?
    ensures StorageFor(m, id, stack, depth).value.storage == Data(Some(FixedDataSize(m, id, at).value))
  {
    LayoutIndependent(m, id, stack, depth, [], at);
  }

  lemma {:induction false} MembersSum(m: Model, members: seq<Id>, stack: seq<Id>, depth: nat, data: Bytes, at: nat)
    requires depth <= MAX_MODEL_DEPTH && at <= MAX_MODEL_DEPTH
    requires RecordLayout(m, members, stack, depth).Ok?
    requires ValidateMembers(m, members, data, at).0 == Accept
    ensures RecordLayout(m, members, stack, depth).value.0 == ValidateMembers(m, members, data, at).1
    decreases |members|
  {
    if members != [] {
      MembersSum(m, members[..|members| - 1], stack, depth, data, at);
      LayoutIndependent(m, members[|members| - 1], stack, depth + 1, [], at + 1);
    }
  }

  // ---------- layout succeeds only on finite, resolved definitions

  lemma PartsAreSuccessors(m: Model, id: Id)
    ensures Succ(Definitions(m), id) == if id in m then Parts(m[id]) else []
  {
  }

  /** A successful layout laid out each part, one level down. */
  lemma {:induction false} PartLaidOut(m: Model, id: Id, stack: seq<Id>, depth: nat, part: Id)
    requires StorageFor(m, id, stack, depth).Ok? && Edge(Definitions(m), id, part)
    ensures StorageFor(m, part, stack + [id], depth + 1).Ok?
    ensures StorageFor(m, part, stack + [id], depth + 1).value.depth <= StorageFor(m, id, stack, depth).value.depth
  {
    PartsAreSuccessors(m, id);
    if m[id].Record? {
      MemberLaidOut(m, m[id].members, stack + [id], depth, part);
    }
  }

  lemma {:induction false} MemberLaidOut(m: Model, members: seq<Id>, stack: seq<Id>, depth: nat, part: Id)
    requires depth <= MAX_MODEL_DEPTH && RecordLayout(m, members, stack, depth).Ok? && part in members
    ensures StorageFor(m, part, stack, depth + 1).Ok?
    ensures StorageFor(m, part, stack, depth + 1).value.depth <= RecordLayout(m, members, stack, depth).value.1
    decreases |members|
  {
    if part in members[..|members| - 1] {
      MemberLaidOut(m, members[..|members| - 1], stack, depth, part);
    } else {
      assert members == members[..|members| - 1] + [members[|members| - 1]];
    }
  }

  /** Success carries along every walk through the definitions. */
  lemma {:induction false} WalkLaidOut(m: Model, p: seq<Id>, stack: seq<Id>, depth: nat)
    requires Walk(Definitions(m), p) && StorageFor(m, p[0], stack, depth).Ok?
    ensures StorageFor(m, p[|p| - 1], stack + p[..|p| - 1], depth + |p| - 1).Ok?
    ensures StorageFor(m, p[|p| - 1], stack + p[..|p| - 1], depth + |p| - 1).value.depth
            <= StorageFor(m, p[0], stack, depth).value.depth
    decreases |p|
  {
    if |p| == 1 {
      assert stack + p[..0] == stack;
    } else {
      var q := p[..|p| - 1];
      WalkSplit(Definitions(m), p, |p| - 2);
      WalkLaidOut(m, q, stack, depth);
      assert Edge(Definitions(m), p[|p| - 2], p[|p| - 1]);
      PartLaidOut(m, q[|q| - 1], stack + q[..|q| - 1], depth + |q| - 1, p[|p| - 1]);
      assert stack + q[..|q| - 1] + [q[|q| - 1]] == stack + p[..|p| - 1];
    }
  }

  /** No walk from a type that can be laid out comes back to the stack or to itself. */
  lemma {:induction false} WalkFresh(m: Model, p: seq<Id>, stack: seq<Id>, depth: nat)
    requires Walk(Definitions(m), p) && StorageFor(m, p[0], stack, depth).Ok?
    ensures Distinct(p) && (forall i :: 0 <= i < |p| ==> p[i] !in stack && Resolved(m, p[i]))
    ensures depth + |p| <= MAX_MODEL_DEPTH + 1
  {
    WalkLaidOut(m, p, stack, depth);
    forall j | 0 <= j < |p|
      ensures p[j] !in stack + p[..j] && Resolved(m, p[j])
    {
      WalkSplit(Definitions(m), p, j);
      WalkLaidOut(m, p[..j + 1], stack, depth);
      assert p[..j + 1][..j] == p[..j];
    }
    forall i, j | 0 <= i < j < |p|
      ensures p[i] != p[j]
    {
      assert p[j] !in p[..j] && p[..j][i] == p[i];
    }
  }

  /** Everything a laid-out type is built from is resolved and free of cycles. */
  lemma LaidOutIsFinite(m: Model, id: Id, stack: seq<Id>, depth: nat)
    requires StorageFor(m, id, stack, depth).Ok?
    ensures !CycleReachable(Definitions(m), id)
    ensures forall other :: Reaches(Definitions(m), id, other) ==> Resolved(m, other)
  {
    if CycleReachable(Definitions(m), id) {
      var p := CycleGivesRepeat(Definitions(m), id);
      WalkFresh(m, p, stack, depth);
    }
    forall other | Reaches(Definitions(m), id, other)
      ensures Resolved(m, other)
    {
      var p :| WalkBetween(Definitions(m), id, other, p);
      WalkFresh(m, p, stack, depth);
    }
  }

  /** The reported depth is the starting depth plus the longest chain of definitions. */
  lemma {:induction false} LongestChain(m: Model, id: Id, stack: seq<Id>, depth: nat) returns (p: seq<Id>)
    requires StorageFor(m, id, stack, depth).Ok?
    ensures Walk(Definitions(m), p) && p[0] == id
    ensures depth + |p| == StorageFor(m, id, stack, depth).value.depth
    decreases MAX_MODEL_DEPTH + 1 - depth, 1
  {
    p := [id];
    if id in m {
      PartsAreSuccessors(m, id);
      var inner := stack + [id];
      var next := if Parts(m[id]) == [] then None else Some(Parts(m[id])[0]);
      if m[id].Record? {
        next := DeepestMember(m, m[id].members, inner, depth);
      }
      if next.Some? {
        assert Edge(Definitions(m), id, next.value);
        var q := LongestChain(m, next.value, inner, depth + 1);
        WalkPrepend(Definitions(m), id, q);
        p := [id] + q;
      }
    }
  }

  lemma {:induction false} DeepestMember(m: Model, members: seq<Id>, stack: seq<Id>, depth: nat)
    returns (next: Option<Id>)
    requires depth <= MAX_MODEL_DEPTH && RecordLayout(m, members, stack, depth).Ok?
    ensures next.None? ==> RecordLayout(m, members, stack, depth).value.1 == depth + 1
    ensures next.Some? ==> next.value in members && StorageFor(m, next.value, stack, depth + 1).Ok?
    ensures next.Some? ==>
              StorageFor(m, next.value, stack, depth + 1).value.depth
              == RecordLayout(m, members, stack, depth).value.1
    decreases |members|
  {
    next := None;
    if members != [] {
      var last := members[|members| - 1];
      next := DeepestMember(m, members[..|members| - 1], stack, depth);
      if RecordLayout(m, members, stack, depth).value.1
         > RecordLayout(m, members[..|members| - 1], stack, depth).value.1
      {
        next := Some(last);
      }
    }
  }

  lemma DepthIsLongestChain(m: Model, id: Id, stack: seq<Id>, depth: nat)
    requires StorageFor(m, id, stack, depth).Ok?
    ensures StorageFor(m, id, stack, depth).value.depth > depth
    ensures LongestWalk(Definitions(m), id, StorageFor(m, id, stack, depth).value.depth - depth)
  {
    hide StorageFor, Definitions;
    var p := LongestChain(m, id, stack, depth);
    forall q | Walk(Definitions(m), q) && q[0] == id
      ensures depth + |q| <= StorageFor(m, id, stack, depth).value.depth
    {
      WalkLaidOut(m, q, stack, depth);
      DeeperThanStart(m, q[|q| - 1], stack + q[..|q| - 1], depth + |q| - 1);
    }
  }

  lemma DeeperThanStart(m: Model, id: Id, stack: seq<Id>, depth: nat)
    requires StorageFor(m, id, stack, depth).Ok?
    ensures StorageFor(m, id, stack, depth).value.depth > depth
  {
    var p := LongestChain(m, id, stack, depth);
  }

  // ---------- and layout fails for a reason that is there

  /** Each graph error names a witness; `stack` leads from the outermost type to `id`. */
  ghost predicate Explained(m: Model, start: Id, from: nat, error: TypeError) {
    match error
    case Cycle(id) => Reaches(Definitions(m), start, id) && OnCycle(Definitions(m), id)
    case Unresolved(id) => Reaches(Definitions(m), start, id) && !Resolved(m, id)
    case TooDeep =>
      exists p :: Walk(Definitions(m), p) && p[0] == start && from + |p| > MAX_MODEL_DEPTH + 1
    case _ => true
  }

  /** A graph error past the checks at `id` itself was raised by one of its parts. */
  lemma {:induction false} ErrorOfPart(m: Model, id: Id, stack: seq<Id>, depth: nat) returns (part: Option<Id>)
    requires depth <= MAX_MODEL_DEPTH && id !in stack && id in m
    requires StorageFor(m, id, stack, depth).Err?
    ensures part.None? ==> StorageFor(m, id, stack, depth).error in {BadStorage, Overflow}
    ensures part.Some? ==> Edge(Definitions(m), id, part.value)
    ensures part.Some? ==>
              StorageFor(m, part.value, stack + [id], depth + 1) == Err(StorageFor(m, id, stack, depth).error)
  {
    PartsAreSuccessors(m, id);
    if m[id].Record? {
      part := ErrorOfMember(m, m[id].members, stack + [id], depth);
    } else {
      var only := Parts(m[id])[0];
      part := if StorageFor(m, only, stack + [id], depth + 1).Err? then Some(only) else None;
    }
  }

  lemma {:induction false} ErrorOfMember(m: Model, members: seq<Id>, stack: seq<Id>, depth: nat)
    returns (part: Option<Id>)
    requires depth <= MAX_MODEL_DEPTH && RecordLayout(m, members, stack, depth).Err?
    ensures part.None? ==> RecordLayout(m, members, stack, depth).error in {BadStorage, Overflow}
    ensures part.Some? ==> part.value in members
    ensures part.Some? ==>
              StorageFor(m, part.value, stack, depth + 1) == Err(RecordLayout(m, members, stack, depth).error)
    decreases |members|
  {
    var last := members[|members| - 1];
    if RecordLayout(m, members[..|members| - 1], stack, depth).Err? {
      part := ErrorOfMember(m, members[..|members| - 1], stack, depth);
    } else {
      part := if StorageFor(m, last, stack, depth + 1).Err? then Some(last) else None;
    }
  }

  lemma {:induction false} ErrorExplained(m: Model, id: Id, stack: seq<Id>, depth: nat, from: nat)
    requires StorageFor(m, id, stack, depth).Err?
    requires Walk(Definitions(m), stack + [id]) && depth == from + |stack|
    ensures Explained(m, (stack + [id])[0], from, StorageFor(m, id, stack, depth).error)
    decreases MAX_MODEL_DEPTH + 1 - depth
  {
    var inner := stack + [id];
    if depth > MAX_MODEL_DEPTH {
      assert from + |inner| > MAX_MODEL_DEPTH + 1;
    } else if id in stack {
      var i :| 0 <= i < |stack| && stack[i] == id;
      RepeatIsCycle(Definitions(m), inner, i, |stack|);
    } else if id !in m {
      assert WalkBetween(Definitions(m), inner[0], id, inner);
    } else {
      var part := ErrorOfPart(m, id, stack, depth);
      if part.Some? {
        WalkExtend(Definitions(m), inner, part.value);
        ErrorExplained(m, part.value, inner, depth + 1, from);
      }
    }
  }

  /** Laying out a type from an empty stack never blames a graph that is finite, resolved and
      shallow, and a cycle or a missing definition is blamed only where there is one. */
  lemma BlameIsDeserved(m: Model, id: Id, depth: nat)
    requires StorageFor(m, id, [], depth).Err?
    ensures Explained(m, id, depth, StorageFor(m, id, [], depth).error)
  {
    ErrorExplained(m, id, [], depth, depth);
  }

  ghost predicate Shallow(m: Model, id: Id, depth: nat) {
    forall p :: Walk(Definitions(m), p) && p[0] == id ==> depth + |p| <= MAX_MODEL_DEPTH + 1
  }

  lemma FiniteGraphsLayOut(m: Model, id: Id, depth: nat)
    requires !CycleReachable(Definitions(m), id) && Shallow(m, id, depth)
    requires forall other :: Reaches(Definitions(m), id, other) ==> Resolved(m, other)
    ensures StorageFor(m, id, [], depth).Ok?
            || StorageFor(m, id, [], depth).error in {BadStorage, Overflow}
  {
    hide StorageFor, Reaches, Resolved, Walk;
    if StorageFor(m, id, [], depth).Err? {
      BlameIsDeserved(m, id, depth);
    }
  }

  // ---------- a layout can be redone anywhere there is room

  /** Success carries over to any stack that the type does not lead back to, and to any depth
      that leaves room for its longest chain. */
  lemma {:induction false} LayoutTransfers(m: Model, id: Id, s1: seq<Id>, d1: nat, s2: seq<Id>, d2: nat)
    requires StorageFor(m, id, s1, d1).Ok?
    requires StorageFor(m, id, s1, d1).value.depth - d1 + d2 <= MAX_MODEL_DEPTH + 1
    requires forall i :: 0 <= i < |s2| ==> !Reaches(Definitions(m), id, s2[i])
    ensures StorageFor(m, id, s2, d2).Ok?
    decreases MAX_MODEL_DEPTH + 1 - d1, 2
  {
    DeeperThanStart(m, id, s1, d1);
    ReachesRefl(Definitions(m), id);
    if id in m {
      PartsAreSuccessors(m, id);
      if m[id].Record? {
        MembersTransfer(m, id, m[id].members, s1, d1, s2, d2);
      } else if Parts(m[id]) != [] {
        PartTransfers(m, id, Parts(m[id])[0], s1, d1, s2, d2);
      }
    }
  }

  lemma {:induction false} PartTransfers(m: Model, id: Id, part: Id, s1: seq<Id>, d1: nat, s2: seq<Id>, d2: nat)
    requires StorageFor(m, id, s1, d1).Ok? && Edge(Definitions(m), id, part)
    requires StorageFor(m, id, s1, d1).value.depth - d1 + d2 <= MAX_MODEL_DEPTH + 1
    requires forall i :: 0 <= i < |s2| ==> !Reaches(Definitions(m), id, s2[i])
    ensures StorageFor(m, part, s1 + [id], d1 + 1).Ok? && StorageFor(m, part, s2 + [id], d2 + 1).Ok?
    ensures StorageFor(m, part, s2 + [id], d2 + 1).value.storage
            == StorageFor(m, part, s1 + [id], d1 + 1).value.storage
    decreases MAX_MODEL_DEPTH + 1 - d1, 0
  {
    PartLaidOut(m, id, s1, d1, part);
    LaidOutIsFinite(m, id, s1, d1);
    forall i | 0 <= i < |s2 + [id]|
      ensures !Reaches(Definitions(m), part, (s2 + [id])[i])
    {
      if Reaches(Definitions(m), part, (s2 + [id])[i]) {
        EdgeThenReaches(m, id, part, (s2 + [id])[i]);
      }
    }
    LayoutTransfers(m, part, s1 + [id], d1 + 1, s2 + [id], d2 + 1);
    LayoutIndependent(m, part, s1 + [id], d1 + 1, s2 + [id], d2 + 1);
  }

  lemma EdgeThenReaches(m: Model, id: Id, part: Id, other: Id)
    requires Edge(Definitions(m), id, part) && Reaches(Definitions(m), part, other)
    ensures Reaches(Definitions(m), id, other)
    ensures other == id ==> CycleReachable(Definitions(m), id)
  {
    var p :| WalkBetween(Definitions(m), part, other, p);
    WalkPrepend(Definitions(m), id, p);
    assert WalkBetween(Definitions(m), id, other, [id] + p);
    ReachesRefl(Definitions(m), id);
  }

  lemma {:induction false} MembersTransfer(
      m: Model, id: Id, members: seq<Id>, s1: seq<Id>, d1: nat, s2: seq<Id>, d2: nat)
    requires StorageFor(m, id, s1, d1).Ok? && RecordLayout(m, members, s1 + [id], d1).Ok?
    requires forall part :: part in members ==> Edge(Definitions(m), id, part)
    requires StorageFor(m, id, s1, d1).value.depth - d1 + d2 <= MAX_MODEL_DEPTH + 1 && d2 <= MAX_MODEL_DEPTH
    requires forall i :: 0 <= i < |s2| ==> !Reaches(Definitions(m), id, s2[i])
    ensures RecordLayout(m, members, s2 + [id], d2).Ok?
    decreases MAX_MODEL_DEPTH + 1 - d1, 1, |members|
  {
    if members != [] {
      var front := members[..|members| - 1];
      MembersTransfer(m, id, front, s1, d1, s2, d2);
      RecordIndependent(m, front, s1 + [id], d1, s2 + [id], d2);
      PartTransfers(m, id, members[|members| - 1], s1, d1, s2, d2);
    }
  }

  /** Where validation measures the parts of a type that can be laid out from depth 0, the
      measurement repeats the layout: it fails only for a size that is zero or not fixed. */
  lemma MeasuringRepeatsLayout(m: Model, id: Id, p: seq<Id>)
    requires StorageFor(m, id, [], 0).Ok? && Walk(Definitions(m), p) && p[0] == id
    ensures StorageFor(m, p[|p| - 1], [], |p| - 1).Ok?
  {
    var last, above := p[|p| - 1], [] + p[..|p| - 1];
    WalkLaidOut(m, p, [], 0);
    assert StorageFor(m, last, above, 0 + |p| - 1).Ok?;
    RoomBelow(m, id, p, StorageFor(m, last, above, |p| - 1).value.depth);
    LayoutTransfers(m, last, above, |p| - 1, [], |p| - 1);
  }

  lemma RoomBelow(m: Model, id: Id, p: seq<Id>, deepest: nat)
    requires StorageFor(m, id, [], 0).Ok? && Walk(Definitions(m), p) && p[0] == id
    requires StorageFor(m, p[|p| - 1], [] + p[..|p| - 1], |p| - 1).Ok?
    requires StorageFor(m, p[|p| - 1], [] + p[..|p| - 1], |p| - 1).value.depth == deepest
    ensures deepest <= MAX_MODEL_DEPTH + 1
  {
    hide StorageFor, RecordLayout, Definitions, Edge;
    var q := LongestChain(m, p[|p| - 1], [] + p[..|p| - 1], |p| - 1);
    WalkJoin(Definitions(m), p, q);
    WalkFresh(m, p + q[1..], [], 0);
  }

  // ---------- decoding enumeration values

  /** The declared width fits the eight-byte buffer, and a signed value has a top byte. */
  predicate Decodable(kind: Kind) {
    kind.Integer? ==> kind.size <= 8 && (kind.signed ==> kind.size > 0)
  }

  /** Every enumeration over an integer of the model is over one that can be decoded. */
  predicate EnumerationsDecodable(m: Model) {
    forall id :: id in m && m[id].Enumeration? && m[id].element in m ==> Decodable(m[m[id].element])
  }

  ghost function AllTypes(): iset<Id> {
    iset id: Id | |id| >= 0
  }

  /** Types closed under their parts, whose enumerations can be decoded; where the value names its
      own type, that may be any type. */
  ghost predicate Safe(m: Model, types: iset<Id>) {
    forall id :: id in types && id in m ==>
      && (forall part :: part in Parts(m[id]) ==> part in types)
      && (m[id].Enumeration? && m[id].element in m ==> Decodable(m[m[id].element]))
      && (m[id].Indirect? ==> types == AllTypes())
  }

  function Power256(n: nat): nat {
    if n == 0 then 1 else 256 * Power256(n - 1)
  }

  lemma {:induction false} PaddedWord(data: Bytes, n: nat, fill: byte)
    requires fill == 0 || fill == 0xff
    ensures FromLittleEndian(data) < Power256(|data|)
    ensures FromLittleEndian(data + seq(n, _ => fill))
            == FromLittleEndian(data) + if fill == 0 then 0 else Power256(|data| + n) - Power256(|data|)
    decreases |data|, n
  {
    if data == [] {
      if n > 0 {
        var pad := seq(n, _ => fill);
        assert pad[1..] == seq(n - 1, _ => fill);
        PaddedWord([], n - 1, fill);
        assert [] + pad == pad && [] + pad[1..] == pad[1..];
      }
    } else {
      assert (data + seq(n, _ => fill))[1..] == data[1..] + seq(n, _ => fill);
      PaddedWord(data[1..], n, fill);
    }
  }

  lemma {:induction false} TopByte(data: Bytes)
    requires data != []
    ensures FromLittleEndian(data)
            == FromLittleEndian(data[..|data| - 1]) + Power256(|data| - 1) * data[|data| - 1]
  {
    if |data| > 1 {
      var n := |data| - 1;
      assert data[..n][1..] == data[1..][..n - 1];
      TopByte(data[1..]);
      Factored(Power256(n - 1), data[n]);
    }
  }

  lemma Factored(power: nat, digit: nat)
    ensures 256 * (power * digit) == 256 * power * digit
  {
  }

  lemma PowersOf256()
    ensures Power256(1) == 0x100 && Power256(2) == 0x1_0000 && Power256(3) == 0x100_0000
    ensures Power256(4) == 0x1_0000_0000 && Power256(5) == 0x100_0000_0000 && Power256(6) == 0x1_0000_0000_0000
    ensures Power256(7) == 0x100_0000_0000_0000 && Power256(8) == 0x1_0000_0000_0000_0000
  {
    assert Power256(0) == 1;
    assert Power256(1) == 256 * Power256(0);
    assert Power256(2) == 256 * Power256(1);
    assert Power256(3) == 256 * Power256(2);
    assert Power256(4) == 256 * Power256(3);
    assert Power256(5) == 256 * Power256(4);
    assert Power256(6) == 256 * Power256(5);
    assert Power256(7) == 256 * Power256(6);
  }

  /** The top bit of a value of up to eight bytes, as a bound on the value. */
  lemma TopBit(data: Bytes)
    requires 1 <= |data| <= 8
    ensures FromLittleEndian(data) >= 128 * Power256(|data| - 1) <==> data[|data| - 1] >= 0x80
    ensures Power256(|data|) == 256 * Power256(|data| - 1) && Power256(|data| - 1) <= Power256(7)
    ensures FromLittleEndian(data) < Power256(|data|)
    ensures |data| < 8 ==> Power256(|data|) <= Power256(7)
  {
    hide *;
    var n := |data| - 1;
    TopByte(data);
    PaddedWord(data[..n], 0, 0);
    PaddedWord(data, 0, 0);
    PowersGrow(n);
    HighHalf(FromLittleEndian(data[..n]), Power256(n), data[n]);
  }

  lemma PowersGrow(n: nat)
    requires n < 8
    ensures Power256(n + 1) == 256 * Power256(n) && Power256(n) <= Power256(7)
    ensures n < 7 ==> Power256(n + 1) <= Power256(7)
  {
    PowersOf256();
  }

  lemma HighHalf(low: nat, unit: nat, top: nat)
    requires low < unit && top < 256
    ensures low + unit * top >= 128 * unit <==> top >= 128
  {
    if top >= 128 {
      assert unit * top == unit * 128 + unit * (top - 128);
    } else {
      assert unit * 128 == unit * top + unit + unit * (127 - top);
    }
  }

  lemma {:induction false} CopiedIsFront(buffer: Bytes, data: Bytes, i: nat)
    requires i <= |data| && i <= |buffer|
    ensures CopiedOver(buffer, data, i)
            == if |data| <= |buffer| then Some(buffer[..i] + data[i..] + buffer[|data|..]) else None
    decreases |data| - i
  {
    if i == |data| {
      assert buffer == buffer[..i] + [] + buffer[i..];
    } else if i < |buffer| {
      var next := buffer[i := data[i]];
      CopiedIsFront(next, data, i + 1);
      if |data| <= |buffer| {
        assert next[..i + 1] == buffer[..i] + [data[i]] && next[|data|..] == buffer[|data|..];
        assert data[i..] == [data[i]] + data[i + 1..];
        assert next[..i + 1] + data[i + 1..] + next[|data|..] == buffer[..i] + data[i..] + buffer[|data|..];
      }
    }
  }

  /** Decoding crashes exactly on more than eight bytes, and on no bytes when they are signed;
      otherwise the value is that of the data sign-extended to eight bytes. */
  lemma DecodingCrashes(data: Bytes, signed: bool)
    ensures DecodeInteger(data, signed).Crash? <==> |data| > 8 || (signed && data == [])
    ensures !DecodeInteger(data, signed).Crash? ==> DecodeInteger(data, signed) == Number(SignExtended(data, signed))
  {
    var zeros: Bytes := seq(8, _ => 0);
    CopiedIsFront(zeros, data, 0);
    if |data| <= 8 {
      var copied := zeros[..0] + data[0..] + zeros[|data|..];
      assert copied == data + seq(8 - |data|, _ => 0);
      if signed && data != [] && data[|data| - 1] >= 0x80 {
        assert FilledFrom(copied, |data|) == data + seq(8 - |data|, _ => 0xff);
      }
    }
  }

  /** The word of the data followed by copies of its sign. */
  function SignExtended(data: Bytes, signed: bool): int
    requires |data| <= 8 && (signed ==> data != [])
  {
    var fill: byte := if signed && data[|data| - 1] >= 0x80 then 0xff else 0;
    SignedWord(data + seq(8 - |data|, _ => fill))
  }

  /** Two's complement of the stored width; an unsigned eight-byte value wraps like a signed one. */
  lemma IntegerMeaning(data: Bytes, signed: bool)
    requires 1 <= |data| <= 8
    ensures var negative := (signed || |data| == 8) && data[|data| - 1] >= 0x80;
      DecodeInteger(data, signed) == Number(FromLittleEndian(data) - if negative then Power256(|data|) else 0)
  {
    hide FromLittleEndian, Power256, DecodeInteger;
    DecodingCrashes(data, signed);
    var fill: byte := if signed && data[|data| - 1] >= 0x80 then 0xff else 0;
    PaddedWord(data, 8 - |data|, fill);
    TopBit(data);
    PowersOf256();
    assert |data| + (8 - |data|) == 8;
  }

  // ---------- which numbers can be decoded

  /** The numbers of an integer type: two's complement of the width when it is signed or fills the
      whole word, and only zero when it has no bytes. */
  predicate Representable(width: nat, signed: bool, value: int) {
    && width <= 8 && (signed ==> width > 0)
    && if width == 0 then value == 0
       else if signed || width == 8 then -128 * Power256(width - 1) <= value < 128 * Power256(width - 1)
       else 0 <= value < Power256(width)
  }

  function LittleEndian(value: nat, width: nat): (r: Bytes)
    ensures |r| == width
  {
    if width == 0 then [] else [value % 256] + LittleEndian(value / 256, width - 1)
  }

  lemma {:induction false} LittleEndianRoundTrip(value: nat, width: nat)
    requires value < Power256(width)
    ensures FromLittleEndian(LittleEndian(value, width)) == value
  {
    if width > 0 {
      LittleEndianRoundTrip(value / 256, width - 1);
      assert LittleEndian(value, width)[1..] == LittleEndian(value / 256, width - 1);
    }
  }

  lemma DecodedIsRepresentable(data: Bytes, signed: bool)
    requires !DecodeInteger(data, signed).Crash?
    ensures DecodeInteger(data, signed).Number? && Representable(|data|, signed, DecodeInteger(data, signed).value)
  {
    hide DecodeInteger, FromLittleEndian, Power256, SignExtended;
    DecodingCrashes(data, signed);
    if data == [] {
      NothingDecodes();
    } else {
      IntegerMeaning(data, signed);
      TopBit(data);
    }
  }

  lemma NothingDecodes()
    ensures DecodeInteger([], false) == Number(0)
  {
    DecodingCrashes([], false);
    PaddedWord([], 8, 0);
    assert [] + seq(8, _ => 0) == seq<byte>(8, _ => 0);
  }

  lemma RepresentableIsDecoded(width: nat, signed: bool, value: int) returns (data: Bytes)
    requires Representable(width, signed, value)
    ensures |data| == width && DecodeInteger(data, signed) == Number(value)
  {
    hide DecodeInteger, FromLittleEndian, Power256;
    if width == 0 {
      NothingDecodes();
      return [];
    }
    PowersGrow(width - 1);
    var stored := if value < 0 then value + Power256(width) else value;
    data := LittleEndian(stored, width);
    LittleEndianRoundTrip(stored, width);
    IntegerMeaning(data, signed);
    TopBit(data);
  }

  /** A number is the value of some bytes of that width exactly when it is in range. */
  lemma RepresentableIff(width: nat, signed: bool, value: int)
    ensures Representable(width, signed, value) <==>
            exists data: Bytes :: |data| == width && DecodeInteger(data, signed) == Number(value)
  {
    hide DecodeInteger, Representable;
    if data: Bytes :| |data| == width && DecodeInteger(data, signed) == Number(value) {
      DecodedIsRepresentable(data, signed);
    }
    if Representable(width, signed, value) {
      var data := RepresentableIsDecoded(width, signed, value);
    }
  }

  lemma {:induction false} NeverAborts(m: Model, safe: iset<Id>, id: Id, data: Bytes, depth: nat)
    requires Safe(m, safe) && id in safe
    ensures ValidateData(m, id, data, depth) != Abort
    decreases MAX_MODEL_DEPTH + 1 - depth, 2
  {
    hide StorageFor, FixedDataSize, ValidateChunks, ValidateMembers, DecodeInteger, Utf16Text;
    if depth <= MAX_MODEL_DEPTH && id in m {
      match m[id]
      case Enumeration(part, _) =>
        NeverAborts(m, safe, part, data, depth + 1);
        EnumerationNeverAborts(m, id, data, depth);
      case Rename(part) => NeverAborts(m, safe, part, data, depth + 1);
      case FixedArray(part, _) => ArrayNeverAborts(m, safe, id, part, data, depth);
      case VariableArray(part) => ArrayNeverAborts(m, safe, id, part, data, depth);
      case Set(part) => ArrayNeverAborts(m, safe, id, part, data, depth);
      case Record(members) => MembersNeverAbort(m, safe, members, data, depth);
      case Indirect =>
        if HasTypeHeader(m, data) { NeverAborts(m, safe, data[1..17], data[17..], depth + 1); }
      case _ =>
    }
  }

  lemma EnumerationNeverAborts(m: Model, id: Id, data: Bytes, depth: nat)
    requires id in m && m[id].Enumeration? && depth <= MAX_MODEL_DEPTH
    requires m[id].element in m ==> Decodable(m[m[id].element])
    requires ValidateData(m, m[id].element, data, depth + 1) != Abort
    ensures ValidateData(m, id, data, depth) != Abort
  {
    hide StorageFor, FixedDataSize, ValidateChunks, ValidateMembers, DecodeInteger;
    var part := m[id].element;
    if IntegerShape(m, part).Some? && |data| == IntegerShape(m, part).value.0 {
      DecodingCrashes(data, IntegerShape(m, part).value.1);
    }
  }

  lemma {:induction false} ArrayNeverAborts(m: Model, safe: iset<Id>, id: Id, part: Id, data: Bytes, depth: nat)
    requires Safe(m, safe) && part in safe && depth <= MAX_MODEL_DEPTH && id in m
    requires m[id] == VariableArray(part) || m[id] == Set(part)
             || (m[id].FixedArray? && m[id].element == part)
    ensures ValidateData(m, id, data, depth) != Abort
    decreases MAX_MODEL_DEPTH + 1 - depth, 1
  {
    hide StorageFor, RecordLayout, ValidateChunks, ValidateMembers, Safe, Parts, Decodable, IntegerValue;
    ChunksNeverAbort(m, safe, part, data, depth);
    if FixedDataSize(m, part, depth + 1).Ok? {
      var size := FixedDataSize(m, part, depth + 1).value;
      assert ValidateChunks(m, part, data, size, |data| / size, m[id].Set?, depth) != Abort;
    }
  }

  lemma {:induction false} ChunksNeverAbort(m: Model, safe: iset<Id>, element: Id, data: Bytes, depth: nat)
    requires Safe(m, safe) && element in safe && depth <= MAX_MODEL_DEPTH
    ensures forall size: nat, count: nat, distinct: bool :: size > 0 && count <= |data| / size ==>
              ValidateChunks(m, element, data, size, count, distinct, depth) != Abort
    decreases MAX_MODEL_DEPTH + 1 - depth, 0
  {
    forall size: nat, count: nat, distinct: bool | size > 0 && count <= |data| / size
      ensures ValidateChunks(m, element, data, size, count, distinct, depth) != Abort
    {
      for k := 0 to count
        invariant ValidateChunks(m, element, data, size, k, distinct, depth) != Abort
      {
        NeverAborts(m, safe, element, Chunk(data, size, k), depth + 1);
      }
    }
  }

  lemma {:induction false} MembersNeverAbort(m: Model, safe: iset<Id>, members: seq<Id>, data: Bytes, depth: nat)
    requires Safe(m, safe) && depth <= MAX_MODEL_DEPTH
    requires forall i :: 0 <= i < |members| ==> members[i] in safe
    ensures ValidateMembers(m, members, data, depth).0 != Abort
    decreases MAX_MODEL_DEPTH + 1 - depth, 0, |members|
  {
    hide StorageFor, RecordLayout, FixedDataSize, ValidateData, Safe;
    if members != [] {
      var (before, offset) := ValidateMembers(m, members[..|members| - 1], data, depth);
      MembersNeverAbort(m, safe, members[..|members| - 1], data, depth);
      if before == Accept && FixedDataSize(m, members[|members| - 1], depth + 1).Ok? {
        var size := FixedDataSize(m, members[|members| - 1], depth + 1).value;
        if offset + size <= |data| {
          NeverAborts(m, safe, members[|members| - 1], data[offset..offset + size], depth + 1);
        }
      }
    }
  }

  /** Validation of values can crash exactly when some enumeration is over an integer whose
      declared width cannot be decoded; such widths are reported when read, but kept. */
  lemma AbortsIff(m: Model)
    ensures (forall id, data, depth :: ValidateData(m, id, data, depth) != Abort) <==> EnumerationsDecodable(m)
  {
    if EnumerationsDecodable(m) {
      forall id, data, depth
        ensures ValidateData(m, id, data, depth) != Abort
      {
        NeverAborts(m, AllTypes(), id, data, depth);
      }
    } else {
      var id :| id in m && m[id].Enumeration? && m[id].element in m && !Decodable(m[m[id].element]);
      UndecodableAborts(m, id, seq(m[m[id].element].size, _ => 0));
    }
  }

  /** A value of one type makes validation crash only through an enumeration of that kind among
      the definitions that the type is built from, unless one of them leaves the type to the
      value itself. */
  lemma AbortIsReached(m: Model, id: Id, data: Bytes, depth: nat)
    requires ValidateData(m, id, data, depth) == Abort
    ensures exists part :: Reaches(Definitions(m), id, part) && part in m
              && (m[part].Indirect? || (m[part].Enumeration? && m[part].element in m && !Decodable(m[m[part].element])))
  {
    var below := iset part | Reaches(Definitions(m), id, part);
    if Safe(m, below) {
      ReachesRefl(Definitions(m), id);
      NeverAborts(m, below, id, data, depth);
      assert false;
    }
    forall part, next | part in below && part in m && next in Parts(m[part])
      ensures next in below
    {
      PartsAreSuccessors(m, part);
      ReachesStep(Definitions(m), id, part, next);
    }
  }

  lemma UndecodableAborts(m: Model, id: Id, data: Bytes)
    requires id in m && m[id].Enumeration? && m[id].element in m && !Decodable(m[m[id].element])
    requires |data| == m[m[id].element].size
    ensures ValidateData(m, id, data, 0) == Abort
  {
    DecodingCrashes(data, m[m[id].element].signed);
    assert ValidateData(m, m[id].element, data, 1) == Accept;
  }

  /** A nine-byte integer is such a width: an enumeration over it is laid out all the same. */
  lemma OversizedIntegerAborts(m: Model, wide: Id, enumeration: Id, data: Bytes)
    requires wide in m && m[wide] == Integer(9, false)
    requires enumeration in m && m[enumeration] == Enumeration(wide, {}) && wide != enumeration && |data| == 9
    ensures StorageFor(m, enumeration, [], 0) == Ok(Layout(Data(Some(9)), 2))
    ensures ValidateData(m, enumeration, data, 0) == Abort
  {
    UndecodableAborts(m, enumeration, data);
  }

  // ---------- the first failure of a loop decides

  lemma {:induction false} RecordErrorStays(m: Model, members: seq<Id>, stack: seq<Id>, depth: nat, k: nat)
    requires depth <= MAX_MODEL_DEPTH && k <= |members| && RecordLayout(m, members[..k], stack, depth).Err?
    ensures RecordLayout(m, members, stack, depth) == RecordLayout(m, members[..k], stack, depth)
    decreases |members|
  {
    if k == |members| {
      assert members[..k] == members;
    } else {
      assert members[..|members| - 1][..k] == members[..k];
      RecordErrorStays(m, members[..|members| - 1], stack, depth, k);
    }
  }

  lemma {:induction false} MemberErrorStays(m: Model, members: seq<Id>, data: Bytes, depth: nat, k: nat)
    requires depth <= MAX_MODEL_DEPTH && k <= |members|
    requires ValidateMembers(m, members[..k], data, depth).0 != Accept
    ensures ValidateMembers(m, members, data, depth) == ValidateMembers(m, members[..k], data, depth)
    decreases |members|
  {
    if k == |members| {
      assert members[..k] == members;
    } else {
      assert members[..|members| - 1][..k] == members[..k];
      MemberErrorStays(m, members[..|members| - 1], data, depth, k);
    }
  }

  lemma {:induction false} ChunkErrorStays(
      m: Model, element: Id, data: Bytes, size: nat, k: nat, count: nat, distinct: bool, depth: nat)
    requires depth <= MAX_MODEL_DEPTH && size > 0 && k <= count <= |data| / size
    requires ValidateChunks(m, element, data, size, k, distinct, depth) != Accept
    ensures ValidateChunks(m, element, data, size, count, distinct, depth)
            == ValidateChunks(m, element, data, size, k, distinct, depth)
    decreases count
  {
    if k < count {
      ChunkErrorStays(m, element, data, size, k, count - 1, distinct, depth);
    }
  }
}
