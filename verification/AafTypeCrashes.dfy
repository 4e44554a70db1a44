/** For each type by itself, whether some value of it makes validation crash: read off the type's
    definition, without looking at values. */
module AafTypeCrashes {
  import opened Wrappers
  import opened Basics
  import opened AafTypes
  import Laws = AafTypeLaws

  // ---------- which types have accepted values, and which crash

  /** The element is an integer type and one of these is among its numbers. */
  predicate SomeInRange(m: Model, element: Id, values: set<int>) {
    var shape := IntegerShape(m, element);
    shape.Some? && exists value :: value in values && Laws.Representable(shape.value.0, shape.value.1, value)
  }

  /** That is what some value of the element decodes to. */
  lemma SomeInRangeIff(m: Model, element: Id, values: set<int>)
    ensures SomeInRange(m, element, values) <==>
            exists data :: IntegerValue(m, element, data).Number? && IntegerValue(m, element, data).value in values
  {
    hide Laws.Representable, DecodeInteger;
    var shape := IntegerShape(m, element);
    if data :| IntegerValue(m, element, data).Number? && IntegerValue(m, element, data).value in values {
      Laws.DecodedIsRepresentable(data, shape.value.1);
      assert Laws.Representable(shape.value.0, shape.value.1, IntegerValue(m, element, data).value);
    }
    if SomeInRange(m, element, values) {
      var value :| value in values && Laws.Representable(shape.value.0, shape.value.1, value);
      var data := Laws.RepresentableIsDecoded(shape.value.0, shape.value.1, value);
      assert IntegerValue(m, element, data) == Number(value);
    }
  }

  function SumSizes(m: Model, members: seq<Id>, depth: nat): Option<nat> {
    if members == [] then Some(0)
    else
      var before := SumSizes(m, members[..|members| - 1], depth);
      var size := FixedDataSize(m, members[|members| - 1], depth + 1);
      if before.Some? && size.Ok? && before.value + size.value <= USIZE_MAX then Some(before.value + size.value)
      else None
  }

  predicate HeaderType(m: Model, id: Id) {
    |id| == 16 && (id in m || IsBaselineTypeId(id))
  }

  /** Some value of the type is accepted at this depth. */
  ghost predicate CanAccept(m: Model, id: Id, depth: nat)
    decreases MAX_MODEL_DEPTH + 1 - depth
  {
    && depth <= MAX_MODEL_DEPTH
    && if id !in m then BaselineSize(id).Some?
       else
         match m[id]
         case Integer(_, _) => true
         case Character(_) => true
         case Enumeration(element, values) => depth < MAX_MODEL_DEPTH && SomeInRange(m, element, values)
         case FixedArray(element, count) =>
           var size := FixedDataSize(m, element, depth + 1);
           size.Ok? && size.value * count <= USIZE_MAX && (count == 0 || CanAccept(m, element, depth + 1))
         case VariableArray(element) => FixedDataSize(m, element, depth + 1).Ok?
         case Set(element) => FixedDataSize(m, element, depth + 1).Ok?
         case String(element) => FixedDataSize(m, element, depth + 1).Ok?
         case Record(members) =>
           SumSizes(m, members, depth).Some?
           && forall i :: 0 <= i < |members| ==> CanAccept(m, members[i], depth + 1)
         case Rename(renamed) => CanAccept(m, renamed, depth + 1)
         case ExtendibleEnumeration(labels) => exists value :: value in labels && |value| == 16
         case Indirect => exists other :: HeaderType(m, other) && CanAccept(m, other, depth + 1)
         case Opaque => true
         case _ => false
  }

  /** A member that crashes after members that can be accepted. */
  predicate Crashing(m: Model, members: seq<Id>, k: nat, depth: nat)
    requires k < |members|
  {
    SumSizes(m, members[..k + 1], depth).Some?
  }

  /** Some value of the type makes validation crash at this depth. */
  ghost predicate CanAbort(m: Model, id: Id, depth: nat)
    decreases MAX_MODEL_DEPTH + 1 - depth
  {
    && depth <= MAX_MODEL_DEPTH && id in m
    && match m[id]
       case Enumeration(element, _) =>
         || CanAbort(m, element, depth + 1)
         || (depth < MAX_MODEL_DEPTH && element in m && !Laws.Decodable(m[element]))
       case FixedArray(element, count) =>
         var size := FixedDataSize(m, element, depth + 1);
         size.Ok? && size.value * count <= USIZE_MAX && count > 0 && CanAbort(m, element, depth + 1)
       case VariableArray(element) => FixedDataSize(m, element, depth + 1).Ok? && CanAbort(m, element, depth + 1)
       case Set(element) => FixedDataSize(m, element, depth + 1).Ok? && CanAbort(m, element, depth + 1)
       case Record(members) =>
         exists k :: 0 <= k < |members| && Crashing(m, members, k, depth) && CanAbort(m, members[k], depth + 1)
                     && forall i :: 0 <= i < k ==> CanAccept(m, members[i], depth + 1)
       case Rename(renamed) => CanAbort(m, renamed, depth + 1)
       case Indirect => exists other :: HeaderType(m, other) && CanAbort(m, other, depth + 1)
       case _ => false
  }

  // ---------- what happens shows in the type

  lemma {:induction false} ChunkFails(
      m: Model, element: Id, data: Bytes, size: nat, count: nat, distinct: bool, depth: nat)
    returns (k: nat)
    requires depth <= MAX_MODEL_DEPTH && size > 0 && count <= |data| / size
    requires ValidateChunks(m, element, data, size, count, distinct, depth) == Abort
    ensures k < count && ValidateData(m, element, Chunk(data, size, k), depth + 1) == Abort
    decreases count
  {
    hide ValidateData;
    k := count - 1;
    if ValidateChunks(m, element, data, size, count - 1, distinct, depth) == Abort {
      k := ChunkFails(m, element, data, size, count - 1, distinct, depth);
    }
  }

  lemma {:induction false} ChunksAccepted(
      m: Model, element: Id, data: Bytes, size: nat, count: nat, distinct: bool, depth: nat)
    requires depth <= MAX_MODEL_DEPTH && size > 0 && 0 < count <= |data| / size
    requires ValidateChunks(m, element, data, size, count, distinct, depth) == Accept
    ensures ValidateData(m, element, Chunk(data, size, count - 1), depth + 1) == Accept
  {
    hide ValidateData;
  }

  lemma DivExact(size: nat, count: nat)
    requires size > 0
    ensures size * count / size == count
  {
    assert size * count == count * size;
    if size * count / size < count {
      ProductOrdered(size * count / size + 1, count, size);
    } else if size * count / size > count {
      ProductOrdered(count + 1, size * count / size, size);
    }
  }

  lemma MembersFront(m: Model, members: seq<Id>, data: Bytes, depth: nat)
    requires depth <= MAX_MODEL_DEPTH && members != []
    requires ValidateMembers(m, members, data, depth).0 == Accept
    ensures var last := |members| - 1;
      var (before, offset) := ValidateMembers(m, members[..last], data, depth);
      && before == Accept
      && ValidateMember(m, members[last], data, offset, depth) == ValidateMembers(m, members, data, depth)
  {
    hide ValidateMember;
  }

  lemma MemberParts(m: Model, member: Id, data: Bytes, offset: nat, depth: nat)
    requires depth <= MAX_MODEL_DEPTH && offset <= |data|
    ensures var r, size := ValidateMember(m, member, data, offset, depth), FixedDataSize(m, member, depth + 1);
      r.0 != Reject ==>
        && size.Ok? && offset + size.value <= USIZE_MAX && offset + size.value <= |data| && r.1 == offset + size.value
        && ValidateData(m, member, data[offset..offset + size.value], depth + 1) == r.0
  {
    hide ValidateData, FixedDataSize;
  }

  lemma {:induction false} MembersShow(m: Model, members: seq<Id>, data: Bytes, depth: nat)
    requires depth <= MAX_MODEL_DEPTH && ValidateMembers(m, members, data, depth).0 == Accept
    ensures SumSizes(m, members, depth) == Some(ValidateMembers(m, members, data, depth).1)
    ensures forall i :: 0 <= i < |members| ==> CanAccept(m, members[i], depth + 1)
    decreases MAX_MODEL_DEPTH + 1 - depth, 0, |members|
  {
    hide ValidateData, ValidateMember, CanAccept, FixedDataSize;
    if members != [] {
      var last := |members| - 1;
      MembersFront(m, members, data, depth);
      MembersShow(m, members[..last], data, depth);
      var offset := ValidateMembers(m, members[..last], data, depth).1;
      MemberParts(m, members[last], data, offset, depth);
      var size := FixedDataSize(m, members[last], depth + 1).value;
      AcceptShows(m, members[last], data[offset..offset + size], depth + 1);
      forall i | 0 <= i < |members|
        ensures CanAccept(m, members[i], depth + 1)
      {
        if i < last {
          assert members[..last][i] == members[i];
        }
      }
    }
  }

  lemma {:induction false} AcceptShows(m: Model, id: Id, data: Bytes, depth: nat)
    requires ValidateData(m, id, data, depth) == Accept
    ensures CanAccept(m, id, depth)
    decreases MAX_MODEL_DEPTH + 1 - depth, 1
  {
    hide ValidateChunks, ValidateMembers, FixedDataSize, IntegerValue, Utf16Text, AllZero;
    if id in m {
      match m[id]
      case Enumeration(element, values) => SomeInRangeIff(m, element, values);
      case FixedArray(element, count) =>
        var size := FixedDataSize(m, element, depth + 1).value;
        if count > 0 {
          SizePositive(m, element, depth + 1);
          DivExact(size, count);
          ChunksAccepted(m, element, data, size, count, false, depth);
          AcceptShows(m, element, Chunk(data, size, count - 1), depth + 1);
        }
      case Record(members) => MembersShow(m, members, data, depth);
      case Rename(renamed) => AcceptShows(m, renamed, data, depth + 1);
      case Indirect =>
        AcceptShows(m, data[1..17], data[17..], depth + 1);
        assert HeaderType(m, data[1..17]);
      case _ =>
    }
  }

  lemma SizePositive(m: Model, id: Id, depth: nat)
    requires FixedDataSize(m, id, depth).Ok?
    ensures FixedDataSize(m, id, depth).value > 0
  {
  }

  lemma {:induction false} MemberFails(m: Model, members: seq<Id>, data: Bytes, depth: nat) returns (k: nat)
    requires depth <= MAX_MODEL_DEPTH && ValidateMembers(m, members, data, depth).0 == Abort
    ensures k < |members|
    ensures var (before, offset) := ValidateMembers(m, members[..k], data, depth);
            before == Accept && ValidateMember(m, members[k], data, offset, depth).0 == Abort
    decreases |members|
  {
    hide ValidateMember;
    var last := |members| - 1;
    k := last;
    if ValidateMembers(m, members[..last], data, depth).0 == Abort {
      k := MemberFails(m, members[..last], data, depth);
      assert members[..last][..k] == members[..k];
    }
  }

  lemma {:induction false} RecordAbortShows(m: Model, id: Id, data: Bytes, depth: nat)
    requires depth <= MAX_MODEL_DEPTH && id in m && m[id].Record?
    requires ValidateMembers(m, m[id].members, data, depth).0 == Abort
    ensures CanAbort(m, id, depth)
    decreases MAX_MODEL_DEPTH + 1 - depth, 1
  {
    hide ValidateData, ValidateMember, FixedDataSize, ValidateMembers, SumSizes;
    var members := m[id].members;
    var k := MemberFails(m, members, data, depth);
    var offset := ValidateMembers(m, members[..k], data, depth).1;
    MembersShow(m, members[..k], data, depth);
    MemberParts(m, members[k], data, offset, depth);
    var size := FixedDataSize(m, members[k], depth + 1).value;
    AbortShows(m, members[k], data[offset..offset + size], depth + 1);
    SumNext(m, members, k, depth);
    forall i | 0 <= i < k
      ensures CanAccept(m, members[i], depth + 1)
    {
      assert members[..k][i] == members[i];
    }
    assert Crashing(m, members, k, depth);
  }

  lemma SumNext(m: Model, members: seq<Id>, k: nat, depth: nat)
    requires k < |members|
    ensures var before, size := SumSizes(m, members[..k], depth), FixedDataSize(m, members[k], depth + 1);
      SumSizes(m, members[..k + 1], depth)
      == if before.Some? && size.Ok? && before.value + size.value <= USIZE_MAX then Some(before.value + size.value)
         else None
  {
    hide FixedDataSize;
    assert members[..k + 1][..k] == members[..k];
  }

  lemma {:induction false} AbortShows(m: Model, id: Id, data: Bytes, depth: nat)
    requires ValidateData(m, id, data, depth) == Abort
    ensures CanAbort(m, id, depth)
    decreases MAX_MODEL_DEPTH + 1 - depth, 2
  {
    hide ValidateChunks, ValidateMembers, FixedDataSize, Utf16Text, AllZero, DecodeInteger;
    match m[id]
    case Enumeration(element, _) =>
      if ValidateData(m, element, data, depth + 1) == Abort {
        AbortShows(m, element, data, depth + 1);
      } else {
        Laws.DecodingCrashes(data, IntegerShape(m, element).value.1);
      }
    case FixedArray(element, count) => ArrayAbortShows(m, id, element, data, depth);
    case VariableArray(element) => ArrayAbortShows(m, id, element, data, depth);
    case Set(element) => ArrayAbortShows(m, id, element, data, depth);
    case Record(members) => RecordAbortShows(m, id, data, depth);
    case Rename(renamed) => AbortShows(m, renamed, data, depth + 1);
    case Indirect =>
      AbortShows(m, data[1..17], data[17..], depth + 1);
      assert HeaderType(m, data[1..17]);
  }

  lemma {:induction false} ArrayAbortShows(m: Model, id: Id, element: Id, data: Bytes, depth: nat)
    requires id in m && ValidateData(m, id, data, depth) == Abort
    requires m[id] == VariableArray(element) || m[id] == Set(element) || (m[id].FixedArray? && m[id].element == element)
    ensures CanAbort(m, id, depth)
    decreases MAX_MODEL_DEPTH + 1 - depth, 1
  {
    hide ValidateChunks, ValidateMembers, FixedDataSize;
    SizePositive(m, element, depth + 1);
    var size := FixedDataSize(m, element, depth + 1).value;
    var k := ChunkFails(m, element, data, size, |data| / size, m[id].Set?, depth);
    AbortShows(m, element, Chunk(data, size, k), depth + 1);
    if m[id].FixedArray? {
      DivExact(size, m[id].count);
    }
  }

  // ---------- what the type shows can happen

  lemma AcceptedSize(m: Model, id: Id, data: Bytes, depth: nat, at: nat)
    requires FixedDataSize(m, id, depth).Ok? && ValidateData(m, id, data, at) == Accept
    ensures |data| == FixedDataSize(m, id, depth).value
  {
    Laws.LayoutAgrees(m, id, [], depth, data, at);
  }

  function Repeat(piece: Bytes, count: nat): (r: Bytes)
    ensures |r| == count * |piece|
  {
    if count == 0 then [] else OneMore(count - 1, |piece|); Repeat(piece, count - 1) + piece
  }

  lemma {:induction false} RepeatSlice(piece: Bytes, count: nat, k: nat, after: Bytes)
    requires k < count
    ensures 0 <= k * |piece| <= (k + 1) * |piece| <= |Repeat(piece, count) + after|
    ensures (Repeat(piece, count) + after)[k * |piece|..(k + 1) * |piece|] == piece
    decreases count
  {
    OneMore(k, |piece|);
    OneMore(count - 1, |piece|);
    ProductOrdered(k + 1, count, |piece|);
    if k < count - 1 {
      RepeatSlice(piece, count - 1, k, piece + after);
      assert Repeat(piece, count) + after == Repeat(piece, count - 1) + (piece + after);
    }
  }

  lemma {:induction false} RepeatedChunks(m: Model, element: Id, piece: Bytes, count: nat, k: nat, depth: nat)
    requires depth <= MAX_MODEL_DEPTH && |piece| > 0 && k <= count <= |Repeat(piece, count)| / |piece|
    requires ValidateData(m, element, piece, depth + 1) == Accept
    ensures ValidateChunks(m, element, Repeat(piece, count), |piece|, k, false, depth) == Accept
    decreases k
  {
    hide ValidateData;
    if k > 0 {
      RepeatedChunks(m, element, piece, count, k - 1, depth);
      RepeatSlice(piece, count, k - 1, []);
      assert Repeat(piece, count) + [] == Repeat(piece, count);
    }
  }

  lemma HeaderData(m: Model, other: Id, data: Bytes)
    requires HeaderType(m, other)
    ensures var whole := [0x4c] + other + data;
            HasTypeHeader(m, whole) && whole[1..17] == other && whole[17..] == data
  {
  }

  lemma ZeroString(m: Model, id: Id, depth: nat)
    requires depth <= MAX_MODEL_DEPTH && id in m && m[id].String? && FixedDataSize(m, m[id].element, depth + 1).Ok?
    ensures ValidateData(m, id, seq(FixedDataSize(m, m[id].element, depth + 1).value, _ => 0), depth) == Accept
  {
    hide FixedDataSize, StorageFor;
    SizePositive(m, m[id].element, depth + 1);
    var size := FixedDataSize(m, m[id].element, depth + 1).value;
    var zeros: Bytes := seq(size, _ => 0);
    assert zeros[|zeros| - size..] == zeros;
    if size == 2 {
      assert zeros == [0, 0] && zeros[..0] == [];
    }
  }

  lemma {:induction false} AcceptHappens(m: Model, id: Id, depth: nat) returns (data: Bytes)
    requires CanAccept(m, id, depth)
    ensures ValidateData(m, id, data, depth) == Accept
    decreases MAX_MODEL_DEPTH + 1 - depth, 1
  {
    hide ValidateChunks, ValidateMembers, FixedDataSize, DecodeInteger;
    if id !in m {
      return seq(BaselineSize(id).value, _ => 0);
    }
    match m[id]
    case Integer(size, _) => data := seq(size, _ => 0);
    case Character(size) => data := seq(size, _ => 0);
    case Enumeration(element, values) =>
      SomeInRangeIff(m, element, values);
      data :| IntegerValue(m, element, data).Number? && IntegerValue(m, element, data).value in values;
      IntegerAccepted(m, element, data, depth + 1);
    case FixedArray(element, count) => data := FixedArrayHappens(m, id, depth);
    case VariableArray(element) =>
      data := [];
      EmptyArray(m, id, element, depth);
    case Set(element) =>
      data := [];
      EmptyArray(m, id, element, depth);
    case String(element) =>
      ZeroString(m, id, depth);
      data := seq(FixedDataSize(m, element, depth + 1).value, _ => 0);
    case Record(members) =>
      data := MembersHappen(m, members, depth);
      assert data + [] == data;
    case Rename(renamed) => data := AcceptHappens(m, renamed, depth + 1);
    case ExtendibleEnumeration(labels) => data :| data in labels && |data| == 16;
    case Indirect =>
      var other :| HeaderType(m, other) && CanAccept(m, other, depth + 1);
      var inner := AcceptHappens(m, other, depth + 1);
      HeaderData(m, other, inner);
      data := [0x4c] + other + inner;
    case Opaque =>
      var other: Id := seq(8, _ => 0) + BASELINE_TAIL;
      assert other[|other| - 8..] == BASELINE_TAIL;
      HeaderData(m, other, []);
      data := [0x4c] + other + [];
  }

  lemma IntegerAccepted(m: Model, element: Id, data: Bytes, depth: nat)
    requires depth <= MAX_MODEL_DEPTH && !IntegerValue(m, element, data).NoInteger?
    ensures ValidateData(m, element, data, depth) == Accept
  {
    hide DecodeInteger;
  }

  lemma EmptyArray(m: Model, id: Id, element: Id, depth: nat)
    requires depth <= MAX_MODEL_DEPTH && id in m && (m[id] == VariableArray(element) || m[id] == Set(element))
    requires FixedDataSize(m, element, depth + 1).Ok?
    ensures ValidateData(m, id, [], depth) == Accept
  {
    hide FixedDataSize;
    SizePositive(m, element, depth + 1);
  }

  lemma {:induction false} FixedArrayHappens(m: Model, id: Id, depth: nat) returns (data: Bytes)
    requires CanAccept(m, id, depth) && id in m && m[id].FixedArray?
    ensures ValidateData(m, id, data, depth) == Accept
    decreases MAX_MODEL_DEPTH + 1 - depth, 0
  {
    hide ValidateChunks, ValidateMembers, FixedDataSize;
    var element, count := m[id].element, m[id].count;
    var size := FixedDataSize(m, element, depth + 1).value;
    SizePositive(m, element, depth + 1);
    DivExact(size, count);
    data := [];
    if count > 0 {
      var piece := AcceptHappens(m, element, depth + 1);
      AcceptedSize(m, element, piece, depth + 1, depth + 1);
      data := Repeat(piece, count);
      assert count * size == size * count;
      RepeatedChunks(m, element, piece, count, count, depth);
    } else {
      NoChunks(m, element, size, depth);
    }
  }

  lemma NoChunks(m: Model, element: Id, size: nat, depth: nat)
    requires depth <= MAX_MODEL_DEPTH && size > 0
    ensures ValidateChunks(m, element, [], size, 0, false, depth) == Accept
  {
  }

  /** A value for all members in turn, whatever follows it. */
  lemma {:induction false} MembersHappen(m: Model, members: seq<Id>, depth: nat) returns (data: Bytes)
    requires depth <= MAX_MODEL_DEPTH && SumSizes(m, members, depth).Some?
    requires forall i :: 0 <= i < |members| ==> CanAccept(m, members[i], depth + 1)
    ensures |data| == SumSizes(m, members, depth).value
    ensures forall after: Bytes :: ValidateMembers(m, members, data + after, depth) == (Accept, |data|)
    decreases MAX_MODEL_DEPTH + 1 - depth, 0, |members|
  {
    hide ValidateData, CanAccept, FixedDataSize, ValidateMember;
    data := [];
    if members != [] {
      var last := |members| - 1;
      var front := MembersHappen(m, members[..last], depth);
      var piece := AcceptHappens(m, members[last], depth + 1);
      AcceptedSize(m, members[last], piece, depth + 1, depth + 1);
      data := front + piece;
      forall after: Bytes
        ensures ValidateMembers(m, members, data + after, depth) == (Accept, |data|)
      {
        assert data + after == front + (piece + after);
        MemberTakes(m, members[last], front, piece, after, depth);
      }
    }
  }

  lemma MemberTakes(m: Model, member: Id, front: Bytes, piece: Bytes, after: Bytes, depth: nat)
    requires depth <= MAX_MODEL_DEPTH && FixedDataSize(m, member, depth + 1) == Ok(|piece|)
    requires |front| + |piece| <= USIZE_MAX
    ensures ValidateMember(m, member, front + (piece + after), |front|, depth)
            == (ValidateData(m, member, piece, depth + 1), |front| + |piece|)
  {
    hide ValidateData, FixedDataSize;
    var data := front + (piece + after);
    assert data[|front|..|front| + |piece|] == piece;
  }

  /** A crashing value, of the size of the type if that is fixed. */
  lemma {:induction false} AbortHappens(m: Model, id: Id, depth: nat) returns (data: Bytes)
    requires CanAbort(m, id, depth)
    ensures ValidateData(m, id, data, depth) == Abort
    ensures FixedDataSize(m, id, depth).Ok? ==> |data| == FixedDataSize(m, id, depth).value
    decreases MAX_MODEL_DEPTH + 1 - depth, 1
  {
    hide ValidateChunks, ValidateMembers, FixedDataSize, DecodeInteger, SumSizes;
    match m[id]
    case Enumeration(element, _) =>
      if CanAbort(m, element, depth + 1) {
        data := AbortHappens(m, element, depth + 1);
      } else {
        data := seq(m[element].size, _ => 0);
        Laws.DecodingCrashes(data, m[element].signed);
        IntegerAccepted(m, element, data, depth + 1);
      }
      PartSize(m, id, element, depth);
      IntegerSize(m, element, depth + 1);
    case FixedArray(element, count) => data := ArrayCrashes(m, id, element, count, depth);
    case VariableArray(element) => data := ArrayCrashes(m, id, element, 1, depth);
    case Set(element) => data := ArrayCrashes(m, id, element, 1, depth);
    case Record(members) => data := RecordCrashes(m, id, depth);
    case Rename(renamed) =>
      data := AbortHappens(m, renamed, depth + 1);
      PartSize(m, id, renamed, depth);
    case Indirect =>
      var other :| HeaderType(m, other) && CanAbort(m, other, depth + 1);
      var inner := AbortHappens(m, other, depth + 1);
      HeaderData(m, other, inner);
      data := [0x4c] + other + inner;
      NotFixed(m, id, depth);
  }

  lemma IntegerSize(m: Model, id: Id, depth: nat)
    ensures id in m && m[id].Integer? && FixedDataSize(m, id, depth).Ok? ==>
              FixedDataSize(m, id, depth).value == m[id].size
  {
  }

  /** Enumerations and renamings have the size of what they stand for. */
  lemma PartSize(m: Model, id: Id, part: Id, depth: nat)
    requires id in m && ((m[id].Rename? && m[id].renamed == part) || (m[id].Enumeration? && m[id].element == part))
    requires depth <= MAX_MODEL_DEPTH
    ensures FixedDataSize(m, id, depth).Ok? ==> FixedDataSize(m, part, depth + 1) == FixedDataSize(m, id, depth)
  {
    if FixedDataSize(m, id, depth).Ok? {
      assert [] + [id] == [id];
      Fresh(m, part, id, depth);
    }
  }

  /** A part that is laid out below its whole is laid out by itself. */
  lemma Fresh(m: Model, part: Id, id: Id, depth: nat)
    requires StorageFor(m, part, [id], depth + 1).Ok?
    ensures StorageFor(m, part, [], depth + 1).Ok?
    ensures StorageFor(m, part, [], depth + 1).value.storage == StorageFor(m, part, [id], depth + 1).value.storage
  {
    hide StorageFor;
    var p := Laws.LongestChain(m, part, [id], depth + 1);
    Laws.WalkFresh(m, p, [id], depth + 1);
    Laws.LayoutTransfers(m, part, [id], depth + 1, [], depth + 1);
    Laws.LayoutIndependent(m, part, [id], depth + 1, [], depth + 1);
  }

  lemma NotFixed(m: Model, id: Id, depth: nat)
    requires id in m && (m[id].Indirect? || m[id].VariableArray? || m[id].Set?)
    ensures FixedDataSize(m, id, depth).Err?
  {
  }

  lemma ArraySize(m: Model, id: Id, depth: nat)
    requires id in m && m[id].FixedArray? && depth <= MAX_MODEL_DEPTH && FixedDataSize(m, m[id].element, depth + 1).Ok?
    ensures FixedDataSize(m, id, depth).Ok? ==>
              FixedDataSize(m, id, depth).value == FixedDataSize(m, m[id].element, depth + 1).value * m[id].count
  {
    if FixedDataSize(m, id, depth).Ok? {
      assert [] + [id] == [id];
      Fresh(m, m[id].element, id, depth);
    }
  }

  lemma {:induction false} ArrayCrashes(m: Model, id: Id, element: Id, count: nat, depth: nat) returns (data: Bytes)
    requires CanAbort(m, id, depth) && id in m && count > 0
    requires (count == 1 && (m[id] == VariableArray(element) || m[id] == Set(element)))
             || m[id] == FixedArray(element, count)
    ensures ValidateData(m, id, data, depth) == Abort
    ensures FixedDataSize(m, id, depth).Ok? ==> |data| == FixedDataSize(m, id, depth).value
    decreases MAX_MODEL_DEPTH + 1 - depth, 0
  {
    hide ValidateChunks, ValidateMembers, FixedDataSize;
    var size := FixedDataSize(m, element, depth + 1).value;
    SizePositive(m, element, depth + 1);
    var piece := AbortHappens(m, element, depth + 1);
    OneMore(count - 1, size);
    data := piece + seq((count - 1) * size, _ => 0);
    assert |data| == count * size == size * count;
    DivExact(size, count);
    FirstChunkAborts(m, element, data, piece, count, m[id].Set?, depth);
    if m[id].FixedArray? {
      ArraySize(m, id, depth);
    } else {
      NotFixed(m, id, depth);
      assert size * 1 == size;
    }
  }

  lemma FirstChunkAborts(m: Model, element: Id, data: Bytes, piece: Bytes, count: nat, distinct: bool, depth: nat)
    requires depth <= MAX_MODEL_DEPTH && |piece| > 0 && piece <= data && 0 < count == |data| / |piece|
    requires ValidateData(m, element, piece, depth + 1) == Abort
    ensures ValidateChunks(m, element, data, |piece|, count, distinct, depth) == Abort
  {
    hide ValidateData;
    assert Chunk(data, |piece|, 0) == piece;
    assert ValidateChunks(m, element, data, |piece|, 1, distinct, depth) == Abort;
    Laws.ChunkErrorStays(m, element, data, |piece|, 1, count, distinct, depth);
  }

  lemma {:induction false} RecordCrashes(m: Model, id: Id, depth: nat) returns (data: Bytes)
    requires CanAbort(m, id, depth) && id in m && m[id].Record?
    ensures ValidateData(m, id, data, depth) == Abort
    ensures FixedDataSize(m, id, depth).Ok? ==> |data| == FixedDataSize(m, id, depth).value
    decreases MAX_MODEL_DEPTH + 1 - depth, 0
  {
    hide ValidateMembers, FixedDataSize, ValidateMember, SumSizes, CanAccept;
    var members := m[id].members;
    var k :| 0 <= k < |members| && Crashing(m, members, k, depth) && CanAbort(m, members[k], depth + 1)
             && forall i :: 0 <= i < k ==> CanAccept(m, members[i], depth + 1);
    SumNext(m, members, k, depth);
    forall i | 0 <= i < k
      ensures CanAccept(m, members[..k][i], depth + 1)
    {
      assert members[..k][i] == members[i];
    }
    var front := MembersHappen(m, members[..k], depth);
    var piece := AbortHappens(m, members[k], depth + 1);
    var total := if FixedDataSize(m, id, depth).Ok? then FixedDataSize(m, id, depth).value else 0;
    var padding: Bytes := if total > |front| + |piece| then seq(total - |front| - |piece|, _ => 0) else [];
    data := front + (piece + padding);
    MemberTakes(m, members[k], front, piece, padding, depth);
    MembersStop(m, members, data, k, depth);
    if FixedDataSize(m, id, depth).Ok? {
      RecordSize(m, id, k, depth);
    }
  }

  lemma MembersStop(m: Model, members: seq<Id>, data: Bytes, k: nat, depth: nat)
    requires depth <= MAX_MODEL_DEPTH && k < |members|
    requires var (before, offset) := ValidateMembers(m, members[..k], data, depth);
             before == Accept && ValidateMember(m, members[k], data, offset, depth).0 == Abort
    ensures ValidateMembers(m, members, data, depth).0 == Abort
  {
    hide ValidateMember;
    assert members[..k + 1][..k] == members[..k];
    Laws.MemberErrorStays(m, members, data, depth, k + 1);
  }

  /** The members up to one of them take no more than the record. */
  lemma RecordSize(m: Model, id: Id, k: nat, depth: nat)
    requires id in m && m[id].Record? && depth <= MAX_MODEL_DEPTH && FixedDataSize(m, id, depth).Ok?
    requires k < |m[id].members|
    requires SumSizes(m, m[id].members[..k + 1], depth).Some?
    ensures SumSizes(m, m[id].members[..k + 1], depth).value <= FixedDataSize(m, id, depth).value
  {
    hide SumSizes;
    var members := m[id].members;
    assert [] + [id] == [id];
    SumGrows(m, members, id, k + 1, depth);
  }

  lemma {:induction false} SumGrows(m: Model, members: seq<Id>, id: Id, k: nat, depth: nat)
    requires depth <= MAX_MODEL_DEPTH && k <= |members| && RecordLayout(m, members, [id], depth).Ok?
    requires SumSizes(m, members[..k], depth).Some?
    ensures SumSizes(m, members[..k], depth).value <= RecordLayout(m, members, [id], depth).value.0
    decreases |members|
  {
    hide StorageFor;
    if k < |members| {
      var last := |members| - 1;
      assert members[..last][..k] == members[..k];
      SumGrows(m, members[..last], id, k, depth);
    } else if k > 0 {
      var last := |members| - 1;
      assert members[..k] == members && members[..last][..last] == members[..last];
      SumGrows(m, members[..last], id, last, depth);
      Fresh(m, members[last], id, depth);
    }
  }

  /** A type has a value that makes validation crash if and only if its definition says so. */
  lemma TypeAbortsIff(m: Model, id: Id, depth: nat)
    ensures (exists data :: ValidateData(m, id, data, depth) == Abort) <==> CanAbort(m, id, depth)
  {
    hide ValidateData, CanAbort;
    if data :| ValidateData(m, id, data, depth) == Abort {
      AbortShows(m, id, data, depth);
    }
    if CanAbort(m, id, depth) {
      var data := AbortHappens(m, id, depth);
    }
  }

  /** And a type has an accepted value if and only if its definition says so. */
  lemma TypeAcceptsIff(m: Model, id: Id, depth: nat)
    ensures (exists data :: ValidateData(m, id, data, depth) == Accept) <==> CanAccept(m, id, depth)
  {
    hide ValidateData, CanAccept;
    if data :| ValidateData(m, id, data, depth) == Accept {
      AcceptShows(m, id, data, depth);
    }
    if CanAccept(m, id, depth) {
      var data := AcceptHappens(m, id, depth);
    }
  }
}
