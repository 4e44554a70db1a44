/** The two interpreters of the type graph as the source runs them: layout with one shared
    stack of definitions, and validation with running offsets and a set of seen values. */
module AafTypeChecker {
  import opened Wrappers
  import opened Basics
  import opened AafTypes
  import Laws = AafTypeLaws

  class DefinitionStack {
    var ids: seq<Id>

    constructor ()
      ensures ids == []
    {
      ids := [];
    }

    /** On success the stack is as it was; on failure the definitions in progress stay on it. */
    method LayOut(m: Model, id: Id, depth: nat) returns (r: Result<Layout, TypeError>)
      modifies this
      ensures r == StorageFor(m, id, old(ids), depth)
      ensures r.Ok? ==> ids == old(ids)
      ensures r.Err? ==> old(ids) <= ids
      decreases MAX_MODEL_DEPTH + 1 - depth, 1
    {
      if depth > MAX_MODEL_DEPTH {
        return Err(TooDeep);
      }
      if id in ids {
        return Err(Cycle(id));
      }
      if id !in m {
        return if BaselineSize(id).Some? then Ok(Layout(Data(BaselineSize(id)), depth + 1)) else Err(Unresolved(id));
      }
      ids := ids + [id];
      if m[id].Record? {
        r := LayOutRecord(m, m[id].members, depth);
        if r.Err? {
          return;
        }
      } else if Parts(m[id]) == [] {
        r := Ok(Layout(LeafStorage(m[id]), depth + 1));
      } else {
        var part := LayOut(m, Parts(m[id])[0], depth + 1);
        if part.Err? && !m[id].Rename? {
          return part;
        }
        r := if part.Err? then part else Combine(m[id], part.value);
      }
      ids := ids[..|ids| - 1];
    }

    method LayOutRecord(m: Model, members: seq<Id>, depth: nat) returns (r: Result<Layout, TypeError>)
      requires depth <= MAX_MODEL_DEPTH
      modifies this
      ensures r.Ok? <==> RecordLayout(m, members, old(ids), depth).Ok?
      ensures r.Ok? ==> var total := RecordLayout(m, members, old(ids), depth).value;
                        r.value == Layout(Data(Some(total.0)), total.1) && ids == old(ids)
      ensures r.Err? ==> r.error == RecordLayout(m, members, old(ids), depth).error && old(ids) <= ids
      decreases MAX_MODEL_DEPTH + 1 - depth, 0
    {
      var size, deepest := 0, depth + 1;
      for k := 0 to |members|
        invariant ids == old(ids)
        invariant RecordLayout(m, members[..k], ids, depth) == Ok((size, deepest))
      {
        assert members[..k + 1][..k] == members[..k];
        var part := LayOut(m, members[k], depth + 1);
        if part.Err? {
          Laws.RecordErrorStays(m, members, old(ids), depth, k + 1);
          return part;
        }
        var next := AddMember((size, deepest), part.value);
        if next.Err? {
          Laws.RecordErrorStays(m, members, old(ids), depth, k + 1);
          return Err(next.error);
        }
        size, deepest := next.value.0, next.value.1;
      }
      assert members[..|members|] == members;
      r := Ok(Layout(Data(Some(size)), deepest));
    }
  }

  method Measure(m: Model, id: Id, depth: nat) returns (r: Result<nat, TypeError>)
    ensures r == FixedDataSize(m, id, depth)
  {
    var stack := new DefinitionStack();
    var layout := stack.LayOut(m, id, depth);
    if layout.Err? {
      return Err(layout.error);
    }
    var storage := layout.value.storage;
    r := if IsFixed(storage) && storage.size.value != 0 then Ok(storage.size.value) else Err(BadStorage);
  }

  /** Copies the value into an eight-byte buffer and fills the rest with its sign, unless that
      runs out of the buffer or the data. */
  method Decode(data: Bytes, signed: bool) returns (decoded: Decoded)
    ensures decoded == DecodeInteger(data, signed)
    ensures decoded.Crash? <==> |data| > 8 || (signed && data == [])
  {
    Laws.DecodingCrashes(data, signed);
    var buffer := new byte[8](_ => 0);
    for i := 0 to |data|
      invariant i <= buffer.Length && buffer[..i] == data[..i]
      invariant forall j :: i <= j < 8 ==> buffer[j] == 0
    {
      if i >= buffer.Length {
        return Crash;
      }
      buffer[i] := data[i];
    }
    if signed && |data| - 1 < 0 {
      return Crash;
    }
    ghost var fill: byte := if signed && data[|data| - 1] >= 0x80 then 0xff else 0;
    if signed && data[|data| - 1] >= 0x80 {
      for i := |data| to 8
        invariant buffer[..|data|] == data
        invariant forall j :: |data| <= j < i ==> buffer[j] == 0xff
        invariant forall j :: i <= j < 8 ==> buffer[j] == 0
      {
        buffer[i] := 0xff;
      }
    }
    assert buffer[..] == data + seq(8 - |data|, _ => fill);
    decoded := Number(SignedWord(buffer[..]));
  }

  method ReadInteger(m: Model, id: Id, data: Bytes) returns (decoded: Decoded)
    ensures decoded == IntegerValue(m, id, data)
  {
    var shape := IntegerShape(m, id);
    if shape.None? || |data| != shape.value.0 {
      return NoInteger;
    }
    decoded := Decode(data, shape.value.1);
  }

  method Validate(m: Model, id: Id, data: Bytes, depth: nat) returns (verdict: Verdict)
    ensures verdict == ValidateData(m, id, data, depth)
    decreases MAX_MODEL_DEPTH + 1 - depth, 1
  {
    hide StorageFor, RecordLayout, ValidateChunks, ValidateMembers, Utf16Text, AllZero, BaselineSize,
         IntegerShape, DecodeInteger;
    if depth > MAX_MODEL_DEPTH {
      return Reject;
    }
    if id !in m {
      return Accepting(BaselineSize(id) == Some(|data|));
    }
    match m[id] {
      case Integer(size, _) => verdict := Accepting(|data| == size);
      case Character(size) => verdict := Accepting(|data| == size);
      case Enumeration(element, values) =>
        verdict := Validate(m, element, data, depth + 1);
        if verdict == Accept {
          var decoded := ReadInteger(m, element, data);
          verdict := match decoded
            case Number(value) => Accepting(value in values)
            case NoInteger => Reject
            case Crash => Abort;
        }
      case FixedArray(element, count) =>
        var size := Measure(m, element, depth + 1);
        if size.Err? || size.value * count > USIZE_MAX || |data| != size.value * count {
          return Reject;
        }
        verdict := ValidateEach(m, element, data, size.value, false, depth);
      case VariableArray(element) =>
        var size := Measure(m, element, depth + 1);
        if size.Err? || |data| % size.value != 0 {
          return Reject;
        }
        verdict := ValidateEach(m, element, data, size.value, false, depth);
      case Set(element) =>
        var size := Measure(m, element, depth + 1);
        if size.Err? || |data| % size.value != 0 {
          return Reject;
        }
        verdict := ValidateEach(m, element, data, size.value, true, depth);
      case String(element) =>
        var size := Measure(m, element, depth + 1);
        verdict := Accepting(size.Ok? && |data| >= size.value && |data| % size.value == 0
                             && AllZero(data[|data| - size.value..]) && (size.value == 2 ==> Utf16Text(data)));
      case Record(members) => verdict := ValidateRecord(m, members, data, depth);
      case Rename(renamed) => verdict := Validate(m, renamed, data, depth + 1);
      case ExtendibleEnumeration(labels) => verdict := Accepting(|data| == 16 && data in labels);
      case Indirect =>
        if !HasTypeHeader(m, data) {
          return Reject;
        }
        verdict := Validate(m, data[1..17], data[17..], depth + 1);
      case Opaque => verdict := Accepting(HasTypeHeader(m, data));
      case _ => verdict := Reject;
    }
  }

  method ValidateEach(m: Model, element: Id, data: Bytes, size: nat, distinct: bool, depth: nat)
    returns (verdict: Verdict)
    requires depth <= MAX_MODEL_DEPTH && size > 0
    ensures verdict == ValidateChunks(m, element, data, size, |data| / size, distinct, depth)
    decreases MAX_MODEL_DEPTH + 1 - depth, 0
  {
    hide ValidateData, Chunk;
    var seen: set<Bytes> := {};
    for k := 0 to |data| / size
      invariant ValidateChunks(m, element, data, size, k, distinct, depth) == Accept
      invariant forall c :: c in seen <==> exists j :: 0 <= j < k && Chunk(data, size, j) == c
    {
      var chunk := Chunk(data, size, k);
      verdict := Validate(m, element, chunk, depth + 1);
      if verdict != Accept || (distinct && chunk in seen) {
        verdict := if verdict != Accept then verdict else Reject;
        Laws.ChunkErrorStays(m, element, data, size, k + 1, |data| / size, distinct, depth);
        return;
      }
      seen := seen + {chunk};
    }
    verdict := Accept;
  }

  method ValidateRecord(m: Model, members: seq<Id>, data: Bytes, depth: nat) returns (verdict: Verdict)
    requires depth <= MAX_MODEL_DEPTH
    ensures var r := ValidateMembers(m, members, data, depth);
            verdict == if r.0 != Accept then r.0 else Accepting(r.1 == |data|)
    decreases MAX_MODEL_DEPTH + 1 - depth, 0, 1
  {
    var offset := 0;
    for k := 0 to |members|
      invariant offset <= |data|
      invariant ValidateMembers(m, members[..k], data, depth) == (Accept, offset)
    {
      assert members[..k + 1][..k] == members[..k];
      var end;
      verdict, end := ValidateNext(m, members[k], data, offset, depth);
      if verdict != Accept {
        Laws.MemberErrorStays(m, members, data, depth, k + 1);
        return;
      }
      offset := end;
    }
    assert members[..|members|] == members;
    verdict := Accepting(offset == |data|);
  }

  method ValidateNext(m: Model, member: Id, data: Bytes, offset: nat, depth: nat)
    returns (verdict: Verdict, end: nat)
    requires depth <= MAX_MODEL_DEPTH && offset <= |data|
    ensures (verdict, end) == ValidateMember(m, member, data, offset, depth)
    decreases MAX_MODEL_DEPTH + 1 - depth, 0, 0
  {
    var size := Measure(m, member, depth + 1);
    if size.Err? || offset + size.value > USIZE_MAX || offset + size.value > |data| {
      return Reject, offset;
    }
    end := offset + size.value;
    verdict := Validate(m, member, data[offset..end], depth + 1);
  }
}
