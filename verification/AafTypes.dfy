/** The MetaDictionary's type graph: layout of a type and validation of a value of it. */
module AafTypes {
  import opened Wrappers
  import opened Basics
  import opened Graph

  /** The sixteen stored bytes of an AUID; the source prints them as text, one to one. */
  type Id = Bytes

  const MAX_MODEL_DEPTH := 64
  const USIZE_MAX := 0xffff_ffff_ffff_ffff

  datatype Kind =
    | Integer(size: nat, signed: bool)
    | StrongRef(classId: Id)
    | WeakRef(classId: Id)
    | Enumeration(element: Id, values: set<int>)
    | FixedArray(element: Id, count: nat)
    | VariableArray(element: Id)
    | Set(element: Id)
    | String(element: Id)
    | Stream
    | Record(members: seq<Id>)
    | Rename(renamed: Id)
    | ExtendibleEnumeration(labels: set<Bytes>)
    | Indirect
    | Opaque
    | Character(size: nat)

  datatype Storage =
    | Data(size: Option<nat>)
    | StreamStore
    | StrongRefStore
    | WeakRefStore
    | StrongVector
    | WeakVector
    | StrongSet
    | WeakSet

  type Model = map<Id, Kind>

  const BASELINE_TAIL: Bytes := [0x06, 0x0e, 0x2b, 0x34, 0x01, 0x04, 0x01, 0x01]

  function BaselineId(group: byte, code: byte): Id {
    [0, code, group, 1, 0, 0, 0, 0] + BASELINE_TAIL
  }

  function BaselineInteger(id: Id): Option<(nat, bool)> {
    if id == BaselineId(1, 1) then Some((1, false))
    else if id == BaselineId(1, 2) then Some((2, false))
    else if id == BaselineId(1, 3) then Some((4, false))
    else if id == BaselineId(1, 4) then Some((8, false))
    else if id == BaselineId(1, 5) then Some((1, true))
    else if id == BaselineId(1, 6) then Some((2, true))
    else if id == BaselineId(1, 7) then Some((4, true))
    else if id == BaselineId(1, 8) then Some((8, true))
    else None
  }

  function BaselineSize(id: Id): Option<nat> {
    if BaselineInteger(id).Some? then Some(BaselineInteger(id).value.0)
    else if id == BaselineId(0x10, 1) then Some(2)
    else if id == BaselineId(0x10, 3) then Some(1)
    else None
  }

  predicate IsBaselineTypeId(id: Id) {
    |id| >= 8 && id[|id| - 8..] == BASELINE_TAIL
  }

  predicate Resolved(m: Model, id: Id) {
    id in m || BaselineSize(id).Some?
  }

  function Parts(kind: Kind): seq<Id> {
    match kind
    case Enumeration(element, _) => [element]
    case FixedArray(element, _) => [element]
    case VariableArray(element) => [element]
    case Set(element) => [element]
    case String(element) => [element]
    case Record(members) => members
    case Rename(renamed) => [renamed]
    case _ => []
  }

  /** Each definition points at the definitions it is built from. */
  function Definitions(m: Model): map<Id, seq<Id>> {
    map id | id in m :: Parts(m[id])
  }

  datatype TypeError = TooDeep | Cycle(id: Id) | Unresolved(id: Id) | BadStorage | Overflow

  datatype Layout = Layout(storage: Storage, depth: nat)

  /** Storage of a type that is built from no other. */
  function LeafStorage(kind: Kind): Storage {
    match kind
    case Integer(size, _) => Data(Some(size))
    case Character(size) => Data(Some(size))
    case StrongRef(_) => StrongRefStore
    case WeakRef(_) => WeakRefStore
    case Stream => StreamStore
    case ExtendibleEnumeration(_) => Data(Some(16))
    case _ => Data(None)
  }

  /** Storage of a type with one part, from the part's layout. */
  function Combine(kind: Kind, part: Layout): Result<Layout, TypeError> {
    match kind
    case Rename(_) => Ok(part)
    case Enumeration(_, _) => if IsFixed(part.storage) then Ok(part) else Err(BadStorage)
    case FixedArray(_, count) =>
      if !IsFixed(part.storage) then Err(BadStorage)
      else if part.storage.size.value * count > USIZE_MAX then Err(Overflow)
      else Ok(part.(storage := Data(Some(part.storage.size.value * count))))
    case VariableArray(_) =>
      if part.storage.StrongRefStore? then Ok(part.(storage := StrongVector))
      else if part.storage.WeakRefStore? then Ok(part.(storage := WeakVector))
      else if IsFixed(part.storage) then Ok(part.(storage := Data(None)))
      else Err(BadStorage)
    case Set(_) =>
      if part.storage.StrongRefStore? then Ok(part.(storage := StrongSet))
      else if part.storage.WeakRefStore? then Ok(part.(storage := WeakSet))
      else if IsFixed(part.storage) then Ok(part.(storage := Data(None)))
      else Err(BadStorage)
    case String(_) =>
      if IsFixed(part.storage) && part.storage.size.value in {1, 2, 4} then Ok(part.(storage := Data(None)))
      else Err(BadStorage)
    case _ => Err(BadStorage)
  }

  /** Storage form of a type and the depth of its deepest definition. `stack` holds the
      definitions being laid out. */
  function StorageFor(m: Model, id: Id, stack: seq<Id>, depth: nat): Result<Layout, TypeError>
    decreases MAX_MODEL_DEPTH + 1 - depth, 1
  {
    if depth > MAX_MODEL_DEPTH then Err(TooDeep)
    else if id in stack then Err(Cycle(id))
    else if id !in m then
      if BaselineSize(id).Some? then Ok(Layout(Data(BaselineSize(id)), depth + 1))
      else Err(Unresolved(id))
    else
      var inner := stack + [id];
      match m[id]
      case Record(members) =>
        var total :- RecordLayout(m, members, inner, depth);
        Ok(Layout(Data(Some(total.0)), total.1))
      case _ =>
        if Parts(m[id]) == [] then Ok(Layout(LeafStorage(m[id]), depth + 1))
        else
          var part :- StorageFor(m, Parts(m[id])[0], inner, depth + 1);
          Combine(m[id], part)
  }

  predicate IsFixed(storage: Storage) {
    storage.Data? && storage.size.Some?
  }

  /** Total size and deepest definition of a record's members. */
  function RecordLayout(m: Model, members: seq<Id>, stack: seq<Id>, depth: nat): Result<(nat, nat), TypeError>
    requires depth <= MAX_MODEL_DEPTH
    decreases MAX_MODEL_DEPTH + 1 - depth, 0, |members|
  {
    if members == [] then Ok((0, depth + 1))
    else
      var before :- RecordLayout(m, members[..|members| - 1], stack, depth);
      var part :- StorageFor(m, members[|members| - 1], stack, depth + 1);
      AddMember(before, part)
  }

  function AddMember(before: (nat, nat), part: Layout): Result<(nat, nat), TypeError> {
    if !IsFixed(part.storage) then Err(BadStorage)
    else if before.0 + part.storage.size.value > USIZE_MAX then Err(Overflow)
    else Ok((before.0 + part.storage.size.value, if part.depth > before.1 then part.depth else before.1))
  }

  function FixedDataSize(m: Model, id: Id, depth: nat): Result<nat, TypeError> {
    var layout :- StorageFor(m, id, [], depth);
    if IsFixed(layout.storage) && layout.storage.size.value != 0 then Ok(layout.storage.size.value)
    else Err(BadStorage)
  }

  /** The source panics where this model says `Abort`. */
  datatype Verdict = Accept | Reject | Abort

  datatype Decoded = Number(value: int) | NoInteger | Crash

  function Accepting(condition: bool): Verdict {
    if condition then Accept else Reject
  }

  function IntegerShape(m: Model, id: Id): Option<(nat, bool)> {
    if id in m then
      if m[id].Integer? then Some((m[id].size, m[id].signed)) else None
    else BaselineInteger(id)
  }

  function FromLittleEndian(data: Bytes): nat {
    if data == [] then 0 else data[0] + 256 * FromLittleEndian(data[1..])
  }

  /** `i64::from_le_bytes`. */
  function SignedWord(data: Bytes): int
    requires |data| == 8
  {
    var word := FromLittleEndian(data);
    if word >= 0x8000_0000_0000_0000 then word - 0x1_0000_0000_0000_0000 else word
  }

  function IntegerValue(m: Model, id: Id, data: Bytes): Decoded {
    var shape := IntegerShape(m, id);
    if shape.None? || |data| != shape.value.0 then NoInteger else DecodeInteger(data, shape.value.1)
  }

  /** A byte, or none where the index is out of range and the source panics. */
  function ByteIn(bytes: Bytes, index: int): Option<byte> {
    if 0 <= index < |bytes| then Some(bytes[index]) else None
  }

  /** Copies the data over the front of the buffer, from index `i` on, while there is room. */
  function CopiedOver(buffer: Bytes, data: Bytes, i: nat): (r: Option<Bytes>)
    requires i <= |data|
    ensures r.Some? ==> |r.value| == |buffer|
    decreases |data| - i
  {
    if i == |data| then Some(buffer)
    else if i >= |buffer| then None
    else CopiedOver(buffer[i := data[i]], data, i + 1)
  }

  function FilledFrom(buffer: Bytes, from: nat): Bytes {
    seq(|buffer|, i requires 0 <= i < |buffer| => if i < from then buffer[i] else 0xff)
  }

  /** The value in an eight-byte buffer, filled up when the last byte of a signed value says so;
      a crash at the first index that is out of range. */
  function DecodeInteger(data: Bytes, signed: bool): Decoded {
    var copied := CopiedOver(seq(8, _ => 0), data, 0);
    if copied.None? then Crash
    else if !signed then Number(SignedWord(copied.value))
    else
      var top := ByteIn(data, |data| - 1);
      if top.None? then Crash
      else if top.value < 0x80 then Number(SignedWord(copied.value))
      else Number(SignedWord(FilledFrom(copied.value, |data|)))
  }

  /** UTF-16LE text ending in one zero unit, with paired surrogates and no other zero. */
  predicate Utf16Text(data: Bytes) {
    && |data| >= 2 && |data| % 2 == 0
    && data[|data| - 2..] == [0, 0]
    && Utf16Units(data[..|data| - 2])
  }

  predicate Utf16Units(data: Bytes)
    requires |data| % 2 == 0
  {
    if data == [] then true
    else
      var high := data[1];
      if data[0] == 0 && high == 0 then false
      else if 0xd8 <= high < 0xdc then
        |data| >= 4 && 0xdc <= data[3] < 0xe0 && Utf16Units(data[4..])
      else
        !(0xdc <= high < 0xe0) && Utf16Units(data[2..])
  }

  /** The array's size does not overflow and is the length. */
  predicate FillsArray(length: nat, size: nat, count: nat) {
    size * count <= USIZE_MAX && length == size * count
  }

  predicate AllZero(data: Bytes) {
    forall i :: 0 <= i < |data| ==> data[i] == 0
  }

  function ValidateData(m: Model, id: Id, data: Bytes, depth: nat): Verdict
    decreases MAX_MODEL_DEPTH + 1 - depth, 2
  {
    if depth > MAX_MODEL_DEPTH then Reject
    else if id !in m then
      Accepting(BaselineSize(id) == Some(|data|))
    else
      match m[id]
      case Integer(size, _) => Accepting(|data| == size)
      case Character(size) => Accepting(|data| == size)
      case Enumeration(element, values) =>
        var inner := ValidateData(m, element, data, depth + 1);
        if inner != Accept then inner
        else (match IntegerValue(m, element, data)
              case Number(value) => Accepting(value in values)
              case NoInteger => Reject
              case Crash => Abort)
      case FixedArray(element, count) =>
        (match FixedDataSize(m, element, depth + 1)
         case Err(_) => Reject
         case Ok(size) =>
           if !FillsArray(|data|, size, count) then Reject
           else ValidateChunks(m, element, data, size, |data| / size, false, depth))
      case VariableArray(element) =>
        (match FixedDataSize(m, element, depth + 1)
         case Err(_) => Reject
         case Ok(size) =>
           if size == 0 || |data| % size != 0 then Reject
           else ValidateChunks(m, element, data, size, |data| / size, false, depth))
      case Set(element) =>
        (match FixedDataSize(m, element, depth + 1)
         case Err(_) => Reject
         case Ok(size) =>
           if size == 0 || |data| % size != 0 then Reject
           else ValidateChunks(m, element, data, size, |data| / size, true, depth))
      case String(element) =>
        (match FixedDataSize(m, element, depth + 1)
         case Err(_) => Reject
         case Ok(size) =>
           Accepting(size != 0 && |data| >= size && |data| % size == 0 && AllZero(data[|data| - size..])
                     && (size == 2 ==> Utf16Text(data))))
      case Record(members) =>
        var (verdict, end) := ValidateMembers(m, members, data, depth);
        if verdict != Accept then verdict else Accepting(end == |data|)
      case Rename(renamed) => ValidateData(m, renamed, data, depth + 1)
      case ExtendibleEnumeration(labels) => Accepting(|data| == 16 && data in labels)
      case Indirect =>
        if !HasTypeHeader(m, data) then Reject
        else ValidateData(m, data[1..17], data[17..], depth + 1)
      case Opaque => Accepting(HasTypeHeader(m, data))
      case StrongRef(_) => Reject
      case WeakRef(_) => Reject
      case Stream => Reject
  }

  predicate HasTypeHeader(m: Model, data: Bytes) {
    |data| >= 17 && data[0] == 0x4c && (data[1..17] in m || IsBaselineTypeId(data[1..17]))
  }

  /** The first `count` chunks of `size` bytes; in a set each must also be new. */
  function ValidateChunks(m: Model, element: Id, data: Bytes, size: nat, count: nat, distinct: bool, depth: nat)
    : Verdict
    requires depth <= MAX_MODEL_DEPTH && size > 0 && count <= |data| / size
    decreases MAX_MODEL_DEPTH + 1 - depth, 1, count
  {
    if count == 0 then Accept
    else
      var before := ValidateChunks(m, element, data, size, count - 1, distinct, depth);
      if before != Accept then before
      else
        var verdict := ValidateData(m, element, Chunk(data, size, count - 1), depth + 1);
        if verdict != Accept then verdict
        else if distinct && SeenBefore(data, size, count - 1) then Reject
        else Accept
  }

  function Chunk(data: Bytes, size: nat, k: nat): (r: Bytes)
    requires size > 0 && k < |data| / size
    ensures |r| == size
  {
    ChunkBounds(|data|, size, k);
    data[k * size..(k + 1) * size]
  }

  lemma ChunkBounds(length: nat, size: nat, k: nat)
    requires size > 0 && k < length / size
    ensures 0 <= k * size <= (k + 1) * size <= length && (k + 1) * size - k * size == size
  {
    assert (k + 1) * size <= (length / size) * size;
  }

  predicate SeenBefore(data: Bytes, size: nat, k: nat)
    requires size > 0 && k < |data| / size
  {
    exists j :: 0 <= j < k && Chunk(data, size, j) == Chunk(data, size, k)
  }

  /** Validates the members one after another; also returns the bytes they took. */
  function ValidateMembers(m: Model, members: seq<Id>, data: Bytes, depth: nat): (r: (Verdict, nat))
    requires depth <= MAX_MODEL_DEPTH
    ensures r.0 == Accept ==> r.1 <= |data|
    decreases MAX_MODEL_DEPTH + 1 - depth, 1, |members|
  {
    if members == [] then (Accept, 0)
    else
      var (before, offset) := ValidateMembers(m, members[..|members| - 1], data, depth);
      var last := members[|members| - 1];
      if before != Accept then (before, offset) else ValidateMember(m, last, data, offset, depth)
  }

  function ValidateMember(m: Model, member: Id, data: Bytes, offset: nat, depth: nat): (r: (Verdict, nat))
    requires depth <= MAX_MODEL_DEPTH && offset <= |data|
    ensures r.0 == Accept ==> r.1 <= |data|
    decreases MAX_MODEL_DEPTH + 1 - depth, 0
  {
    match FixedDataSize(m, member, depth + 1)
    case Err(_) => (Reject, offset)
    case Ok(size) =>
      if offset + size > USIZE_MAX || offset + size > |data| then (Reject, offset)
      else (ValidateData(m, member, data[offset..offset + size], depth + 1), offset + size)
  }
}
