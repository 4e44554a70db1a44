/** What the values of a type are, kind by kind, without the validator's offsets and loops: a
    collection is its elements one after another, a record its members, a string its characters. */
module AafValues {
  import opened Wrappers
  import opened Basics
  import opened AafTypes
  import Laws = AafTypeLaws
  import Crashes = AafTypeCrashes
  import opened AafText

  /** The pieces are the data, cut up. */
  predicate CutsInto(data: Bytes, pieces: seq<Bytes>) {
    Joined(pieces) == data
  }

  ghost predicate IsValue(m: Model, id: Id, data: Bytes, depth: nat)
    decreases MAX_MODEL_DEPTH + 1 - depth
  {
    && depth <= MAX_MODEL_DEPTH
    && if id !in m then BaselineSize(id) == Some(|data|)
       else
         match m[id]
         case Integer(size, _) => |data| == size
         case Character(size) => |data| == size
         case Enumeration(element, values) =>
           && IsValue(m, element, data, depth + 1)
           && exists v :: v in values && IntegerValue(m, element, data) == Number(v)
         case FixedArray(element, count) =>
           && FixedDataSize(m, element, depth + 1).Ok? && |data| <= USIZE_MAX
           && exists pieces: seq<Bytes> :: CutsInto(data, pieces) && |pieces| == count
                && forall i :: 0 <= i < |pieces| ==> IsValue(m, element, pieces[i], depth + 1)
         case VariableArray(element) =>
           && FixedDataSize(m, element, depth + 1).Ok?
           && exists pieces: seq<Bytes> :: CutsInto(data, pieces)
                && forall i :: 0 <= i < |pieces| ==> IsValue(m, element, pieces[i], depth + 1)
         case Set(element) =>
           && FixedDataSize(m, element, depth + 1).Ok?
           && exists pieces: seq<Bytes> :: CutsInto(data, pieces) && Distinct(pieces)
                && forall i :: 0 <= i < |pieces| ==> IsValue(m, element, pieces[i], depth + 1)
         case String(element) =>
           && FixedDataSize(m, element, depth + 1).Ok?
           && Terminated(data, FixedDataSize(m, element, depth + 1).value)
         case Record(members) =>
           && |data| <= USIZE_MAX
           && exists pieces: seq<Bytes> :: CutsInto(data, pieces) && |pieces| == |members|
                && forall i :: 0 <= i < |members| ==>
                     FixedDataSize(m, members[i], depth + 1).Ok? && IsValue(m, members[i], pieces[i], depth + 1)
         case Rename(renamed) => IsValue(m, renamed, data, depth + 1)
         case ExtendibleEnumeration(labels) => data in labels && |data| == 16
         case Indirect => exists other, value :: Carries(m, data, other, value) && IsValue(m, other, value, depth + 1)
         case Opaque => exists other, value :: Carries(m, data, other, value)
         case StrongRef(_) => false
         case WeakRef(_) => false
         case Stream => false
  }

  /** A byte-order mark, the identifier of a known type, and a value. */
  predicate Carries(m: Model, data: Bytes, other: Id, value: Bytes) {
    data == [0x4c] + other + value && |other| == 16 && (other in m || IsBaselineTypeId(other))
  }

  /** Characters and one more of zeros; in two-byte characters they are the UTF-16 of a text. */
  ghost predicate Terminated(data: Bytes, size: nat) {
    exists body: Bytes :: data == body + Zeros(size) && size > 0 && |body| % size == 0
      && (size == 2 ==> exists text :: IsText(text) && body == Utf16Bytes(text))
  }

  // ---------- collections: chunks are pieces

  lemma {:induction false} ChunksMean(
      m: Model, element: Id, data: Bytes, size: nat, count: nat, distinct: bool, depth: nat)
    requires depth <= MAX_MODEL_DEPTH && size > 0 && count <= |data| / size
    ensures ValidateChunks(m, element, data, size, count, distinct, depth) == Accept <==>
      && (forall k :: 0 <= k < count ==> ValidateData(m, element, Chunk(data, size, k), depth + 1) == Accept)
      && (distinct ==> forall k :: 0 <= k < count ==> !SeenBefore(data, size, k))
    decreases count
  {
    hide ValidateData, SeenBefore, Chunk;
    if count > 0 {
      ChunksMean(m, element, data, size, count - 1, distinct, depth);
    }
  }

  function Chunks(data: Bytes, size: nat, count: nat): (r: seq<Bytes>)
    requires size > 0 && count <= |data| / size
    ensures |r| == count
  {
    seq(count, k requires 0 <= k < count => Chunk(data, size, k))
  }

  lemma {:induction false} ChunksJoin(data: Bytes, size: nat, count: nat)
    requires size > 0 && count <= |data| / size
    ensures 0 <= count * size <= |data| && Joined(Chunks(data, size, count)) == data[..count * size]
  {
    hide Chunk, Joined;
    if count == 0 {
      NothingJoined(data, size);
    } else {
      ChunksJoin(data, size, count - 1);
      ChunkFollows(data, size, count - 1);
      var before, last := Chunks(data, size, count - 1), Chunk(data, size, count - 1);
      JoinedSnoc(before, last);
      assert Chunks(data, size, count) == before + [last];
    }
  }

  lemma NothingJoined(data: Bytes, size: nat)
    requires size > 0
    ensures Joined(Chunks(data, size, 0)) == [] == data[..0 * size]
  {
  }

  lemma ChunkFollows(data: Bytes, size: nat, k: nat)
    requires size > 0 && k < |data| / size
    ensures 0 <= k * size <= (k + 1) * size <= |data|
    ensures data[..k * size] + Chunk(data, size, k) == data[..(k + 1) * size]
  {
    ChunkBounds(|data|, size, k);
    Adjoining(data, k * size, (k + 1) * size);
  }

  lemma Adjoining(data: Bytes, a: nat, b: nat)
    requires a <= b <= |data|
    ensures data[..a] + data[a..b] == data[..b]
  {
  }

  lemma {:induction false} PieceAt(pieces: seq<Bytes>, size: nat, k: nat)
    requires k < |pieces| && forall i :: 0 <= i < |pieces| ==> |pieces[i]| == size
    ensures 0 <= k * size <= (k + 1) * size <= |Joined(pieces)|
    ensures Joined(pieces)[k * size..(k + 1) * size] == pieces[k]
    decreases k
  {
    OneMore(k, size);
    if k > 0 {
      PieceAt(pieces[1..], size, k - 1);
      OneMore(k - 1, size);
    }
  }

  lemma {:induction false} JoinedSize(pieces: seq<Bytes>, size: nat)
    requires forall i :: 0 <= i < |pieces| ==> |pieces[i]| == size
    ensures |Joined(pieces)| == |pieces| * size
  {
    if pieces != [] {
      JoinedSize(pieces[1..], size);
      OneMore(|pieces| - 1, size);
    }
  }

  lemma WholeMultiple(size: nat, count: nat)
    requires size > 0
    ensures count * size == size * count && (size * count) % size == 0 && size * count / size == count
  {
    Crashes.DivExact(size, count);
    MultipleOf(size, count);
  }

  lemma PieceIsChunk(pieces: seq<Bytes>, size: nat, k: nat)
    requires size > 0 && forall i :: 0 <= i < |pieces| ==> |pieces[i]| == size
    requires k < |pieces| && k < |Joined(pieces)| / size
    ensures Chunk(Joined(pieces), size, k) == pieces[k]
  {
    hide Joined;
    PieceAt(pieces, size, k);
  }

  /** Data cut into pieces of one size is cut into these chunks. */
  lemma PiecesAreChunks(pieces: seq<Bytes>, size: nat)
    requires size > 0 && forall i :: 0 <= i < |pieces| ==> |pieces[i]| == size
    ensures var data := Joined(pieces);
      && |data| == size * |pieces| && |data| % size == 0 && |data| / size == |pieces|
      && forall k :: 0 <= k < |pieces| ==> Chunk(data, size, k) == pieces[k]
  {
    hide Joined, Chunk;
    JoinedSize(pieces, size);
    WholeMultiple(size, |pieces|);
    forall k | 0 <= k < |pieces|
      ensures Chunk(Joined(pieces), size, k) == pieces[k]
    {
      PieceIsChunk(pieces, size, k);
    }
  }

  lemma DistinctChunks(data: Bytes, size: nat)
    requires size > 0
    ensures Distinct(Chunks(data, size, |data| / size)) <==>
            forall k :: 0 <= k < |data| / size ==> !SeenBefore(data, size, k)
  {
    var n := |data| / size;
    var chunks := Chunks(data, size, n);
    if Distinct(chunks) {
      forall j, k | 0 <= j < k < n
        ensures Chunk(data, size, j) != Chunk(data, size, k)
      {
        assert chunks[j] != chunks[k];
      }
    } else {
      var j, k :| 0 <= j < k < n && chunks[j] == chunks[k];
      assert SeenBefore(data, size, k);
    }
  }

  ghost predicate AllAccepted(m: Model, element: Id, pieces: seq<Bytes>, depth: nat) {
    forall i :: 0 <= i < |pieces| ==> ValidateData(m, element, pieces[i], depth) == Accept
  }

  lemma AcceptedSizes(m: Model, element: Id, pieces: seq<Bytes>, depth: nat)
    requires FixedDataSize(m, element, depth).Ok? && AllAccepted(m, element, pieces, depth)
    ensures forall i :: 0 <= i < |pieces| ==> |pieces[i]| == FixedDataSize(m, element, depth).value
  {
    hide ValidateData, FixedDataSize;
    forall i | 0 <= i < |pieces|
      ensures |pieces[i]| == FixedDataSize(m, element, depth).value
    {
      Crashes.AcceptedSize(m, element, pieces[i], depth, depth);
    }
  }

  /** All chunks are accepted, and different if they have to be, exactly when the data is accepted
      pieces joined, different if they have to be. */
  lemma ChunksArePieces(m: Model, element: Id, data: Bytes, distinct: bool, depth: nat)
    requires depth <= MAX_MODEL_DEPTH && FixedDataSize(m, element, depth + 1).Ok?
    requires FixedDataSize(m, element, depth + 1).value > 0
    ensures var size := FixedDataSize(m, element, depth + 1).value;
      |data| % size == 0 && ValidateChunks(m, element, data, size, |data| / size, distinct, depth) == Accept <==>
        exists pieces: seq<Bytes> :: CutsInto(data, pieces) && AllAccepted(m, element, pieces, depth + 1)
          && (distinct ==> Distinct(pieces))
  {
    hide ValidateData, FixedDataSize, SeenBefore, Distinct, ValidateChunks, Joined;
    var size := FixedDataSize(m, element, depth + 1).value;
    var n := |data| / size;
    ChunksMean(m, element, data, size, n, distinct, depth);
    DistinctChunks(data, size);
    if |data| % size == 0 && ValidateChunks(m, element, data, size, n, distinct, depth) == Accept {
      ChunksJoin(data, size, n);
      assert data[..n * size] == data;
      assert AllAccepted(m, element, Chunks(data, size, n), depth + 1);
    }
    if pieces: seq<Bytes> :| CutsInto(data, pieces) && AllAccepted(m, element, pieces, depth + 1)
                             && (distinct ==> Distinct(pieces)) {
      AcceptedSizes(m, element, pieces, depth + 1);
      PiecesAreChunks(pieces, size);
      assert Chunks(data, size, n) == pieces;
    }
  }

  /** A collection is accepted exactly when it is accepted elements one after another. */
  lemma VariableMeans(m: Model, id: Id, element: Id, data: Bytes, depth: nat)
    requires depth <= MAX_MODEL_DEPTH && id in m && m[id] == VariableArray(element)
    ensures ValidateData(m, id, data, depth) == Accept <==>
      && FixedDataSize(m, element, depth + 1).Ok?
      && exists pieces: seq<Bytes> :: CutsInto(data, pieces) && AllAccepted(m, element, pieces, depth + 1)
  {
    hide FixedDataSize, ValidateChunks, Joined, AllAccepted;
    if FixedDataSize(m, element, depth + 1).Ok? {
      Crashes.SizePositive(m, element, depth + 1);
      ChunksArePieces(m, element, data, false, depth);
    }
  }

  lemma SetMeans(m: Model, id: Id, element: Id, data: Bytes, depth: nat)
    requires depth <= MAX_MODEL_DEPTH && id in m && m[id] == Set(element)
    ensures ValidateData(m, id, data, depth) == Accept <==>
      && FixedDataSize(m, element, depth + 1).Ok?
      && exists pieces: seq<Bytes> :: CutsInto(data, pieces) && Distinct(pieces)
           && AllAccepted(m, element, pieces, depth + 1)
  {
    hide FixedDataSize, ValidateChunks, Joined, Distinct, AllAccepted;
    if FixedDataSize(m, element, depth + 1).Ok? {
      Crashes.SizePositive(m, element, depth + 1);
      ChunksArePieces(m, element, data, true, depth);
    }
  }

  lemma ArrayMeans(m: Model, id: Id, element: Id, count: nat, data: Bytes, depth: nat)
    requires depth <= MAX_MODEL_DEPTH && id in m && m[id] == FixedArray(element, count)
    ensures ValidateData(m, id, data, depth) == Accept <==>
      && FixedDataSize(m, element, depth + 1).Ok? && |data| <= USIZE_MAX
      && exists pieces: seq<Bytes> :: CutsInto(data, pieces) && |pieces| == count
           && AllAccepted(m, element, pieces, depth + 1)
  {
    hide FixedDataSize, ValidateChunks, ValidateData, Joined, AllAccepted, FillsArray;
    ArrayUnfolds(m, id, element, count, data, depth);
    if FixedDataSize(m, element, depth + 1).Ok? {
      Crashes.SizePositive(m, element, depth + 1);
      ChunksArePieces(m, element, data, false, depth);
      forall pieces: seq<Bytes> | CutsInto(data, pieces) && AllAccepted(m, element, pieces, depth + 1)
        ensures |data| % FixedDataSize(m, element, depth + 1).value == 0
        ensures FillsArray(|data|, FixedDataSize(m, element, depth + 1).value, count) <==>
                |pieces| == count && |data| <= USIZE_MAX
      {
        PiecesCounted(m, element, pieces, count, depth + 1);
      }
      MultipleOf(FixedDataSize(m, element, depth + 1).value, count);
    }
  }

  lemma ArrayUnfolds(m: Model, id: Id, element: Id, count: nat, data: Bytes, depth: nat)
    requires depth <= MAX_MODEL_DEPTH && id in m && m[id] == FixedArray(element, count)
    ensures ValidateData(m, id, data, depth) == Accept <==>
      var size := FixedDataSize(m, element, depth + 1);
      && size.Ok? && FillsArray(|data|, size.value, count)
      && size.value > 0 && ValidateChunks(m, element, data, size.value, |data| / size.value, false, depth) == Accept
    ensures var size := FixedDataSize(m, element, depth + 1);
            size.Ok? && FillsArray(|data|, size.value, count) ==> |data| == size.value * count
  {
    hide ValidateChunks;
    if FixedDataSize(m, element, depth + 1).Ok? {
      Crashes.SizePositive(m, element, depth + 1);
    }
  }

  lemma MultipleOf(size: nat, count: nat)
    requires size > 0
    ensures (size * count) % size == 0
  {
    Remainder(size * count, size, count, 0);
  }

  lemma PiecesCounted(m: Model, element: Id, pieces: seq<Bytes>, count: nat, depth: nat)
    requires FixedDataSize(m, element, depth).Ok? && FixedDataSize(m, element, depth).value > 0
    requires AllAccepted(m, element, pieces, depth)
    ensures var data, size := Joined(pieces), FixedDataSize(m, element, depth).value;
      && |data| % size == 0
      && (FillsArray(|data|, size, count) <==> |pieces| == count && |data| <= USIZE_MAX)
  {
    hide FixedDataSize, AllAccepted, Joined;
    var size := FixedDataSize(m, element, depth).value;
    AcceptedSizes(m, element, pieces, depth);
    PiecesAreChunks(pieces, size);
    Crashes.DivExact(size, count);
  }

  // ---------- records

  ghost predicate MembersAccepted(m: Model, members: seq<Id>, pieces: seq<Bytes>, depth: nat) {
    && |pieces| == |members|
    && forall i :: 0 <= i < |members| ==>
         FixedDataSize(m, members[i], depth).Ok? && ValidateData(m, members[i], pieces[i], depth) == Accept
  }

  lemma {:induction false} MembersCut(m: Model, members: seq<Id>, data: Bytes, depth: nat) returns (pieces: seq<Bytes>)
    requires depth <= MAX_MODEL_DEPTH && ValidateMembers(m, members, data, depth).0 == Accept
    ensures MembersAccepted(m, members, pieces, depth + 1)
    ensures Joined(pieces) == data[..ValidateMembers(m, members, data, depth).1]
    ensures |Joined(pieces)| <= USIZE_MAX
    decreases |members|
  {
    hide ValidateData, ValidateMember, FixedDataSize;
    pieces := [];
    if members != [] {
      var last := |members| - 1;
      Crashes.MembersFront(m, members, data, depth);
      var before := MembersCut(m, members[..last], data, depth);
      var offset := ValidateMembers(m, members[..last], data, depth).1;
      Crashes.MemberParts(m, members[last], data, offset, depth);
      var end := offset + FixedDataSize(m, members[last], depth + 1).value;
      pieces := before + [data[offset..end]];
      JoinedSnoc(before, data[offset..end]);
      assert data[..offset] + data[offset..end] == data[..end];
      forall i | 0 <= i < |members|
        ensures FixedDataSize(m, members[i], depth + 1).Ok?
        ensures ValidateData(m, members[i], pieces[i], depth + 1) == Accept
      {
        assert i < last ==> members[..last][i] == members[i];
      }
    }
  }

  lemma {:induction false} MembersTaken(m: Model, members: seq<Id>, pieces: seq<Bytes>, data: Bytes, depth: nat)
    requires depth <= MAX_MODEL_DEPTH && MembersAccepted(m, members, pieces, depth + 1)
    requires Joined(pieces) <= data && |Joined(pieces)| <= USIZE_MAX
    ensures ValidateMembers(m, members, data, depth) == (Accept, |Joined(pieces)|)
    decreases |members|
  {
    hide ValidateData, FixedDataSize, Joined;
    if members == [] {
      assert pieces == [];
      NoPieces();
    } else {
      var last := |members| - 1;
      var before := pieces[..last];
      assert pieces == before + [pieces[last]];
      JoinedSnoc(before, pieces[last]);
      assert Joined(before) <= data;
      MembersTaken(m, members[..last], before, data, depth);
      Crashes.AcceptedSize(m, members[last], pieces[last], depth + 1, depth + 1);
      var offset := |Joined(before)|;
      assert data[offset..offset + |pieces[last]|] == pieces[last];
    }
  }

  lemma NoPieces()
    ensures Joined<byte>([]) == []
  {
  }

  lemma RecordMeans(m: Model, id: Id, data: Bytes, depth: nat)
    requires depth <= MAX_MODEL_DEPTH && id in m && m[id].Record?
    ensures ValidateData(m, id, data, depth) == Accept <==>
      && |data| <= USIZE_MAX
      && exists pieces: seq<Bytes> :: CutsInto(data, pieces) && MembersAccepted(m, m[id].members, pieces, depth + 1)
  {
    hide MembersAccepted, FixedDataSize, ValidateMember;
    var members := m[id].members;
    if ValidateData(m, id, data, depth) == Accept {
      var pieces := MembersCut(m, members, data, depth);
      assert data[..|data|] == data;
      assert CutsInto(data, pieces);
    }
    if pieces: seq<Bytes> :| CutsInto(data, pieces) && MembersAccepted(m, members, pieces, depth + 1)
                             && |data| <= USIZE_MAX {
      MembersTaken(m, members, pieces, data, depth);
    }
  }

  // ---------- strings, and values with their type

  lemma StringMeans(data: Bytes, size: nat)
    requires size > 0
    ensures Terminated(data, size) <==>
      && |data| >= size && |data| % size == 0 && AllZero(data[|data| - size..]) && (size == 2 ==> Utf16Text(data))
  {
    hide Utf16Units, Utf16Bytes, Terminated, Utf16Text, AllZero;
    if Terminated(data, size) {
      TerminatedEnds(data, size);
    }
    if |data| >= size && |data| % size == 0 && AllZero(data[|data| - size..]) && (size == 2 ==> Utf16Text(data)) {
      EndsTerminated(data, size);
    }
  }

  lemma TerminatedEnds(data: Bytes, size: nat)
    requires Terminated(data, size)
    ensures |data| >= size && |data| % size == 0 && AllZero(data[|data| - size..]) && (size == 2 ==> Utf16Text(data))
  {
    hide Utf16Units, Utf16Bytes, AllZero, Utf16Text, IsText;
    var body :| data == body + Zeros(size) && |body| % size == 0
                && (size == 2 ==> exists text :: IsText(text) && body == Utf16Bytes(text));
    OneUnitMore(|body|, size);
    EndOf(body, size);
    TextIffOf(body, size);
  }

  lemma EndOf(body: Bytes, size: nat)
    ensures var data := body + Zeros(size);
      && |data| == |body| + size && data[..|body|] == body && AllZero(data[|body|..])
      && (size == 2 && |body| % 2 == 0 && Utf16Units(body) ==> Utf16Text(data))
  {
    hide Utf16Units;
    var data := body + Zeros(size);
    assert data[..|body|] == body && data[|body|..] == Zeros(size);
    assert size == 2 ==> Zeros(size) == [0, 0];
  }

  lemma EndsTerminated(data: Bytes, size: nat)
    requires size > 0 && |data| >= size && |data| % size == 0 && AllZero(data[|data| - size..])
    requires size == 2 ==> Utf16Text(data)
    ensures Terminated(data, size)
  {
    hide Utf16Units, Utf16Bytes;
    var body := data[..|data| - size];
    OneUnitMore(|body|, size);
    TextIffOf(body, size);
    assert data[|data| - size..] == Zeros(size);
    assert data == body + Zeros(size);
  }

  lemma OneUnitMore(n: nat, size: nat)
    requires size > 0
    ensures (n + size) % size == 0 <==> n % size == 0
  {
    var q, r := n / size, n % size;
    OneMore(q, size);
    assert n + size == (q + 1) * size + r;
    Remainder(n + size, size, q + 1, r);
  }

  lemma Remainder(n: nat, size: nat, q: nat, r: nat)
    requires n == q * size + r && r < size
    ensures n % size == r
  {
    if n / size < q {
      ProductOrdered(n / size + 1, q, size);
    } else if n / size > q {
      ProductOrdered(q + 1, n / size, size);
    }
  }

  lemma TextIffOf(body: Bytes, size: nat)
    requires size > 0 && |body| % size == 0
    ensures size == 2 ==>
      (Utf16Units(body) <==> exists text :: IsText(text) && body == Utf16Bytes(text))
  {
    if size == 2 {
      TextIff(body);
    }
  }

  lemma HeaderMeans(m: Model, data: Bytes)
    ensures HasTypeHeader(m, data) ==> Carries(m, data, data[1..17], data[17..])
    ensures forall other, value :: Carries(m, data, other, value) ==>
              HasTypeHeader(m, data) && other == data[1..17] && value == data[17..]
  {
    if HasTypeHeader(m, data) {
      assert data == [0x4c] + data[1..17] + data[17..];
    }
  }

  // ---------- the validator accepts values

  ghost predicate Agree(m: Model, depth: nat) {
    forall id, data :: ValidateData(m, id, data, depth) == Accept <==> IsValue(m, id, data, depth)
  }

  ghost predicate AllValues(m: Model, element: Id, pieces: seq<Bytes>, depth: nat) {
    forall i :: 0 <= i < |pieces| ==> IsValue(m, element, pieces[i], depth)
  }

  ghost predicate MemberValues(m: Model, members: seq<Id>, pieces: seq<Bytes>, depth: nat) {
    && |pieces| == |members|
    && forall i :: 0 <= i < |members| ==>
         FixedDataSize(m, members[i], depth).Ok? && IsValue(m, members[i], pieces[i], depth)
  }

  lemma PiecesAgree(m: Model, element: Id, depth: nat)
    requires Agree(m, depth)
    ensures forall pieces: seq<Bytes> ::
              AllAccepted(m, element, pieces, depth) <==> AllValues(m, element, pieces, depth)
  {
    hide ValidateData, IsValue;
  }

  lemma MembersAgree(m: Model, members: seq<Id>, depth: nat)
    requires Agree(m, depth)
    ensures forall pieces: seq<Bytes> ::
              MembersAccepted(m, members, pieces, depth) <==> MemberValues(m, members, pieces, depth)
  {
    hide ValidateData, IsValue, FixedDataSize;
  }

  lemma VariableUnfolds(m: Model, id: Id, element: Id, data: Bytes, depth: nat)
    requires depth <= MAX_MODEL_DEPTH && id in m && m[id] == VariableArray(element)
    ensures IsValue(m, id, data, depth) <==>
      && FixedDataSize(m, element, depth + 1).Ok?
      && exists pieces: seq<Bytes> :: CutsInto(data, pieces) && AllValues(m, element, pieces, depth + 1)
  {
    hide FixedDataSize;
    if IsValue(m, id, data, depth) {
      var pieces: seq<Bytes> :| CutsInto(data, pieces)
        && forall i :: 0 <= i < |pieces| ==> IsValue(m, element, pieces[i], depth + 1);
      assert CutsInto(data, pieces) && AllValues(m, element, pieces, depth + 1);
    }
  }

  lemma SetUnfolds(m: Model, id: Id, element: Id, data: Bytes, depth: nat)
    requires depth <= MAX_MODEL_DEPTH && id in m && m[id] == Set(element)
    ensures IsValue(m, id, data, depth) <==>
      && FixedDataSize(m, element, depth + 1).Ok?
      && exists pieces: seq<Bytes> :: CutsInto(data, pieces) && Distinct(pieces)
           && AllValues(m, element, pieces, depth + 1)
  {
    hide FixedDataSize, Distinct;
  }

  lemma FixedUnfolds(m: Model, id: Id, element: Id, count: nat, data: Bytes, depth: nat)
    requires depth <= MAX_MODEL_DEPTH && id in m && m[id] == FixedArray(element, count)
    ensures IsValue(m, id, data, depth) <==>
      && FixedDataSize(m, element, depth + 1).Ok? && |data| <= USIZE_MAX
      && exists pieces: seq<Bytes> :: CutsInto(data, pieces) && |pieces| == count
           && AllValues(m, element, pieces, depth + 1)
  {
    hide FixedDataSize;
  }

  lemma RecordUnfolds(m: Model, id: Id, data: Bytes, depth: nat)
    requires depth <= MAX_MODEL_DEPTH && id in m && m[id].Record?
    ensures IsValue(m, id, data, depth) <==>
      && |data| <= USIZE_MAX
      && exists pieces: seq<Bytes> :: CutsInto(data, pieces) && MemberValues(m, m[id].members, pieces, depth + 1)
  {
    hide FixedDataSize;
    var members := m[id].members;
    if IsValue(m, id, data, depth) {
      var pieces: seq<Bytes> :| CutsInto(data, pieces) && |pieces| == |members|
        && forall i :: 0 <= i < |members| ==>
             FixedDataSize(m, members[i], depth + 1).Ok? && IsValue(m, members[i], pieces[i], depth + 1);
      assert CutsInto(data, pieces) && MemberValues(m, members, pieces, depth + 1);
    }
  }

  lemma CollectionsAgree(m: Model, id: Id, element: Id, data: Bytes, depth: nat)
    requires depth <= MAX_MODEL_DEPTH && id in m && Agree(m, depth + 1)
    requires m[id] == VariableArray(element) || m[id] == Set(element) || (m[id].FixedArray? && m[id].element == element)
    ensures ValidateData(m, id, data, depth) == Accept <==> IsValue(m, id, data, depth)
  {
    hide *;
    PiecesAgree(m, element, depth + 1);
    match m[id]
    case VariableArray(_) =>
      VariableUnfolds(m, id, element, data, depth);
      VariableMeans(m, id, element, data, depth);
    case Set(_) =>
      SetUnfolds(m, id, element, data, depth);
      SetMeans(m, id, element, data, depth);
    case FixedArray(_, count) =>
      FixedUnfolds(m, id, element, count, data, depth);
      ArrayMeans(m, id, element, count, data, depth);
  }

  lemma RecordsAgree(m: Model, id: Id, data: Bytes, depth: nat)
    requires depth <= MAX_MODEL_DEPTH && id in m && m[id].Record? && Agree(m, depth + 1)
    ensures ValidateData(m, id, data, depth) == Accept <==> IsValue(m, id, data, depth)
  {
    hide *;
    MembersAgree(m, m[id].members, depth + 1);
    RecordUnfolds(m, id, data, depth);
    RecordMeans(m, id, data, depth);
  }

  lemma StringsAgree(m: Model, id: Id, data: Bytes, depth: nat)
    requires depth <= MAX_MODEL_DEPTH && id in m && m[id].String?
    ensures ValidateData(m, id, data, depth) == Accept <==> IsValue(m, id, data, depth)
  {
    hide FixedDataSize, Terminated, AllZero, Utf16Text;
    var element := m[id].element;
    if FixedDataSize(m, element, depth + 1).Ok? {
      Crashes.SizePositive(m, element, depth + 1);
      StringMeans(data, FixedDataSize(m, element, depth + 1).value);
    }
  }

  lemma IndirectsAgree(m: Model, id: Id, data: Bytes, depth: nat)
    requires depth <= MAX_MODEL_DEPTH && id in m && (m[id].Indirect? || m[id].Opaque?) && Agree(m, depth + 1)
    ensures ValidateData(m, id, data, depth) == Accept <==> IsValue(m, id, data, depth)
  {
    hide HasTypeHeader, Carries;
    HeaderMeans(m, data);
  }

  lemma OthersAgree(m: Model, id: Id, data: Bytes, depth: nat)
    requires id in m ==> !m[id].FixedArray? && !m[id].VariableArray? && !m[id].Set? && !m[id].String?
    requires id in m ==> !m[id].Indirect? && !m[id].Opaque? && !m[id].Record?
    requires depth <= MAX_MODEL_DEPTH && Agree(m, depth + 1)
    ensures ValidateData(m, id, data, depth) == Accept <==> IsValue(m, id, data, depth)
  {
    hide IntegerValue;
  }

  /** The validator accepts exactly the values of the type, at every depth. */
  lemma {:induction false} AcceptedIff(m: Model, id: Id, data: Bytes, depth: nat)
    ensures ValidateData(m, id, data, depth) == Accept <==> IsValue(m, id, data, depth)
    decreases MAX_MODEL_DEPTH + 1 - depth, 0
  {
    hide *;
    if depth <= MAX_MODEL_DEPTH {
      AgreeBelow(m, depth + 1);
    } else {
      NothingSoDeep(m, id, data, depth);
    }
    if depth <= MAX_MODEL_DEPTH && id in m {
      match m[id]
      case FixedArray(element, _) => CollectionsAgree(m, id, element, data, depth);
      case VariableArray(element) => CollectionsAgree(m, id, element, data, depth);
      case Set(element) => CollectionsAgree(m, id, element, data, depth);
      case String(_) => StringsAgree(m, id, data, depth);
      case Record(_) => RecordsAgree(m, id, data, depth);
      case Indirect => IndirectsAgree(m, id, data, depth);
      case Opaque => IndirectsAgree(m, id, data, depth);
      case _ => OthersAgree(m, id, data, depth);
    } else if depth <= MAX_MODEL_DEPTH {
      OthersAgree(m, id, data, depth);
    }
  }

  lemma NothingSoDeep(m: Model, id: Id, data: Bytes, depth: nat)
    requires depth > MAX_MODEL_DEPTH
    ensures ValidateData(m, id, data, depth) == Reject && !IsValue(m, id, data, depth)
  {
  }

  lemma {:induction false} AgreeBelow(m: Model, depth: nat)
    requires depth <= MAX_MODEL_DEPTH + 1
    ensures Agree(m, depth)
    decreases MAX_MODEL_DEPTH + 1 - depth, 1
  {
    hide ValidateData, IsValue;
    forall id, data
      ensures ValidateData(m, id, data, depth) == Accept <==> IsValue(m, id, data, depth)
    {
      AcceptedIff(m, id, data, depth);
    }
  }
}
