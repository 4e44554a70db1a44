/** Index streams of strong-reference vectors and sets: the parsers accept exactly what can be
    written, and the keys they return name distinct children. */
module AafIndexes {
  import opened Wrappers
  import opened Basics
  import Ownership = AafOwnership

  datatype IndexError = Truncated | BadKeySize | BadLength | BadReferenceCount | RepeatedUnique | RepeatedKey

  const VECTOR_HEADER := 12
  const SET_HEADER := 15
  const WORD_LIMIT := 0x1_0000_0000

  /** A 32-bit little-endian word. */
  function Word(value: nat): (r: Bytes)
    ensures |r| == 4
  {
    [value % 256, value / 256 % 256, value / 0x1_0000 % 256, value / 0x100_0000 % 256]
  }

  function WordAt(bytes: Bytes, offset: nat): (r: nat)
    requires offset + 4 <= |bytes|
    ensures r < WORD_LIMIT
  {
    (bytes[offset] as int) + 0x100 * (bytes[offset + 1] as int) + 0x1_0000 * (bytes[offset + 2] as int)
      + 0x100_0000 * (bytes[offset + 3] as int)
  }

  lemma WordRoundTrip(value: nat)
    requires value < WORD_LIMIT
    ensures WordAt(Word(value), 0) == value
  {
    FourBytes(value % 256, value / 256 % 256, value / 0x1_0000 % 256, value / 0x100_0000);
    NextByte(value);
    NextByte(value / 256);
    NextByte(value / 0x1_0000);
    assert value / 256 / 256 == value / 0x1_0000 && value / 0x1_0000 / 256 == value / 0x100_0000;
  }

  lemma NextByte(value: nat)
    ensures value == 256 * (value / 256) + value % 256
  {
  }

  lemma FourBytes(a: nat, b: nat, c: nat, d: nat)
    requires a < 256 && b < 256 && c < 256
    ensures var word := a + 0x100 * b + 0x1_0000 * c + 0x100_0000 * d;
            word % 256 == a && word / 256 == b + 0x100 * c + 0x1_0000 * d
            && word / 0x1_0000 == c + 0x100 * d && word / 0x100_0000 == d
  {
    var word := a + 0x100 * b + 0x1_0000 * c + 0x100_0000 * d;
    assert word == 256 * (b + 0x100 * c + 0x1_0000 * d) + a;
    assert word == 0x1_0000 * (c + 0x100 * d) + (a + 0x100 * b);
    assert word == 0x100_0000 * d + (a + 0x100 * b + 0x1_0000 * c);
  }

  lemma WordBack(bytes: Bytes, offset: nat)
    requires offset + 4 <= |bytes|
    ensures Word(WordAt(bytes, offset)) == bytes[offset..offset + 4]
  {
    var a: int, b: int, c: int, d: int := bytes[offset], bytes[offset + 1], bytes[offset + 2], bytes[offset + 3];
    FourBytes(a, b, c, d);
    FourBytes(b, c, d, 0);
    FourBytes(c, d, 0, 0);
    assert bytes[offset..offset + 4] == [bytes[offset], bytes[offset + 1], bytes[offset + 2], bytes[offset + 3]];
  }

  lemma WordIn(bytes: Bytes, offset: nat, value: nat)
    requires offset + 4 <= |bytes| && bytes[offset..offset + 4] == Word(value) && value < WORD_LIMIT
    ensures WordAt(bytes, offset) == value
  {
    WordRoundTrip(value);
    var part := bytes[offset..offset + 4];
    assert part[0] == bytes[offset] && part[1] == bytes[offset + 1];
    assert part[2] == bytes[offset + 2] && part[3] == bytes[offset + 3];
  }

  // ---------- vectors

  /** Eight bytes that are not looked at, and the local keys. */
  datatype VectorIndex = VectorIndex(unread: Bytes, keys: seq<nat>)

  predicate StorableVector(v: VectorIndex) {
    && |v.unread| == 8 && |v.keys| < WORD_LIMIT
    && (forall i :: 0 <= i < |v.keys| ==> v.keys[i] < WORD_LIMIT)
    && Distinct(v.keys)
  }

  function KeyBytes(keys: seq<nat>): (r: Bytes)
    ensures |r| == 4 * |keys|
  {
    if keys == [] then [] else KeyBytes(keys[..|keys| - 1]) + Word(keys[|keys| - 1])
  }

  function EncodeVector(v: VectorIndex): Bytes {
    Word(|v.keys|) + v.unread + KeyBytes(v.keys)
  }

  lemma {:induction false} KeyBytesAt(keys: seq<nat>, i: nat)
    requires i < |keys|
    ensures KeyBytes(keys)[4 * i..4 * i + 4] == Word(keys[i])
    decreases |keys|
  {
    var n := |keys| - 1;
    if i < n {
      KeyBytesAt(keys[..n], i);
      assert KeyBytes(keys)[4 * i..4 * i + 4] == KeyBytes(keys[..n])[4 * i..4 * i + 4];
    }
  }

  /** What is written reads back field by field. */
  lemma VectorFields(v: VectorIndex, bytes: Bytes)
    requires StorableVector(v) && bytes == EncodeVector(v)
    ensures |bytes| == VECTOR_HEADER + 4 * |v.keys| && WordAt(bytes, 0) == |v.keys| && bytes[4..12] == v.unread
    ensures forall i :: 0 <= i < |v.keys| ==> WordAt(bytes, VECTOR_HEADER + 4 * i) == v.keys[i]
  {
    WordIn(bytes, 0, |v.keys|);
    forall i | 0 <= i < |v.keys|
      ensures WordAt(bytes, VECTOR_HEADER + 4 * i) == v.keys[i]
    {
      KeyBytesAt(v.keys, i);
      var at := VECTOR_HEADER + 4 * i;
      assert bytes[12..] == KeyBytes(v.keys);
      assert bytes[at..at + 4] == bytes[12..][4 * i..4 * i + 4];
      WordIn(bytes, at, v.keys[i]);
    }
  }

  lemma VectorInjective(a: VectorIndex, b: VectorIndex)
    requires StorableVector(a) && StorableVector(b) && EncodeVector(a) == EncodeVector(b)
    ensures a == b
  {
    VectorFields(a, EncodeVector(a));
    VectorFields(b, EncodeVector(a));
    forall i | 0 <= i < |a.keys|
      ensures a.keys[i] == b.keys[i]
    {
      assert WordAt(EncodeVector(a), VECTOR_HEADER + 4 * i) == a.keys[i];
    }
  }

  predicate VectorHeaderOk(bytes: Bytes) {
    |bytes| >= VECTOR_HEADER && |bytes| == VECTOR_HEADER + 4 * WordAt(bytes, 0)
  }

  ghost predicate NoVector(bytes: Bytes) {
    forall v :: StorableVector(v) ==> EncodeVector(v) != bytes
  }

  lemma BadVectorHeader(bytes: Bytes)
    requires !VectorHeaderOk(bytes)
    ensures NoVector(bytes)
  {
    forall v | StorableVector(v)
      ensures EncodeVector(v) != bytes
    {
      VectorFields(v, EncodeVector(v));
    }
  }

  /** The keys read are those of any vector that the stream could be. */
  lemma VectorRead(bytes: Bytes, keys: seq<nat>)
    requires VectorHeaderOk(bytes) && WordAt(bytes, 0) == |keys|
    requires forall i :: 0 <= i < |keys| ==> keys[i] == WordAt(bytes, VECTOR_HEADER + 4 * i)
    ensures var v := VectorIndex(bytes[4..12], keys);
            if Distinct(keys) then StorableVector(v) && EncodeVector(v) == bytes else NoVector(bytes)
    ensures forall v :: StorableVector(v) && EncodeVector(v) == bytes ==> v.keys == keys
  {
    hide EncodeVector, WordAt, Distinct;
    forall v | StorableVector(v) && EncodeVector(v) == bytes
      ensures v.keys == keys
    {
      VectorFields(v, bytes);
    }
    if Distinct(keys) {
      VectorRebuilt(bytes, keys);
    }
  }

  /** Accepts exactly the encodings of vectors with distinct keys, and returns the keys. */
  method ParseVectorIndex(bytes: Bytes) returns (r: Result<seq<nat>, IndexError>)
    ensures forall v :: StorableVector(v) && EncodeVector(v) == bytes ==> r == Ok(v.keys)
    ensures r.Ok? ==> exists v :: StorableVector(v) && EncodeVector(v) == bytes && r.value == v.keys
  {
    hide EncodeVector, StorableVector, Distinct, WordAt;
    if !VectorHeaderOk(bytes) {
      BadVectorHeader(bytes);
    }
    if |bytes| < VECTOR_HEADER {
      return Err(Truncated);
    }
    var count := WordAt(bytes, 0);
    var expected := count * 4 + VECTOR_HEADER;
    if |bytes| != expected {
      return Err(BadLength);
    }
    var keys: seq<nat> := [];
    var offset := VECTOR_HEADER;
    while offset < expected
      invariant VECTOR_HEADER <= offset <= expected && offset == VECTOR_HEADER + 4 * |keys|
      invariant forall i :: 0 <= i < |keys| ==> keys[i] == WordAt(bytes, VECTOR_HEADER + 4 * i)
    {
      keys := keys + [WordAt(bytes, offset)];
      offset := offset + 4;
    }
    DistinctCount(keys);
    VectorRead(bytes, keys);
    if |Elements(keys)| != |keys| {
      return Err(RepeatedKey);
    }
    r := Ok(keys);
  }

  lemma VectorRebuilt(bytes: Bytes, keys: seq<nat>)
    requires |bytes| == VECTOR_HEADER + 4 * |keys| && WordAt(bytes, 0) == |keys| && Distinct(keys)
    requires forall i :: 0 <= i < |keys| ==> keys[i] == WordAt(bytes, VECTOR_HEADER + 4 * i)
    ensures StorableVector(VectorIndex(bytes[4..12], keys)) && EncodeVector(VectorIndex(bytes[4..12], keys)) == bytes
  {
    WordBack(bytes, 0);
    KeysRebuilt(bytes, keys);
    assert bytes == bytes[..4] + bytes[4..12] + bytes[12..];
  }

  lemma {:induction false} KeysRebuilt(bytes: Bytes, keys: seq<nat>)
    requires VECTOR_HEADER + 4 * |keys| <= |bytes|
    requires forall i :: 0 <= i < |keys| ==> keys[i] == WordAt(bytes, VECTOR_HEADER + 4 * i)
    ensures KeyBytes(keys) == bytes[VECTOR_HEADER..VECTOR_HEADER + 4 * |keys|]
    decreases |keys|
  {
    if keys != [] {
      var n := |keys| - 1;
      KeysRebuilt(bytes, keys[..n]);
      WordBack(bytes, VECTOR_HEADER + 4 * n);
    }
  }

  // ---------- sets

  datatype SetEntry = SetEntry(key: nat, unique: Bytes)

  /** Ten bytes that are not looked at, the size of unique keys, and the entries. */
  datatype SetIndex = SetIndex(unread: Bytes, keySize: nat, entries: seq<SetEntry>)

  function KeysOf(entries: seq<SetEntry>): seq<nat> {
    seq(|entries|, i requires 0 <= i < |entries| => entries[i].key)
  }

  function UniquesOf(entries: seq<SetEntry>): seq<Bytes> {
    seq(|entries|, i requires 0 <= i < |entries| => entries[i].unique)
  }

  predicate EntrySized(e: SetEntry, keySize: nat) {
    e.key < WORD_LIMIT && |e.unique| == keySize
  }

  predicate StorableSet(s: SetIndex) {
    && |s.unread| == 10 && s.keySize in {16, 32} && |s.entries| < WORD_LIMIT
    && (forall i :: 0 <= i < |s.entries| ==> EntrySized(s.entries[i], s.keySize))
    && Distinct(KeysOf(s.entries)) && Distinct(UniquesOf(s.entries))
  }

  /** Local key, a reference count of one, and the unique key. */
  function EntryBytes(e: SetEntry): Bytes {
    Word(e.key) + Word(1) + e.unique
  }

  function EntriesBytes(entries: seq<SetEntry>): Bytes {
    if entries == [] then [] else EntriesBytes(entries[..|entries| - 1]) + EntryBytes(entries[|entries| - 1])
  }

  function EncodeSet(s: SetIndex): Bytes
    requires s.keySize < 256
  {
    Word(|s.entries|) + s.unread + [s.keySize] + EntriesBytes(s.entries)
  }

  lemma {:induction false} EntriesSize(entries: seq<SetEntry>, keySize: nat)
    requires forall i :: 0 <= i < |entries| ==> EntrySized(entries[i], keySize)
    ensures |EntriesBytes(entries)| == |entries| * (8 + keySize)
  {
    if entries != [] {
      EntriesSize(entries[..|entries| - 1], keySize);
      OneMore(|entries| - 1, 8 + keySize);
    }
  }

  lemma {:induction false} EntryBytesAt(entries: seq<SetEntry>, keySize: nat, i: nat)
    requires i < |entries| && forall k :: 0 <= k < |entries| ==> EntrySized(entries[k], keySize)
    ensures i * (8 + keySize) + 8 + keySize <= |EntriesBytes(entries)|
    ensures EntriesBytes(entries)[i * (8 + keySize)..i * (8 + keySize) + 8 + keySize] == EntryBytes(entries[i])
    decreases |entries|
  {
    hide EntryBytes;
    var n, unit := |entries| - 1, 8 + keySize;
    var front := EntriesBytes(entries[..n]);
    EntriesSize(entries[..n], keySize);
    EntryBytesSize(entries[n], keySize);
    if i < n {
      EntryBytesAt(entries[..n], keySize, i);
      assert (front + EntryBytes(entries[n]))[i * unit..i * unit + unit] == front[i * unit..i * unit + unit];
    }
  }

  lemma EntryBytesSize(e: SetEntry, keySize: nat)
    requires EntrySized(e, keySize)
    ensures |EntryBytes(e)| == 8 + keySize
  {
  }

  /** The entry that stands at `offset`, whatever its reference count. */
  function EntryAt(bytes: Bytes, offset: nat, keySize: nat): SetEntry
    requires offset + 8 + keySize <= |bytes|
  {
    SetEntry(WordAt(bytes, offset), bytes[offset + 8..offset + 8 + keySize])
  }

  lemma SliceOfSlice(bytes: Bytes, from: nat, to: nat, i: nat, j: nat)
    requires from <= to <= |bytes| && i <= j <= to - from
    ensures bytes[from..to][i..j] == bytes[from + i..from + j]
  {
    var inner, outer := bytes[from..to], bytes[from + i..from + j];
    forall k | 0 <= k < j - i
      ensures inner[i..j][k] == outer[k]
    {
      assert inner[i + k] == bytes[from + (i + k)];
      assert outer[k] == bytes[(from + i) + k];
    }
  }

  lemma EntryRead(bytes: Bytes, offset: nat, keySize: nat, e: SetEntry)
    requires EntrySized(e, keySize) && offset + 8 + keySize <= |bytes|
    requires bytes[offset..offset + 8 + keySize] == EntryBytes(e)
    ensures EntryAt(bytes, offset, keySize) == e && WordAt(bytes, offset + 4) == 1
  {
    hide Word, WordAt;
    var part := bytes[offset..offset + 8 + keySize];
    assert part == Word(e.key) + Word(1) + e.unique;
    assert bytes[offset..offset + 4] == part[..4] == Word(e.key);
    SliceOfSlice(bytes, offset, offset + 8 + keySize, 4, 8);
    assert part[4..8] == Word(1);
    assert bytes[offset + 8..offset + 8 + keySize] == part[8..] == e.unique;
    WordIn(bytes, offset, e.key);
    WordIn(bytes, offset + 4, 1);
  }

  lemma EntryWritten(bytes: Bytes, offset: nat, keySize: nat)
    requires offset + 8 + keySize <= |bytes| && WordAt(bytes, offset + 4) == 1
    ensures EntryBytes(EntryAt(bytes, offset, keySize)) == bytes[offset..offset + 8 + keySize]
  {
    WordBack(bytes, offset);
    WordBack(bytes, offset + 4);
    assert bytes[offset..offset + 8 + keySize]
           == bytes[offset..offset + 4] + bytes[offset + 4..offset + 8] + bytes[offset + 8..offset + 8 + keySize];
  }

  /** What is written reads back: the header, and every entry with its reference count. */
  ghost predicate ReadsAs(bytes: Bytes, s: SetIndex) {
    && |bytes| == SET_HEADER + |s.entries| * (8 + s.keySize)
    && WordAt(bytes, 0) == |s.entries| && bytes[4..14] == s.unread && bytes[14] == s.keySize
    && forall i :: 0 <= i < |s.entries| ==> ReadsEntry(bytes, s, i)
  }

  ghost predicate ReadsEntry(bytes: Bytes, s: SetIndex, i: nat)
    requires i < |s.entries|
  {
    var offset := SET_HEADER + i * (8 + s.keySize);
    && offset + 8 + s.keySize <= |bytes|
    && EntryAt(bytes, offset, s.keySize) == s.entries[i] && WordAt(bytes, offset + 4) == 1
  }

  lemma SetFields(s: SetIndex, bytes: Bytes)
    requires StorableSet(s) && bytes == EncodeSet(s)
    ensures ReadsAs(bytes, s)
  {
    hide Word, WordAt, EntriesBytes, Distinct, ReadsEntry;
    EntriesSize(s.entries, s.keySize);
    WordIn(bytes, 0, |s.entries|);
    assert bytes[4..14] == s.unread && bytes[15..] == EntriesBytes(s.entries);
    forall i | 0 <= i < |s.entries|
      ensures ReadsEntry(bytes, s, i)
    {
      EntryFields(s, bytes, i);
    }
  }

  lemma EntryFields(s: SetIndex, bytes: Bytes, i: nat)
    requires i < |s.entries| && forall k :: 0 <= k < |s.entries| ==> EntrySized(s.entries[k], s.keySize)
    requires |bytes| >= SET_HEADER && bytes[15..] == EntriesBytes(s.entries)
    ensures ReadsEntry(bytes, s, i)
  {
    hide EntriesBytes, EntryBytes, EntrySized, WordAt, EntryAt;
    var start, unit := i * (8 + s.keySize), 8 + s.keySize;
    EntryBytesAt(s.entries, s.keySize, i);
    assert bytes[15..|bytes|] == bytes[15..];
    SliceOfSlice(bytes, SET_HEADER, |bytes|, start, start + unit);
    EntryRead(bytes, SET_HEADER + start, s.keySize, s.entries[i]);
  }

  lemma SetInjective(a: SetIndex, b: SetIndex)
    requires StorableSet(a) && StorableSet(b) && EncodeSet(a) == EncodeSet(b)
    ensures a == b
  {
    hide EncodeSet, EntryAt, WordAt, EntriesBytes, Distinct;
    SetFields(a, EncodeSet(a));
    SetFields(b, EncodeSet(a));
    forall i | 0 <= i < |a.entries|
      ensures a.entries[i] == b.entries[i]
    {
      assert ReadsEntry(EncodeSet(a), a, i) && ReadsEntry(EncodeSet(a), b, i);
    }
  }

  /** The entries read so far, of a stream whose header says `count` entries of `keySize`. */
  ghost predicate ReadSoFar(bytes: Bytes, keySize: nat, entries: seq<SetEntry>) {
    && SET_HEADER + |entries| * (8 + keySize) <= |bytes|
    && EntriesBytes(entries) == bytes[SET_HEADER..SET_HEADER + |entries| * (8 + keySize)]
    && (forall i :: 0 <= i < |entries| ==> EntrySized(entries[i], keySize))
    && Distinct(UniquesOf(entries))
  }

  lemma NextEntry(bytes: Bytes, keySize: nat, entries: seq<SetEntry>, offset: nat)
    requires ReadSoFar(bytes, keySize, entries) && offset == SET_HEADER + |entries| * (8 + keySize)
    requires offset + 8 + keySize <= |bytes| && WordAt(bytes, offset + 4) == 1
    requires bytes[offset + 8..offset + 8 + keySize] !in UniquesOf(entries)
    ensures ReadSoFar(bytes, keySize, entries + [EntryAt(bytes, offset, keySize)])
  {
    hide EntryBytes, EntriesBytes, Word, WordAt, UniquesOf, Distinct;
    var e := EntryAt(bytes, offset, keySize);
    EntryWritten(bytes, offset, keySize);
    OneMore(|entries|, 8 + keySize);
    OneMoreEntry(entries, e);
    DistinctExtends(UniquesOf(entries), e.unique);
    Adjacent(bytes, SET_HEADER, offset, offset + 8 + keySize);
  }

  lemma OneMoreEntry(entries: seq<SetEntry>, e: SetEntry)
    ensures EntriesBytes(entries + [e]) == EntriesBytes(entries) + EntryBytes(e)
    ensures UniquesOf(entries + [e]) == UniquesOf(entries) + [e.unique]
  {
    hide EntryBytes;
    assert (entries + [e])[..|entries|] == entries;
  }

  lemma Adjacent(bytes: Bytes, a: nat, b: nat, c: nat)
    requires a <= b <= c <= |bytes|
    ensures bytes[a..b] + bytes[b..c] == bytes[a..c]
  {
  }

  /** Every set that the stream could be begins with these entries. */
  ghost predicate AllBegin(bytes: Bytes, entries: seq<SetEntry>) {
    forall s :: StorableSet(s) && EncodeSet(s) == bytes ==> entries <= s.entries
  }

  ghost predicate NoSet(bytes: Bytes) {
    forall s :: StorableSet(s) ==> EncodeSet(s) != bytes
  }

  predicate HeaderOk(bytes: Bytes) {
    && |bytes| >= SET_HEADER && bytes[14] in {16, 32}
    && |bytes| == SET_HEADER + WordAt(bytes, 0) * (8 + bytes[14] as int)
  }

  lemma BadHeader(bytes: Bytes)
    requires !HeaderOk(bytes)
    ensures NoSet(bytes)
  {
    forall s | StorableSet(s)
      ensures EncodeSet(s) != bytes
    {
      SetFields(s, EncodeSet(s));
    }
  }

  lemma NothingRead(bytes: Bytes, keySize: nat)
    requires |bytes| >= SET_HEADER
    ensures ReadSoFar(bytes, keySize, []) && AllBegin(bytes, [])
  {
  }

  lemma NextOfSet(s: SetIndex, entries: seq<SetEntry>)
    requires StorableSet(s) && entries <= s.entries && |entries| < |s.entries|
    ensures var bytes, offset := EncodeSet(s), SET_HEADER + |entries| * (8 + s.keySize);
      && offset + 8 + s.keySize <= |bytes| && WordAt(bytes, offset + 4) == 1
      && entries + [EntryAt(bytes, offset, s.keySize)] <= s.entries
      && bytes[offset + 8..offset + 8 + s.keySize] !in UniquesOf(entries)
  {
    SetFields(s, EncodeSet(s));
    hide EncodeSet, WordAt;
    assert ReadsEntry(EncodeSet(s), s, |entries|);
    var uniques := UniquesOf(s.entries);
    assert uniques[|entries|] == s.entries[|entries|].unique;
    forall i | 0 <= i < |entries|
      ensures UniquesOf(entries)[i] != uniques[|entries|]
    {
      assert UniquesOf(entries)[i] == uniques[i];
    }
  }

  /** One round of the loop: a good entry is taken, a bad one rules out every set. */
  lemma TakeEntry(bytes: Bytes, entries: seq<SetEntry>)
    requires HeaderOk(bytes) && |entries| < WordAt(bytes, 0)
    requires ReadSoFar(bytes, bytes[14], entries) && AllBegin(bytes, entries)
    ensures var keySize := bytes[14]; var offset := SET_HEADER + |entries| * (8 + keySize);
      && offset + 8 + keySize <= |bytes|
      && if WordAt(bytes, offset + 4) == 1 && bytes[offset + 8..offset + 8 + keySize] !in UniquesOf(entries)
         then var more := entries + [EntryAt(bytes, offset, keySize)];
              ReadSoFar(bytes, keySize, more) && AllBegin(bytes, more)
         else NoSet(bytes)
  {
    hide EncodeSet, WordAt, EntryAt, EntriesBytes, UniquesOf, ReadSoFar, ReadsEntry;
    var keySize: nat := bytes[14];
    var offset := SET_HEADER + |entries| * (8 + keySize);
    ProductOrdered(|entries| + 1, WordAt(bytes, 0), 8 + keySize);
    OneMore(|entries|, 8 + keySize);
    forall s | StorableSet(s) && EncodeSet(s) == bytes
      ensures WordAt(bytes, offset + 4) == 1 && entries + [EntryAt(bytes, offset, keySize)] <= s.entries
      ensures bytes[offset + 8..offset + 8 + keySize] !in UniquesOf(entries)
    {
      SetFields(s, bytes);
      NextOfSet(s, entries);
    }
    if WordAt(bytes, offset + 4) == 1 && bytes[offset + 8..offset + 8 + keySize] !in UniquesOf(entries) {
      NextEntry(bytes, keySize, entries, offset);
    }
  }

  lemma EncodeSetIs(s: SetIndex, count: Bytes, entries: Bytes)
    requires s.keySize < 256 && |s.entries| < 0x1_0000_0000
    requires count == Word(|s.entries|) && entries == EntriesBytes(s.entries)
    ensures EncodeSet(s) == count + s.unread + [s.keySize] + entries
  {
    hide EntriesBytes, Word;
  }

  lemma AllTaken(bytes: Bytes, entries: seq<SetEntry>)
    requires HeaderOk(bytes) && |entries| == WordAt(bytes, 0)
    requires ReadSoFar(bytes, bytes[14], entries) && AllBegin(bytes, entries)
    ensures var s := SetIndex(bytes[4..14], bytes[14], entries);
            if Distinct(KeysOf(entries)) then StorableSet(s) && EncodeSet(s) == bytes else NoSet(bytes)
    ensures forall s :: StorableSet(s) && EncodeSet(s) == bytes ==> s.entries == entries
  {
    hide EntriesBytes, Word, WordAt, EncodeSet;
    var found := SetIndex(bytes[4..14], bytes[14], entries);
    WordBack(bytes, 0);
    assert bytes[15..] == bytes[15..|bytes|];
    assert bytes == bytes[..4] + bytes[4..14] + [bytes[14]] + bytes[15..];
    EncodeSetIs(found, bytes[..4], bytes[15..]);
    forall s | StorableSet(s) && EncodeSet(s) == bytes
      ensures s.entries == entries
    {
      SetFields(s, bytes);
    }
  }

  /** Accepts exactly the encodings of sets whose local and unique keys are distinct, and returns
      the local keys. */
  method ParseSetIndex(bytes: Bytes) returns (r: Result<seq<nat>, IndexError>)
    ensures forall s :: StorableSet(s) && EncodeSet(s) == bytes ==> r == Ok(KeysOf(s.entries))
    ensures r.Ok? ==> exists s :: StorableSet(s) && EncodeSet(s) == bytes && r.value == KeysOf(s.entries)
  {
    hide EncodeSet, WordAt, EntriesBytes, Distinct, ReadSoFar, AllBegin, StorableSet;
    if !HeaderOk(bytes) {
      BadHeader(bytes);
    }
    if |bytes| < SET_HEADER {
      return Err(Truncated);
    }
    var count: nat, keySize: nat := WordAt(bytes, 0), bytes[14];
    if keySize !in {16, 32} {
      return Err(BadKeySize);
    }
    if |bytes| != SET_HEADER + count * (8 + keySize) {
      return Err(BadLength);
    }
    var keys: seq<nat>, uniques: set<Bytes> := [], {};
    ghost var entries: seq<SetEntry> := [];
    NothingRead(bytes, keySize);
    for index := 0 to count
      invariant |entries| == index && keys == KeysOf(entries)
      invariant forall u :: u in uniques <==> u in UniquesOf(entries)
      invariant ReadSoFar(bytes, keySize, entries) && AllBegin(bytes, entries)
    {
      TakeEntry(bytes, entries);
      var offset := SET_HEADER + index * (8 + keySize);
      var key, unique := WordAt(bytes, offset), bytes[offset + 8..offset + 8 + keySize];
      if WordAt(bytes, offset + 4) != 1 {
        return Err(BadReferenceCount);
      }
      if unique in uniques {
        return Err(RepeatedUnique);
      }
      uniques := uniques + {unique};
      keys := keys + [key];
      assert UniquesOf(entries + [SetEntry(key, unique)]) == UniquesOf(entries) + [unique];
      entries := entries + [SetEntry(key, unique)];
    }
    AllTaken(bytes, entries);
    DistinctCount(keys);
    if |Elements(keys)| != |keys| {
      return Err(RepeatedKey);
    }
    r := Ok(keys);
  }

  // ---------- keys and child paths

  lemma {:induction false} HexInjective(a: nat, b: nat)
    requires Ownership.Hex(a) == Ownership.Hex(b)
    ensures a == b
  {
    HexSplits(a);
    HexSplits(b);
    DigitInjective(a % 16, b % 16);
    hide Ownership.Hex, Ownership.HexDigit;
    if a >= 16 && b >= 16 {
      HexInjective(a / 16, b / 16);
    }
  }

  lemma DigitInjective(d: nat, e: nat)
    requires d < 16 && e < 16 && Ownership.HexDigit(d) == Ownership.HexDigit(e)
    ensures d == e
  {
  }

  lemma HexSplits(n: nat)
    ensures var text := Ownership.Hex(n);
      && text != [] && text[|text| - 1] == Ownership.HexDigit(n % 16)
      && (if n < 16 then |text| == 1 else text[..|text| - 1] == Ownership.Hex(n / 16) && |text| >= 2)
  {
    hide Ownership.HexDigit;
    if n >= 16 {
      assert Ownership.Hex(n / 16) != [];
    }
  }

  /** What hexadecimal digits stand for, the letters in lower case. */
  function HexValue(text: string): Option<nat> {
    if text == [] then Some(0)
    else
      var before, c := HexValue(text[..|text| - 1]), text[|text| - 1];
      if before.None? then None
      else if '0' <= c <= '9' then Some(16 * before.value + (c as int - '0' as int))
      else if 'a' <= c <= 'f' then Some(16 * before.value + 10 + (c as int - 'a' as int))
      else None
  }

  /** The name of a child has its key in hexadecimal, without leading zeros. */
  lemma {:induction false} HexReadsBack(n: nat)
    ensures var text := Ownership.Hex(n);
      text != [] && HexValue(text) == Some(n) && (|text| > 1 ==> text[0] != '0')
    decreases n
  {
    HexSplits(n);
    hide Ownership.Hex;
    var text := Ownership.Hex(n);
    if n < 16 {
      assert text[..|text| - 1] == [];
    } else {
      HexReadsBack(n / 16);
      NotZeroDigit(n / 16);
    }
  }

  lemma NotZeroDigit(n: nat)
    requires n > 0
    ensures n < 16 ==> Ownership.Hex(n)[0] != '0'
  {
  }

  lemma ChildNameInjective(name: string, a: Option<nat>, b: Option<nat>)
    requires Ownership.ChildName(name, a) == Ownership.ChildName(name, b)
    ensures a == b
  {
    hide Ownership.Hex;
    if a.Some? && b.Some? {
      var first, second := Ownership.Hex(a.value), Ownership.Hex(b.value);
      assert (name + "{" + first + "}")[|name| + 1..|name| + 1 + |first|] == first;
      assert (name + "{" + second + "}")[|name| + 1..|name| + 1 + |second|] == second;
      HexInjective(a.value, b.value);
    }
  }

  /** Different keys name different children. */
  lemma KeysNameDistinctChildren(owner: Ownership.Path, name: string, keys: seq<Option<nat>>)
    requires Distinct(keys)
    ensures Distinct(Ownership.ChildPaths(owner, name, keys))
  {
    var paths := Ownership.ChildPaths(owner, name, keys);
    forall i, j | 0 <= i < j < |paths|
      ensures paths[i] != paths[j]
    {
      if paths[i] == paths[j] {
        assert paths[i][|owner|] == Ownership.ChildName(name, keys[i]);
        assert paths[j][|owner|] == Ownership.ChildName(name, keys[j]);
        ChildNameInjective(name, keys[i], keys[j]);
      }
    }
  }

  // ---------- from stored property to targets

  datatype Format = Single | VectorOf | SetOf

  function Keyed(keys: seq<nat>): seq<Option<nat>> {
    seq(|keys|, i requires 0 <= i < |keys| => Some(keys[i]))
  }

  /** The keys that a good index stream holds; a single reference has the one key `None`. */
  ghost predicate AreKeys(format: Format, index: Option<Bytes>, keys: seq<Option<nat>>) {
    match format
    case Single => keys == [None]
    case VectorOf =>
      index.Some? && exists v :: StorableVector(v) && EncodeVector(v) == index.value && keys == Keyed(v.keys)
    case SetOf =>
      index.Some? && exists s :: StorableSet(s) && EncodeSet(s) == index.value && keys == Keyed(KeysOf(s.entries))
  }

  /** The index stream holds a vector or a set, as the format says; a single reference needs none. */
  ghost predicate IndexAccepted(format: Format, index: Option<Bytes>) {
    exists keys :: AreKeys(format, index, keys)
  }

  /** An index stream holds one list of keys, and they are distinct. */
  lemma KeysAreUnique(format: Format, index: Option<Bytes>, a: seq<Option<nat>>, b: seq<Option<nat>>)
    requires AreKeys(format, index, a) && AreKeys(format, index, b)
    ensures a == b && Distinct(a)
  {
    hide EncodeVector, EncodeSet;
    match format
    case Single =>
    case VectorOf =>
      var v :| StorableVector(v) && EncodeVector(v) == index.value && a == Keyed(v.keys);
      var w :| StorableVector(w) && EncodeVector(w) == index.value && b == Keyed(w.keys);
      VectorInjective(v, w);
    case SetOf =>
      var s :| StorableSet(s) && EncodeSet(s) == index.value && a == Keyed(KeysOf(s.entries));
      var t :| StorableSet(t) && EncodeSet(t) == index.value && b == Keyed(KeysOf(t.entries));
      SetInjective(s, t);
  }

  method ReadKeys(format: Format, index: Option<Bytes>) returns (keys: Option<seq<Option<nat>>>)
    ensures keys.Some? <==> IndexAccepted(format, index)
    ensures keys.Some? ==> AreKeys(format, index, keys.value) && Distinct(keys.value)
  {
    hide StorableVector, EncodeVector, EncodeSet, Keyed, Distinct;
    if format.Single? {
      OneKey();
      assert AreKeys(format, index, [None]);
      return Some([None]);
    }
    if index.None? {
      return None;
    }
    var parsed;
    if format.VectorOf? {
      parsed := ParseVectorIndex(index.value);
    } else {
      parsed := ParseSetIndex(index.value);
    }
    if parsed.Err? {
      return None;
    }
    keys := Some(Keyed(parsed.value));
    KeysAreUnique(format, index, keys.value, keys.value);
  }

  lemma OneKey()
    ensures Distinct<Option<nat>>([None])
  {
  }

  /** Whatever its index stream holds, resolving a stored reference never meets a target twice: its
      targets are the children named by the keys, and it has no findings exactly when its name and
      index are good and all its targets exist. */
  method ResolveStored(
      owner: Ownership.Path, pid: nat, name: Option<string>, format: Format, index: Option<Bytes>,
      paths: set<Ownership.Path>)
    returns (list: Option<seq<Ownership.Path>>, findings: nat, repeats: nat)
    ensures repeats == 0
    ensures list.Some? <==> name.Some? && Ownership.SafeName(name.value) && IndexAccepted(format, index)
    ensures list.Some? ==> Distinct(list.value) && forall keys :: AreKeys(format, index, keys) ==>
              list.value == Ownership.ChildPaths(owner, name.value, keys)
    ensures findings == 0 <==> list.Some? && forall target :: target in list.value ==> target in paths
  {
    hide AreKeys, IndexAccepted;
    var keys := ReadKeys(format, index);
    if name.Some? && keys.Some? {
      KeysNameDistinctChildren(owner, name.value, keys.value);
    }
    list, findings, repeats := Ownership.ResolveOne(owner, Ownership.Reference(pid, name, keys), paths);
    forall other | keys.Some? && AreKeys(format, index, other)
      ensures other == keys.value
    {
      KeysAreUnique(format, index, keys.value, other);
    }
  }
}
