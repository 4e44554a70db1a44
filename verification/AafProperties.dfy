/** The AAF stored-property stream: a header, a table of (PID, format, size) entries and the
    payloads in order. The parser accepts exactly the encodings of property lists. */
module AafProperties {
  import opened Wrappers
  import opened Basics

  const BYTE_ORDER: byte := 0x4c
  const PROPERTY_VERSION: byte := 32
  const PROPERTY_FORMATS: set<nat> :=
    {0x02, 0x03, 0x12, 0x1a, 0x22, 0x32, 0x3a, 0x40, 0x42, 0x82, 0x86, 0xd2, 0xda}

  datatype Property = Property(pid: nat, format: nat, data: Bytes)

  datatype Entry = Entry(pid: nat, format: nat, size: nat)

  datatype PropertyError =
    | TruncatedHeader | ByteOrder | Version | TruncatedTable | DuplicatePid | UnknownFormat | PayloadLength

  // ---------- the stored form

  function Word(value: nat): Bytes
    requires value < 0x1_0000
  {
    [value % 256, value / 256]
  }

  function WordAt(bytes: Bytes, offset: nat): (r: nat)
    requires offset + 2 <= |bytes|
    ensures r < 0x1_0000
  {
    bytes[offset] + 256 * (bytes[offset + 1] as int)
  }

  predicate EntryFits(e: Entry) {
    e.pid < 0x1_0000 && e.format < 0x1_0000 && e.size < 0x1_0000
  }

  function EncodeEntry(e: Entry): (r: Bytes)
    requires EntryFits(e)
    ensures |r| == 6
  {
    Word(e.pid) + Word(e.format) + Word(e.size)
  }

  function DecodeEntry(b: Bytes): (e: Entry)
    requires |b| == 6
    ensures EntryFits(e)
  {
    Entry(WordAt(b, 0), WordAt(b, 2), WordAt(b, 4))
  }

  lemma {:induction false} EntryRoundTrip(e: Entry)
    requires EntryFits(e)
    ensures DecodeEntry(EncodeEntry(e)) == e
  {
  }

  lemma {:induction false} EntryBack(b: Bytes)
    requires |b| == 6
    ensures EncodeEntry(DecodeEntry(b)) == b
  {
    assert b == [b[0], b[1]] + [b[2], b[3]] + [b[4], b[5]];
  }

  function EntryAt(bytes: Bytes, offset: nat): Entry
    requires offset + 6 <= |bytes|
  {
    DecodeEntry(bytes[offset..offset + 6])
  }

  function Describe(p: Property): Entry {
    Entry(p.pid, p.format, |p.data|)
  }

  predicate Sized(properties: seq<Property>) {
    forall i :: 0 <= i < |properties| ==>
      EntryFits(Describe(properties[i])) && properties[i].format in PROPERTY_FORMATS
  }

  function Pids(entries: seq<Entry>): seq<nat> {
    seq(|entries|, i requires 0 <= i < |entries| => entries[i].pid)
  }

  predicate Storable(properties: seq<Property>) {
    |properties| < 0x1_0000 && Sized(properties) && Distinct(Pids(Descriptions(properties)))
  }

  function Table(properties: seq<Property>): (r: Bytes)
    requires Sized(properties)
    ensures |r| == 6 * |properties|
  {
    if properties == [] then []
    else Table(properties[..|properties| - 1]) + EncodeEntry(Describe(properties[|properties| - 1]))
  }

  function Payload(properties: seq<Property>): Bytes {
    if properties == [] then []
    else Payload(properties[..|properties| - 1]) + properties[|properties| - 1].data
  }

  function Encode(properties: seq<Property>): Bytes
    requires Storable(properties)
  {
    [BYTE_ORDER, PROPERTY_VERSION] + Word(|properties|) + Table(properties) + Payload(properties)
  }

  // ---------- reading back what was stored

  lemma {:induction false} TableEntries(properties: seq<Property>, i: nat)
    requires Sized(properties) && i < |properties|
    ensures Table(properties)[6 * i..6 * i + 6] == EncodeEntry(Describe(properties[i]))
    decreases |properties|
  {
    hide EncodeEntry;
    var n := |properties| - 1;
    var front := Table(properties[..n]);
    if i < n {
      TableEntries(properties[..n], i);
      assert Table(properties)[6 * i..6 * i + 6] == front[6 * i..6 * i + 6];
    } else {
      assert Table(properties)[6 * n..6 * n + 6] == EncodeEntry(Describe(properties[n]));
    }
  }

  /** The header and table of an encoding, as the parser reads them. */
  lemma {:induction false} EncodedHeader(properties: seq<Property>)
    requires Storable(properties)
    ensures var bytes := Encode(properties);
      && |bytes| == 4 + 6 * |properties| + |Payload(properties)|
      && bytes[0] == BYTE_ORDER && bytes[1] == PROPERTY_VERSION && WordAt(bytes, 2) == |properties|
      && bytes[4 + 6 * |properties|..] == Payload(properties)
      && forall i :: 0 <= i < |properties| ==> EntryAt(bytes, 4 + 6 * i) == Describe(properties[i])
  {
    var bytes := Encode(properties);
    var table := Table(properties);
    assert bytes[4..4 + |table|] == table;
    forall i | 0 <= i < |properties|
      ensures EntryAt(bytes, 4 + 6 * i) == Describe(properties[i])
    {
      TableEntries(properties, i);
      assert bytes[4 + 6 * i..4 + 6 * i + 6] == table[6 * i..6 * i + 6];
      EntryRoundTrip(Describe(properties[i]));
    }
  }

  function TotalSize(entries: seq<Entry>): nat {
    if entries == [] then 0 else TotalSize(entries[..|entries| - 1]) + entries[|entries| - 1].size
  }

  function Descriptions(properties: seq<Property>): seq<Entry> {
    seq(|properties|, i requires 0 <= i < |properties| => Describe(properties[i]))
  }

  lemma {:induction false} PayloadSize(properties: seq<Property>)
    ensures |Payload(properties)| == TotalSize(Descriptions(properties))
    decreases |properties|
  {
    if properties != [] {
      var n := |properties| - 1;
      PayloadSize(properties[..n]);
      assert Descriptions(properties)[..n] == Descriptions(properties[..n]);
    }
  }

  function EntriesFrom(bytes: Bytes, count: nat): seq<Entry>
    requires 4 + 6 * count <= |bytes|
  {
    seq(count, i requires 0 <= i < count => EntryAt(bytes, 4 + 6 * i))
  }

  /** Two encodings of the same bytes describe the same properties. */
  lemma {:induction false} EncodedEntries(bytes: Bytes, properties: seq<Property>)
    requires Storable(properties) && bytes == Encode(properties)
    ensures |bytes| >= 4 && bytes[0] == BYTE_ORDER && bytes[1] == PROPERTY_VERSION
    ensures WordAt(bytes, 2) == |properties| && 4 + 6 * |properties| <= |bytes|
    ensures EntriesFrom(bytes, |properties|) == Descriptions(properties)
    ensures |bytes| == 4 + 6 * |properties| + TotalSize(EntriesFrom(bytes, |properties|))
    ensures bytes[4 + 6 * |properties|..] == Payload(properties)
  {
    EncodedHeader(properties);
    PayloadSize(properties);
  }

  // ---------- splitting the payload

  lemma {:induction false} PayloadUnique(a: seq<Property>, b: seq<Property>)
    requires Descriptions(a) == Descriptions(b) && Payload(a) == Payload(b)
    ensures a == b
    decreases |a|
  {
    hide Payload, Descriptions;
    DescribedAlike(a, b);
    if a != [] {
      var front, others := a[..|a| - 1], b[..|a| - 1];
      LastProperty(a);
      LastProperty(b);
      PayloadSize(front);
      PayloadSize(others);
      CutAlike(Payload(front), a[|a| - 1].data, Payload(others), b[|b| - 1].data);
      PayloadUnique(front, others);
      assert a == front + [a[|a| - 1]] && b == others + [b[|b| - 1]];
    }
  }

  lemma CutAlike(a: Bytes, c: Bytes, b: Bytes, d: Bytes)
    requires a + c == b + d && |a| == |b|
    ensures a == b && c == d
  {
    assert (a + c)[..|a|] == a && (b + d)[..|a|] == b;
    assert (a + c)[|a|..] == c && (b + d)[|a|..] == d;
  }

  lemma DescribedAlike(a: seq<Property>, b: seq<Property>)
    requires Descriptions(a) == Descriptions(b)
    ensures |a| == |b|
    ensures a != [] ==> Descriptions(a[..|a| - 1]) == Descriptions(b[..|a| - 1])
    ensures a != [] ==> Describe(a[|a| - 1]) == Describe(b[|a| - 1])
  {
    assert |Descriptions(a)| == |Descriptions(b)|;
    if a != [] {
      var n := |a| - 1;
      assert Descriptions(a)[n] == Descriptions(b)[n];
      assert Descriptions(a[..n]) == Descriptions(a)[..n] == Descriptions(b[..n]);
    }
  }

  lemma LastProperty(properties: seq<Property>)
    requires properties != []
    ensures Payload(properties) == Payload(properties[..|properties| - 1]) + properties[|properties| - 1].data
  {
  }

  /** No stream is the encoding of two property lists. */
  lemma {:induction false} EncodeInjective(a: seq<Property>, b: seq<Property>)
    requires Storable(a) && Storable(b) && Encode(a) == Encode(b)
    ensures a == b
  {
    EncodedEntries(Encode(a), a);
    EncodedEntries(Encode(b), b);
    hide Encode, Storable;
    PayloadUnique(a, b);
  }

  /** A stream rebuilt from its own entries and payload is that stream. */
  lemma {:induction false} TableFromEntries(bytes: Bytes, properties: seq<Property>)
    requires Sized(properties) && 4 + 6 * |properties| <= |bytes|
    requires forall i :: 0 <= i < |properties| ==> EntryAt(bytes, 4 + 6 * i) == Describe(properties[i])
    ensures bytes[4..4 + 6 * |properties|] == Table(properties)
    decreases |properties|
  {
    hide EncodeEntry, DecodeEntry, EntryFits;
    if properties != [] {
      var n := |properties| - 1;
      TableFromEntries(bytes, properties[..n]);
      var at := 4 + 6 * n;
      assert EntryAt(bytes, at) == Describe(properties[n]);
      EntryBack(bytes[at..at + 6]);
      assert bytes[4..at + 6] == bytes[4..at] + bytes[at..at + 6];
    }
  }

  lemma {:induction false} WordBack(bytes: Bytes, at: nat)
    requires at + 2 <= |bytes|
    ensures Word(WordAt(bytes, at)) == bytes[at..at + 2]
  {
  }

  // ---------- the parser

  /** Reads the table: distinct PIDs, known formats, and the payload bytes they declare. */
  method ReadTable(bytes: Bytes, count: nat) returns (r: Result<(seq<Entry>, nat), PropertyError>)
    requires 4 + 6 * count <= |bytes|
    ensures r.Ok? <==> TableOk(EntriesFrom(bytes, count))
    ensures r.Ok? ==> r.value == (EntriesFrom(bytes, count), TotalSize(EntriesFrom(bytes, count)))
  {
    var dataBytes := 0;
    var pids: set<nat> := {};
    var entries: seq<Entry> := [];
    for index := 0 to count
      invariant entries == EntriesFrom(bytes, count)[..index]
      invariant dataBytes == TotalSize(entries)
      invariant pids == Elements(Pids(entries))
      invariant TableOk(entries)
    {
      var entry := EntryAt(bytes, 4 + index * 6);
      assert EntriesFrom(bytes, count)[index] == entry;
      if entry.pid in pids {
        var k :| 0 <= k < index && Pids(entries)[k] == entry.pid;
        assert EntriesFrom(bytes, count)[k] == entries[k];
        assert Pids(EntriesFrom(bytes, count))[k] == Pids(EntriesFrom(bytes, count))[index];
        return Err(DuplicatePid);
      }
      pids := pids + {entry.pid};
      if entry.format !in PROPERTY_FORMATS {
        return Err(UnknownFormat);
      }
      DistinctExtends(Pids(entries), entry.pid);
      assert Pids(entries + [entry]) == Pids(entries) + [entry.pid];
      assert (entries + [entry])[..|entries|] == entries;
      dataBytes := dataBytes + entry.size;
      entries := entries + [entry];
    }
    assert entries == EntriesFrom(bytes, count);
    r := Ok((entries, dataBytes));
  }

  predicate TableOk(entries: seq<Entry>) {
    && Distinct(Pids(entries))
    && (forall i :: 0 <= i < |entries| ==> entries[i].format in PROPERTY_FORMATS)
  }

  /** Accepts exactly the encodings, and returns the list that was encoded. */
  method ParsePropertyStream(bytes: Bytes) returns (r: Result<seq<Property>, PropertyError>)
    ensures r.Ok? <==> exists properties :: Storable(properties) && bytes == Encode(properties)
    ensures r.Ok? ==> Storable(r.value) && Encode(r.value) == bytes
    ensures forall properties :: Storable(properties) && bytes == Encode(properties) ==> r == Ok(properties)
  {
    forall properties | Storable(properties) && bytes == Encode(properties)
      ensures |bytes| >= 4 && bytes[0] == BYTE_ORDER && bytes[1] == PROPERTY_VERSION
              && WordAt(bytes, 2) == |properties| && Acceptable(bytes)
    {
      EncodedAcceptable(bytes, properties);
    }
    if |bytes| < 4 {
      return Err(TruncatedHeader);
    }
    if bytes[0] != BYTE_ORDER {
      return Err(ByteOrder);
    }
    if bytes[1] != PROPERTY_VERSION {
      return Err(Version);
    }
    var count := WordAt(bytes, 2);
    var tableBytes := 4 + 6 * count;
    if |bytes| < tableBytes {
      return Err(TruncatedTable);
    }
    var table :- ReadTable(bytes, count);
    var (entries, dataBytes) := table;
    if tableBytes + dataBytes != |bytes| {
      return Err(PayloadLength);
    }
    var properties := SplitPayload(bytes, tableBytes, entries);
    Rebuilt(bytes, properties);
    forall other | Storable(other) && bytes == Encode(other)
      ensures other == properties
    {
      EncodeInjective(other, properties);
    }
    r := Ok(properties);
  }

  /** The conditions the parser checks. */
  predicate Acceptable(bytes: Bytes) {
    && |bytes| >= 4 && bytes[0] == BYTE_ORDER && bytes[1] == PROPERTY_VERSION
    && var count := WordAt(bytes, 2);
    && 4 + 6 * count <= |bytes|
    && TableOk(EntriesFrom(bytes, count))
    && 4 + 6 * count + TotalSize(EntriesFrom(bytes, count)) == |bytes|
  }

  lemma {:induction false} EncodedAcceptable(bytes: Bytes, properties: seq<Property>)
    requires Storable(properties) && bytes == Encode(properties)
    ensures Acceptable(bytes) && WordAt(bytes, 2) == |properties|
  {
    EncodedEntries(bytes, properties);
    assert EntriesFrom(bytes, |properties|) == Descriptions(properties);
  }

  method SplitPayload(bytes: Bytes, start: nat, entries: seq<Entry>) returns (properties: seq<Property>)
    requires start + TotalSize(entries) == |bytes|
    ensures Descriptions(properties) == entries
    ensures Payload(properties) == bytes[start..]
  {
    hide Payload, Descriptions, TotalSize;
    var offset := start;
    properties := [];
    NoProperties();
    for k := 0 to |entries|
      invariant offset == start + TotalSize(entries[..k])
      invariant Descriptions(properties) == entries[..k]
      invariant offset <= |bytes| && Payload(properties) == bytes[start..offset]
    {
      SizesMonotone(entries, k + 1);
      SizesNext(entries, k);
      var end := offset + entries[k].size;
      var property := Property(entries[k].pid, entries[k].format, bytes[offset..end]);
      OneMoreProperty(properties, property);
      assert entries[..k + 1] == entries[..k] + [entries[k]];
      assert bytes[start..offset] + bytes[offset..end] == bytes[start..end];
      properties := properties + [property];
      offset := end;
    }
    assert entries[..|entries|] == entries;
  }

  lemma NoProperties()
    ensures Payload([]) == [] && Descriptions([]) == [] && TotalSize([]) == 0
  {
  }

  lemma OneMoreProperty(properties: seq<Property>, p: Property)
    ensures Payload(properties + [p]) == Payload(properties) + p.data
    ensures Descriptions(properties + [p]) == Descriptions(properties) + [Describe(p)]
  {
    assert (properties + [p])[..|properties|] == properties;
  }

  lemma SizesNext(entries: seq<Entry>, k: nat)
    requires k < |entries|
    ensures TotalSize(entries[..k + 1]) == TotalSize(entries[..k]) + entries[k].size
  {
    assert entries[..k + 1][..k] == entries[..k];
  }

  lemma {:induction false} SizesMonotone(entries: seq<Entry>, k: nat)
    requires k <= |entries|
    ensures TotalSize(entries[..k]) <= TotalSize(entries)
    decreases |entries|
  {
    if k == |entries| {
      assert entries[..k] == entries;
    } else {
      assert entries[..|entries| - 1][..k] == entries[..k];
      SizesMonotone(entries[..|entries| - 1], k);
    }
  }

  lemma {:induction false} Rebuilt(bytes: Bytes, properties: seq<Property>)
    requires Acceptable(bytes)
    requires Descriptions(properties) == EntriesFrom(bytes, WordAt(bytes, 2))
    requires Payload(properties) == bytes[4 + 6 * WordAt(bytes, 2)..]
    ensures Storable(properties) && Encode(properties) == bytes
  {
    hide EntryAt, Table, Payload, TotalSize, TableOk, Word, WordAt, Sized, Describe;
    var count := WordAt(bytes, 2);
    assert |Descriptions(properties)| == count;
    forall i | 0 <= i < |properties|
      ensures EntryAt(bytes, 4 + 6 * i) == Describe(properties[i])
    {
      assert Descriptions(properties)[i] == EntriesFrom(bytes, count)[i];
    }
    SizedFromEntries(bytes, properties);
    TableFromEntries(bytes, properties);
    WordBack(bytes, 2);
    assert bytes == bytes[..2] + bytes[2..4] + bytes[4..4 + 6 * count] + bytes[4 + 6 * count..];
  }

  lemma {:induction false} SizedFromEntries(bytes: Bytes, properties: seq<Property>)
    requires Acceptable(bytes) && |properties| == WordAt(bytes, 2)
    requires forall i :: 0 <= i < |properties| ==> EntryAt(bytes, 4 + 6 * i) == Describe(properties[i])
    ensures Storable(properties)
  {
    var entries := EntriesFrom(bytes, WordAt(bytes, 2));
    assert forall i :: 0 <= i < |properties| ==> entries[i] == Describe(properties[i]);
    assert Descriptions(properties) == entries;
  }
}
