/** Subframes laid out as section 1.7.3 of ISO/IEC 14496-3 lays them out when all streams have the
    same time framing: the lengths of all streams first and then all payloads, and a payload of type
    1 that is twenty bytes longer than its length field says. The parser reads them exactly for the
    stream lists named here. */
module LatmStandard {
  import opened Wrappers
  import opened Basics
  import opened BitSyntax
  import opened EscapedValues
  import opened LatmSyntax
  import opened LatmRoundTrip

  predicate IsVariable(stream: LatmStream) {
    stream.frameLengthType == 0
  }

  /** The streams that a configuration can declare. */
  predicate Legal(stream: LatmStream) {
    IsVariable(stream) || (stream.frameLengthType == 1 && stream.fixedLength.Some?)
  }

  predicate AllLegal(streams: seq<LatmStream>) {
    forall i :: 0 <= i < |streams| ==> Legal(streams[i])
  }

  lemma {:induction false} LayersLegal(bits: Bits, version1: bool, count: nat, streams: seq<LatmStream>)
    requires AllLegal(streams) && ParseLayers(bits, version1, count, streams).Ok?
    ensures AllLegal(ParseLayers(bits, version1, count, streams).value.0)
    ensures |ParseLayers(bits, version1, count, streams).value.0| == |streams| + count
    decreases count
  {
    hide ReadFlag, ParseBoundedAsc, ParseAsc, Read;
    if count > 0 {
      var (stream, rest) := ParseLayer(bits, version1, streams).value;
      LayersLegal(rest, version1, count - 1, streams + [stream]);
    }
  }

  lemma {:induction false} ProgramsLegal(bits: Bits, version1: bool, count: nat, streams: seq<LatmStream>)
    requires AllLegal(streams) && ParsePrograms(bits, version1, count, streams).Ok?
    ensures AllLegal(ParsePrograms(bits, version1, count, streams).value.0)
    ensures |ParsePrograms(bits, version1, count, streams).value.0| >= |streams| + count
    decreases count
  {
    hide ParseLayers, Read;
    if count > 0 {
      var (layers, b1) := Read(bits, 3).value;
      LayersLegal(b1, version1, layers + 1, streams);
      var (more, b2) := ParseLayers(b1, version1, layers + 1, streams).value;
      ProgramsLegal(b2, version1, count - 1, more);
    }
  }

  /** All streams that are parsed are legal, and there is at least one. */
  lemma ParsedStreamsLegal(bits: Bits)
    requires ParseConfig(bits).Ok?
    ensures AllLegal(ParseConfig(bits).value.0.streams)
    ensures 1 <= |ParseConfig(bits).value.0.streams|
  {
    hide ParseVersion, ReadFlag, Read, ParsePrograms, ParseTrailer;
    var (version1, b1) := ParseVersion(bits).value;
    var b2 := ReadFlag(b1).value.1;
    var b3 := Read(b2, 6).value.1;
    var (programs, b4) := Read(b3, 4).value;
    ProgramsLegal(b4, version1, programs + 1, []);
  }

  function Lengths(streams: seq<LatmStream>, payloads: seq<Bits>): Bits
    requires |payloads| == |streams|
  {
    if streams == [] then []
    else (if IsVariable(streams[0]) then WriteLength(|payloads[0]| / 8) else []) + Lengths(streams[1..], payloads[1..])
  }

  function Payloads(payloads: seq<Bits>): Bits {
    if payloads == [] then [] else payloads[0] + Payloads(payloads[1..])
  }

  /** All lengths, then all payloads. */
  function StandardSubframe(streams: seq<LatmStream>, payloads: seq<Bits>, rest: Bits): Bits
    requires |payloads| == |streams|
  {
    Lengths(streams, payloads) + Payloads(payloads) + rest
  }

  predicate IsEmpty(stream: LatmStream) {
    !IsVariable(stream) && stream.fixedLength == Some(0)
  }

  /** Only streams of fixed length zero stand before a variable-length stream. */
  predicate OrderDoesNotMatter(streams: seq<LatmStream>) {
    forall i, j :: 0 <= j < i < |streams| && IsVariable(streams[i]) ==> IsEmpty(streams[j])
  }

  ghost predicate ReadsStandardOrder(streams: seq<LatmStream>) {
    forall payloads, rest :: SubframeOk(streams, payloads) ==>
      SkipSubframe(StandardSubframe(streams, payloads, rest), streams) == Ok(rest)
  }

  // ---------- where the orders agree

  lemma {:induction false} NoLengths(streams: seq<LatmStream>, payloads: seq<Bits>, rest: Bits)
    requires SubframeOk(streams, payloads) && forall i :: 0 <= i < |streams| ==> !IsVariable(streams[i])
    ensures Lengths(streams, payloads) == [] && PutSubframe(streams, payloads, rest) == Payloads(payloads) + rest
    decreases |streams|
  {
    if streams != [] {
      NoLengths(streams[1..], payloads[1..], rest);
    }
  }

  lemma {:induction false} OrdersAgree(streams: seq<LatmStream>, payloads: seq<Bits>, rest: Bits)
    requires SubframeOk(streams, payloads) && OrderDoesNotMatter(streams)
    ensures StandardSubframe(streams, payloads, rest) == PutSubframe(streams, payloads, rest)
    decreases |streams|
  {
    hide WriteLength, PutPayload, Lengths, Payloads;
    if streams == [] {
      NoLengths(streams, payloads, rest);
      assert [] + (Payloads(payloads) + rest) == [] + Payloads(payloads) + rest;
    } else if forall i :: 0 <= i < |streams| ==> !IsVariable(streams[i]) {
      NoLengths(streams, payloads, rest);
      assert [] + Payloads(payloads) + rest == Payloads(payloads) + rest;
    } else {
      var others, more := streams[1..], payloads[1..];
      assert SubframeOk(others, more);
      FrontPut(streams, payloads, rest);
      if IsVariable(streams[0]) {
        forall i | 0 <= i < |others|
          ensures !IsVariable(others[i])
        {
          assert others[i] == streams[i + 1];
        }
        NoLengths(others, more, rest);
        VariablePut(streams[0], payloads[0], Payloads(more), rest);
      } else {
        var i :| 0 <= i < |streams| && IsVariable(streams[i]);
        assert IsEmpty(streams[0]);
        OrdersAgree(others, more, rest);
        EmptyPut(streams[0], payloads[0], PutSubframe(others, more, rest));
        assert [] + Lengths(others, more) + ([] + Payloads(more)) + rest == StandardSubframe(others, more, rest);
      }
    }
  }

  lemma FrontPut(streams: seq<LatmStream>, payloads: seq<Bits>, rest: Bits)
    requires streams != [] && |payloads| == |streams|
    ensures Lengths(streams, payloads)
            == (if IsVariable(streams[0]) then WriteLength(|payloads[0]| / 8) else [])
               + Lengths(streams[1..], payloads[1..])
    ensures Payloads(payloads) == payloads[0] + Payloads(payloads[1..])
    ensures PutSubframe(streams, payloads, rest)
            == PutPayload(streams[0], payloads[0], PutSubframe(streams[1..], payloads[1..], rest))
  {
    hide WriteLength, PutPayload;
  }

  lemma VariablePut(stream: LatmStream, payload: Bits, others: Bits, rest: Bits)
    requires IsVariable(stream)
    ensures WriteLength(|payload| / 8) + [] + (payload + others) + rest == PutPayload(stream, payload, others + rest)
  {
    hide WriteLength;
    Regrouped(WriteLength(|payload| / 8), payload, others, rest);
  }

  lemma Regrouped(length: Bits, payload: Bits, others: Bits, rest: Bits)
    ensures length + [] + (payload + others) + rest == length + (payload + (others + rest))
  {
    assert length + [] == length;
    assert length + (payload + others) + rest == length + ((payload + others) + rest);
    assert (payload + others) + rest == payload + (others + rest);
  }

  lemma EmptyPut(stream: LatmStream, payload: Bits, rest: Bits)
    requires IsEmpty(stream) && PayloadOk(stream, payload)
    ensures payload == [] && PutPayload(stream, payload, rest) == rest
  {
  }

  // ---------- where they do not

  function Ones(n: nat): Bits {
    seq(n, _ => true)
  }

  function Variables(streams: seq<LatmStream>): (n: nat)
    ensures n <= |streams|
  {
    if streams == [] then 0 else (if IsVariable(streams[0]) then 1 else 0) + Variables(streams[1..])
  }

  function FixedBytes(streams: seq<LatmStream>): nat
    requires AllLegal(streams)
  {
    if streams == [] then 0
    else (if IsVariable(streams[0]) then 0 else streams[0].fixedLength.value) + FixedBytes(streams[1..])
  }

  lemma {:induction false} OnesAreMax(n: nat)
    ensures ToNat(Ones(n)) == Pow2(n) - 1
  {
    if n > 0 {
      OnesAreMax(n - 1);
      assert Ones(n)[..n - 1] == Ones(n - 1);
    }
  }

  /** No length ends in all ones. */
  lemma {:induction false} OnesHaveNoLength(m: nat)
    ensures ReadLength(Ones(8 * m)).Err?
  {
    if m > 0 {
      OnesAreMax(8);
      assert Pow2(8) == 256;
      assert Ones(8 * m)[..8] == Ones(8) && Ones(8 * m)[8..] == Ones(8 * (m - 1));
      OnesHaveNoLength(m - 1);
    }
  }

  lemma ZeroByteIsLength(rest: Bits)
    ensures ReadLength(Zeros(8) + rest) == Ok((0, rest))
  {
    ZerosHaveNoValue(Zeros(8));
    assert (Zeros(8) + rest)[..8] == Zeros(8);
  }

  /** Zero bytes and then bytes of ones. */
  function Field(zeros: nat, ones: nat): Bits {
    Zeros(8 * zeros) + Ones(8 * ones)
  }

  lemma FieldStep(zeros: nat, ones: nat)
    requires zeros > 0
    ensures Field(zeros, ones) == Zeros(8) + Field(zeros - 1, ones)
  {
  }

  lemma FieldSkip(zeros: nat, ones: nat, n: nat)
    ensures Skip(Field(zeros, ones), 8 * n)
            == if n > zeros + ones then Err(Truncated)
               else if n <= zeros then Ok(Field(zeros - n, ones)) else Ok(Field(0, ones - (n - zeros)))
  {
    if n <= zeros {
      assert Field(zeros, ones)[8 * n..] == Field(zeros - n, ones);
    } else if n <= zeros + ones {
      assert Field(zeros, ones)[8 * n..] == Field(0, ones - (n - zeros));
    }
  }

  /** Skipping the first stream's payload in such a field. */
  lemma SkipInField(stream: LatmStream, zeros: nat, ones: nat)
    requires Legal(stream)
    ensures var r := SkipPayload(Field(zeros, ones), stream);
      if IsVariable(stream) then (if zeros > 0 then r == Ok(Field(zeros - 1, ones)) else r.Err?)
      else r == Skip(Field(zeros, ones), 8 * stream.fixedLength.value)
  {
    hide ReadLength;
    if IsVariable(stream) {
      if zeros > 0 {
        FieldStep(zeros, ones);
        ZeroByteIsLength(Field(zeros - 1, ones));
      } else {
        assert Field(0, ones) == Ones(8 * ones);
        OnesHaveNoLength(ones);
      }
    }
  }

  /** With fewer zero bytes than variable-length streams some length is read among the ones. */
  lemma {:induction false} TooFewZeros(streams: seq<LatmStream>, zeros: nat, ones: nat)
    requires AllLegal(streams) && Variables(streams) > zeros
    ensures SkipSubframe(Field(zeros, ones), streams).Err?
    decreases |streams|
  {
    hide SkipPayload, Field, Skip;
    SkipInField(streams[0], zeros, ones);
    if IsVariable(streams[0]) {
      if zeros > 0 {
        TooFewZeros(streams[1..], zeros - 1, ones);
      }
    } else {
      var n := streams[0].fixedLength.value;
      FieldSkip(zeros, ones, n);
      if n <= zeros {
        TooFewZeros(streams[1..], zeros - n, ones);
      } else if n <= zeros + ones {
        TooFewZeros(streams[1..], 0, ones - (n - zeros));
      }
    }
  }

  /** Some stream of nonzero fixed length stands before a variable-length one. */
  predicate FixedFirst(streams: seq<LatmStream>) {
    exists j, i :: 0 <= j < i < |streams| && IsVariable(streams[i]) && !IsVariable(streams[j]) && !IsEmpty(streams[j])
  }

  lemma {:induction false} HasVariable(streams: seq<LatmStream>, i: nat)
    requires i < |streams| && IsVariable(streams[i])
    ensures Variables(streams) > 0
    decreases i
  {
    if i > 0 {
      HasVariable(streams[1..], i - 1);
    }
  }

  /** With as many zero bytes as variable-length streams, a fixed payload uses some up. */
  lemma {:induction false} FixedTakesLengths(streams: seq<LatmStream>, ones: nat)
    requires AllLegal(streams) && FixedFirst(streams)
    ensures SkipSubframe(Field(Variables(streams), ones), streams).Err?
    decreases |streams|
  {
    hide SkipPayload, Field, Skip;
    var j, i :| 0 <= j < i < |streams| && IsVariable(streams[i]) && !IsVariable(streams[j]) && !IsEmpty(streams[j]);
    var zeros, others := Variables(streams), streams[1..];
    HasVariable(others, i - 1);
    SkipInField(streams[0], zeros, ones);
    if j > 0 {
      assert IsVariable(others[i - 1]) && !IsVariable(others[j - 1]) && !IsEmpty(others[j - 1]);
    }
    if IsVariable(streams[0]) {
      FixedTakesLengths(others, ones);
    } else {
      var n := streams[0].fixedLength.value;
      FieldSkip(zeros, ones, n);
      if n == 0 {
        FixedTakesLengths(others, ones);
      } else if n <= zeros {
        TooFewZeros(others, zeros - n, ones);
      } else if n <= zeros + ones {
        TooFewZeros(others, 0, ones - (n - zeros));
      }
    }
  }

  /** Empty variable-length payloads and fixed ones of ones. */
  function OnesPayloads(streams: seq<LatmStream>): (r: seq<Bits>)
    requires AllLegal(streams)
    ensures |r| == |streams|
  {
    seq(|streams|, i requires 0 <= i < |streams| =>
      if IsVariable(streams[i]) then [] else Ones(8 * streams[i].fixedLength.value))
  }

  lemma OnesJoin(a: nat, b: nat)
    ensures Ones(8 * a) + Ones(8 * b) == Ones(8 * (a + b))
  {
  }

  lemma {:induction false} OnesWritten(streams: seq<LatmStream>)
    requires AllLegal(streams)
    ensures SubframeOk(streams, OnesPayloads(streams))
    ensures Lengths(streams, OnesPayloads(streams)) == Zeros(8 * Variables(streams))
    ensures Payloads(OnesPayloads(streams)) == Ones(8 * FixedBytes(streams))
    decreases |streams|
  {
    if streams != [] {
      var others, payloads := streams[1..], OnesPayloads(streams);
      OnesWritten(others);
      assert payloads[1..] == OnesPayloads(others);
      assert |payloads[0]| % 8 == 0;
      ZeroWritten();
      FrontPut(streams, payloads, []);
      hide WriteLength, Zeros, Ones, Lengths, Payloads, PutSubframe;
      ZerosJoin(1, Variables(others));
      if IsVariable(streams[0]) {
        assert [] + Payloads(OnesPayloads(others)) == Payloads(OnesPayloads(others));
      } else {
        OnesJoin(streams[0].fixedLength.value, FixedBytes(others));
        assert [] + Lengths(others, OnesPayloads(others)) == Lengths(others, OnesPayloads(others));
      }
    }
  }

  lemma ZeroWritten()
    ensures WriteLength(0) == Zeros(8)
  {
    ZeroByteIsLength([]);
    LengthCanonical(Zeros(8) + []);
    assert Zeros(8) + [] == Zeros(8) && WriteLength(0) + [] == WriteLength(0);
  }

  /** Two variable-length streams, the first ahead of which all are empty: the first payload, one
      byte of ones, hides a length. */
  lemma {:induction false} SecondLengthLost(streams: seq<LatmStream>, zeros: nat, ones: nat)
    requires AllLegal(streams) && Variables(streams) >= 2 && !FixedFirst(streams)
    requires 0 < zeros < Variables(streams)
    ensures SkipSubframe(WriteLength(1) + Field(zeros, ones), streams).Err?
    decreases |streams|
  {
    hide Field, WriteLength, SkipPayload, FixedFirst;
    var others := streams[1..];
    if IsVariable(streams[0]) {
      SkipOneByte(streams[0], zeros, ones);
      TooFewZeros(others, zeros - 1, ones);
    } else {
      SomeVariable(others);
      var i :| 0 <= i < |others| && IsVariable(others[i]);
      NotFixedFirst(streams, i + 1);
      SkipNothingOf(streams[0], WriteLength(1) + Field(zeros, ones));
      SecondLengthLost(others, zeros, ones);
    }
  }

  lemma SkipOneByte(stream: LatmStream, zeros: nat, ones: nat)
    requires IsVariable(stream) && zeros > 0
    ensures SkipPayload(WriteLength(1) + Field(zeros, ones), stream) == Ok(Field(zeros - 1, ones))
  {
    hide Field, WriteLength, ReadLength;
    LengthRoundTrip(1, Field(zeros, ones));
    FieldSkip(zeros, ones, 1);
  }

  lemma SkipNothingOf(stream: LatmStream, bits: Bits)
    requires Legal(stream) && IsEmpty(stream)
    ensures SkipPayload(bits, stream) == Ok(bits)
  {
    assert bits[0..] == bits;
  }

  /** What stands before a variable-length stream is empty, and so it is without the first stream. */
  lemma NotFixedFirst(streams: seq<LatmStream>, i: nat)
    requires 0 < i < |streams| && IsVariable(streams[i]) && !IsVariable(streams[0]) && !FixedFirst(streams)
    ensures IsEmpty(streams[0]) && !FixedFirst(streams[1..])
  {
    var others := streams[1..];
    forall j, k | 0 <= j < k < |others| && IsVariable(others[k]) && !IsVariable(others[j])
      ensures IsEmpty(others[j])
    {
      assert IsVariable(streams[k + 1]) && !IsVariable(streams[j + 1]);
    }
  }

  lemma {:induction false} SomeVariable(streams: seq<LatmStream>)
    requires Variables(streams) > 0
    ensures exists i :: 0 <= i < |streams| && IsVariable(streams[i])
  {
    if !IsVariable(streams[0]) {
      SomeVariable(streams[1..]);
      var i :| 0 <= i < |streams[1..]| && IsVariable(streams[1..][i]);
      assert IsVariable(streams[i + 1]);
    }
  }

  /** As `OnesPayloads`, with one byte for the first variable-length stream. */
  function LongerPayloads(streams: seq<LatmStream>): (r: seq<Bits>)
    requires AllLegal(streams)
    ensures |r| == |streams|
  {
    if streams == [] then []
    else if IsVariable(streams[0]) then [Ones(8)] + OnesPayloads(streams[1..])
    else [Ones(8 * streams[0].fixedLength.value)] + LongerPayloads(streams[1..])
  }

  lemma {:induction false} LongerWritten(streams: seq<LatmStream>)
    requires AllLegal(streams) && Variables(streams) > 0
    ensures SubframeOk(streams, LongerPayloads(streams))
    ensures Lengths(streams, LongerPayloads(streams)) == WriteLength(1) + Zeros(8 * (Variables(streams) - 1))
    ensures Payloads(LongerPayloads(streams)) == Ones(8 * (1 + FixedBytes(streams)))
    decreases |streams|
  {
    hide FixedBytes, Variables, PayloadOk;
    var others, payloads := streams[1..], LongerPayloads(streams);
    FrontPut(streams, payloads, []);
    FrontCounted(streams);
    LongerPayloadOk(streams);
    if IsVariable(streams[0]) {
      OnesWritten(others);
      assert payloads[1..] == OnesPayloads(others) && payloads[0] == Ones(8);
      hide WriteLength, Zeros, Ones, Lengths, Payloads, PutSubframe;
      OnesJoin(1, FixedBytes(others));
    } else {
      LongerWritten(others);
      assert payloads[1..] == LongerPayloads(others);
      hide WriteLength, Zeros, Ones, Lengths, Payloads, PutSubframe;
      OnesJoin(streams[0].fixedLength.value, 1 + FixedBytes(others));
      assert [] + Lengths(others, LongerPayloads(others)) == Lengths(others, LongerPayloads(others));
    }
  }

  lemma FrontCounted(streams: seq<LatmStream>)
    requires AllLegal(streams) && streams != []
    ensures Variables(streams) == (if IsVariable(streams[0]) then 1 else 0) + Variables(streams[1..])
    ensures FixedBytes(streams)
            == (if IsVariable(streams[0]) then 0 else streams[0].fixedLength.value) + FixedBytes(streams[1..])
  {
  }

  lemma LongerPayloadOk(streams: seq<LatmStream>)
    requires AllLegal(streams) && streams != []
    ensures PayloadOk(streams[0], LongerPayloads(streams)[0]) && |Ones(8)| == 8
  {
  }

  lemma {:induction false} TwoVariables(streams: seq<LatmStream>, j: nat, i: nat)
    requires j < i < |streams| && IsVariable(streams[j]) && IsVariable(streams[i])
    ensures Variables(streams) >= 2
    decreases j
  {
    if j > 0 {
      TwoVariables(streams[1..], j - 1, i - 1);
    } else {
      HasVariable(streams[1..], i - 1);
    }
  }

  /** When order matters, some payloads are lost. */
  lemma LosesStandardOrder(streams: seq<LatmStream>) returns (payloads: seq<Bits>)
    requires AllLegal(streams) && !OrderDoesNotMatter(streams)
    ensures SubframeOk(streams, payloads) && SkipSubframe(StandardSubframe(streams, payloads, []), streams).Err?
  {
    hide SkipSubframe, WriteLength, Lengths, Payloads, OnesPayloads, LongerPayloads, SubframeOk;
    var i, j :| 0 <= j < i < |streams| && IsVariable(streams[i]) && !IsEmpty(streams[j]);
    if FixedFirst(streams) {
      payloads := OnesPayloads(streams);
      OnesWritten(streams);
      var ones := FixedBytes(streams);
      assert StandardSubframe(streams, payloads, []) == Field(Variables(streams), ones);
      FixedTakesLengths(streams, ones);
    } else {
      assert IsVariable(streams[j]);
      TwoVariables(streams, j, i);
      payloads := LongerPayloads(streams);
      LongerWritten(streams);
      var zeros, ones := Variables(streams) - 1, 1 + FixedBytes(streams);
      LongerField(streams, zeros, ones);
      SecondLengthLost(streams, zeros, ones);
    }
  }

  /** The standard's order is read rightly, for all payloads, exactly when only streams of fixed
      length zero stand before a variable-length stream. */
  lemma StandardOrderIff(streams: seq<LatmStream>)
    requires AllLegal(streams)
    ensures ReadsStandardOrder(streams) <==> OrderDoesNotMatter(streams)
  {
    hide SkipSubframe, StandardSubframe, PutSubframe;
    if OrderDoesNotMatter(streams) {
      forall payloads, rest | SubframeOk(streams, payloads)
        ensures SkipSubframe(StandardSubframe(streams, payloads, rest), streams) == Ok(rest)
      {
        OrdersAgree(streams, payloads, rest);
        GetSubframe(streams, payloads, rest);
      }
    } else {
      var payloads := LosesStandardOrder(streams);
    }
  }

  lemma LongerField(streams: seq<LatmStream>, zeros: nat, ones: nat)
    requires AllLegal(streams) && zeros == Variables(streams) - 1 && ones == 1 + FixedBytes(streams)
    ensures StandardSubframe(streams, LongerPayloads(streams), []) == WriteLength(1) + Field(zeros, ones)
  {
    hide WriteLength, Lengths, Payloads, LongerPayloads;
    LongerWritten(streams);
    var a, b := Zeros(8 * zeros), Ones(8 * ones);
    assert WriteLength(1) + a + b + [] == WriteLength(1) + (a + b);
  }

  /** Two variable-length streams, one byte of ones and nothing. */
  lemma StandardOrderMisread(asc: AscInfo)
    ensures var stream := LatmStream(asc, 0, None);
      var streams, payloads := [stream, stream], [Ones(8), []];
      SubframeOk(streams, payloads) && SkipSubframe(StandardSubframe(streams, payloads, []), streams).Err?
  {
    hide WriteLength, SkipSubframe, Field, Lengths, Payloads, StandardSubframe;
    var stream := LatmStream(asc, 0, None);
    var streams, one, none: seq<LatmStream> := [stream, stream], [stream], [];
    assert streams[1..] == one && one[1..] == none;
    assert OnesPayloads(one) == [[]];
    assert LongerPayloads(streams) == [Ones(8)] + [[]] == [Ones(8), []];
    LongerWritten(streams);
    assert Variables(one) == 1 && FixedBytes(one) == 0;
    assert Variables(streams) == 2 && FixedBytes(streams) == 0;
    LongerField(streams, 1, 1);
    SecondLengthLost(streams, 1, 1);
  }

  // ---------- fixed lengths

  const EXTRA_BYTES := 20

  /** A payload as the standard sizes it: a fixed one has twenty bytes more than its field. */
  predicate PayloadSized(stream: LatmStream, payload: Bits) {
    && Legal(stream) && |payload| % 8 == 0
    && (!IsVariable(stream) ==> |payload| == 8 * (stream.fixedLength.value + EXTRA_BYTES))
  }

  predicate StandardSized(streams: seq<LatmStream>, payloads: seq<Bits>) {
    |payloads| == |streams| && forall i :: 0 <= i < |streams| ==> PayloadSized(streams[i], payloads[i])
  }

  /** A fixed payload is passed over rightly exactly when its field is its length in bytes. */
  lemma FixedLengthIff(stream: LatmStream, payload: Bits, rest: Bits)
    requires stream.frameLengthType == 1 && stream.fixedLength.Some?
    ensures SkipPayload(payload + rest, stream) == Ok(rest) <==> |payload| == 8 * stream.fixedLength.value
  {
    var n := 8 * stream.fixedLength.value;
    if n <= |payload + rest| {
      assert |(payload + rest)[n..]| == |payload| + |rest| - n;
      if n == |payload| {
        assert (payload + rest)[n..] == rest;
      }
    }
  }

  ghost predicate ReadsStandard(streams: seq<LatmStream>) {
    forall payloads, rest :: StandardSized(streams, payloads) ==>
      SkipSubframe(StandardSubframe(streams, payloads, rest), streams) == Ok(rest)
  }

  /** Over zeros every length is zero, and what is passed over is one byte for each variable-length
      stream and the fixed fields. */
  lemma {:induction false} ZerosPassed(streams: seq<LatmStream>, zeros: nat)
    requires AllLegal(streams) && Variables(streams) + FixedBytes(streams) <= zeros
    ensures SkipSubframe(Field(zeros, 0), streams) == Ok(Field(zeros - Variables(streams) - FixedBytes(streams), 0))
    decreases |streams|
  {
    if streams != [] {
      hide SkipPayload, Field, Skip;
      SkipInField(streams[0], zeros, 0);
      if IsVariable(streams[0]) {
        ZerosPassed(streams[1..], zeros - 1);
      } else {
        var n := streams[0].fixedLength.value;
        FieldSkip(zeros, 0, n);
        ZerosPassed(streams[1..], zeros - n);
      }
    }
  }

  function ZeroPayloads(streams: seq<LatmStream>): (r: seq<Bits>)
    requires AllLegal(streams)
    ensures |r| == |streams|
  {
    seq(|streams|, i requires 0 <= i < |streams| =>
      if IsVariable(streams[i]) then [] else Zeros(8 * (streams[i].fixedLength.value + EXTRA_BYTES)))
  }

  lemma ZerosJoin(a: nat, b: nat)
    ensures Zeros(8 * a) + Zeros(8 * b) == Zeros(8 * (a + b))
  {
  }

  /** The bytes of all fixed payloads, as the standard sizes them. */
  function FixedStandardBytes(streams: seq<LatmStream>): nat
    requires AllLegal(streams)
  {
    if streams == [] then 0
    else (if IsVariable(streams[0]) then 0 else streams[0].fixedLength.value + EXTRA_BYTES)
         + FixedStandardBytes(streams[1..])
  }

  lemma {:induction false} ExtraBytes(streams: seq<LatmStream>)
    requires AllLegal(streams)
    ensures FixedStandardBytes(streams) == FixedBytes(streams) + EXTRA_BYTES * (|streams| - Variables(streams))
  {
    if streams != [] {
      ExtraBytes(streams[1..]);
    }
  }

  lemma ZeroPayloadsSized(streams: seq<LatmStream>)
    requires AllLegal(streams)
    ensures StandardSized(streams, ZeroPayloads(streams))
  {
  }

  lemma FrontZeros(streams: seq<LatmStream>)
    requires AllLegal(streams) && streams != []
    ensures ZeroPayloads(streams)[1..] == ZeroPayloads(streams[1..])
    ensures ZeroPayloads(streams)[0]
            == if IsVariable(streams[0]) then [] else Zeros(8 * (streams[0].fixedLength.value + EXTRA_BYTES))
  {
    assert ZeroPayloads(streams)[1..] == ZeroPayloads(streams[1..]);
  }

  lemma {:induction false} ZerosWritten(streams: seq<LatmStream>)
    requires AllLegal(streams)
    ensures Lengths(streams, ZeroPayloads(streams)) == Zeros(8 * Variables(streams))
    ensures Payloads(ZeroPayloads(streams)) == Zeros(8 * FixedStandardBytes(streams))
    decreases |streams|
  {
    if streams != [] {
      hide WriteLength, PutSubframe, PutPayload, ZeroPayloads, Zeros, Lengths, Payloads;
      var others, payloads := streams[1..], ZeroPayloads(streams);
      ZerosWritten(others);
      FrontZeros(streams);
      ZeroWritten();
      FrontPut(streams, payloads, []);
      ZerosJoin(1, Variables(others));
      if IsVariable(streams[0]) {
        assert [] + Payloads(ZeroPayloads(others)) == Payloads(ZeroPayloads(others));
      } else {
        ZerosJoin(streams[0].fixedLength.value + EXTRA_BYTES, FixedStandardBytes(others));
        assert [] + Lengths(others, ZeroPayloads(others)) == Lengths(others, ZeroPayloads(others));
      }
    } else {
      assert Zeros(0) == [];
    }
  }

  lemma {:induction false} FewVariables(streams: seq<LatmStream>)
    ensures Variables(streams) <= |streams|
    ensures Variables(streams) == |streams| <==> forall i :: 0 <= i < |streams| ==> IsVariable(streams[i])
  {
    if streams != [] {
      FewVariables(streams[1..]);
      assert forall i :: 0 <= i < |streams[1..]| ==> streams[1..][i] == streams[i + 1];
    }
  }

  /** With the standard's sizes too, and the same time framing, only a single variable-length stream,
      or none, is read rightly for all payloads. */
  lemma StandardIff(streams: seq<LatmStream>)
    requires AllLegal(streams)
    ensures ReadsStandard(streams) <==> streams == [] || (|streams| == 1 && IsVariable(streams[0]))
  {
    hide SkipSubframe, StandardSubframe, PutSubframe, Field;
    FewVariables(streams);
    if Variables(streams) < |streams| {
      FixedMisread(streams);
    } else {
      assert forall payloads :: StandardSized(streams, payloads) <==> SubframeOk(streams, payloads);
      assert ReadsStandard(streams) <==> ReadsStandardOrder(streams);
      StandardOrderIff(streams);
      if |streams| >= 2 {
        assert IsVariable(streams[1]) && !IsEmpty(streams[0]);
      }
    }
  }

  lemma FixedMisread(streams: seq<LatmStream>)
    requires AllLegal(streams) && Variables(streams) < |streams|
    ensures !ReadsStandard(streams)
  {
    hide SkipSubframe, StandardSubframe, StandardSized, ZeroPayloads, Variables;
    ZeroPayloadsMisread(streams, [], |streams| - Variables(streams));
    ZeroPayloadsSized(streams);
  }

  lemma ZeroPayloadsMisread(streams: seq<LatmStream>, rest: Bits, fixed: nat)
    requires AllLegal(streams) && fixed == |streams| - Variables(streams) > 0 && rest == []
    ensures SkipSubframe(StandardSubframe(streams, ZeroPayloads(streams), rest), streams) != Ok(rest)
  {
    hide SkipSubframe, Lengths, Payloads, ZeroPayloads, Field, Variables, FixedBytes, FixedStandardBytes;
    ZerosWritten(streams);
    ExtraBytes(streams);
    var v, f, extra := Variables(streams), FixedBytes(streams), EXTRA_BYTES * fixed;
    ZeroField(v, f + extra);
    ZerosPassed(streams, v + (f + extra));
    ZeroField(extra, 0);
  }

  lemma ZeroField(a: nat, b: nat)
    ensures Zeros(8 * a) + Zeros(8 * b) + [] == Field(a + b, 0) && |Field(a, 0)| == 8 * a
  {
  }
}
