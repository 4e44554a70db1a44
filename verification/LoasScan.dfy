/** The LOAS frame scan (section 1.7.2 of ISO/IEC 14496-3): a file is accepted exactly when it is
    written as frames whose elements parse one after another, each under the configuration before. */
module LoasScan {
  import opened Wrappers
  import opened Basics
  import opened BitSyntax
  import opened LatmSyntax
  import Reader = LatmReader

  predicate HasSync(data: seq<byte>)
    requires |data| >= 2
  {
    data[0] == 0x56 && data[1] / 32 == 7
  }

  function MuxLength(data: seq<byte>): nat
    requires |data| >= 3
  {
    (data[1] as int) % 32 * 256 + data[2]
  }

  /** The test suite's frame: sync word, the length in 13 bits, and the element. */
  function LoasFrame(payload: seq<byte>): seq<byte> {
    [0x56, (0xe0 + |payload| / 256 % 32) as byte, (|payload| % 256) as byte] + payload
  }

  predicate Sized(payload: seq<byte>) {
    1 <= |payload| < 8192
  }

  /** The payload of the frame at the front, if there is one. */
  function FrontPayload(rest: seq<byte>): (payload: Option<seq<byte>>)
    ensures payload.Some? ==> Sized(payload.value) && |payload.value| + 3 <= |rest|
  {
    if |rest| < 3 || !HasSync(rest) || MuxLength(rest) == 0 || MuxLength(rest) + 3 > |rest| then None
    else Some(rest[3..3 + MuxLength(rest)])
  }

  lemma FrontIsFrame(rest: seq<byte>)
    requires FrontPayload(rest).Some?
    ensures var frame := LoasFrame(FrontPayload(rest).value); rest == frame + rest[|frame|..]
  {
    var n := MuxLength(rest);
    assert n / 256 % 32 == rest[1] % 32 && n % 256 == rest[2];
    assert rest[1] == 0xe0 + rest[1] % 32;
    assert rest == [rest[0], rest[1], rest[2]] + rest[3..3 + n] + rest[3 + n..];
  }

  lemma FrameIsFront(payload: seq<byte>, after: seq<byte>)
    requires Sized(payload)
    ensures FrontPayload(LoasFrame(payload) + after) == Some(payload)
  {
    var rest := LoasFrame(payload) + after;
    var high := |payload| / 256;
    assert |payload| == high * 256 + |payload| % 256 && high < 32;
    assert rest[1] == 0xe0 + high && rest[1] / 32 == 7 && rest[1] % 32 == high;
    assert MuxLength(rest) == |payload|;
    assert rest[3..3 + |payload|] == payload;
  }

  // ---------- whole files

  /** What is left unread, and the elements read, from the front on. */
  function Scan(rest: seq<byte>, previous: Option<LatmConfig>): (seq<byte>, seq<ParsedMux>)
    decreases |rest|
  {
    match FrontPayload(rest)
    case None => (rest, [])
    case Some(payload) =>
      match ParseElement(BitsOf(payload), previous)
      case Err(_) => (rest, [])
      case Ok(parsed) =>
        var (unread, others) := Scan(rest[|payload| + 3..], Some(parsed.config));
        (unread, [parsed] + others)
  }

  /** The file is these payloads, framed, and they parse to these elements in turn. */
  predicate Carries(file: seq<byte>, payloads: seq<seq<byte>>, previous: Option<LatmConfig>, elements: seq<ParsedMux>)
    decreases |payloads|
  {
    if payloads == [] then file == [] && elements == []
    else
      && elements != [] && Sized(payloads[0]) && LoasFrame(payloads[0]) <= file
      && ParseElement(BitsOf(payloads[0]), previous) == Ok(elements[0])
      && Carries(file[|payloads[0]| + 3..], payloads[1..], Some(elements[0].config), elements[1..])
  }

  /** A file is carried in one way only, and that is what scanning it finds. */
  lemma {:induction false} CarriedIsScanned(
      file: seq<byte>, payloads: seq<seq<byte>>, previous: Option<LatmConfig>, elements: seq<ParsedMux>)
    requires Carries(file, payloads, previous, elements)
    ensures Scan(file, previous) == ([], elements)
    decreases |payloads|
  {
    hide ParseElement, BitsOf;
    if payloads != [] {
      var frame := LoasFrame(payloads[0]);
      assert file == frame + file[|frame|..];
      FrameIsFront(payloads[0], file[|frame|..]);
      CarriedIsScanned(file[|frame|..], payloads[1..], Some(elements[0].config), elements[1..]);
      assert elements == [elements[0]] + elements[1..];
    }
  }

  lemma {:induction false} ScannedIsCarried(file: seq<byte>, previous: Option<LatmConfig>)
      returns (payloads: seq<seq<byte>>)
    requires Scan(file, previous).0 == []
    ensures Carries(file, payloads, previous, Scan(file, previous).1)
    decreases |file|
  {
    hide ParseElement, BitsOf;
    payloads := [];
    if file != [] {
      FrontIsFrame(file);
      var payload := FrontPayload(file).value;
      var parsed := ParseElement(BitsOf(payload), previous).value;
      var others := ScannedIsCarried(file[|payload| + 3..], Some(parsed.config));
      payloads := [payload] + others;
      assert payloads[1..] == others;
      var elements := Scan(file, previous).1;
      assert elements[1..] == Scan(file[|payload| + 3..], Some(parsed.config)).1;
    }
  }

  // ---------- the loop

  datatype Counts = Counts(
    frames: nat, bytes: nat, accessUnits: nat, samples: nat, newConfigs: nat, reused: nat,
    firstConfig: Option<LatmConfig>, configChanges: nat)

  function Counted(c: Counts, parsed: ParsedMux, size: nat): Counts {
    var more := c.(frames := c.frames + 1, bytes := c.bytes + size,
                   accessUnits := c.accessUnits + parsed.accessUnits, samples := c.samples + parsed.outputSamples);
    if parsed.usedSameConfig then more.(reused := c.reused + 1)
    else more.(newConfigs := c.newConfigs + 1,
               firstConfig := if c.firstConfig.None? then Some(parsed.config) else c.firstConfig,
               configChanges := c.configChanges
                 + if c.firstConfig.Some? && c.firstConfig.value != parsed.config then 1 else 0)
  }

  function SumUnits(elements: seq<ParsedMux>): nat {
    if elements == [] then 0 else SumUnits(elements[..|elements| - 1]) + elements[|elements| - 1].accessUnits
  }

  function SumSamples(elements: seq<ParsedMux>): nat {
    if elements == [] then 0 else SumSamples(elements[..|elements| - 1]) + elements[|elements| - 1].outputSamples
  }

  function CountReused(elements: seq<ParsedMux>): nat {
    if elements == [] then 0
    else CountReused(elements[..|elements| - 1]) + if elements[|elements| - 1].usedSameConfig then 1 else 0
  }

  /** The elements that bring a configuration with them. */
  function Brought(elements: seq<ParsedMux>): seq<LatmConfig> {
    if elements == [] then []
    else
      var before, last := Brought(elements[..|elements| - 1]), elements[|elements| - 1];
      if last.usedSameConfig then before else before + [last.config]
  }

  function Different(configs: seq<LatmConfig>): nat {
    if configs == [] then 0
    else Different(configs[..|configs| - 1]) + if configs[|configs| - 1] != configs[0] then 1 else 0
  }

  predicate Tallies(c: Counts, elements: seq<ParsedMux>) {
    && c.frames == |elements| && c.accessUnits == SumUnits(elements) && c.samples == SumSamples(elements)
    && c.reused == CountReused(elements) && c.newConfigs == |Brought(elements)|
    && c.firstConfig == (if Brought(elements) == [] then None else Some(Brought(elements)[0]))
    && c.configChanges == Different(Brought(elements))
  }

  lemma TalliesStep(c: Counts, elements: seq<ParsedMux>, parsed: ParsedMux, size: nat)
    requires Tallies(c, elements)
    ensures Tallies(Counted(c, parsed, size), elements + [parsed])
  {
    assert (elements + [parsed])[..|elements|] == elements;
    var configs := Brought(elements);
    assert (configs + [parsed.config])[..|configs|] == configs;
  }

  datatype Report = Report(syncValid: bool, boundsValid: bool, muxValid: bool, counts: Counts)

  predicate Passed(r: Report) {
    r.syncValid && r.boundsValid && r.muxValid
  }

  datatype Fault = NoFault | NoSync | OutOfBounds

  method NextPayload(rest: seq<byte>) returns (fault: Fault, payload: seq<byte>)
    ensures fault == NoFault <==> FrontPayload(rest).Some?
    ensures fault == NoFault ==> FrontPayload(rest) == Some(payload)
    ensures fault == NoSync <==> |rest| >= 3 && !HasSync(rest)
    ensures fault == OutOfBounds <==> |rest| < 3 || (HasSync(rest) && !(0 < MuxLength(rest) <= |rest| - 3))
  {
    payload := [];
    if |rest| < 3 {
      return OutOfBounds, payload;
    }
    if !HasSync(rest) {
      return NoSync, payload;
    }
    var length := MuxLength(rest);
    if length == 0 || length + 3 > |rest| {
      return OutOfBounds, payload;
    }
    fault, payload := NoFault, rest[3..3 + length];
  }

  lemma NothingTallied()
    ensures Tallies(Counts(0, 0, 0, 0, 0, 0, None, 0), [])
  {
  }

  lemma ScanStops(rest: seq<byte>, previous: Option<LatmConfig>)
    ensures FrontPayload(rest).None? ==> Scan(rest, previous) == (rest, [])
    ensures FrontPayload(rest).Some? ==>
      var payload := FrontPayload(rest).value;
      match ParseElement(BitsOf(payload), previous)
      case Err(_) => Scan(rest, previous) == (rest, [])
      case Ok(parsed) =>
        var (unread, others) := Scan(rest[|payload| + 3..], Some(parsed.config));
        Scan(rest, previous) == (unread, [parsed] + others)
  {
    hide ParseElement, BitsOf, FrontPayload;
  }

  /** The scan stops for the number of elements, and not for what stands next. */
  predicate LimitHit(unread: seq<byte>, elements: seq<ParsedMux>) {
    |elements| > MAX_AAC_FRAMES || (|elements| == MAX_AAC_FRAMES && unread != [])
  }

  /** The one flag that is cleared, by what stands where the scan stops. */
  predicate FlagsMean(r: Report, unread: seq<byte>, elements: seq<ParsedMux>) {
    if LimitHit(unread, elements) then r.syncValid && !r.boundsValid && r.muxValid
    else
      && (r.syncValid <==> |unread| < 3 || HasSync(unread))
      && (r.boundsValid <==>
            unread == [] || (|unread| >= 3 && (HasSync(unread) ==> 0 < MuxLength(unread) <= |unread| - 3)))
      && (r.muxValid <==> FrontPayload(unread).None?)
  }

  /** Passing means that the file carries at most the limit of elements that parse in turn. Whatever
      happens the counts are those of the elements read, up to the limit, and the flags say what
      stopped the scan. */
  method Audit(file: seq<byte>) returns (r: Report)
    ensures Passed(r) <==> Scan(file, None).0 == [] && |Scan(file, None).1| <= MAX_AAC_FRAMES
    ensures var (unread, elements) := Scan(file, None);
      && r.counts.frames == (if |elements| <= MAX_AAC_FRAMES then |elements| else MAX_AAC_FRAMES)
      && Tallies(r.counts, elements[..r.counts.frames])
      && FlagsMean(r, unread, elements)
      && (|elements| <= MAX_AAC_FRAMES ==> r.counts.bytes + |unread| == |file|)
  {
    hide Scan, ParseElement, BitsOf, Tallies, Counted, FrontPayload, FlagsMean;
    var counts, current: Option<LatmConfig> := Counts(0, 0, 0, 0, 0, 0, None, 0), None;
    var offset := 0;
    ghost var elements: seq<ParsedMux> := [];
    NothingTallied();
    assert file[0..] == file && [] + Scan(file, None).1 == Scan(file, None).1;
    while offset < |file|
      invariant offset <= |file| && counts.bytes == offset && counts.frames == |elements| <= MAX_AAC_FRAMES
      invariant Tallies(counts, elements)
      invariant Scan(file, None).0 == Scan(file[offset..], current).0
      invariant Scan(file, None).1 == elements + Scan(file[offset..], current).1
      decreases |file| - offset
    {
      var rest := file[offset..];
      ScanStops(rest, current);
      PrefixOf(elements, Scan(rest, current).1);
      if counts.frames == MAX_AAC_FRAMES {
        FlagsAtLimit(counts, Scan(file, None).0, Scan(file, None).1);
        return Report(true, false, true, counts);
      }
      var fault, payload := NextPayload(rest);
      if fault != NoFault {
        FlagsAtFault(fault, counts, rest, Scan(file, None).1);
        return Report(fault != NoSync, fault != OutOfBounds, true, counts);
      }
      var parsed := Reader.ParseAudioMuxElement(payload, current);
      if parsed.Err? {
        FlagsAtElement(counts, rest, Scan(file, None).1);
        return Report(true, true, false, counts);
      }
      var size := |payload| + 3;
      TalliesStep(counts, elements, parsed.value, size);
      CountedParts(counts, parsed.value, size);
      assert rest[size..] == file[offset + size..];
      ghost var others := Scan(rest[size..], Some(parsed.value.config)).1;
      assert elements + ([parsed.value] + others) == elements + [parsed.value] + others;
      counts := Counted(counts, parsed.value, size);
      elements := elements + [parsed.value];
      current := Some(parsed.value.config);
      offset := offset + size;
    }
    ScanEnds(current);
    assert file[offset..] == [];
    PrefixOf(elements, Scan([], current).1);
    FlagsAtEnd(counts, Scan(file, None).1);
    r := Report(true, true, true, counts);
  }

  lemma FlagsAtLimit(counts: Counts, unread: seq<byte>, elements: seq<ParsedMux>)
    requires LimitHit(unread, elements)
    ensures FlagsMean(Report(true, false, true, counts), unread, elements)
  {
  }

  lemma FlagsAtFault(fault: Fault, counts: Counts, unread: seq<byte>, elements: seq<ParsedMux>)
    requires !LimitHit(unread, elements) && unread != [] && fault != NoFault && FrontPayload(unread).None?
    requires fault == NoSync <==> |unread| >= 3 && !HasSync(unread)
    ensures FlagsMean(Report(fault != NoSync, fault != OutOfBounds, true, counts), unread, elements)
  {
  }

  lemma FlagsAtElement(counts: Counts, unread: seq<byte>, elements: seq<ParsedMux>)
    requires !LimitHit(unread, elements) && FrontPayload(unread).Some?
    ensures FlagsMean(Report(true, true, false, counts), unread, elements)
  {
  }

  lemma FlagsAtEnd(counts: Counts, elements: seq<ParsedMux>)
    requires |elements| <= MAX_AAC_FRAMES
    ensures FlagsMean(Report(true, true, true, counts), [], elements)
  {
  }

  lemma CountedParts(c: Counts, parsed: ParsedMux, size: nat)
    ensures Counted(c, parsed, size).frames == c.frames + 1 && Counted(c, parsed, size).bytes == c.bytes + size
  {
  }

  lemma PrefixOf(front: seq<ParsedMux>, others: seq<ParsedMux>)
    ensures (front + others)[..|front|] == front
  {
  }

  lemma ScanEnds(previous: Option<LatmConfig>)
    ensures Scan([], previous) == ([], [])
  {
  }

  /** The files that pass are those that carry payloads, and only in one way. */
  lemma AcceptedFiles(file: seq<byte>)
    ensures Scan(file, None).0 == [] <==> exists payloads, elements :: Carries(file, payloads, None, elements)
    ensures forall payloads, elements :: Carries(file, payloads, None, elements) ==> elements == Scan(file, None).1
  {
    hide Scan, Carries;
    if Scan(file, None).0 == [] {
      var payloads := ScannedIsCarried(file, None);
    }
    forall payloads, elements | Carries(file, payloads, None, elements)
      ensures Scan(file, None) == ([], elements)
    {
      CarriedIsScanned(file, payloads, None, elements);
    }
  }
}
