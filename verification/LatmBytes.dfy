/** From written bits to whole bytes: an element packed into bytes by the writer is parsed back. */
module LatmBytes {
  import opened Wrappers
  import opened Basics
  import opened BitSyntax
  import opened EscapedValues
  import opened LatmSyntax
  import opened LatmRoundTrip

  // What a writer puts ahead of `rest` does not depend on `rest`.

  lemma PutAppends(value: nat, count: nat, rest: Bits, tail: Bits)
    ensures Put(value, count, rest + tail) == Put(value, count, rest) + tail
  {
    hide FromNat;
  }

  lemma FlagAppends(flag: bool, rest: Bits, tail: Bits)
    ensures PutFlag(flag, rest + tail) == PutFlag(flag, rest) + tail
  {
  }

  lemma ObjectTypeAppends(t: nat, rest: Bits, tail: Bits)
    ensures PutObjectType(t, rest + tail) == PutObjectType(t, rest) + tail
  {
    hide Put;
    PutAppends(t, 5, rest, tail);
    if t >= 32 {
      PutAppends(t - 32, 6, rest, tail);
      PutAppends(31, 5, Put(t - 32, 6, rest), tail);
    }
  }

  lemma RateAppends(rate: Rate, rest: Bits, tail: Bits)
    ensures PutRate(rate, rest + tail) == PutRate(rate, rest) + tail
  {
    hide Put;
    match rate
    case Indexed(index) => PutAppends(index, 4, rest, tail);
    case Explicit(hz) =>
      PutAppends(hz, 24, rest, tail);
      PutAppends(15, 4, Put(hz, 24, rest), tail);
  }

  lemma OptionalAppends(value: Option<nat>, count: nat, rest: Bits, tail: Bits)
    ensures PutOptional(value, count, rest + tail) == PutOptional(value, count, rest) + tail
  {
    hide Put, PutFlag;
    FlagAppends(false, rest, tail);
    if value.Some? {
      PutAppends(value.value, count, rest, tail);
      FlagAppends(true, Put(value.value, count, rest), tail);
    }
  }

  lemma HeadAppends(asc: Asc, rest: Bits, tail: Bits)
    ensures PutHead(asc, rest + tail) == PutHead(asc, rest) + tail
  {
    hide Put, PutObjectType, PutRate;
    PutAppends(asc.channels, 4, rest, tail);
    if asc.hierarchy.None? {
      var b2 := Put(asc.channels, 4, rest);
      RateAppends(asc.coreRate, b2, tail);
      ObjectTypeAppends(asc.objectType, PutRate(asc.coreRate, b2), tail);
    } else {
      var h := asc.hierarchy.value;
      var inner := if asc.objectType == 22 then Put(asc.channels, 4, rest) else rest;
      var b4 := PutObjectType(asc.objectType, inner);
      var b3 := PutRate(h.outputRate, b4);
      var b2 := Put(h.outerChannels, 4, b3);
      ObjectTypeAppends(asc.objectType, inner, tail);
      RateAppends(h.outputRate, b4, tail);
      PutAppends(h.outerChannels, 4, b3, tail);
      RateAppends(asc.coreRate, b2, tail);
      ObjectTypeAppends(if h.ps then 29 else 5, PutRate(asc.coreRate, b2), tail);
    }
  }

  lemma ExtensionAppends(objectType: nat, e: Extension, rest: Bits, tail: Bits)
    ensures PutExtension(objectType, e, rest + tail) == PutExtension(objectType, e, rest) + tail
  {
    hide Put, PutFlag;
    var last, r := PutFlag(e.version3, rest), e.resilience;
    FlagAppends(e.version3, rest, tail);
    PutAppends(e.layerLength, 11, last, tail);
    PutAppends(e.subframes, 5, Put(e.layerLength, 11, last), tail);
    FlagAppends(r.spectrum, last, tail);
    FlagAppends(r.scalefactors, PutFlag(r.spectrum, last), tail);
    FlagAppends(r.sections, PutFlag(r.scalefactors, PutFlag(r.spectrum, last)), tail);
  }

  lemma GeneralAppends(asc: Asc, rest: Bits, tail: Bits)
    ensures PutGeneral(asc, rest + tail) == PutGeneral(asc, rest) + tail
  {
    hide Put, PutFlag, PutOptional, PutExtension;
    var extension := if asc.extension.None? then rest else PutExtension(asc.objectType, asc.extension.value, rest);
    if asc.extension.Some? {
      ExtensionAppends(asc.objectType, asc.extension.value, rest, tail);
    }
    var layered := if asc.objectType == 6 || asc.objectType == 20 then Put(asc.layerNumber, 3, extension)
                   else extension;
    PutAppends(asc.layerNumber, 3, extension, tail);
    FlagAppends(asc.extension.Some?, layered, tail);
    OptionalAppends(asc.coreDelay, 14, PutFlag(asc.extension.Some?, layered), tail);
    FlagAppends(asc.short, PutOptional(asc.coreDelay, 14, PutFlag(asc.extension.Some?, layered)), tail);
  }

  lemma SyncAppends(sync: Option<Sync>, rest: Bits, tail: Bits)
    ensures PutSync(sync, rest + tail) == PutSync(sync, rest) + tail
  {
    hide Put, PutFlag, PutObjectType, PutRate;
    match sync
    case None =>
    case Some(OtherExtension(t)) =>
      ObjectTypeAppends(t, rest, tail);
      PutAppends(SYNC_SBR, 11, PutObjectType(t, rest), tail);
    case Some(NoSbr) =>
      FlagAppends(false, rest, tail);
      ObjectTypeAppends(5, PutFlag(false, rest), tail);
      PutAppends(SYNC_SBR, 11, PutObjectType(5, PutFlag(false, rest)), tail);
    case Some(Sbr(outputRate, ps)) =>
      var psBits := if ps.None? then rest else Put(SYNC_PS, 11, PutFlag(ps.value, rest));
      if ps.Some? {
        FlagAppends(ps.value, rest, tail);
        PutAppends(SYNC_PS, 11, PutFlag(ps.value, rest), tail);
      }
      RateAppends(outputRate, psBits, tail);
      FlagAppends(true, PutRate(outputRate, psBits), tail);
      ObjectTypeAppends(5, PutFlag(true, PutRate(outputRate, psBits)), tail);
      PutAppends(SYNC_SBR, 11, PutObjectType(5, PutFlag(true, PutRate(outputRate, psBits))), tail);
  }

  lemma AscAppends(asc: Asc, rest: Bits, tail: Bits)
    ensures PutAsc(asc, rest + tail) == PutAsc(asc, rest) + tail
  {
    hide PutHead, PutGeneral, PutSync;
    SyncAppends(asc.sync, rest, tail);
    GeneralAppends(asc, PutSync(asc.sync, rest), tail);
    HeadAppends(asc, PutGeneral(asc, PutSync(asc.sync, rest)), tail);
  }

  lemma LayerAppends(layer: Layer, version1: bool, first: bool, rest: Bits, tail: Bits)
    requires LayerOk(layer, version1, first)
    ensures PutLayer(layer, version1, first, rest + tail) == PutLayer(layer, version1, first, rest) + tail
  {
    var framed := PutFraming(layer.framing, rest);
    FramingAppends(layer.framing, rest, tail);
    var body := framed;
    if layer.own.Some? {
      if version1 {
        var asc := PutAsc(layer.own.value, Zeros(layer.padding));
        assert WriteValue(|asc|, layer.lengthBytes) + (asc + (framed + tail))
               == WriteValue(|asc|, layer.lengthBytes) + (asc + framed) + tail;
        body := PutBounded(layer.own.value, layer.lengthBytes, layer.padding, framed);
      } else {
        AscAppends(layer.own.value, framed, tail);
        body := PutAsc(layer.own.value, framed);
      }
    }
    FlagAppends(layer.own.None?, body, tail);
    hide PutFlag, PutAsc, PutFraming, WriteValue;
  }

  lemma FramingAppends(framing: Framing, rest: Bits, tail: Bits)
    ensures PutFraming(framing, rest + tail) == PutFraming(framing, rest) + tail
  {
    hide Put;
    match framing
    case Variable(bufferFullness) =>
      PutAppends(bufferFullness, 8, rest, tail);
      PutAppends(0, 3, Put(bufferFullness, 8, rest), tail);
    case Fixed(length) =>
      PutAppends(length, 9, rest, tail);
      PutAppends(1, 3, Put(length, 9, rest), tail);
  }

  lemma {:induction false} LayersAppend(layers: seq<Layer>, version1: bool, first: bool, rest: Bits, tail: Bits)
    requires LayersOk(layers, version1, first)
    ensures PutLayers(layers, version1, first, rest + tail) == PutLayers(layers, version1, first, rest) + tail
    decreases |layers|
  {
    if layers != [] {
      hide PutLayer, LayerOk;
      LayersAppend(layers[1..], version1, false, rest, tail);
      LayerAppends(layers[0], version1, first, PutLayers(layers[1..], version1, false, rest), tail);
    }
  }

  lemma {:induction false} ProgramsAppend(
      programs: seq<seq<Layer>>, version1: bool, first: bool, rest: Bits, tail: Bits)
    requires ProgramsOk(programs, version1, first)
    ensures PutPrograms(programs, version1, first, rest + tail)
            == PutPrograms(programs, version1, first, rest) + tail
    decreases |programs|
  {
    hide *;
    ProgramsUnfold(programs, version1, first, rest);
    ProgramsUnfold(programs, version1, first, rest + tail);
    if programs != [] {
      ProgramsSplit(programs, version1, first);
      var head, others := programs[0], programs[1..];
      var after := PutPrograms(others, version1, false, rest);
      ProgramsAppend(others, version1, false, rest, tail);
      LayersAppend(head, version1, first, after, tail);
      PutAppends(|head| - 1, 3, PutLayers(head, version1, first, after), tail);
    }
  }

  lemma ProgramsUnfold(programs: seq<seq<Layer>>, version1: bool, first: bool, rest: Bits)
    requires ProgramsOk(programs, version1, first)
    ensures programs == [] ==> PutPrograms(programs, version1, first, rest) == rest
    ensures programs != [] ==>
              && 1 <= |programs[0]| && LayersOk(programs[0], version1, first)
              && ProgramsOk(programs[1..], version1, false)
              && PutPrograms(programs, version1, first, rest)
                 == Put(|programs[0]| - 1, 3,
                        PutLayers(programs[0], version1, first, PutPrograms(programs[1..], version1, false, rest)))
  {
    hide Put, PutLayers, LayersOk;
    if programs != [] {
      ProgramsSplit(programs, version1, first);
    }
  }

  lemma {:induction false} EscapedAppends(bytes: seq<nat>, rest: Bits, tail: Bits)
    ensures PutEscaped(bytes, rest + tail) == PutEscaped(bytes, rest) + tail
    decreases |bytes|
  {
    if bytes != [] {
      hide Put, PutFlag;
      var after := PutEscaped(bytes[1..], rest);
      EscapedAppends(bytes[1..], rest, tail);
      PutAppends(bytes[0], 8, after, tail);
      FlagAppends(|bytes| > 1, Put(bytes[0], 8, after), tail);
    }
  }

  lemma TrailerAppends(mux: Mux, rest: Bits, tail: Bits)
    requires OtherOk(mux)
    ensures PutTrailer(mux, rest + tail) == PutTrailer(mux, rest) + tail
  {
    hide PutFlag, PutOptional, PutEscaped, WriteValue;
    var checked := PutOptional(mux.crc, 8, rest);
    OptionalAppends(mux.crc, 8, rest, tail);
    match mux.other {
      case NoOtherData => FlagAppends(false, checked, tail);
      case EscapedLength(bytes) =>
        EscapedAppends(bytes, checked, tail);
        FlagAppends(true, PutEscaped(bytes, checked), tail);
      case CountedLength(value, width) =>
        assert WriteValue(value, width) + (checked + tail) == WriteValue(value, width) + checked + tail;
        FlagAppends(true, WriteValue(value, width) + checked, tail);
    }
  }

  lemma VersionAppends(version: Version, rest: Bits, tail: Bits)
    requires VersionOk(version)
    ensures PutVersion(version, rest + tail) == PutVersion(version, rest) + tail
  {
    hide WriteValue;
    if version.Version1? {
      var tara := WriteValue(version.taraFullness, version.taraBytes);
      assert tara + (rest + tail) == tara + rest + tail;
    }
  }

  lemma ConfigAppends(mux: Mux, rest: Bits, tail: Bits)
    requires MuxOk(mux)
    ensures PutConfig(mux, rest + tail) == PutConfig(mux, rest) + tail
  {
    hide Put, PutFlag, PutTrailer, PutPrograms, PutVersion, VersionOk, OtherOk, ProgramsOk, Pow2;
    var v1 := mux.version.Version1?;
    var b5 := PutTrailer(mux, rest);
    var b4 := PutPrograms(mux.programs, v1, true, b5);
    var b3 := Put(|mux.programs| - 1, 4, b4);
    var b2 := Put(mux.numSubframes, 6, b3);
    assert PutConfig(mux, rest) == PutVersion(mux.version, PutFlag(mux.sameTiming, b2));
    assert PutConfig(mux, rest + tail)
           == PutVersion(mux.version, PutFlag(mux.sameTiming, Put(mux.numSubframes, 6, Put(|mux.programs| - 1, 4,
                PutPrograms(mux.programs, v1, true, PutTrailer(mux, rest + tail))))));
    TrailerAppends(mux, rest, tail);
    ProgramsAppend(mux.programs, v1, true, b5, tail);
    PutAppends(|mux.programs| - 1, 4, b4, tail);
    PutAppends(mux.numSubframes, 6, b3, tail);
    FlagAppends(mux.sameTiming, b2, tail);
    VersionAppends(mux.version, PutFlag(mux.sameTiming, b2), tail);
  }

  lemma {:induction false} SubframeAppends(streams: seq<LatmStream>, payloads: seq<Bits>, rest: Bits, tail: Bits)
    requires |payloads| == |streams|
    ensures PutSubframe(streams, payloads, rest + tail) == PutSubframe(streams, payloads, rest) + tail
    decreases |streams|
  {
    if streams != [] {
      hide WriteLength;
      var after := PutSubframe(streams[1..], payloads[1..], rest);
      SubframeAppends(streams[1..], payloads[1..], rest, tail);
      assert payloads[0] + (after + tail) == payloads[0] + after + tail;
      var length := WriteLength(|payloads[0]| / 8);
      assert length + (payloads[0] + after + tail) == length + (payloads[0] + after) + tail;
    }
  }

  lemma {:induction false} SubframesAppend(streams: seq<LatmStream>, frames: seq<seq<Bits>>, rest: Bits, tail: Bits)
    requires SubframesOk(streams, frames)
    ensures PutSubframes(streams, frames, rest + tail) == PutSubframes(streams, frames, rest) + tail
    decreases |frames|
  {
    if frames != [] {
      hide PutSubframe, SubframeOk;
      SubframesAppend(streams, frames[1..], rest, tail);
      SubframeAppends(streams, frames[0], PutSubframes(streams, frames[1..], rest), tail);
    }
  }

  /** The bytes a writer packs for an element and `more` bits after its payloads are judged by
      those bits and the padding. */
  lemma BytesOutcome(mux: Mux, frames: seq<seq<Bits>>, more: Bits, previous: Option<LatmConfig>)
    requires MuxOk(mux) && SubframesOk(ConfigOf(mux).streams, frames) && |frames| == mux.numSubframes + 1
    ensures var written := PutElement(mux, frames, more);
      ParseElement(BitsOf(Pack(written)), previous)
      == Outcome(ConfigOf(mux), false, more + Zeros(PadLength(written)))
  {
    hide PutConfig, PutSubframes, PutFlag, ParseElement, ConfigOf, MuxOk, Outcome, BitsOf, Pack;
    var streams := ConfigOf(mux).streams;
    var written := PutElement(mux, frames, more);
    var pad := Zeros(PadLength(written));
    PackPads(written);
    ElementRoundTrip(mux, frames, more + pad, previous);
    var payload := PutSubframes(streams, frames, more);
    SubframesAppend(streams, frames, more, pad);
    ConfigAppends(mux, payload, pad);
    FlagAppends(false, PutConfig(mux, payload), pad);
    assert PutElement(mux, frames, more + pad) == written + pad;
  }

  /** The bytes a writer packs for an element are accepted, with all of its counts. */
  lemma BytesRoundTrip(mux: Mux, frames: seq<seq<Bits>>, previous: Option<LatmConfig>)
    requires MuxOk(mux) && SubframesOk(ConfigOf(mux).streams, frames) && |frames| == mux.numSubframes + 1
    ensures ParseElement(BitsOf(Pack(PutElement(mux, frames, []))), previous)
            == Ok(ParsedMux(ConfigOf(mux), false, AccessUnits(ConfigOf(mux)), OutputSamples(ConfigOf(mux))))
  {
    hide ParseElement, PutElement, ConfigOf, MuxOk, BitsOf, Pack;
    BytesOutcome(mux, frames, [], previous);
    var pad := Zeros(PadLength(PutElement(mux, frames, [])));
    assert [] + pad == pad;
  }

  // ---------- other data

  function BigEndian(bytes: seq<nat>): nat {
    if bytes == [] then 0 else 256 * BigEndian(bytes[..|bytes| - 1]) + bytes[|bytes| - 1]
  }

  /** The number of bits of other data that a configuration announces. */
  function OtherBits(other: OtherData): nat {
    match other
    case NoOtherData => 0
    case EscapedLength(bytes) => BigEndian(bytes)
    case CountedLength(value, _) => value
  }

  /** An element that carries the other data it announces is accepted exactly when that data is
      all zero and, with the padding to whole bytes, at most seven bits long. */
  lemma OtherDataOutcome(mux: Mux, frames: seq<seq<Bits>>, other: Bits, previous: Option<LatmConfig>)
    requires MuxOk(mux) && SubframesOk(ConfigOf(mux).streams, frames) && |frames| == mux.numSubframes + 1
    requires |other| == OtherBits(mux.other)
    ensures var written := PutElement(mux, frames, other);
      ParseElement(BitsOf(Pack(written)), previous).Ok? <==> |other| + PadLength(written) <= 7 && AllFalse(other)
  {
    hide ParseElement, PutElement, ConfigOf, MuxOk, BitsOf, Pack;
    BytesOutcome(mux, frames, other, previous);
    var pad := Zeros(PadLength(PutElement(mux, frames, other)));
    assert AllFalse(other + pad) <==> AllFalse(other) by {
      if AllFalse(other + pad) {
        assert forall i :: 0 <= i < |other| ==> other[i] == (other + pad)[i];
      }
    }
  }

  /** One stream of AAC LC, with other data of eight bits announced. */
  const WITH_OTHER := Mux(Version0, true, 0, [[Layer(Some(PLAIN), 1, 0, Variable(0xff))]], EscapedLength([8]), None)

  lemma WithOtherOk()
    ensures MuxOk(WITH_OTHER) && SubframesOk(ConfigOf(WITH_OTHER).streams, [[[]]]) && OtherBits(WITH_OTHER.other) == 8
  {
    Powers();
    Pow2Sum(8, 6);
    assert AscOk(PLAIN);
    var layer := Layer(Some(PLAIN), 1, 0, Variable(0xff));
    assert LayerOk(layer, false, true);
    assert LayersOk([layer], false, true) && ProgramsOk([[layer]], false, true);
    assert StreamsAfter([layer], false, []) == [StreamOf(layer, false, [])];
    assert StreamsOf([[layer]], false, []) == [StreamOf(layer, false, [])];
    assert [8][..0] == [] && BigEndian([8]) == 8;
  }

  /** Eight bits of other data are refused, even when they are zero. */
  lemma OtherDataRefused(other: Bits, previous: Option<LatmConfig>)
    requires |other| == 8
    ensures MuxOk(WITH_OTHER) && SubframesOk(ConfigOf(WITH_OTHER).streams, [[[]]])
    ensures ParseElement(BitsOf(Pack(PutElement(WITH_OTHER, [[[]]], other))), previous).Err?
  {
    WithOtherOk();
    hide ParseElement, PutElement, ConfigOf, MuxOk, BitsOf, Pack, OtherBits, SubframesOk;
    OtherDataOutcome(WITH_OTHER, [[[]]], other, previous);
  }
}
