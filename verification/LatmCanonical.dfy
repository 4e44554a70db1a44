/** What the LATM parser accepts was written: each reader's input is the writer's output for some
    legal syntax with that meaning, so that acceptance of an element is decided by the writer. */
module LatmCanonical {
  import opened Wrappers
  import opened Basics
  import opened BitSyntax
  import opened EscapedValues
  import opened LatmSyntax
  import opened LatmRoundTrip

  // ---------- fields

  lemma CanonRead(bits: Bits, count: nat)
    requires Read(bits, count).Ok?
    ensures var (value, rest) := Read(bits, count).value; value < Pow2(count) && bits == Put(value, count, rest)
  {
    WrittenRead(bits, count);
  }

  lemma CanonFlag(bits: Bits)
    requires ReadFlag(bits).Ok?
    ensures var (flag, rest) := ReadFlag(bits).value; bits == PutFlag(flag, rest)
  {
  }

  lemma CanonSkip(bits: Bits, count: nat) returns (value: nat)
    requires count <= 64 && Skip(bits, count).Ok?
    ensures value < Pow2(count) && bits == Put(value, count, Skip(bits, count).value)
  {
    CanonRead(bits, count);
    value := Read(bits, count).value.0;
  }

  lemma CanonObjectType(bits: Bits)
    requires ReadObjectType(bits).Ok?
    ensures var (t, rest) := ReadObjectType(bits).value; t < 96 && t != 31 && bits == PutObjectType(t, rest)
  {
    Powers();
    hide Read, Put, Pow2;
    CanonRead(bits, 5);
    var (value, rest) := Read(bits, 5).value;
    if value == 31 {
      CanonRead(rest, 6);
      var (extended, after) := Read(rest, 6).value;
      assert extended < 64 && bits == Put(31, 5, Put(extended, 6, after));
    } else {
      assert value < 31;
    }
  }

  lemma CanonRate(bits: Bits) returns (rate: Rate)
    requires ReadSampleRate(bits).Ok?
    ensures var (hz, rest) := ReadSampleRate(bits).value;
            RateOk(rate) && Hz(rate) == hz && bits == PutRate(rate, rest)
  {
    Powers();
    hide Read, Put, Pow2;
    CanonRead(bits, 4);
    var (index, rest) := Read(bits, 4).value;
    if index == 15 {
      CanonRead(rest, 24);
      rate := Explicit(Read(rest, 24).value.0);
    } else {
      rate := Indexed(index);
    }
  }

  lemma CanonValue(bits: Bits) returns (bytes: nat)
    requires ReadValue(bits).Ok?
    ensures var (value, rest) := ReadValue(bits).value;
            1 <= bytes <= 4 && value < Pow2(8 * bytes) && bits == WriteValue(value, bytes) + rest
  {
    Powers();
    hide ToNat, FromNat, Pow2, Read;
    WrittenRead(bits, 2);
    var (count, after) := Read(bits, 2).value;
    bytes := count + 1;
    CanonBytes(after, bytes);
    Rejoined(FromNat(count, 2), after, 8 * bytes);
  }

  lemma CanonBytes(bits: Bits, bytes: nat)
    requires 8 * bytes <= |bits|
    ensures ToNat(bits[..8 * bytes]) < Pow2(8 * bytes)
    ensures FromNat(ToNat(bits[..8 * bytes]), 8 * bytes) == bits[..8 * bytes]
  {
    FromNatToNat(bits[..8 * bytes]);
  }

  lemma Rejoined(first: Bits, after: Bits, n: nat)
    requires n <= |after|
    ensures first + after == first + after[..n] + after[n..]
  {
    assert after == after[..n] + after[n..];
  }

  // ---------- AudioSpecificConfig

  lemma CanonHead(bits: Bits) returns (asc: Asc)
    requires ParseHead(bits).Ok?
    ensures var (head, rest) := ParseHead(bits).value;
      && bits == PutHead(asc, rest) && RateOk(asc.coreRate) && asc.sync.None?
      && head.explicitSbr == asc.hierarchy.Some? && head.objectType == asc.objectType
      && head.coreRate == Hz(asc.coreRate) && head.channels == asc.channels < 16
      && (asc.hierarchy.None? ==> head.outputRate == head.coreRate && !head.ps)
      && (asc.hierarchy.Some? ==>
            var h := asc.hierarchy.value;
            && RateOk(h.outputRate) && head.outputRate == Hz(h.outputRate) && head.ps == h.ps
            && h.outerChannels < 16 && (asc.objectType != 22 ==> h.outerChannels == asc.channels))
  {
    Powers();
    hide Read, Put, Pow2, ReadObjectType, ReadSampleRate, PutObjectType, PutRate, RateOk, Hz;
    CanonObjectType(bits);
    var (initial, b1) := ReadObjectType(bits).value;
    var coreRate := CanonRate(b1);
    var b2 := ReadSampleRate(b1).value.1;
    CanonRead(b2, 4);
    var (channels, b3) := Read(b2, 4).value;
    if initial != 5 && initial != 29 {
      asc := Asc(initial, coreRate, channels, None, false, None, 0, None, None);
    } else {
      var outputRate := CanonRate(b3);
      var b4 := ReadSampleRate(b3).value.1;
      CanonObjectType(b4);
      var (objectType, b5) := ReadObjectType(b4).value;
      var h := Hierarchy(initial == 29, outputRate, channels);
      if objectType != 22 {
        asc := Asc(objectType, coreRate, channels, Some(h), false, None, 0, None, None);
      } else {
        CanonRead(b5, 4);
        asc := Asc(objectType, coreRate, Read(b5, 4).value.0, Some(h), false, None, 0, None, None);
      }
    }
  }

  lemma PutNothing(rest: Bits)
    ensures Skip(rest, 0) == Ok(rest)
  {
  }

  lemma CanonExtension(objectType: nat, bits: Bits) returns (e: Extension)
    requires Skip(bits, ExtensionWidth(objectType)).Ok?
    ensures ExtensionOk(e) && bits == PutExtension(objectType, e, Skip(bits, ExtensionWidth(objectType)).value)
  {
    hide Put, Pow2, FromNat;
    Powers();
    var n := ExtensionWidth(objectType);
    e := Extension(0, 0, Resilience(false, false, false), bits[n - 1]);
    var rest := bits[n..];
    NothingFits();
    if n == 17 {
      var subframes := CanonSkip(bits, 5);
      var layerLength := CanonSkip(bits[5..], 11);
      assert bits[5..][11..] == PutFlag(e.version3, rest);
      e := e.(subframes := subframes, layerLength := layerLength);
    } else if n == 4 {
      e := e.(resilience := Resilience(bits[0], bits[1], bits[2]));
      assert bits == PutResilience(e.resilience, PutFlag(e.version3, rest));
    } else {
      assert bits == PutFlag(e.version3, rest);
    }
  }

  lemma NothingFits()
    ensures 0 < Pow2(5) && 0 < Pow2(11)
  {
  }

  /** The general-audio fields of `head`, filled in from the bits. */
  lemma CanonGeneral(bits: Bits, head: Asc) returns (asc: Asc)
    requires ParseGeneral(bits, head.objectType).Ok?
    ensures var (short, rest) := ParseGeneral(bits, head.objectType).value;
      && asc == head.(short := short, coreDelay := asc.coreDelay, layerNumber := asc.layerNumber,
                      extension := asc.extension)
      && bits == PutGeneral(asc, rest)
      && (asc.coreDelay.Some? ==> asc.coreDelay.value < Pow2(14)) && asc.layerNumber < Pow2(3)
      && (asc.extension.Some? ==> ExtensionOk(asc.extension.value))
  {
    Powers();
    hide ReadFlag, Skip, Put, PutFlag, Pow2, PutExtension, ExtensionWidth, ExtensionOk;
    var layered := head.objectType == 6 || head.objectType == 20;
    CanonFlag(bits);
    var (short, b1) := ReadFlag(bits).value;
    CanonFlag(b1);
    var (depends, b2) := ReadFlag(b1).value;
    var delay := CanonSkip(b2, if depends then 14 else 0);
    var b3 := Skip(b2, if depends then 14 else 0).value;
    CanonFlag(b3);
    var (extended, b4) := ReadFlag(b3).value;
    var layer := CanonSkip(b4, if layered then 3 else 0);
    var b5 := Skip(b4, if layered then 3 else 0).value;
    var extension: Option<Extension> := None;
    if extended {
      var e := CanonExtension(head.objectType, b5);
      extension := Some(e);
    }
    PutNothing(b2);
    PutNothing(b4);
    PutNothing(b5);
    asc := head.(short := short, coreDelay := if depends then Some(delay) else None,
                 layerNumber := if layered then layer else 0,
                 extension := extension);
  }

  predicate SyncOk(sync: Option<Sync>) {
    match sync
    case None => true
    case Some(OtherExtension(t)) => t < 96 && t != 5 && t != 31
    case Some(NoSbr) => true
    case Some(Sbr(outputRate, _)) => RateOk(outputRate)
  }

  lemma CanonPsSync(bits: Bits) returns (ps: Option<bool>)
    requires ParsePsSync(bits).Ok?
    ensures var (flag, rest) := ParsePsSync(bits).value;
      flag == (ps == Some(true)) && bits == if ps.None? then rest else Put(SYNC_PS, 11, PutFlag(ps.value, rest))
  {
    hide Read, Put, ReadFlag, PutFlag;
    ps := None;
    if |bits| >= 12 {
      SmallReads(bits);
      CanonRead(bits, 11);
      var (sync, rest) := Read(bits, 11).value;
      if sync == SYNC_PS {
        CanonFlag(rest);
        ps := Some(ReadFlag(rest).value.0);
      }
    }
  }

  lemma SmallReads(bits: Bits)
    requires |bits| >= 11
    ensures Read(bits, 11).Ok?
  {
  }

  lemma CanonSync(bits: Bits, coreRate: nat) returns (sync: Option<Sync>)
    requires ParseSync(bits, coreRate).Ok?
    ensures var (info, rest) := ParseSync(bits, coreRate).value;
      && SyncOk(sync) && bits == PutSync(sync, rest)
      && info == if sync.Some? && sync.value.Sbr?
                 then SyncInfo(true, Hz(sync.value.outputRate), sync.value.ps == Some(true))
                 else SyncInfo(false, coreRate, false)
  {
    hide Read, Put, ReadFlag, PutFlag, ReadObjectType, PutObjectType, ReadSampleRate, PutRate, ParsePsSync, Hz, RateOk;
    sync := None;
    if |bits| >= 16 {
      SmallReads(bits);
      CanonRead(bits, 11);
      var (word, b1) := Read(bits, 11).value;
      if word == SYNC_SBR {
        CanonObjectType(b1);
        var (t, b2) := ReadObjectType(b1).value;
        if t != 5 {
          sync := Some(OtherExtension(t));
        } else {
          CanonFlag(b2);
          var (sbr, b3) := ReadFlag(b2).value;
          if !sbr {
            sync := Some(NoSbr);
          } else {
            var rate := CanonRate(b3);
            var ps := CanonPsSync(ReadSampleRate(b3).value.1);
            sync := Some(Sbr(rate, ps));
          }
        }
      }
    }
  }

  lemma CanonAsc(bits: Bits) returns (asc: Asc)
    requires ParseAsc(bits).Ok?
    ensures AscOk(asc)
    ensures var (info, rest) := ParseAsc(bits).value; bits == PutAsc(asc, rest) && info == InfoOf(asc)
  {
    hide ParseHead, ParseGeneral, ParseSync, PutGeneral, PutSync, Pow2, Hz, RateOk, PutObjectType, PutRate, Put;
    Powers();
    var written := CanonHead(bits);
    var (head, b1) := ParseHead(bits).value;
    var general := CanonGeneral(b1, written);
    var b2 := ParseGeneral(b1, head.objectType).value.1;
    asc := general;
    if !head.explicitSbr {
      var sync := CanonSync(b2, head.coreRate);
      asc := general.(sync := sync);
    }
    SyncUnread(general, asc.sync, b2);
    assert PutHead(asc, b1) == PutHead(written, b1);
    NoSyncNoBits(b2);
  }

  /** The general-audio fields do not depend on the sync extension. */
  lemma SyncUnread(asc: Asc, sync: Option<Sync>, rest: Bits)
    ensures PutGeneral(asc.(sync := sync), rest) == PutGeneral(asc, rest)
  {
  }

  // ---------- layers and programs

  lemma CanonFraming(bits: Bits, info: AscInfo) returns (framing: Framing)
    requires ParseFraming(bits, info).Ok?
    ensures var (stream, rest) := ParseFraming(bits, info).value;
      && FramingOk(framing) && bits == PutFraming(framing, rest)
      && stream == match framing
                   case Variable(_) => LatmStream(info, 0, None)
                   case Fixed(length) => LatmStream(info, 1, Some(length))
  {
    hide Read, Put, Skip, Pow2;
    CanonRead(bits, 3);
    var (kind, b1) := Read(bits, 3).value;
    if kind == 0 {
      var fullness := CanonSkip(b1, 8);
      framing := Variable(fullness);
    } else {
      CanonRead(b1, 9);
      framing := Fixed(Read(b1, 9).value.0);
    }
  }

  lemma AllFalseIsZeros(bits: Bits)
    requires AllFalse(bits)
    ensures bits == Zeros(|bits|)
  {
  }

  lemma CanonBounded(bits: Bits) returns (asc: Asc, lengthBytes: nat, padding: nat)
    requires ParseBoundedAsc(bits).Ok?
    ensures AscOk(asc) && 1 <= lengthBytes <= 4 && |PutAsc(asc, Zeros(padding))| < Pow2(8 * lengthBytes)
    ensures var (info, rest) := ParseBoundedAsc(bits).value;
            info == InfoOf(asc) && bits == PutBounded(asc, lengthBytes, padding, rest)
  {
    hide ReadValue, WriteValue, ParseAsc, PutAsc, InfoOf, AscOk, Pow2;
    lengthBytes := CanonValue(bits);
    var (length, b1) := ReadValue(bits).value;
    asc := CanonAsc(b1[..length]);
    var rest := ParseAsc(b1[..length]).value.1;
    AllFalseIsZeros(rest);
    padding := |rest|;
    assert b1 == b1[..length] + b1[length..];
  }

  lemma CanonLayer(bits: Bits, version1: bool, streams: seq<LatmStream>) returns (layer: Layer)
    requires ParseLayer(bits, version1, streams).Ok?
    ensures LayerOk(layer, version1, streams == [])
    ensures var (stream, rest) := ParseLayer(bits, version1, streams).value;
            bits == PutLayer(layer, version1, streams == [], rest) && stream == StreamOf(layer, version1, streams)
  {
    hide ReadFlag, PutFlag, ParseBoundedAsc, PutBounded, ParseAsc, PutAsc, ParseFraming, PutFraming, AscOk, InfoOf,
         FramingOk, Pow2;
    var first := streams == [];
    if !first {
      CanonFlag(bits);
    }
    var (useSame, b1) := if first then (false, bits) else ReadFlag(bits).value;
    if useSame {
      var framing := CanonFraming(b1, streams[|streams| - 1].asc);
      layer := Layer(None, 1, 0, framing);
    } else if version1 {
      var asc, lengthBytes, padding := CanonBounded(b1);
      var (info, b2) := ParseBoundedAsc(b1).value;
      var framing := CanonFraming(b2, info);
      layer := Layer(Some(asc), lengthBytes, padding, framing);
    } else {
      var asc := CanonAsc(b1);
      var (info, b2) := ParseAsc(b1).value;
      var framing := CanonFraming(b2, info);
      layer := Layer(Some(asc), 1, 0, framing);
    }
  }

  lemma {:induction false} CanonLayers(bits: Bits, version1: bool, count: nat, streams: seq<LatmStream>)
    returns (layers: seq<Layer>)
    requires ParseLayers(bits, version1, count, streams).Ok?
    ensures |layers| == count && LayersOk(layers, version1, streams == [])
    ensures var (more, rest) := ParseLayers(bits, version1, count, streams).value;
            bits == PutLayers(layers, version1, streams == [], rest) && more == StreamsAfter(layers, version1, streams)
    decreases count
  {
    hide ParseLayer, PutLayer, LayerOk, StreamOf;
    layers := [];
    if count > 0 {
      var layer := CanonLayer(bits, version1, streams);
      var (stream, b1) := ParseLayer(bits, version1, streams).value;
      var others := CanonLayers(b1, version1, count - 1, streams + [stream]);
      layers := [layer] + others;
      assert layers[1..] == others;
    }
  }

  lemma ConsPrograms(first: seq<Layer>, others: seq<seq<Layer>>, version1: bool, leading: bool)
    requires 1 <= |first| <= 8 && LayersOk(first, version1, leading) && ProgramsOk(others, version1, false)
    ensures ([first] + others)[1..] == others && ProgramsOk([first] + others, version1, leading)
  {
    hide LayersOk;
  }

  lemma {:induction false} CanonPrograms(bits: Bits, version1: bool, count: nat, streams: seq<LatmStream>)
    returns (programs: seq<seq<Layer>>)
    requires ParsePrograms(bits, version1, count, streams).Ok?
    ensures |programs| == count && ProgramsOk(programs, version1, streams == [])
    ensures var (more, rest) := ParsePrograms(bits, version1, count, streams).value;
            && bits == PutPrograms(programs, version1, streams == [], rest)
            && more == StreamsOf(programs, version1, streams)
    decreases count
  {
    Powers();
    hide Read, Put, ParseLayers, PutLayers, LayersOk, StreamsAfter, Pow2;
    programs := [];
    if count > 0 {
      CanonRead(bits, 3);
      var (layers, b1) := Read(bits, 3).value;
      var first := CanonLayers(b1, version1, layers + 1, streams);
      var (more, b2) := ParseLayers(b1, version1, layers + 1, streams).value;
      MoreStreams(first, version1, streams);
      var others := CanonPrograms(b2, version1, count - 1, more);
      ConsPrograms(first, others, version1, streams == []);
      programs := [first] + others;
    }
  }

  lemma MoreStreams(layers: seq<Layer>, version1: bool, streams: seq<LatmStream>)
    requires LayersOk(layers, version1, streams == []) && layers != []
    ensures StreamsAfter(layers, version1, streams) != []
  {
  }

  // ---------- the whole configuration

  lemma {:induction false} CanonOtherLength(bits: Bits) returns (bytes: seq<nat>)
    requires SkipOtherLength(bits).Ok?
    ensures bytes != [] && forall i :: 0 <= i < |bytes| ==> bytes[i] < Pow2(8)
    ensures bits == PutEscaped(bytes, SkipOtherLength(bits).value)
    decreases |bits|
  {
    hide Put, PutFlag, Pow2;
    CanonFlag(bits);
    var (escape, b1) := ReadFlag(bits).value;
    var byte := CanonSkip(b1, 8);
    bytes := [byte];
    if escape {
      var others := CanonOtherLength(Skip(b1, 8).value);
      bytes := [byte] + others;
      assert bytes[1..] == others;
    } else {
      assert bytes[1..] == [];
    }
  }

  lemma CanonOptional(bits: Bits) returns (crc: Option<nat>)
    requires ReadFlag(bits).Ok? && Skip(ReadFlag(bits).value.1, if ReadFlag(bits).value.0 then 8 else 0).Ok?
    ensures bits == PutOptional(crc, 8, Skip(ReadFlag(bits).value.1, if ReadFlag(bits).value.0 then 8 else 0).value)
    ensures crc.Some? ==> crc.value < Pow2(8)
  {
    hide ReadFlag, PutFlag, Put, Skip, Pow2;
    CanonFlag(bits);
    var (flag, rest) := ReadFlag(bits).value;
    var value := CanonSkip(rest, if flag then 8 else 0);
    PutNothing(rest);
    crc := if flag then Some(value) else None;
  }

  lemma CanonTrailer(bits: Bits, version: Version) returns (other: OtherData, crc: Option<nat>)
    requires ParseTrailer(bits, version.Version1?).Ok?
    ensures forall mux: Mux :: mux.version == version && mux.other == other && mux.crc == crc ==>
              OtherOk(mux) && bits == PutTrailer(mux, ParseTrailer(bits, version.Version1?).value)
    ensures crc.Some? ==> crc.value < Pow2(8)
  {
    hide ReadFlag, PutFlag, ReadValue, WriteValue, SkipOtherLength, PutEscaped, PutOptional, Skip, Pow2;
    CanonFlag(bits);
    var (present, b1) := ReadFlag(bits).value;
    var b2 := b1;
    other := NoOtherData;
    if present && version.Version1? {
      var width := CanonValue(b1);
      var (value, after) := ReadValue(b1).value;
      other, b2 := CountedLength(value, width), after;
    } else if present {
      var bytes := CanonOtherLength(b1);
      other, b2 := EscapedLength(bytes), SkipOtherLength(b1).value;
    }
    crc := CanonOptional(b2);
  }

  lemma CanonVersion(bits: Bits) returns (version: Version)
    requires ParseVersion(bits).Ok?
    ensures var (version1, rest) := ParseVersion(bits).value;
            VersionOk(version) && version.Version1? == version1 && bits == PutVersion(version, rest)
  {
    hide ReadFlag, PutFlag, ReadValue, WriteValue, Pow2;
    CanonFlag(bits);
    var (version1, b1) := ReadFlag(bits).value;
    version := Version0;
    if version1 {
      CanonFlag(b1);
      var b2 := ReadFlag(b1).value.1;
      var bytes := CanonValue(b2);
      version := Version1(ReadValue(b2).value.0, bytes);
    }
  }

  lemma CanonConfig(bits: Bits) returns (mux: Mux)
    requires ParseConfig(bits).Ok?
    ensures MuxOk(mux)
    ensures var (config, rest) := ParseConfig(bits).value; config == ConfigOf(mux) && bits == PutConfig(mux, rest)
  {
    Powers();
    hide Read, Put, ReadFlag, PutFlag, ParseVersion, PutVersion, ParsePrograms, PutPrograms, ParseTrailer, PutTrailer,
         VersionOk, OtherOk, ProgramsOk, StreamsOf, Pow2;
    var version := CanonVersion(bits);
    var (version1, b1) := ParseVersion(bits).value;
    CanonFlag(b1);
    var (sameTiming, b2) := ReadFlag(b1).value;
    CanonRead(b2, 6);
    var (subframes, b3) := Read(b2, 6).value;
    CanonRead(b3, 4);
    var (count, b4) := Read(b3, 4).value;
    var programs := CanonPrograms(b4, version1, count + 1, []);
    var b5 := ParsePrograms(b4, version1, count + 1, []).value.1;
    var other, crc := CanonTrailer(b5, version);
    mux := Mux(version, sameTiming, subframes, programs, other, crc);
  }

  // ---------- payloads

  lemma CanonPayload(bits: Bits, stream: LatmStream) returns (payload: Bits)
    requires SkipPayload(bits, stream).Ok?
    ensures PayloadOk(stream, payload) && bits == PutPayload(stream, payload, SkipPayload(bits, stream).value)
  {
    hide ReadLength, WriteLength;
    if stream.frameLengthType == 0 {
      LengthCanonical(bits);
      var (length, rest) := ReadLength(bits).value;
      payload := rest[..8 * length];
      assert rest == payload + rest[8 * length..];
    } else {
      var n := 8 * stream.fixedLength.value;
      payload := bits[..n];
      assert bits == payload + bits[n..];
    }
  }

  lemma {:induction false} CanonSubframe(bits: Bits, streams: seq<LatmStream>) returns (payloads: seq<Bits>)
    requires SkipSubframe(bits, streams).Ok?
    ensures SubframeOk(streams, payloads) && bits == PutSubframe(streams, payloads, SkipSubframe(bits, streams).value)
    decreases |streams|
  {
    hide SkipPayload, PutPayload, PayloadOk;
    payloads := [];
    if streams != [] {
      var payload := CanonPayload(bits, streams[0]);
      var others := CanonSubframe(SkipPayload(bits, streams[0]).value, streams[1..]);
      payloads := [payload] + others;
      assert payloads[1..] == others;
      forall i | 0 <= i < |streams|
        ensures PayloadOk(streams[i], payloads[i])
      {
        if i > 0 {
          assert PayloadOk(streams[1..][i - 1], others[i - 1]);
        }
      }
    }
  }

  lemma {:induction false} CanonSubframes(bits: Bits, count: nat, streams: seq<LatmStream>)
      returns (frames: seq<seq<Bits>>)
    requires SkipSubframes(bits, count, streams).Ok?
    ensures |frames| == count && SubframesOk(streams, frames)
    ensures bits == PutSubframes(streams, frames, SkipSubframes(bits, count, streams).value)
    decreases count
  {
    hide SkipSubframe, PutSubframe, SubframeOk;
    frames := [];
    if count > 0 {
      var payloads := CanonSubframe(bits, streams);
      var others := CanonSubframes(SkipSubframe(bits, streams).value, count - 1, streams);
      frames := [payloads] + others;
      assert frames[1..] == others;
    }
  }

  // ---------- elements

  /** An element with its own configuration, padded with at most seven zeros. */
  ghost predicate IsNewElement(bits: Bits, parsed: ParsedMux, mux: Mux, frames: seq<seq<Bits>>, pad: nat) {
    && MuxOk(mux) && SubframesOk(ConfigOf(mux).streams, frames) && |frames| == mux.numSubframes + 1 && pad <= 7
    && bits == PutElement(mux, frames, Zeros(pad))
    && parsed == ParsedMux(ConfigOf(mux), false, AccessUnits(ConfigOf(mux)), OutputSamples(ConfigOf(mux)))
  }

  /** An element that repeats the configuration before it. */
  ghost predicate IsRepeat(bits: Bits, config: LatmConfig, parsed: ParsedMux, frames: seq<seq<Bits>>, pad: nat) {
    && 1 <= |config.streams| <= MAX_LATM_STREAMS
    && SubframesOk(config.streams, frames) && |frames| == config.numSubframes + 1 && pad <= 7
    && bits == PutFlag(true, PutSubframes(config.streams, frames, Zeros(pad)))
    && parsed == ParsedMux(config, true, AccessUnits(config), OutputSamples(config))
  }

  lemma AcceptedWasWritten(bits: Bits, previous: Option<LatmConfig>)
    requires ParseElement(bits, previous).Ok?
    ensures var parsed := ParseElement(bits, previous).value;
      if parsed.usedSameConfig then
        previous.Some? && exists frames, pad :: IsRepeat(bits, previous.value, parsed, frames, pad)
      else exists mux, frames, pad :: IsNewElement(bits, parsed, mux, frames, pad)
  {
    hide ReadFlag, PutFlag, ParseConfig, PutConfig, SkipSubframes, PutSubframes, SubframesOk, MuxOk, StreamsOf,
         AccessUnits, OutputSamples, AllFalse;
    var parsed := ParseElement(bits, previous).value;
    CanonFlag(bits);
    var (useSame, b1) := ReadFlag(bits).value;
    if useSame {
      var config := previous.value;
      var frames := CanonSubframes(b1, config.numSubframes + 1, config.streams);
      var tail := SkipSubframes(b1, config.numSubframes + 1, config.streams).value;
      AllFalseIsZeros(tail);
      assert IsRepeat(bits, config, parsed, frames, |tail|);
    } else {
      var mux := CanonConfig(b1);
      var (config, b2) := ParseConfig(b1).value;
      var frames := CanonSubframes(b2, config.numSubframes + 1, config.streams);
      var tail := SkipSubframes(b2, config.numSubframes + 1, config.streams).value;
      AllFalseIsZeros(tail);
      assert IsNewElement(bits, parsed, mux, frames, |tail|);
    }
  }

  /** Exactly the elements that can be written are accepted, each with its own outcome. */
  lemma AcceptedIff(bits: Bits, previous: Option<LatmConfig>, parsed: ParsedMux)
    ensures ParseElement(bits, previous) == Ok(parsed) <==>
      || (previous.Some? && exists frames, pad :: IsRepeat(bits, previous.value, parsed, frames, pad))
      || (exists mux, frames, pad :: IsNewElement(bits, parsed, mux, frames, pad))
  {
    hide ParseElement, PutElement, ConfigOf, MuxOk, SubframesOk, PutSubframes, PutFlag, AccessUnits, OutputSamples;
    if ParseElement(bits, previous).Ok? {
      AcceptedWasWritten(bits, previous);
    }
    if mux, frames, pad :| IsNewElement(bits, parsed, mux, frames, pad) {
      ElementRoundTrip(mux, frames, Zeros(pad), previous);
    }
    if previous.Some? {
      if frames, pad :| IsRepeat(bits, previous.value, parsed, frames, pad) {
        RepeatRoundTrip(previous.value, frames, Zeros(pad));
      }
    }
  }
}
