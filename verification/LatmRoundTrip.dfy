/** A writer for LATM multiplexes, and the proof that parsing inverts it. Every writer takes
    the bits that follow, so that each reader can be shown to stop exactly there. */
module LatmRoundTrip {
  import opened Wrappers
  import opened Basics
  import opened BitSyntax
  import opened EscapedValues
  import opened LatmSyntax

  // ---------- what can be written

  datatype Rate = Indexed(index: nat) | Explicit(hz: nat)

  /** SBR announced ahead of the core by object type 5 or 29. Only an ER BSAC core repeats its
      channel configuration, and then the outer one is ignored. */
  datatype Hierarchy = Hierarchy(ps: bool, outputRate: Rate, outerChannels: nat)

  datatype Sync = OtherExtension(objectType: nat) | NoSbr | Sbr(outputRate: Rate, ps: Option<bool>)

  datatype Resilience = Resilience(sections: bool, scalefactors: bool, spectrum: bool)

  /** The extension of the general-audio fields: for ER BSAC the subframes and the layer's length,
      for the other resilient types three flags, and one flag in any case. */
  datatype Extension = Extension(subframes: nat, layerLength: nat, resilience: Resilience, version3: bool)

  datatype Asc = Asc(
    objectType: nat,
    coreRate: Rate,
    channels: nat,
    hierarchy: Option<Hierarchy>,
    short: bool,
    coreDelay: Option<nat>,
    layerNumber: nat,
    extension: Option<Extension>,
    sync: Option<Sync>)

  datatype Framing = Variable(bufferFullness: nat) | Fixed(length: nat)

  /** A layer repeats the previous stream's ASC when it has none of its own. `lengthBytes` and
      `padding` belong to version 1, where the ASC's length in bits is written ahead of it. */
  datatype Layer = Layer(own: Option<Asc>, lengthBytes: nat, padding: nat, framing: Framing)

  datatype Version = Version0 | Version1(taraFullness: nat, taraBytes: nat)

  datatype OtherData = NoOtherData | EscapedLength(bytes: seq<nat>) | CountedLength(value: nat, width: nat)

  datatype Mux = Mux(
    version: Version,
    sameTiming: bool,
    numSubframes: nat,
    programs: seq<seq<Layer>>,
    other: OtherData,
    crc: Option<nat>)

  // ---------- writers

  function Put(value: nat, count: nat, rest: Bits): Bits {
    FromNat(value, count) + rest
  }

  function PutFlag(flag: bool, rest: Bits): Bits {
    [flag] + rest
  }

  function PutObjectType(t: nat, rest: Bits): Bits {
    if t < 31 then Put(t, 5, rest) else if t < 32 then rest else Put(31, 5, Put(t - 32, 6, rest))
  }

  function PutRate(rate: Rate, rest: Bits): Bits {
    match rate
    case Indexed(index) => Put(index, 4, rest)
    case Explicit(hz) => Put(15, 4, Put(hz, 24, rest))
  }

  function PutOptional(value: Option<nat>, count: nat, rest: Bits): Bits {
    if value.Some? then PutFlag(true, Put(value.value, count, rest)) else PutFlag(false, rest)
  }

  function PutHead(asc: Asc, rest: Bits): Bits {
    if asc.hierarchy.None? then
      PutObjectType(asc.objectType, PutRate(asc.coreRate, Put(asc.channels, 4, rest)))
    else
      var h := asc.hierarchy.value;
      var inner := if asc.objectType == 22 then Put(asc.channels, 4, rest) else rest;
      PutObjectType(if h.ps then 29 else 5, PutRate(asc.coreRate, Put(h.outerChannels, 4,
        PutRate(h.outputRate, PutObjectType(asc.objectType, inner)))))
  }

  function PutExtension(objectType: nat, e: Extension, rest: Bits): Bits {
    var last := PutFlag(e.version3, rest);
    match objectType
    case 22 => Put(e.subframes, 5, Put(e.layerLength, 11, last))
    case 17 => PutResilience(e.resilience, last)
    case 19 => PutResilience(e.resilience, last)
    case 20 => PutResilience(e.resilience, last)
    case 23 => PutResilience(e.resilience, last)
    case _ => last
  }

  function PutResilience(r: Resilience, rest: Bits): Bits {
    PutFlag(r.sections, PutFlag(r.scalefactors, PutFlag(r.spectrum, rest)))
  }

  function PutGeneral(asc: Asc, rest: Bits): Bits {
    var extension := if asc.extension.None? then rest
                     else PutExtension(asc.objectType, asc.extension.value, rest);
    var layered := if asc.objectType == 6 || asc.objectType == 20 then Put(asc.layerNumber, 3, extension)
                   else extension;
    PutFlag(asc.short, PutOptional(asc.coreDelay, 14, PutFlag(asc.extension.Some?, layered)))
  }

  function PutSync(sync: Option<Sync>, rest: Bits): Bits {
    match sync
    case None => rest
    case Some(OtherExtension(t)) => Put(SYNC_SBR, 11, PutObjectType(t, rest))
    case Some(NoSbr) => Put(SYNC_SBR, 11, PutObjectType(5, PutFlag(false, rest)))
    case Some(Sbr(outputRate, ps)) =>
      var psBits := if ps.None? then rest else Put(SYNC_PS, 11, PutFlag(ps.value, rest));
      Put(SYNC_SBR, 11, PutObjectType(5, PutFlag(true, PutRate(outputRate, psBits))))
  }

  function PutAsc(asc: Asc, rest: Bits): Bits {
    PutHead(asc, PutGeneral(asc, PutSync(asc.sync, rest)))
  }

  // ---------- legality and meaning of a configuration

  predicate RateOk(rate: Rate) {
    match rate
    case Indexed(index) => index < |SAMPLE_RATES|
    case Explicit(hz) => 0 < hz < 0x100_0000
  }

  function Hz(rate: Rate): nat
    requires RateOk(rate)
  {
    match rate
    case Indexed(index) => SAMPLE_RATES[index]
    case Explicit(hz) => hz
  }

  predicate ExtensionOk(e: Extension) {
    e.subframes < Pow2(5) && e.layerLength < Pow2(11)
  }

  predicate AscOk(asc: Asc) {
    && SupportedObjectType(asc.objectType) && RateOk(asc.coreRate) && 1 <= asc.channels <= 7
    && (asc.coreDelay.Some? ==> asc.coreDelay.value < Pow2(14))
    && asc.layerNumber < Pow2(3)
    && (asc.extension.Some? ==> ExtensionOk(asc.extension.value))
    && (asc.hierarchy.Some? ==>
          var h := asc.hierarchy.value;
          && asc.sync.None? && RateOk(h.outputRate) && Hz(h.outputRate) >= Hz(asc.coreRate)
          && h.outerChannels < Pow2(4) && (asc.objectType != 22 ==> h.outerChannels == asc.channels))
    && (asc.sync.Some? ==>
          match asc.sync.value
          case OtherExtension(t) => t < 96 && t != 5 && t != 31
          case NoSbr => true
          case Sbr(outputRate, _) => RateOk(outputRate) && Hz(outputRate) >= Hz(asc.coreRate))
  }

  function SyncInfoOf(asc: Asc): SyncInfo
    requires AscOk(asc)
  {
    if asc.hierarchy.Some? then SyncInfo(true, Hz(asc.hierarchy.value.outputRate), asc.hierarchy.value.ps)
    else if asc.sync.Some? && asc.sync.value.Sbr? then
      SyncInfo(true, Hz(asc.sync.value.outputRate), asc.sync.value.ps == Some(true))
    else SyncInfo(false, Hz(asc.coreRate), false)
  }

  function InfoOf(asc: Asc): AscInfo
    requires AscOk(asc)
  {
    var sync := SyncInfoOf(asc);
    var core := if asc.short then 960 else 1024;
    AscInfo(asc.objectType, Hz(asc.coreRate), sync.outputRate, asc.channels,
            if sync.ps then Some(2) else if asc.channels == 7 then Some(8) else Some(asc.channels),
            sync.sbr, sync.ps, if sync.sbr then 2 * core else core)
  }

  /** The bits after the configuration do not look like a sync extension where one could be. */
  predicate NoFalseSync(asc: Asc, rest: Bits) {
    && (asc.hierarchy.None? && asc.sync.None? ==> |rest| < 16 || ToNat(rest[..11]) != SYNC_SBR)
    && (asc.sync.Some? && asc.sync.value.Sbr? && asc.sync.value.ps.None? ==>
          |rest| < 12 || ToNat(rest[..11]) != SYNC_PS)
  }

  // ---------- readers stop where the writers stopped

  lemma GetPut(value: nat, count: nat, rest: Bits)
    requires value < Pow2(count) && count <= 64
    ensures Read(Put(value, count, rest), count) == Ok((value, rest))
    ensures Skip(Put(value, count, rest), count) == Ok(rest)
  {
    ReadWritten(value, count, rest);
  }

  lemma Powers()
    ensures Pow2(2) == 4 && Pow2(3) == 8 && Pow2(4) == 16 && Pow2(5) == 32 && Pow2(6) == 64
    ensures Pow2(8) == 0x100 && Pow2(9) == 0x200 && Pow2(11) == 0x800 && Pow2(24) == 0x100_0000
  {
    assert Pow2(2) == 4 && Pow2(4) == 16 && Pow2(8) == 0x100;
    Pow2Sum(2, 1);
    Pow2Sum(4, 1);
    Pow2Sum(4, 2);
    Pow2Sum(8, 1);
    Pow2Sum(8, 3);
    Pow2Sum(8, 8);
    Pow2Sum(16, 8);
  }

  lemma GetObjectType(t: nat, rest: Bits)
    requires t < 96 && t != 31
    ensures ReadObjectType(PutObjectType(t, rest)) == Ok((t, rest))
  {
    Powers();
    hide Read, FromNat, Pow2;
    if t < 31 {
      GetPut(t, 5, rest);
    } else {
      GetPut(31, 5, Put(t - 32, 6, rest));
      GetPut(t - 32, 6, rest);
    }
  }

  lemma GetRate(rate: Rate, rest: Bits)
    requires RateOk(rate)
    ensures ReadSampleRate(PutRate(rate, rest)) == Ok((Hz(rate), rest))
  {
    Powers();
    hide Read, FromNat, Pow2;
    match rate
    case Indexed(index) => GetPut(index, 4, rest);
    case Explicit(hz) =>
      GetPut(15, 4, Put(hz, 24, rest));
      GetPut(hz, 24, rest);
  }

  lemma GetFlag(flag: bool, rest: Bits)
    ensures ReadFlag(PutFlag(flag, rest)) == Ok((flag, rest))
  {
  }

  lemma SkipNothing(bits: Bits)
    ensures Skip(bits, 0) == Ok(bits)
  {
  }

  lemma GetHead(asc: Asc, rest: Bits)
    requires AscOk(asc)
    ensures ParseHead(PutHead(asc, rest)) == Ok((
      AscHead(asc.hierarchy.Some?, asc.objectType, Hz(asc.coreRate),
              if asc.hierarchy.Some? then Hz(asc.hierarchy.value.outputRate) else Hz(asc.coreRate),
              asc.channels, asc.hierarchy.Some? && asc.hierarchy.value.ps), rest))
  {
    Powers();
    hide Read, FromNat, Pow2, ReadObjectType, ReadSampleRate, PutObjectType, PutRate, Put;
    if asc.hierarchy.None? {
      var b2 := Put(asc.channels, 4, rest);
      GetObjectType(asc.objectType, PutRate(asc.coreRate, b2));
      GetRate(asc.coreRate, b2);
      GetPut(asc.channels, 4, rest);
    } else {
      var h := asc.hierarchy.value;
      var inner := if asc.objectType == 22 then Put(asc.channels, 4, rest) else rest;
      var b4 := PutObjectType(asc.objectType, inner);
      var b3 := PutRate(h.outputRate, b4);
      var b2 := Put(h.outerChannels, 4, b3);
      GetObjectType(if h.ps then 29 else 5, PutRate(asc.coreRate, b2));
      GetRate(asc.coreRate, b2);
      GetPut(h.outerChannels, 4, b3);
      GetRate(h.outputRate, b4);
      GetObjectType(asc.objectType, inner);
      GetPut(asc.channels, 4, rest);
    }
  }

  lemma GetExtension(objectType: nat, e: Extension, rest: Bits)
    ensures Skip(PutExtension(objectType, e, rest), ExtensionWidth(objectType)) == Ok(rest)
  {
    hide FromNat, Skip, PutResilience, Put, PutFlag;
    FlagsAre(e, rest);
    LayersAre(e, rest);
    SkipWritten([e.version3], rest);
  }

  lemma FlagsAre(e: Extension, rest: Bits)
    ensures Skip(PutResilience(e.resilience, PutFlag(e.version3, rest)), 4) == Ok(rest)
    ensures PutFlag(e.version3, rest) == [e.version3] + rest
  {
    hide Skip;
    var flags := [e.resilience.sections, e.resilience.scalefactors, e.resilience.spectrum, e.version3];
    assert PutResilience(e.resilience, PutFlag(e.version3, rest)) == flags + rest;
    SkipWritten(flags, rest);
  }

  lemma LayersAre(e: Extension, rest: Bits)
    ensures Skip(Put(e.subframes, 5, Put(e.layerLength, 11, PutFlag(e.version3, rest))), 17) == Ok(rest)
  {
    hide Skip, FromNat;
    var layers := FromNat(e.subframes, 5) + FromNat(e.layerLength, 11) + [e.version3];
    assert Put(e.subframes, 5, Put(e.layerLength, 11, PutFlag(e.version3, rest))) == layers + rest;
    SkipWritten(layers, rest);
  }

  lemma GetGeneral(asc: Asc, rest: Bits)
    requires AscOk(asc)
    ensures ParseGeneral(PutGeneral(asc, rest), asc.objectType) == Ok((asc.short, rest))
  {
    hide Read, FromNat, ReadFlag, Skip, Pow2, Put, PutFlag, PutExtension, ExtensionWidth;
    var extension := if asc.extension.None? then rest else PutExtension(asc.objectType, asc.extension.value, rest);
    var layered := if asc.objectType == 6 || asc.objectType == 20 then Put(asc.layerNumber, 3, extension)
                   else extension;
    var flagged := PutFlag(asc.extension.Some?, layered);
    GetFlag(asc.short, PutOptional(asc.coreDelay, 14, flagged));
    if asc.coreDelay.Some? {
      GetFlag(true, Put(asc.coreDelay.value, 14, flagged));
      GetPut(asc.coreDelay.value, 14, flagged);
    } else {
      GetFlag(false, flagged);
      SkipNothing(flagged);
    }
    GetFlag(asc.extension.Some?, layered);
    GetPut(asc.layerNumber, 3, extension);
    SkipNothing(extension);
    if asc.extension.Some? {
      GetExtension(asc.objectType, asc.extension.value, rest);
    }
    SkipNothing(rest);
  }

  lemma ObjectTypeShortens(bits: Bits)
    ensures ReadObjectType(bits).Ok? ==> |ReadObjectType(bits).value.1| < |bits|
  {
  }

  lemma RateShortens(bits: Bits)
    ensures ReadSampleRate(bits).Ok? ==> |ReadSampleRate(bits).value.1| < |bits|
  {
  }

  lemma PsSyncShortens(bits: Bits)
    ensures ParsePsSync(bits).Ok? ==> |ParsePsSync(bits).value.1| <= |bits|
    ensures |bits| >= 12 && ToNat(bits[..11]) == SYNC_PS && ParsePsSync(bits).Ok? ==>
              |ParsePsSync(bits).value.1| < |bits|
    ensures !(|bits| >= 12 && ToNat(bits[..11]) == SYNC_PS) ==> ParsePsSync(bits) == Ok((false, bits))
  {
  }

  /** A sync extension that is there is consumed; one that is not leaves the bits alone. */
  lemma SyncShortens(bits: Bits, coreRate: nat)
    ensures !(|bits| >= 16 && ToNat(bits[..11]) == SYNC_SBR) ==>
              ParseSync(bits, coreRate) == Ok((SyncInfo(false, coreRate, false), bits))
    ensures |bits| >= 16 && ToNat(bits[..11]) == SYNC_SBR && ParseSync(bits, coreRate).Ok? ==>
              |ParseSync(bits, coreRate).value.1| < |bits|
  {
    hide ReadObjectType, ReadSampleRate, ParsePsSync, ToNat;
    if |bits| >= 16 && ToNat(bits[..11]) == SYNC_SBR {
      var b1 := bits[11..];
      ObjectTypeShortens(b1);
      if ReadObjectType(b1).Ok? && ReadObjectType(b1).value.1 != [] {
        var b3 := ReadObjectType(b1).value.1[1..];
        RateShortens(b3);
        if ReadSampleRate(b3).Ok? {
          PsSyncShortens(ReadSampleRate(b3).value.1);
        }
      }
    }
  }

  lemma GetPsSync(ps: Option<bool>, rest: Bits)
    ensures var bits := if ps.None? then rest else Put(SYNC_PS, 11, PutFlag(ps.value, rest));
      ParsePsSync(bits) == Ok((ps == Some(true), rest)) <==>
      ps.Some? || |rest| < 12 || ToNat(rest[..11]) != SYNC_PS
  {
    Powers();
    PsSyncShortens(rest);
    if ps.Some? {
      hide ToNat, FromNat, Read, Pow2;
      var flagged := PutFlag(ps.value, rest);
      GetPut(SYNC_PS, 11, flagged);
      GetFlag(ps.value, rest);
      assert |Put(SYNC_PS, 11, flagged)| == 11 + 1 + |rest|;
    }
  }

  lemma PutSyncLength(t: nat, rest: Bits)
    requires t < 96 && t != 31
    ensures |Put(SYNC_SBR, 11, PutObjectType(t, rest))| >= 16
  {
  }

  lemma GetSync(asc: Asc, rest: Bits)
    requires AscOk(asc) && asc.hierarchy.None?
    ensures ParseSync(PutSync(asc.sync, rest), Hz(asc.coreRate)) == Ok((SyncInfoOf(asc), rest)) <==>
            NoFalseSync(asc, rest)
  {
    Powers();
    hide ToNat, FromNat, Read, Pow2, ReadObjectType, ReadSampleRate, ParsePsSync, PutObjectType, PutRate, Put;
    SyncShortens(rest, Hz(asc.coreRate));
    match asc.sync
    case None =>
    case Some(OtherExtension(t)) =>
      PutSyncLength(t, rest);
      GetPut(SYNC_SBR, 11, PutObjectType(t, rest));
      GetObjectType(t, rest);
    case Some(NoSbr) =>
      PutSyncLength(5, PutFlag(false, rest));
      GetPut(SYNC_SBR, 11, PutObjectType(5, PutFlag(false, rest)));
      GetObjectType(5, PutFlag(false, rest));
      GetFlag(false, rest);
    case Some(Sbr(outputRate, ps)) =>
      var psBits := if ps.None? then rest else Put(SYNC_PS, 11, PutFlag(ps.value, rest));
      var rated := PutFlag(true, PutRate(outputRate, psBits));
      PutSyncLength(5, rated);
      GetPut(SYNC_SBR, 11, PutObjectType(5, rated));
      GetObjectType(5, rated);
      GetFlag(true, PutRate(outputRate, psBits));
      GetRate(outputRate, psBits);
      GetPsSync(ps, rest);
      assert ParseSync(PutSync(asc.sync, rest), Hz(asc.coreRate)) ==
             match ParsePsSync(psBits)
             case Ok(pair) => Ok((SyncInfo(true, Hz(outputRate), pair.0), pair.1))
             case Err(e) => Err(e);
  }

  /** An AudioSpecificConfig is read back exactly when what follows it cannot be mistaken for a
      sync extension. */
  lemma AscRoundTrip(asc: Asc, rest: Bits)
    requires AscOk(asc)
    ensures ParseAsc(PutAsc(asc, rest)) == Ok((InfoOf(asc), rest)) <==> NoFalseSync(asc, rest)
  {
    hide ParseHead, ParseGeneral, ParseSync, PutHead, PutGeneral, PutSync, ToNat, Pow2;
    var b2 := PutSync(asc.sync, rest);
    var b1 := PutGeneral(asc, b2);
    GetHead(asc, b1);
    GetGeneral(asc, b2);
    assert InfoOf(asc) == InfoFrom(ParseHead(PutHead(asc, b1)).value.0, asc.short, SyncInfoOf(asc));
    if asc.hierarchy.None? {
      GetSync(asc, rest);
      var synced := ParseSync(b2, Hz(asc.coreRate));
      if synced.Ok? && InfoFrom(ParseHead(PutHead(asc, b1)).value.0, asc.short, synced.value.0) == InfoOf(asc) {
        assert synced.value.0 == SyncInfoOf(asc);
      }
    } else {
      NoSyncNoBits(rest);
    }
  }

  /** AAC LC in stereo at 48 kHz, as plainly as it can be written. */
  const PLAIN := Asc(2, Indexed(3), 2, None, false, None, 0, None, None)

  /** It is misread ahead of the eleven bits of the sync word and five more, whatever they are. */
  lemma AscMisread(more: Bits)
    requires |more| >= 5
    ensures AscOk(PLAIN)
    ensures ParseAsc(PutAsc(PLAIN, Put(SYNC_SBR, 11, more))) != Ok((InfoOf(PLAIN), Put(SYNC_SBR, 11, more)))
  {
    Powers();
    hide ParseAsc, PutAsc, InfoOf, FromNat, ToNat, Pow2;
    var rest := Put(SYNC_SBR, 11, more);
    GetPut(SYNC_SBR, 11, more);
    assert |rest| >= 16 && ToNat(rest[..11]) == SYNC_SBR;
    AscRoundTrip(PLAIN, rest);
  }

  lemma NoSyncNoBits(rest: Bits)
    ensures PutSync(None, rest) == rest
  {
  }

  // ---------- the sync peek inside a multiplex

  /** Bits that start like a legal frameLengthType, 000 or 001. */
  predicate LooksFramed(bits: Bits) {
    |bits| >= 3 && !bits[0] && !bits[1]
  }

  /** Neither sync word can be read where a frame length type is written. */
  lemma FramingIsNoSync(bits: Bits)
    requires LooksFramed(bits) && |bits| >= 11
    ensures ToNat(bits[..11]) != SYNC_SBR && ToNat(bits[..11]) != SYNC_PS
  {
    FromNatToNat(bits[..11]);
    SyncBits();
    assert bits[..11][0] == bits[0] && bits[..11][1] == bits[1];
  }

  lemma SyncBits()
    ensures FromNat(SYNC_SBR, 11)[1] && FromNat(SYNC_PS, 11)[0]
  {
    BitOfNat(SYNC_SBR, 11, 1);
    BitOfNat(SYNC_PS, 11, 0);
    Powers();
    Pow2Sum(8, 1);
    Pow2Sum(8, 2);
  }

  lemma FramedMeansNoFalseSync(asc: Asc, rest: Bits)
    requires AscOk(asc) && LooksFramed(rest)
    ensures NoFalseSync(asc, rest)
  {
    if |rest| >= 11 {
      FramingIsNoSync(rest);
    }
  }

  lemma {:induction false} ZerosHaveNoValue(bits: Bits)
    requires AllFalse(bits)
    ensures ToNat(bits) == 0
  {
    if bits != [] {
      ZerosHaveNoValue(bits[..|bits| - 1]);
    }
  }

  lemma ZerosAreNoSync(asc: Asc, rest: Bits)
    requires AscOk(asc) && AllFalse(rest)
    ensures NoFalseSync(asc, rest)
  {
    if |rest| >= 11 {
      ZerosHaveNoValue(rest[..11]);
    }
  }

  // ---------- layers and programs

  function PutFraming(framing: Framing, rest: Bits): Bits {
    match framing
    case Variable(bufferFullness) => Put(0, 3, Put(bufferFullness, 8, rest))
    case Fixed(length) => Put(1, 3, Put(length, 9, rest))
  }

  predicate FramingOk(framing: Framing) {
    match framing
    case Variable(bufferFullness) => bufferFullness < Pow2(8)
    case Fixed(length) => length < Pow2(9)
  }

  function PutBounded(asc: Asc, lengthBytes: nat, padding: nat, rest: Bits): Bits
    requires 1 <= lengthBytes <= 4
  {
    var body := PutAsc(asc, Zeros(padding));
    WriteValue(|body|, lengthBytes) + (body + rest)
  }

  predicate LayerOk(layer: Layer, version1: bool, first: bool) {
    && FramingOk(layer.framing)
    && (first ==> layer.own.Some?)
    && (layer.own.Some? ==>
          && AscOk(layer.own.value)
          && (version1 ==>
                && 1 <= layer.lengthBytes <= 4
                && |PutAsc(layer.own.value, Zeros(layer.padding))| < Pow2(8 * layer.lengthBytes)))
  }

  function PutLayer(layer: Layer, version1: bool, first: bool, rest: Bits): Bits
    requires LayerOk(layer, version1, first)
  {
    var framed := PutFraming(layer.framing, rest);
    var body := if layer.own.None? then framed
                else if version1 then PutBounded(layer.own.value, layer.lengthBytes, layer.padding, framed)
                else PutAsc(layer.own.value, framed);
    if first then body else PutFlag(layer.own.None?, body)
  }

  function StreamOf(layer: Layer, version1: bool, streams: seq<LatmStream>): LatmStream
    requires LayerOk(layer, version1, streams == [])
  {
    var info := if layer.own.Some? then InfoOf(layer.own.value) else streams[|streams| - 1].asc;
    match layer.framing
    case Variable(_) => LatmStream(info, 0, None)
    case Fixed(length) => LatmStream(info, 1, Some(length))
  }

  lemma GetFraming(framing: Framing, asc: AscInfo, rest: Bits)
    requires FramingOk(framing)
    ensures LooksFramed(PutFraming(framing, rest))
    ensures ParseFraming(PutFraming(framing, rest), asc) == Ok((
      (match framing
       case Variable(_) => LatmStream(asc, 0, None)
       case Fixed(length) => LatmStream(asc, 1, Some(length))), rest))
  {
    Powers();
    KindBits();
    hide Read, FromNat, Pow2;
    match framing
    case Variable(bufferFullness) =>
      GetPut(0, 3, Put(bufferFullness, 8, rest));
      GetPut(bufferFullness, 8, rest);
    case Fixed(length) =>
      GetPut(1, 3, Put(length, 9, rest));
      GetPut(length, 9, rest);
  }

  lemma KindBits()
    ensures !FromNat(0, 3)[0] && !FromNat(0, 3)[1] && !FromNat(1, 3)[0] && !FromNat(1, 3)[1]
  {
    BitOfNat(0, 3, 0);
    BitOfNat(0, 3, 1);
    BitOfNat(1, 3, 0);
    BitOfNat(1, 3, 1);
    Powers();
    assert Pow2(1) == 2;
  }

  lemma GetBounded(asc: Asc, lengthBytes: nat, padding: nat, rest: Bits)
    requires AscOk(asc) && 1 <= lengthBytes <= 4
    requires |PutAsc(asc, Zeros(padding))| < Pow2(8 * lengthBytes)
    ensures ParseBoundedAsc(PutBounded(asc, lengthBytes, padding, rest)) == Ok((InfoOf(asc), rest))
  {
    var body := PutAsc(asc, Zeros(padding));
    ZerosAreNoSync(asc, Zeros(padding));
    AscRoundTrip(asc, Zeros(padding));
    ValueRoundTrip(|body|, lengthBytes, body + rest);
    assert (body + rest)[..|body|] == body && (body + rest)[|body|..] == rest;
    hide ParseAsc, PutAsc, ReadValue, WriteValue, InfoOf;
  }

  lemma GetLayer(layer: Layer, version1: bool, streams: seq<LatmStream>, rest: Bits)
    requires LayerOk(layer, version1, streams == []) && |streams| < MAX_LATM_STREAMS
    ensures ParseLayer(PutLayer(layer, version1, streams == [], rest), version1, streams)
            == Ok((StreamOf(layer, version1, streams), rest))
  {
    hide ParseAsc, ParseBoundedAsc, ParseFraming, PutAsc, PutBounded, PutFraming, ReadFlag, PutFlag, InfoOf,
         AscOk, FramingOk;
    var framed := PutFraming(layer.framing, rest);
    var body := if layer.own.None? then framed
                else if version1 then PutBounded(layer.own.value, layer.lengthBytes, layer.padding, framed)
                else PutAsc(layer.own.value, framed);
    var info := if layer.own.Some? then InfoOf(layer.own.value) else streams[|streams| - 1].asc;
    GetFraming(layer.framing, info, rest);
    GetFlag(layer.own.None?, body);
    if layer.own.Some? {
      if version1 {
        GetBounded(layer.own.value, layer.lengthBytes, layer.padding, framed);
      } else {
        FramedMeansNoFalseSync(layer.own.value, framed);
        AscRoundTrip(layer.own.value, framed);
      }
    }
  }

  predicate LayersOk(layers: seq<Layer>, version1: bool, first: bool) {
    forall i :: 0 <= i < |layers| ==> LayerOk(layers[i], version1, first && i == 0)
  }

  function PutLayers(layers: seq<Layer>, version1: bool, first: bool, rest: Bits): Bits
    requires LayersOk(layers, version1, first)
  {
    if layers == [] then rest
    else PutLayer(layers[0], version1, first, PutLayers(layers[1..], version1, false, rest))
  }

  function StreamsAfter(layers: seq<Layer>, version1: bool, streams: seq<LatmStream>): (r: seq<LatmStream>)
    requires LayersOk(layers, version1, streams == [])
    ensures |r| == |streams| + |layers|
    decreases |layers|
  {
    if layers == [] then streams
    else StreamsAfter(layers[1..], version1, streams + [StreamOf(layers[0], version1, streams)])
  }

  lemma {:induction false} GetLayers(layers: seq<Layer>, version1: bool, streams: seq<LatmStream>, rest: Bits)
    requires LayersOk(layers, version1, streams == []) && |streams| + |layers| <= MAX_LATM_STREAMS
    ensures ParseLayers(PutLayers(layers, version1, streams == [], rest), version1, |layers|, streams)
            == Ok((StreamsAfter(layers, version1, streams), rest))
    decreases |layers|
  {
    hide ParseLayer, PutLayer, StreamOf, LayerOk;
    if layers != [] {
      var after := PutLayers(layers[1..], version1, false, rest);
      GetLayer(layers[0], version1, streams, after);
      GetLayers(layers[1..], version1, streams + [StreamOf(layers[0], version1, streams)], rest);
    }
  }

  predicate ProgramsOk(programs: seq<seq<Layer>>, version1: bool, first: bool) {
    forall i :: 0 <= i < |programs| ==>
      1 <= |programs[i]| <= 8 && LayersOk(programs[i], version1, first && i == 0)
  }

  function PutPrograms(programs: seq<seq<Layer>>, version1: bool, first: bool, rest: Bits): Bits
    requires ProgramsOk(programs, version1, first)
  {
    if programs == [] then rest
    else
      Put(|programs[0]| - 1, 3,
          PutLayers(programs[0], version1, first, PutPrograms(programs[1..], version1, false, rest)))
  }

  /** The streams of all programs in order, continuing `streams`. */
  function StreamsOf(programs: seq<seq<Layer>>, version1: bool, streams: seq<LatmStream>): (r: seq<LatmStream>)
    requires ProgramsOk(programs, version1, streams == [])
    ensures |streams| + |programs| <= |r| <= |streams| + 8 * |programs|
    decreases |programs|
  {
    if programs == [] then streams
    else StreamsOf(programs[1..], version1, StreamsAfter(programs[0], version1, streams))
  }

  lemma ProgramsSplit(programs: seq<seq<Layer>>, version1: bool, first: bool)
    requires programs != [] && ProgramsOk(programs, version1, first)
    ensures 1 <= |programs[0]| <= 8 && LayersOk(programs[0], version1, first)
    ensures ProgramsOk(programs[1..], version1, false)
  {
  }

  lemma ProgramsStep(bits: Bits, version1: bool, count: nat, streams: seq<LatmStream>,
                     layers: nat, after: Bits, more: seq<LatmStream>, rest: Bits)
    requires count > 0 && Read(bits, 3) == Ok((layers, after))
    requires ParseLayers(after, version1, layers + 1, streams) == Ok((more, rest))
    ensures ParsePrograms(bits, version1, count, streams) == ParsePrograms(rest, version1, count - 1, more)
  {
    hide Read, ParseLayers;
  }

  lemma {:induction false} GetPrograms(
      programs: seq<seq<Layer>>, version1: bool, streams: seq<LatmStream>, rest: Bits)
    requires ProgramsOk(programs, version1, streams == []) && |streams| + 8 * |programs| <= MAX_LATM_STREAMS
    ensures ParsePrograms(PutPrograms(programs, version1, streams == [], rest), version1, |programs|, streams)
            == Ok((StreamsOf(programs, version1, streams), rest))
    decreases |programs|
  {
    hide Put, ParseLayers, PutLayers, StreamsAfter, LayersOk, Read, Pow2;
    if programs == [] {
      assert PutPrograms(programs, version1, streams == [], rest) == rest;
    } else {
      ProgramsSplit(programs, version1, streams == []);
      var first, others := programs[0], programs[1..];
      var more := StreamsAfter(first, version1, streams);
      var after := PutPrograms(others, version1, false, rest);
      var layers := PutLayers(first, version1, streams == [], after);
      assert StreamsOf(programs, version1, streams) == StreamsOf(others, version1, more);
      assert PutPrograms(programs, version1, streams == [], rest) == Put(|first| - 1, 3, layers);
      Powers();
      GetPut(|first| - 1, 3, layers);
      GetLayers(first, version1, streams, after);
      hide *;
      ProgramsStep(Put(|first| - 1, 3, layers), version1, |programs|, streams,
                   |first| - 1, layers, more, after);
      GetPrograms(others, version1, more, rest);
    }
  }

  // ---------- the whole configuration

  function PutEscaped(bytes: seq<nat>, rest: Bits): Bits {
    if bytes == [] then rest
    else PutFlag(|bytes| > 1, Put(bytes[0], 8, PutEscaped(bytes[1..], rest)))
  }

  lemma {:induction false} GetEscaped(bytes: seq<nat>, rest: Bits)
    requires bytes != [] && forall i :: 0 <= i < |bytes| ==> bytes[i] < Pow2(8)
    ensures SkipOtherLength(PutEscaped(bytes, rest)) == Ok(rest)
    decreases |bytes|
  {
    hide FromNat, Pow2, ReadFlag, Skip, PutFlag, Put;
    var after := PutEscaped(bytes[1..], rest);
    GetFlag(|bytes| > 1, Put(bytes[0], 8, after));
    GetPut(bytes[0], 8, after);
    if |bytes| > 1 {
      GetEscaped(bytes[1..], rest);
    }
  }

  function PutTrailer(mux: Mux, rest: Bits): Bits
    requires OtherOk(mux)
  {
    var checked := PutOptional(mux.crc, 8, rest);
    match mux.other
    case NoOtherData => PutFlag(false, checked)
    case EscapedLength(bytes) => PutFlag(true, PutEscaped(bytes, checked))
    case CountedLength(value, width) => PutFlag(true, WriteValue(value, width) + checked)
  }

  predicate OtherOk(mux: Mux) {
    match mux.other
    case NoOtherData => true
    case EscapedLength(bytes) =>
      mux.version.Version0? && bytes != [] && forall i :: 0 <= i < |bytes| ==> bytes[i] < Pow2(8)
    case CountedLength(value, width) =>
      mux.version.Version1? && 1 <= width <= 4 && value < Pow2(8 * width)
  }

  lemma GetTrailer(mux: Mux, rest: Bits)
    requires OtherOk(mux) && (mux.crc.Some? ==> mux.crc.value < Pow2(8))
    ensures ParseTrailer(PutTrailer(mux, rest), mux.version.Version1?) == Ok(rest)
  {
    var checked := PutOptional(mux.crc, 8, rest);
    if mux.crc.Some? {
      GetFlag(true, Put(mux.crc.value, 8, rest));
      GetPut(mux.crc.value, 8, rest);
    } else {
      GetFlag(false, rest);
      SkipNothing(rest);
    }
    match mux.other {
      case NoOtherData => GetFlag(false, checked);
      case EscapedLength(bytes) =>
        GetFlag(true, PutEscaped(bytes, checked));
        GetEscaped(bytes, checked);
      case CountedLength(value, width) =>
        GetFlag(true, WriteValue(value, width) + checked);
        ValueRoundTrip(value, width, checked);
    }
    hide FromNat, Pow2, ReadFlag, Skip, PutFlag, Put, PutEscaped, SkipOtherLength, ReadValue, WriteValue;
  }

  function PutVersion(version: Version, rest: Bits): Bits
    requires VersionOk(version)
  {
    match version
    case Version0 => PutFlag(false, rest)
    case Version1(taraFullness, taraBytes) =>
      PutFlag(true, PutFlag(false, WriteValue(taraFullness, taraBytes) + rest))
  }

  predicate VersionOk(version: Version) {
    version.Version1? ==> 1 <= version.taraBytes <= 4 && version.taraFullness < Pow2(8 * version.taraBytes)
  }

  lemma GetVersion(version: Version, rest: Bits)
    requires VersionOk(version)
    ensures ParseVersion(PutVersion(version, rest)) == Ok((version.Version1?, rest))
  {
    match version
    case Version0 => GetFlag(false, rest);
    case Version1(taraFullness, taraBytes) =>
      var tara := WriteValue(taraFullness, taraBytes) + rest;
      GetFlag(true, PutFlag(false, tara));
      GetFlag(false, tara);
      ValueRoundTrip(taraFullness, taraBytes, rest);
      hide ReadFlag, PutFlag, ReadValue, WriteValue;
  }

  predicate MuxOk(mux: Mux) {
    && VersionOk(mux.version) && OtherOk(mux)
    && mux.numSubframes < Pow2(6)
    && 1 <= |mux.programs| <= 16 && ProgramsOk(mux.programs, mux.version.Version1?, true)
    && (mux.crc.Some? ==> mux.crc.value < Pow2(8))
  }

  function ConfigOf(mux: Mux): LatmConfig
    requires MuxOk(mux)
  {
    LatmConfig(mux.sameTiming, mux.numSubframes, StreamsOf(mux.programs, mux.version.Version1?, []))
  }

  function PutConfig(mux: Mux, rest: Bits): Bits
    requires MuxOk(mux)
  {
    PutVersion(mux.version, PutFlag(mux.sameTiming, Put(mux.numSubframes, 6, Put(|mux.programs| - 1, 4,
      PutPrograms(mux.programs, mux.version.Version1?, true, PutTrailer(mux, rest))))))
  }

  lemma ConfigRoundTrip(mux: Mux, rest: Bits)
    requires MuxOk(mux)
    ensures ParseConfig(PutConfig(mux, rest)) == Ok((ConfigOf(mux), rest))
  {
    hide Read, ReadFlag, Put, PutFlag, ParseVersion, PutVersion, ParsePrograms, PutPrograms, ParseTrailer,
         PutTrailer, StreamsOf, ProgramsOk, Pow2, VersionOk, OtherOk;
    Powers();
    var v1 := mux.version.Version1?;
    var b5 := PutTrailer(mux, rest);
    var b4 := PutPrograms(mux.programs, v1, true, b5);
    var b3 := Put(|mux.programs| - 1, 4, b4);
    var b2 := Put(mux.numSubframes, 6, b3);
    GetVersion(mux.version, PutFlag(mux.sameTiming, b2));
    GetFlag(mux.sameTiming, b2);
    GetPut(mux.numSubframes, 6, b3);
    GetPut(|mux.programs| - 1, 4, b4);
    GetPrograms(mux.programs, v1, [], b5);
    GetTrailer(mux, rest);
  }

  // ---------- payloads

  predicate PayloadOk(stream: LatmStream, payload: Bits) {
    && |payload| % 8 == 0
    && (stream.frameLengthType == 0
        || (stream.frameLengthType == 1 && stream.fixedLength == Some(|payload| / 8)))
  }

  function PutPayload(stream: LatmStream, payload: Bits, rest: Bits): Bits {
    if stream.frameLengthType == 0 then WriteLength(|payload| / 8) + (payload + rest) else payload + rest
  }

  lemma GetPayload(stream: LatmStream, payload: Bits, rest: Bits)
    requires PayloadOk(stream, payload)
    ensures SkipPayload(PutPayload(stream, payload, rest), stream) == Ok(rest)
  {
    LengthRoundTrip(|payload| / 8, payload + rest);
    SkipWritten(payload, rest);
    hide ReadLength, WriteLength;
  }

  predicate SubframeOk(streams: seq<LatmStream>, payloads: seq<Bits>) {
    |payloads| == |streams| && forall i :: 0 <= i < |streams| ==> PayloadOk(streams[i], payloads[i])
  }

  function PutSubframe(streams: seq<LatmStream>, payloads: seq<Bits>, rest: Bits): Bits
    requires |payloads| == |streams|
  {
    if streams == [] then rest
    else PutPayload(streams[0], payloads[0], PutSubframe(streams[1..], payloads[1..], rest))
  }

  lemma {:induction false} GetSubframe(streams: seq<LatmStream>, payloads: seq<Bits>, rest: Bits)
    requires SubframeOk(streams, payloads)
    ensures SkipSubframe(PutSubframe(streams, payloads, rest), streams) == Ok(rest)
    decreases |streams|
  {
    if streams != [] {
      hide SkipPayload, PutPayload, PayloadOk;
      GetPayload(streams[0], payloads[0], PutSubframe(streams[1..], payloads[1..], rest));
      GetSubframe(streams[1..], payloads[1..], rest);
    }
  }

  predicate SubframesOk(streams: seq<LatmStream>, frames: seq<seq<Bits>>) {
    forall i :: 0 <= i < |frames| ==> SubframeOk(streams, frames[i])
  }

  function PutSubframes(streams: seq<LatmStream>, frames: seq<seq<Bits>>, rest: Bits): Bits
    requires SubframesOk(streams, frames)
  {
    if frames == [] then rest
    else PutSubframe(streams, frames[0], PutSubframes(streams, frames[1..], rest))
  }

  lemma {:induction false} GetSubframes(streams: seq<LatmStream>, frames: seq<seq<Bits>>, rest: Bits)
    requires SubframesOk(streams, frames)
    ensures SkipSubframes(PutSubframes(streams, frames, rest), |frames|, streams) == Ok(rest)
    decreases |frames|
  {
    if frames != [] {
      hide SkipSubframe, PutSubframe, SubframeOk;
      GetSubframe(streams, frames[0], PutSubframes(streams, frames[1..], rest));
      GetSubframes(streams, frames[1..], rest);
    }
  }

  // ---------- main results

  function PutElement(mux: Mux, frames: seq<seq<Bits>>, tail: Bits): Bits
    requires MuxOk(mux) && SubframesOk(ConfigOf(mux).streams, frames)
  {
    PutFlag(false, PutConfig(mux, PutSubframes(ConfigOf(mux).streams, frames, tail)))
  }

  /** The verdict on the bits after the last payload, and the counts of an accepted element. */
  function Outcome(config: LatmConfig, useSame: bool, tail: Bits): Result<ParsedMux, BitError> {
    if |tail| <= 7 && AllFalse(tail)
    then Ok(ParsedMux(config, useSame, AccessUnits(config), OutputSamples(config)))
    else Err(TrailingBits)
  }

  /** The samples of the payloads of one subframe, each by its stream. */
  function SamplesIn(streams: seq<LatmStream>, payloads: seq<Bits>): nat
    requires |payloads| <= |streams|
  {
    if payloads == [] then 0
    else
      var last := |payloads| - 1;
      SamplesIn(streams, payloads[..last]) + streams[last].asc.frameSamples
  }

  function SamplesInAll(streams: seq<LatmStream>, frames: seq<seq<Bits>>): nat
    requires SubframesOk(streams, frames)
  {
    if frames == [] then 0 else SamplesIn(streams, frames[0]) + SamplesInAll(streams, frames[1..])
  }

  lemma {:induction false} SamplesOfSubframe(streams: seq<LatmStream>, payloads: seq<Bits>)
    requires |payloads| <= |streams|
    ensures SamplesIn(streams, payloads) == SamplesOf(streams[..|payloads|])
    decreases |payloads|
  {
    if payloads != [] {
      var last := |payloads| - 1;
      SamplesOfSubframe(streams, payloads[..last]);
      assert streams[..last + 1][..last] == streams[..last];
    }
  }

  lemma {:induction false} CountsOfFrames(streams: seq<LatmStream>, frames: seq<seq<Bits>>)
    requires SubframesOk(streams, frames)
    ensures |Joined(frames)| == |frames| * |streams|
    ensures SamplesInAll(streams, frames) == |frames| * SamplesOf(streams)
  {
    if frames != [] {
      CountsOfFrames(streams, frames[1..]);
      SamplesOfSubframe(streams, frames[0]);
      assert streams[..|streams|] == streams;
      OneMore(|frames| - 1, |streams|);
      OneMore(|frames| - 1, SamplesOf(streams));
    }
  }

  /** The counts reported for an element are those of the payloads written. */
  lemma CountsArePayloads(config: LatmConfig, frames: seq<seq<Bits>>)
    requires SubframesOk(config.streams, frames) && |frames| == config.numSubframes + 1
    ensures AccessUnits(config) == |Joined(frames)| && OutputSamples(config) == SamplesInAll(config.streams, frames)
  {
    CountsOfFrames(config.streams, frames);
  }

  /** A written element is parsed back to its configuration, and is accepted exactly when fewer
      than eight bits, all zero, follow its payloads. */
  lemma ElementRoundTrip(mux: Mux, frames: seq<seq<Bits>>, tail: Bits, previous: Option<LatmConfig>)
    requires MuxOk(mux) && SubframesOk(ConfigOf(mux).streams, frames) && |frames| == mux.numSubframes + 1
    ensures ParseElement(PutElement(mux, frames, tail), previous) == Outcome(ConfigOf(mux), false, tail)
  {
    hide ParseConfig, PutConfig, SkipSubframes, PutSubframes, ReadFlag, PutFlag, StreamsOf, VersionOk, OtherOk,
         ProgramsOk, Pow2;
    var config := ConfigOf(mux);
    var payload := PutSubframes(config.streams, frames, tail);
    GetFlag(false, PutConfig(mux, payload));
    ConfigRoundTrip(mux, payload);
    GetSubframes(config.streams, frames, tail);
  }

  /** The same for an element that repeats the previous configuration. */
  lemma RepeatRoundTrip(config: LatmConfig, frames: seq<seq<Bits>>, tail: Bits)
    requires 1 <= |config.streams| <= MAX_LATM_STREAMS
    requires SubframesOk(config.streams, frames) && |frames| == config.numSubframes + 1
    ensures ParseElement(PutFlag(true, PutSubframes(config.streams, frames, tail)), Some(config))
            == Outcome(config, true, tail)
  {
    hide SkipSubframes, PutSubframes, ReadFlag, PutFlag;
    var payload := PutSubframes(config.streams, frames, tail);
    GetFlag(true, payload);
    GetSubframes(config.streams, frames, tail);
  }
}
