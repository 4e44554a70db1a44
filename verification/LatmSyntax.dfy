/** LATM multiplex elements and the AudioSpecificConfig inside them, as functions on the bits
    that are left to read (sections 1.6.2.1 and 1.7.3 of ISO/IEC 14496-3). */
module LatmSyntax {
  import opened Wrappers
  import opened BitSyntax
  import opened EscapedValues

  const MAX_LATM_STREAMS := 128
  const SYNC_SBR := 0x2b7
  const SYNC_PS := 0x548

  const SAMPLE_RATES: seq<nat> :=
    [96000, 88200, 64000, 48000, 44100, 32000, 24000, 22050, 16000, 12000, 11025, 8000, 7350]

  datatype AscInfo = AscInfo(
    objectType: nat,
    coreRate: nat,
    outputRate: nat,
    channelConfiguration: nat,
    outputChannels: Option<nat>,
    sbr: bool,
    ps: bool,
    frameSamples: nat)

  datatype LatmStream = LatmStream(asc: AscInfo, frameLengthType: nat, fixedLength: Option<nat>)

  datatype LatmConfig = LatmConfig(sameTiming: bool, numSubframes: nat, streams: seq<LatmStream>)

  datatype ParsedMux = ParsedMux(config: LatmConfig, usedSameConfig: bool, accessUnits: nat, outputSamples: nat)

  predicate SupportedObjectType(t: nat) {
    t in {1, 2, 3, 4, 6, 7, 17, 19, 20, 21, 22, 23}
  }

  function ChannelCount(configuration: nat): Option<nat> {
    if 1 <= configuration <= 6 then Some(configuration)
    else if configuration == 7 then Some(8)
    else None
  }

  function ReadObjectType(bits: Bits): Result<(nat, Bits), BitError> {
    var (value, rest) :- Read(bits, 5);
    if value != 31 then Ok((value, rest))
    else
      var (extended, after) :- Read(rest, 6);
      Ok((32 + extended, after))
  }

  function ReadSampleRate(bits: Bits): Result<(nat, Bits), BitError> {
    var (index, rest) :- Read(bits, 4);
    if index == 15 then
      var (explicit, after) :- Read(rest, 24);
      if explicit == 0 then Err(Reserved) else Ok((explicit, after))
    else if index < |SAMPLE_RATES| then Ok((SAMPLE_RATES[index], rest))
    else Err(Reserved)
  }

  /** The configuration up to the general-audio fields; SBR may be announced ahead of the core. */
  datatype AscHead = AscHead(
    explicitSbr: bool, objectType: nat, coreRate: nat, outputRate: nat, channels: nat, ps: bool)

  function ParseHead(bits: Bits): Result<(AscHead, Bits), BitError> {
    var (initial, b1) :- ReadObjectType(bits);
    var (coreRate, b2) :- ReadSampleRate(b1);
    var (channels, b3) :- Read(b2, 4);
    if initial != 5 && initial != 29 then
      Ok((AscHead(false, initial, coreRate, coreRate, channels, false), b3))
    else
      var (outputRate, b4) :- ReadSampleRate(b3);
      var (objectType, b5) :- ReadObjectType(b4);
      if objectType != 22 then
        Ok((AscHead(true, objectType, coreRate, outputRate, channels, initial == 29), b5))
      else
        var (inner, b6) :- Read(b5, 4);
        Ok((AscHead(true, objectType, coreRate, outputRate, inner, initial == 29), b6))
  }

  function ExtensionWidth(objectType: nat): nat {
    if objectType == 22 then 17
    else if objectType in {17, 19, 20, 23} then 4
    else 1
  }

  /** The general-audio fields; only the frame length flag matters. */
  function ParseGeneral(bits: Bits, objectType: nat): Result<(bool, Bits), BitError> {
    var (short, b1) :- ReadFlag(bits);
    var (dependsOnCore, b2) :- ReadFlag(b1);
    var b3 :- Skip(b2, if dependsOnCore then 14 else 0);
    var (extension, b4) :- ReadFlag(b3);
    var b5 :- Skip(b4, if objectType == 6 || objectType == 20 then 3 else 0);
    var b6 :- Skip(b5, if extension then ExtensionWidth(objectType) else 0);
    Ok((short, b6))
  }

  /** What a trailing sync extension says about SBR, the output rate and PS. */
  datatype SyncInfo = SyncInfo(sbr: bool, outputRate: nat, ps: bool)

  function ParseSync(bits: Bits, coreRate: nat): Result<(SyncInfo, Bits), BitError> {
    var none := SyncInfo(false, coreRate, false);
    if |bits| < 16 then Ok((none, bits))
    else
      var (sync, b1) :- Read(bits, 11);
      if sync != SYNC_SBR then Ok((none, bits))
      else
        var (extensionType, b2) :- ReadObjectType(b1);
        if extensionType != 5 then Ok((none, b2))
        else
          var (sbr, b3) :- ReadFlag(b2);
          if !sbr then Ok((none, b3))
          else
            var (outputRate, b4) :- ReadSampleRate(b3);
            var (ps, b5) :- ParsePsSync(b4);
            Ok((SyncInfo(true, outputRate, ps), b5))
  }

  function ParsePsSync(bits: Bits): Result<(bool, Bits), BitError> {
    if |bits| < 12 then Ok((false, bits))
    else
      var (sync, rest) :- Read(bits, 11);
      if sync != SYNC_PS then Ok((false, bits)) else ReadFlag(rest)
  }

  function InfoFrom(head: AscHead, short: bool, sync: SyncInfo): AscInfo {
    var core := if short then 960 else 1024;
    AscInfo(head.objectType, head.coreRate, sync.outputRate, head.channels,
            if sync.ps then Some(2) else ChannelCount(head.channels),
            sync.sbr, sync.ps, if sync.sbr then core * 2 else core)
  }

  function ParseAsc(bits: Bits): Result<(AscInfo, Bits), BitError> {
    var (head, b1) :- ParseHead(bits);
    if !SupportedObjectType(head.objectType) then Err(Unsupported)
    else if head.channels > 7 then Err(Reserved)
    else if head.channels == 0 then Err(Unsupported)
    else
      var (short, b2) :- ParseGeneral(b1, head.objectType);
      var (sync, b3) :- if head.explicitSbr then Ok((SyncInfo(true, head.outputRate, head.ps), b2))
                        else ParseSync(b2, head.coreRate);
      if sync.sbr && sync.outputRate < head.coreRate then Err(Unsupported)
      else Ok((InfoFrom(head, short, sync), b3))
  }

  // ---------- StreamMuxConfig

  function ParseFraming(bits: Bits, asc: AscInfo): Result<(LatmStream, Bits), BitError> {
    var (kind, b1) :- Read(bits, 3);
    if kind == 0 then
      var b2 :- Skip(b1, 8);
      Ok((LatmStream(asc, 0, None), b2))
    else if kind == 1 then
      var (length, b2) :- Read(b1, 9);
      Ok((LatmStream(asc, 1, Some(length)), b2))
    else
      Err(Unsupported)
  }

  /** The ASC of a version-1 multiplex is bounded by its own length and zero-padded to it. */
  function ParseBoundedAsc(bits: Bits): Result<(AscInfo, Bits), BitError> {
    var (length, b1) :- ReadValue(bits);
    if |b1| < length then Err(Truncated)
    else
      var (asc, padding) :- ParseAsc(b1[..length]);
      if !AllFalse(padding) then Err(TrailingBits) else Ok((asc, b1[length..]))
  }

  function ParseLayer(bits: Bits, version1: bool, streams: seq<LatmStream>): Result<(LatmStream, Bits), BitError> {
    if |streams| == MAX_LATM_STREAMS then Err(TooManyStreams)
    else
      var (useSame, b1) :- if streams == [] then Ok((false, bits)) else ReadFlag(bits);
      var (asc, b2) :- if useSame && streams != [] then Ok((streams[|streams| - 1].asc, b1))
                       else if version1 then ParseBoundedAsc(b1)
                       else ParseAsc(b1);
      ParseFraming(b2, asc)
  }

  function ParseLayers(bits: Bits, version1: bool, count: nat, streams: seq<LatmStream>)
    : Result<(seq<LatmStream>, Bits), BitError>
    decreases count
  {
    if count == 0 then Ok((streams, bits))
    else
      var (stream, rest) :- ParseLayer(bits, version1, streams);
      ParseLayers(rest, version1, count - 1, streams + [stream])
  }

  function ParsePrograms(bits: Bits, version1: bool, count: nat, streams: seq<LatmStream>)
    : Result<(seq<LatmStream>, Bits), BitError>
    decreases count
  {
    if count == 0 then Ok((streams, bits))
    else
      var (layers, b1) :- Read(bits, 3);
      var (more, b2) :- ParseLayers(b1, version1, layers + 1, streams);
      ParsePrograms(b2, version1, count - 1, more)
  }

  /** The escape-continued length of other data, one byte at a time. */
  function SkipOtherLength(bits: Bits): Result<Bits, BitError>
    decreases |bits|
  {
    var (escape, b1) :- ReadFlag(bits);
    var b2 :- Skip(b1, 8);
    if escape then SkipOtherLength(b2) else Ok(b2)
  }

  function ParseTrailer(bits: Bits, version1: bool): Result<Bits, BitError> {
    var (other, b1) :- ReadFlag(bits);
    var b2 :- if !other then Ok(b1)
              else if version1 then
                var (_, after) :- ReadValue(b1);
                Ok(after)
              else SkipOtherLength(b1);
    var (crc, b3) :- ReadFlag(b2);
    Skip(b3, if crc then 8 else 0)
  }

  function ParseVersion(bits: Bits): Result<(bool, Bits), BitError> {
    var (version1, b1) :- ReadFlag(bits);
    if !version1 then Ok((false, b1))
    else
      var (versionA, b2) :- ReadFlag(b1);
      if versionA then Err(Unsupported)
      else
        var (_, b3) :- ReadValue(b2);
        Ok((true, b3))
  }

  function ParseConfig(bits: Bits): Result<(LatmConfig, Bits), BitError> {
    var (version1, b1) :- ParseVersion(bits);
    var (sameTiming, b2) :- ReadFlag(b1);
    var (subframes, b3) :- Read(b2, 6);
    var (programs, b4) :- Read(b3, 4);
    var (streams, b5) :- ParsePrograms(b4, version1, programs + 1, []);
    var b6 :- ParseTrailer(b5, version1);
    Ok((LatmConfig(sameTiming, subframes, streams), b6))
  }

  // ---------- AudioMuxElement

  function SkipPayload(bits: Bits, stream: LatmStream): Result<Bits, BitError> {
    if stream.frameLengthType == 0 then
      var (length, rest) :- ReadLength(bits);
      Skip(rest, 8 * length)
    else if stream.frameLengthType == 1 then
      if stream.fixedLength.None? then Err(Unsupported) else Skip(bits, 8 * stream.fixedLength.value)
    else
      Err(Unsupported)
  }

  /** One subframe: a payload of every stream, length and payload together. */
  function SkipSubframe(bits: Bits, streams: seq<LatmStream>): Result<Bits, BitError>
    decreases |streams|
  {
    if streams == [] then Ok(bits)
    else
      var rest :- SkipPayload(bits, streams[0]);
      SkipSubframe(rest, streams[1..])
  }

  function SkipSubframes(bits: Bits, count: nat, streams: seq<LatmStream>): Result<Bits, BitError>
    decreases count
  {
    if count == 0 then Ok(bits)
    else
      var rest :- SkipSubframe(bits, streams);
      SkipSubframes(rest, count - 1, streams)
  }

  function SamplesOf(streams: seq<LatmStream>): nat {
    if streams == [] then 0
    else SamplesOf(streams[..|streams| - 1]) + streams[|streams| - 1].asc.frameSamples
  }

  /** Each subframe carries one access unit of every stream. */
  function AccessUnits(config: LatmConfig): nat {
    (config.numSubframes + 1) * |config.streams|
  }

  function OutputSamples(config: LatmConfig): nat {
    (config.numSubframes + 1) * SamplesOf(config.streams)
  }

  function ParseElementConfig(bits: Bits, previous: Option<LatmConfig>): Result<((LatmConfig, bool), Bits), BitError> {
    var (useSame, b1) :- ReadFlag(bits);
    if useSame then
      if previous.None? then Err(NoConfig) else Ok(((previous.value, true), b1))
    else
      var (config, b2) :- ParseConfig(b1);
      Ok(((config, false), b2))
  }

  function ParseElement(bits: Bits, previous: Option<LatmConfig>): Result<ParsedMux, BitError> {
    var ((config, useSame), b1) :- ParseElementConfig(bits, previous);
    if config.streams == [] || |config.streams| > MAX_LATM_STREAMS then Err(TooManyStreams)
    else
      var tail :- SkipSubframes(b1, config.numSubframes + 1, config.streams);
      if |tail| > 7 || !AllFalse(tail) then Err(TrailingBits)
      else Ok(ParsedMux(config, useSame, AccessUnits(config), OutputSamples(config)))
  }
}
