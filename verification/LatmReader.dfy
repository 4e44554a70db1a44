/** The LATM parser over a bounded bit reader: positions move, peeks set them back, and loops
    collect streams and counts. Each method returns what the parsing function of the unread
    bits returns, and leaves the reader where that function stops. */
module LatmReader {
  import opened Wrappers
  import opened Basics
  import opened BitSyntax
  import opened EscapedValues
  import opened LatmSyntax

  method NextObjectType(reader: BitReader) returns (r: Result<nat, BitError>)
    requires reader.Valid()
    modifies reader
    ensures reader.Valid() && Agrees(r, reader.Left(), ReadObjectType(old(reader.Left())))
  {
    hide Read;
    var value :- reader.ReadBits(5);
    if value == 31 {
      var extended :- reader.ReadBits(6);
      return Ok(32 + extended);
    }
    r := Ok(value);
  }

  method NextSampleRate(reader: BitReader) returns (r: Result<nat, BitError>)
    requires reader.Valid()
    modifies reader
    ensures reader.Valid() && Agrees(r, reader.Left(), ReadSampleRate(old(reader.Left())))
  {
    hide Read;
    var index :- reader.ReadBits(4);
    if index == 15 {
      var explicit :- reader.ReadBits(24);
      return if explicit == 0 then Err(Reserved) else Ok(explicit);
    }
    r := if index < |SAMPLE_RATES| then Ok(SAMPLE_RATES[index]) else Err(Reserved);
  }

  method NextHead(reader: BitReader) returns (r: Result<AscHead, BitError>)
    requires reader.Valid()
    modifies reader
    ensures reader.Valid() && Agrees(r, reader.Left(), ParseHead(old(reader.Left())))
  {
    hide Read, ReadObjectType, ReadSampleRate;
    var initial :- NextObjectType(reader);
    var coreRate :- NextSampleRate(reader);
    var channels :- reader.ReadBits(4);
    var objectType, outputRate := initial, coreRate;
    if initial == 5 || initial == 29 {
      outputRate :- NextSampleRate(reader);
      objectType :- NextObjectType(reader);
      if objectType == 22 {
        channels :- reader.ReadBits(4);
      }
    }
    r := Ok(AscHead(initial == 5 || initial == 29, objectType, coreRate, outputRate, channels, initial == 29));
  }

  method NextGeneral(reader: BitReader, objectType: nat) returns (r: Result<bool, BitError>)
    requires reader.Valid()
    modifies reader
    ensures reader.Valid() && Agrees(r, reader.Left(), ParseGeneral(old(reader.Left()), objectType))
  {
    hide Read, ReadFlag, ExtensionWidth;
    var short :- reader.Bit();
    var dependsOnCore :- reader.Bit();
    if dependsOnCore {
      var _ :- reader.SkipBits(14);
    }
    var extension :- reader.Bit();
    if objectType == 6 || objectType == 20 {
      var _ :- reader.SkipBits(3);
    }
    if extension {
      var _ :- NextExtension(reader, objectType);
    }
    r := Ok(short);
  }

  method NextExtension(reader: BitReader, objectType: nat) returns (r: Result<(), BitError>)
    requires reader.Valid()
    modifies reader
    ensures reader.Valid()
    ensures var passed := Skip(old(reader.Left()), ExtensionWidth(objectType));
            if passed.Ok? then r.Ok? && reader.Left() == passed.value else r == Err(passed.error)
  {
    if objectType == 22 {
      var _ :- reader.SkipBits(16);
    }
    if objectType in {17, 19, 20, 23} {
      var _ :- reader.SkipBits(3);
    }
    r := reader.SkipBits(1);
  }

  /** Reads eleven bits and sets the position back when they are not the sync word. */
  method NextSync(reader: BitReader, coreRate: nat) returns (r: Result<SyncInfo, BitError>)
    requires reader.Valid()
    modifies reader
    ensures reader.Valid() && Agrees(r, reader.Left(), ParseSync(old(reader.Left()), coreRate))
  {
    var sbr, ps, outputRate := false, false, coreRate;
    hide ReadObjectType, ReadSampleRate, ToNat;
    if reader.Remaining() >= 16 {
      var checkpoint := reader.position;
      var sync := reader.ReadBits(11);
      if sync.value == SYNC_SBR {
        var extensionType :- NextObjectType(reader);
        if extensionType == 5 {
          sbr :- reader.Bit();
          if sbr {
            outputRate :- NextSampleRate(reader);
            ps :- NextPsSync(reader);
          }
        }
      } else {
        reader.position := checkpoint;
      }
    }
    r := Ok(SyncInfo(sbr, outputRate, ps));
  }

  method NextPsSync(reader: BitReader) returns (r: Result<bool, BitError>)
    requires reader.Valid()
    modifies reader
    ensures reader.Valid() && Agrees(r, reader.Left(), ParsePsSync(old(reader.Left())))
  {
    hide ToNat;
    var ps := false;
    if reader.Remaining() >= 12 {
      var checkpoint := reader.position;
      var sync := reader.ReadBits(11);
      if sync.value == SYNC_PS {
        var flag := reader.Bit();
        ps := flag.value;
      } else {
        reader.position := checkpoint;
      }
    }
    r := Ok(ps);
  }

  method NextAsc(reader: BitReader) returns (r: Result<AscInfo, BitError>)
    requires reader.Valid()
    modifies reader
    ensures reader.Valid() && Agrees(r, reader.Left(), ParseAsc(old(reader.Left())))
  {
    hide ParseHead, ParseGeneral, ParseSync;
    var head :- NextHead(reader);
    if !SupportedObjectType(head.objectType) {
      return Err(Unsupported);
    }
    if head.channels > 7 {
      return Err(Reserved);
    }
    if head.channels == 0 {
      return Err(Unsupported);
    }
    var short :- NextGeneral(reader, head.objectType);
    var sync := SyncInfo(true, head.outputRate, head.ps);
    if !head.explicitSbr {
      sync :- NextSync(reader, head.coreRate);
    }
    if sync.sbr && sync.outputRate < head.coreRate {
      return Err(Unsupported);
    }
    r := Ok(InfoFrom(head, short, sync));
  }

  method NextFraming(reader: BitReader, asc: AscInfo) returns (r: Result<LatmStream, BitError>)
    requires reader.Valid()
    modifies reader
    ensures reader.Valid() && Agrees(r, reader.Left(), ParseFraming(old(reader.Left()), asc))
  {
    hide Read;
    var kind :- reader.ReadBits(3);
    if kind == 0 {
      var _ :- reader.SkipBits(8);
      return Ok(LatmStream(asc, 0, None));
    }
    if kind == 1 {
      var length :- reader.ReadBits(9);
      return Ok(LatmStream(asc, 1, Some(length)));
    }
    r := Err(Unsupported);
  }

  method NextBoundedAsc(reader: BitReader) returns (r: Result<AscInfo, BitError>)
    requires reader.Valid()
    modifies reader
    ensures reader.Valid() && Agrees(r, reader.Left(), ParseBoundedAsc(old(reader.Left())))
  {
    hide ReadValue, ParseAsc;
    var length :- LatmGetValue(reader);
    var part :- reader.SubReader(length);
    var asc :- NextAsc(part);
    var zero := part.RemainingBitsAreZero();
    r := if zero then Ok(asc) else Err(TrailingBits);
  }

  method NextLayer(reader: BitReader, version1: bool, streams: seq<LatmStream>)
    returns (r: Result<LatmStream, BitError>)
    requires reader.Valid()
    modifies reader
    ensures reader.Valid() && Agrees(r, reader.Left(), ParseLayer(old(reader.Left()), version1, streams))
  {
    hide ReadFlag, ParseAsc, ParseBoundedAsc, ParseFraming;
    if |streams| == MAX_LATM_STREAMS {
      return Err(TooManyStreams);
    }
    var useSame := false;
    if streams != [] {
      useSame :- reader.Bit();
    }
    var asc;
    if useSame {
      asc := streams[|streams| - 1].asc;
    } else if version1 {
      asc :- NextBoundedAsc(reader);
    } else {
      asc :- NextAsc(reader);
    }
    r := NextFraming(reader, asc);
  }

  method NextPrograms(reader: BitReader, version1: bool, programs: nat) returns (r: Result<seq<LatmStream>, BitError>)
    requires reader.Valid()
    modifies reader
    ensures reader.Valid() && Agrees(r, reader.Left(), ParsePrograms(old(reader.Left()), version1, programs, []))
  {
    var streams: seq<LatmStream> := [];
    hide Read, ParseLayers;
    for p := 0 to programs
      invariant reader.Valid()
      invariant ParsePrograms(old(reader.Left()), version1, programs, [])
                == ParsePrograms(reader.Left(), version1, programs - p, streams)
    {
      var layers :- reader.ReadBits(3);
      streams :- NextLayers(reader, version1, layers + 1, streams);
    }
    r := Ok(streams);
  }

  method NextLayers(reader: BitReader, version1: bool, layers: nat, before: seq<LatmStream>)
    returns (r: Result<seq<LatmStream>, BitError>)
    requires reader.Valid()
    modifies reader
    ensures reader.Valid() && Agrees(r, reader.Left(), ParseLayers(old(reader.Left()), version1, layers, before))
  {
    var streams := before;
    hide ParseLayer;
    for l := 0 to layers
      invariant reader.Valid()
      invariant ParseLayers(old(reader.Left()), version1, layers, before)
                == ParseLayers(reader.Left(), version1, layers - l, streams)
    {
      var stream :- NextLayer(reader, version1, streams);
      streams := streams + [stream];
    }
    r := Ok(streams);
  }

  method PassOtherLength(reader: BitReader) returns (r: Result<(), BitError>)
    requires reader.Valid()
    modifies reader
    ensures reader.Valid() && Passes(r, reader.Left(), SkipOtherLength(old(reader.Left())))
  {
    while true
      invariant reader.Valid()
      invariant SkipOtherLength(old(reader.Left())) == SkipOtherLength(reader.Left())
      decreases |reader.Left()|
    {
      var escape :- reader.Bit();
      var _ :- reader.SkipBits(8);
      if !escape {
        return Ok(());
      }
    }
  }

  /** The outcome of a method that only moves the reader. */
  ghost predicate Passes(got: Result<(), BitError>, left: Bits, expected: Result<Bits, BitError>) {
    if expected.Ok? then got.Ok? && left == expected.value else got == Err(expected.error)
  }

  method PassTrailer(reader: BitReader, version1: bool) returns (r: Result<(), BitError>)
    requires reader.Valid()
    modifies reader
    ensures reader.Valid() && Passes(r, reader.Left(), ParseTrailer(old(reader.Left()), version1))
  {
    hide ReadFlag, ReadValue, SkipOtherLength;
    var other :- reader.Bit();
    if other {
      if version1 {
        var _ :- LatmGetValue(reader);
      } else {
        var _ :- PassOtherLength(reader);
      }
    }
    var crc :- reader.Bit();
    if crc {
      var _ :- reader.SkipBits(8);
    }
    r := Ok(());
  }

  method NextConfig(reader: BitReader) returns (r: Result<LatmConfig, BitError>)
    requires reader.Valid()
    modifies reader
    ensures reader.Valid() && Agrees(r, reader.Left(), ParseConfig(old(reader.Left())))
  {
    hide Read, ReadFlag, ReadValue, ParsePrograms, ParseTrailer;
    var version1 :- reader.Bit();
    if version1 {
      var versionA :- reader.Bit();
      if versionA {
        return Err(Unsupported);
      }
      var _ :- LatmGetValue(reader);
    }
    var sameTiming :- reader.Bit();
    var subframes :- reader.ReadBits(6);
    var programs :- reader.ReadBits(4);
    var streams :- NextPrograms(reader, version1, programs + 1);
    var _ :- PassTrailer(reader, version1);
    r := Ok(LatmConfig(sameTiming, subframes, streams));
  }

  method PassPayload(reader: BitReader, stream: LatmStream) returns (r: Result<(), BitError>)
    requires reader.Valid()
    modifies reader
    ensures reader.Valid() && Passes(r, reader.Left(), SkipPayload(old(reader.Left()), stream))
  {
    hide ReadLength;
    if stream.frameLengthType == 0 {
      var length :- ReadPayloadLength(reader);
      r := reader.SkipBits(8 * length);
    } else if stream.frameLengthType == 1 {
      if stream.fixedLength.None? {
        return Err(Unsupported);
      }
      r := reader.SkipBits(8 * stream.fixedLength.value);
    } else {
      r := Err(Unsupported);
    }
  }

  /** Passes one payload of every stream and returns the samples they decode to. */
  method PassSubframe(reader: BitReader, streams: seq<LatmStream>) returns (r: Result<(nat, nat), BitError>)
    requires reader.Valid()
    modifies reader
    ensures reader.Valid()
    ensures match SkipSubframe(old(reader.Left()), streams)
            case Ok(rest) => r == Ok((|streams|, SamplesOf(streams))) && reader.Left() == rest
            case Err(e) => r == Err(e)
  {
    var units, samples := 0, 0;
    hide SkipPayload;
    for s := 0 to |streams|
      invariant reader.Valid() && units == s && samples == SamplesOf(streams[..s])
      invariant SkipSubframe(old(reader.Left()), streams) == SkipSubframe(reader.Left(), streams[s..])
    {
      assert streams[..s + 1][..s] == streams[..s] && streams[s..][1..] == streams[s + 1..];
      var _ :- PassPayload(reader, streams[s]);
      units := units + 1;
      samples := samples + streams[s].asc.frameSamples;
    }
    assert streams[..|streams|] == streams && streams[|streams|..] == [];
    r := Ok((units, samples));
  }

  method PassSubframes(reader: BitReader, config: LatmConfig) returns (r: Result<(nat, nat), BitError>)
    requires reader.Valid()
    modifies reader
    ensures reader.Valid()
    ensures match SkipSubframes(old(reader.Left()), config.numSubframes + 1, config.streams)
            case Ok(rest) => r == Ok((AccessUnits(config), OutputSamples(config))) && reader.Left() == rest
            case Err(e) => r == Err(e)
  {
    var units, samples := 0, 0;
    hide SkipSubframe, SamplesOf;
    for f := 0 to config.numSubframes + 1
      invariant reader.Valid()
      invariant units == f * |config.streams| && samples == f * SamplesOf(config.streams)
      invariant SkipSubframes(old(reader.Left()), config.numSubframes + 1, config.streams)
                == SkipSubframes(reader.Left(), config.numSubframes + 1 - f, config.streams)
    {
      var counted :- PassSubframe(reader, config.streams);
      OneMore(f, |config.streams|);
      OneMore(f, SamplesOf(config.streams));
      units := units + counted.0;
      samples := samples + counted.1;
    }
    r := Ok((units, samples));
  }

  method ParseAudioMuxElement(payload: seq<byte>, previous: Option<LatmConfig>)
    returns (r: Result<ParsedMux, BitError>)
    ensures r == ParseElement(BitsOf(payload), previous)
  {
    var reader := new BitReader(payload);
    hide ReadFlag, ParseConfig, SkipSubframes, AccessUnits, OutputSamples;
    var useSame :- reader.Bit();
    var config;
    if useSame {
      if previous.None? {
        return Err(NoConfig);
      }
      config := previous.value;
    } else {
      config :- NextConfig(reader);
    }
    if config.streams == [] || |config.streams| > MAX_LATM_STREAMS {
      return Err(TooManyStreams);
    }
    var counted :- PassSubframes(reader, config);
    var zero := reader.RemainingBitsAreZero();
    if reader.Remaining() > 7 || !zero {
      return Err(TrailingBits);
    }
    r := Ok(ParsedMux(config, useSame, counted.0, counted.1));
  }
}
