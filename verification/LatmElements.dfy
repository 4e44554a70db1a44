/** Whole elements laid out as section 1.7.3 of ISO/IEC 14496-3 lays them out. Without the same time
    framing for all streams a subframe comes in chunks, each naming its stream, and a length is
    followed by a flag for the end of the access unit. The parser does not look at the framing; the
    configurations whose elements it reads rightly are named here. */
module LatmElements {
  import opened Wrappers
  import opened Basics
  import opened BitSyntax
  import opened EscapedValues
  import opened LatmSyntax
  import opened LatmRoundTrip
  import opened LatmStandard

  const MAX_CHUNKS := 16

  datatype Chunk = Chunk(index: nat, payload: Bits, endsUnit: bool)

  datatype StandardFrame = Together(payloads: seq<Bits>) | InChunks(chunks: seq<Chunk>)

  predicate ChunkOk(streams: seq<LatmStream>, c: Chunk) {
    c.index < |streams| && c.index < MAX_CHUNKS && PayloadSized(streams[c.index], c.payload)
  }

  predicate FrameOk(config: LatmConfig, frame: StandardFrame) {
    match frame
    case Together(payloads) => config.sameTiming && StandardSized(config.streams, payloads)
    case InChunks(chunks) =>
      && !config.sameTiming && 1 <= |chunks| <= MAX_CHUNKS
      && forall i :: 0 <= i < |chunks| ==> ChunkOk(config.streams, chunks[i])
  }

  /** The stream's index, and for a variable-length one the length and the flag. */
  function ChunkInfo(streams: seq<LatmStream>, c: Chunk): Bits {
    FromNat(c.index, 4)
    + if c.index < |streams| && IsVariable(streams[c.index]) then WriteLength(|c.payload| / 8) + [c.endsUnit] else []
  }

  function ChunkInfos(streams: seq<LatmStream>, chunks: seq<Chunk>): Bits {
    if chunks == [] then [] else ChunkInfo(streams, chunks[0]) + ChunkInfos(streams, chunks[1..])
  }

  function ChunkPayloads(chunks: seq<Chunk>): Bits {
    if chunks == [] then [] else chunks[0].payload + ChunkPayloads(chunks[1..])
  }

  function PutFrame(config: LatmConfig, frame: StandardFrame, rest: Bits): Bits
    requires FrameOk(config, frame)
  {
    match frame
    case Together(payloads) => StandardSubframe(config.streams, payloads, rest)
    case InChunks(chunks) =>
      FromNat(|chunks| - 1, 4) + ChunkInfos(config.streams, chunks) + ChunkPayloads(chunks) + rest
  }

  predicate FramesOk(config: LatmConfig, frames: seq<StandardFrame>) {
    forall i :: 0 <= i < |frames| ==> FrameOk(config, frames[i])
  }

  function PutFrames(config: LatmConfig, frames: seq<StandardFrame>, rest: Bits): Bits
    requires FramesOk(config, frames)
  {
    if frames == [] then rest else PutFrame(config, frames[0], PutFrames(config, frames[1..], rest))
  }

  // ---------- reading what follows the configuration

  function Verdict(bits: Bits, config: LatmConfig, useSame: bool): Result<ParsedMux, BitError> {
    var tail :- SkipSubframes(bits, config.numSubframes + 1, config.streams);
    Outcome(config, useSame, tail)
  }

  predicate ConfigOk(config: LatmConfig) {
    AllLegal(config.streams) && 1 <= |config.streams| <= MAX_LATM_STREAMS
  }

  lemma RepeatVerdict(config: LatmConfig, payload: Bits)
    requires ConfigOk(config)
    ensures ParseElement(PutFlag(true, payload), Some(config)) == Verdict(payload, config, true)
  {
    hide SkipSubframes, ReadFlag, PutFlag;
    GetFlag(true, payload);
  }

  lemma NewVerdict(mux: Mux, payload: Bits, previous: Option<LatmConfig>)
    requires MuxOk(mux)
    ensures ConfigOk(ConfigOf(mux))
    ensures ParseElement(PutFlag(false, PutConfig(mux, payload)), previous) == Verdict(payload, ConfigOf(mux), false)
  {
    hide SkipSubframes, ReadFlag, PutFlag, ParseConfig, PutConfig, StreamsOf, VersionOk, OtherOk, ProgramsOk, Pow2;
    GetFlag(false, PutConfig(mux, payload));
    ConfigRoundTrip(mux, payload);
    ParsedStreamsLegal(PutConfig(mux, payload));
  }

  /** All elements in the standard's layout are judged by the bits after their last payload. */
  ghost predicate ReadsElements(config: LatmConfig, useSame: bool) {
    forall frames, tail :: FramesOk(config, frames) && |frames| == config.numSubframes + 1 ==>
      Verdict(PutFrames(config, frames, tail), config, useSame) == Outcome(config, useSame, tail)
  }

  /** The streams have the same time framing and there is one of them, of variable length. */
  predicate OneVariable(config: LatmConfig) {
    config.sameTiming && |config.streams| == 1 && IsVariable(config.streams[0])
  }

  // ---------- one stream of variable length

  function PayloadsOf(frames: seq<StandardFrame>): seq<seq<Bits>>
    requires forall i :: 0 <= i < |frames| ==> frames[i].Together?
  {
    seq(|frames|, i requires 0 <= i < |frames| => frames[i].payloads)
  }

  lemma {:induction false} OneVariableFrames(config: LatmConfig, frames: seq<StandardFrame>, tail: Bits)
    requires OneVariable(config) && FramesOk(config, frames)
    ensures SubframesOk(config.streams, PayloadsOf(frames))
    ensures PutFrames(config, frames, tail) == PutSubframes(config.streams, PayloadsOf(frames), tail)
    decreases |frames|
  {
    hide StandardSubframe, PutSubframe, WriteLength;
    if frames != [] {
      OneVariableFrames(config, frames[1..], tail);
      assert PayloadsOf(frames)[1..] == PayloadsOf(frames[1..]);
      OrdersAgree(config.streams, frames[0].payloads, PutFrames(config, frames[1..], tail));
    }
  }

  lemma OneVariableRead(config: LatmConfig, useSame: bool)
    requires OneVariable(config)
    ensures ReadsElements(config, useSame)
  {
    hide SkipSubframes, PutSubframes, PutFrames, FramesOk, Outcome, PayloadsOf, SubframesOk;
    forall frames, tail | FramesOk(config, frames) && |frames| == config.numSubframes + 1
      ensures Verdict(PutFrames(config, frames, tail), config, useSame) == Outcome(config, useSame, tail)
    {
      AllTogether(config, frames);
      OneVariableFrames(config, frames, tail);
      GetSubframes(config.streams, PayloadsOf(frames), tail);
    }
  }

  lemma AllTogether(config: LatmConfig, frames: seq<StandardFrame>)
    requires OneVariable(config) && FramesOk(config, frames)
    ensures forall i :: 0 <= i < |frames| ==> frames[i].Together?
    ensures |PayloadsOf(frames)| == |frames|
  {
    assert forall i :: 0 <= i < |frames| ==> FrameOk(config, frames[i]);
  }

  // ---------- without the same time framing

  /** Only whole bytes are passed over. */
  lemma {:induction false} LengthIsBytes(bits: Bits) returns (n: nat)
    requires ReadLength(bits).Ok?
    ensures 8 * n <= |bits| && ReadLength(bits).value.1 == bits[8 * n..]
    decreases |bits|
  {
    n := 1;
    if Read(bits, 8).value.0 == 255 {
      var more := LengthIsBytes(bits[8..]);
      n := 1 + more;
      assert bits[8..][8 * more..] == bits[8 * n..];
    }
  }

  lemma PayloadIsBytes(bits: Bits, stream: LatmStream) returns (n: nat)
    requires SkipPayload(bits, stream).Ok?
    ensures 8 * n <= |bits| && SkipPayload(bits, stream).value == bits[8 * n..]
  {
    hide ReadLength;
    if IsVariable(stream) {
      var before := LengthIsBytes(bits);
      var length := ReadLength(bits).value.0;
      n := before + length;
      assert bits[8 * before..][8 * length..] == bits[8 * n..];
    } else {
      n := stream.fixedLength.value;
    }
  }

  lemma {:induction false} SubframeIsBytes(bits: Bits, streams: seq<LatmStream>) returns (n: nat)
    requires SkipSubframe(bits, streams).Ok?
    ensures 8 * n <= |bits| && SkipSubframe(bits, streams).value == bits[8 * n..]
    decreases |streams|
  {
    hide SkipPayload;
    n := 0;
    if streams != [] {
      var first := PayloadIsBytes(bits, streams[0]);
      var more := SubframeIsBytes(bits[8 * first..], streams[1..]);
      n := first + more;
      assert bits[8 * first..][8 * more..] == bits[8 * n..];
    }
  }

  lemma {:induction false} SubframesAreBytes(bits: Bits, count: nat, streams: seq<LatmStream>) returns (n: nat)
    requires SkipSubframes(bits, count, streams).Ok?
    ensures 8 * n <= |bits| && SkipSubframes(bits, count, streams).value == bits[8 * n..]
    decreases count
  {
    hide SkipSubframe;
    n := 0;
    if count > 0 {
      var first := SubframeIsBytes(bits, streams);
      var more := SubframesAreBytes(bits[8 * first..], count - 1, streams);
      n := first + more;
      assert bits[8 * first..][8 * more..] == bits[8 * n..];
    }
  }

  /** Bits that are no whole bytes and end in a one are refused. */
  lemma MisalignedRefused(bits: Bits, config: LatmConfig, useSame: bool)
    requires |bits| % 8 != 0 && bits[|bits| - 1]
    ensures Verdict(bits, config, useSame).Err?
  {
    hide SkipSubframes;
    if SkipSubframes(bits, config.numSubframes + 1, config.streams).Ok? {
      var n := SubframesAreBytes(bits, config.numSubframes + 1, config.streams);
      var tail := bits[8 * n..];
      assert tail != [] && tail[|tail| - 1] == bits[|bits| - 1];
    }
  }

  /** A chunk for the first stream that ends in a one: without payload, or with one of ones. */
  function PlainChunk(streams: seq<LatmStream>): Chunk
    requires AllLegal(streams) && streams != []
  {
    Chunk(0, if IsVariable(streams[0]) then [] else Ones(8 * (streams[0].fixedLength.value + EXTRA_BYTES)), true)
  }

  function PlainFrame(streams: seq<LatmStream>, count: nat): StandardFrame
    requires AllLegal(streams) && streams != []
  {
    InChunks(seq(count, _ => PlainChunk(streams)))
  }

  lemma PlainChunkBits(streams: seq<LatmStream>)
    requires AllLegal(streams) && streams != []
    ensures ChunkOk(streams, PlainChunk(streams))
    ensures var c := PlainChunk(streams); var info := ChunkInfo(streams, c);
      && |c.payload| % 8 == 0
      && (if IsVariable(streams[0]) then c.payload == [] && |info| == 13 && info[12]
          else |info| == 4 && c.payload != [] && c.payload[|c.payload| - 1])
  {
    ZeroWritten();
    hide WriteLength;
  }

  /** How long the infos and payloads of equal chunks are, and how they end. */
  lemma {:induction false} RepeatedChunks(streams: seq<LatmStream>, c: Chunk, chunks: seq<Chunk>)
    requires forall i :: 0 <= i < |chunks| ==> chunks[i] == c
    ensures |ChunkInfos(streams, chunks)| == |chunks| * |ChunkInfo(streams, c)|
    ensures |ChunkPayloads(chunks)| == |chunks| * |c.payload|
    ensures var info, infos := ChunkInfo(streams, c), ChunkInfos(streams, chunks);
            chunks != [] && info != [] ==> infos != [] && infos[|infos| - 1] == info[|info| - 1]
    ensures var payloads := ChunkPayloads(chunks);
            chunks != [] && c.payload != [] ==> payloads != [] && payloads[|payloads| - 1] == c.payload[|c.payload| - 1]
    decreases |chunks|
  {
    hide ChunkInfo, ChunkInfos, ChunkPayloads;
    ChunksNext(streams, chunks);
    if chunks != [] {
      RepeatedChunks(streams, c, chunks[1..]);
      OneMore(|chunks| - 1, |ChunkInfo(streams, c)|);
      OneMore(|chunks| - 1, |c.payload|);
    }
  }

  lemma ChunksNext(streams: seq<LatmStream>, chunks: seq<Chunk>)
    ensures ChunkInfos(streams, chunks)
            == if chunks == [] then [] else ChunkInfo(streams, chunks[0]) + ChunkInfos(streams, chunks[1..])
    ensures ChunkPayloads(chunks) == if chunks == [] then [] else chunks[0].payload + ChunkPayloads(chunks[1..])
  {
  }

  /** The bits of such a frame: whole bytes and a remainder, ending in a one. */
  lemma PlainFrameBits(config: LatmConfig, count: nat)
    requires ConfigOk(config) && !config.sameTiming && 1 <= count <= MAX_CHUNKS
    ensures FrameOk(config, PlainFrame(config.streams, count))
    ensures var bits := PutFrame(config, PlainFrame(config.streams, count), []);
      && bits != [] && bits[|bits| - 1]
      && |bits| % 8 == (4 + count * (if IsVariable(config.streams[0]) then 13 else 4)) % 8
  {
    hide ChunkInfo, ChunkInfos, ChunkPayloads, FromNat, PlainChunk, ChunkOk;
    var streams := config.streams;
    var c, chunks := PlainChunk(streams), PlainFrame(streams, count).chunks;
    PlainChunkBits(streams);
    RepeatedChunks(streams, c, chunks);
    var head, infos, payloads := FromNat(|chunks| - 1, 4), ChunkInfos(streams, chunks), ChunkPayloads(chunks);
    WholeBytes(count, |c.payload|);
    InThreeParts(head, infos, payloads);
    assert PutFrame(config, PlainFrame(streams, count), []) == head + infos + payloads + [];
    if IsVariable(streams[0]) {
      NoneOf(count);
    } else {
      AtLeastOnce(count, |c.payload|);
    }
  }

  lemma NoneOf(count: nat)
    ensures count * 0 == 0
  {
  }

  lemma AtLeastOnce(count: nat, n: nat)
    requires count >= 1 && n >= 1
    ensures count * n >= 1
  {
  }

  lemma WholeBytes(count: nat, n: nat)
    requires n % 8 == 0
    ensures (count * n) % 8 == 0
  {
    var m := n / 8;
    assert count * n == 8 * (count * m);
  }

  /** How bits in three parts end: the last part is of whole bytes. */
  lemma InThreeParts(head: Bits, infos: Bits, payloads: Bits)
    requires |payloads| % 8 == 0 && infos != []
    ensures var bits := head + infos + payloads + [];
      && |bits| % 8 == (|head| + |infos|) % 8 && bits != []
      && bits[|bits| - 1] == if payloads == [] then infos[|infos| - 1] else payloads[|payloads| - 1]
  {
  }

  lemma FrameThenRest(config: LatmConfig, frame: StandardFrame, rest: Bits)
    requires FrameOk(config, frame)
    ensures PutFrame(config, frame, rest) == PutFrame(config, frame, []) + rest
  {
    hide Lengths, Payloads, ChunkInfos, ChunkPayloads;
    match frame
    case Together(payloads) =>
      assert Lengths(config.streams, payloads) + Payloads(payloads) + rest
             == (Lengths(config.streams, payloads) + Payloads(payloads) + []) + rest;
    case InChunks(chunks) =>
      var bits := FromNat(|chunks| - 1, 4) + ChunkInfos(config.streams, chunks) + ChunkPayloads(chunks);
      assert bits + rest == (bits + []) + rest;
  }

  /** Whole bytes, or none, that end in a one. */
  predicate EndsInOne(bits: Bits) {
    |bits| % 8 == 0 && (bits == [] || bits[|bits| - 1])
  }

  lemma {:induction false} AlignedFrames(config: LatmConfig, frame: StandardFrame, count: nat)
    requires FrameOk(config, frame) && EndsInOne(PutFrame(config, frame, []))
    ensures FramesOk(config, seq(count, _ => frame)) && EndsInOne(PutFrames(config, seq(count, _ => frame), []))
    decreases count
  {
    hide FrameOk, PutFrame, EndsInOne, FramesOk, PutFrames;
    if count == 0 {
      NoFrames(config);
      assert seq(count, _ => frame) == [];
    } else {
      AlignedFrames(config, frame, count - 1);
      FrameInFront(config, frame, seq(count - 1, _ => frame));
      assert seq(count, _ => frame) == [frame] + seq(count - 1, _ => frame);
    }
  }

  lemma NoFrames(config: LatmConfig)
    ensures FramesOk(config, []) && PutFrames(config, [], []) == [] && EndsInOne([])
  {
  }

  lemma FrameInFront(config: LatmConfig, frame: StandardFrame, others: seq<StandardFrame>)
    requires FrameOk(config, frame) && FramesOk(config, others)
    ensures FramesOk(config, [frame] + others)
    ensures PutFrames(config, [frame] + others, [])
            == PutFrame(config, frame, []) + PutFrames(config, others, [])
    ensures EndsInOne(PutFrame(config, frame, [])) && EndsInOne(PutFrames(config, others, [])) ==>
            EndsInOne(PutFrames(config, [frame] + others, []))
  {
    hide FrameOk, PutFrame;
    assert ([frame] + others)[1..] == others;
    FrameThenRest(config, frame, PutFrames(config, others, []));
  }

  /** A first frame of one chunk more than whole bytes, and the others of whole bytes. */
  lemma ChunkedIsMisread(config: LatmConfig, useSame: bool) returns (frames: seq<StandardFrame>)
    requires ConfigOk(config) && !config.sameTiming
    ensures FramesOk(config, frames) && |frames| == config.numSubframes + 1
    ensures Verdict(PutFrames(config, frames, []), config, useSame).Err?
  {
    hide PutFrame, PutFrames, FramesOk, PlainFrame, Verdict, FrameOk;
    var streams := config.streams;
    var odd, even := if IsVariable(streams[0]) then 1 else 2, if IsVariable(streams[0]) then 4 else 1;
    PlainFrameBits(config, odd);
    PlainFrameBits(config, even);
    var first, other := PlainFrame(streams, odd), PlainFrame(streams, even);
    AlignedFrames(config, other, config.numSubframes);
    var others := seq(config.numSubframes, _ => other);
    frames := [first] + others;
    FrameInFront(config, first, others);
    var front, rest := PutFrame(config, first, []), PutFrames(config, others, []);
    assert (front + rest)[|front + rest| - 1];
    MisalignedRefused(front + rest, config, useSame);
  }

  // ---------- with the same time framing

  lemma {:induction false} ZeroFramesPassed(streams: seq<LatmStream>, zeros: nat, count: nat)
    requires AllLegal(streams) && count * (Variables(streams) + FixedBytes(streams)) <= zeros
    ensures SkipSubframes(Field(zeros, 0), count, streams)
            == Ok(Field(zeros - count * (Variables(streams) + FixedBytes(streams)), 0))
    decreases count
  {
    hide SkipSubframe, Field, Variables, FixedBytes;
    if count > 0 {
      var each := Variables(streams) + FixedBytes(streams);
      OneMore(count - 1, each);
      ZerosPassed(streams, zeros);
      ZeroFramesPassed(streams, zeros - each, count - 1);
    }
  }

  function ZeroFrames(streams: seq<LatmStream>, count: nat): seq<StandardFrame>
    requires AllLegal(streams)
  {
    seq(count, _ => Together(ZeroPayloads(streams)))
  }

  lemma {:induction false} ZeroFramesBits(config: LatmConfig, count: nat, rest: Bits)
    requires ConfigOk(config) && config.sameTiming
    ensures FramesOk(config, ZeroFrames(config.streams, count))
    ensures PutFrames(config, ZeroFrames(config.streams, count), rest)
            == Zeros(8 * (count * (Variables(config.streams) + FixedStandardBytes(config.streams)))) + rest
    decreases count
  {
    hide Variables, FixedStandardBytes, Lengths, Payloads, ZeroPayloads, StandardSized;
    var streams := config.streams;
    ZeroPayloadsSized(streams);
    var frames, v, f := ZeroFrames(streams, count), Variables(streams), FixedStandardBytes(streams);
    if count == 0 {
      assert Zeros(0) + rest == rest;
    } else {
      assert frames[1..] == ZeroFrames(streams, count - 1);
      ZeroFramesBits(config, count - 1, rest);
      ZerosWritten(streams);
      OneMore(count - 1, v + f);
      ZerosJoin(v, f);
      ZerosJoin(v + f, (count - 1) * (v + f));
      var more := Zeros(8 * ((count - 1) * (v + f)));
      assert Zeros(8 * v) + Zeros(8 * f) + (more + rest) == (Zeros(8 * (v + f)) + more) + rest;
    }
  }

  lemma FixedIsMisread(config: LatmConfig, useSame: bool) returns (frames: seq<StandardFrame>)
    requires ConfigOk(config) && config.sameTiming && Variables(config.streams) < |config.streams|
    ensures FramesOk(config, frames) && |frames| == config.numSubframes + 1
    ensures Verdict(PutFrames(config, frames, []), config, useSame).Err?
  {
    hide SkipSubframes, FramesOk, PutFrames, Variables, FixedBytes, FixedStandardBytes, Field;
    var streams, count := config.streams, config.numSubframes + 1;
    frames := ZeroFrames(streams, count);
    ZeroFramesBits(config, count, []);
    ExtraBytes(streams);
    var v, f, extra := Variables(streams), FixedBytes(streams), EXTRA_BYTES * (|streams| - Variables(streams));
    LeftOver(count, v + f, extra);
    ZeroField(count * (v + f + extra), 0);
    assert Zeros(8 * (count * (v + f + extra))) + Zeros(8 * 0) + [] == Zeros(8 * (count * (v + f + extra))) + [];
    ZeroFramesPassed(streams, count * (v + f + extra), count);
    ZeroField(count * extra, 0);
  }

  lemma LeftOver(count: nat, each: nat, extra: nat)
    requires count > 0 && extra >= 1
    ensures count * (each + extra) == count * each + count * extra && count * extra >= 1
  {
    ProductOrdered(1, count, extra);
  }

  /** Empty payloads in streams that all have variable length. */
  lemma {:induction false} NothingPassed(streams: seq<LatmStream>, rest: Bits)
    requires Variables(streams) == |streams|
    ensures SkipSubframe(Zeros(8 * |streams|) + rest, streams) == Ok(rest)
    decreases |streams|
  {
    hide ReadLength;
    if streams == [] {
      assert Zeros(0) + rest == rest;
    } else {
      var others := Zeros(8 * |streams[1..]|) + rest;
      assert Zeros(8 * |streams|) + rest == Zeros(8) + others;
      ZeroByteIsLength(others);
      assert others[0..] == others;
      NothingPassed(streams[1..], rest);
    }
  }

  lemma {:induction false} NothingPassedOften(streams: seq<LatmStream>, count: nat, rest: Bits)
    requires Variables(streams) == |streams|
    ensures SkipSubframes(Zeros(8 * (count * |streams|)) + rest, count + 1, streams) == SkipSubframes(rest, 1, streams)
    decreases count
  {
    hide SkipSubframe;
    if count == 0 {
      assert Zeros(0) + rest == rest;
    } else {
      OneMore(count - 1, |streams|);
      ZerosJoin(|streams|, (count - 1) * |streams|);
      var others := Zeros(8 * ((count - 1) * |streams|)) + rest;
      assert Zeros(8 * (count * |streams|)) + rest == Zeros(8 * |streams|) + others;
      NothingPassed(streams, others);
      NothingPassedOften(streams, count - 1, rest);
    }
  }

  lemma {:induction false} AllVariable(streams: seq<LatmStream>)
    requires AllLegal(streams) && Variables(streams) == |streams|
    ensures forall i :: 0 <= i < |streams| ==> IsVariable(streams[i])
    ensures FixedStandardBytes(streams) == 0 && FixedBytes(streams) == 0 && !FixedFirst(streams)
  {
    FewVariables(streams);
    ExtraBytes(streams);
    NoFixedBytes(streams);
  }

  lemma {:induction false} NoFixedBytes(streams: seq<LatmStream>)
    requires AllLegal(streams) && forall i :: 0 <= i < |streams| ==> IsVariable(streams[i])
    ensures FixedBytes(streams) == 0
  {
    if streams != [] {
      NoFixedBytes(streams[1..]);
    }
  }

  lemma SecondIsMisread(config: LatmConfig, useSame: bool) returns (frames: seq<StandardFrame>)
    requires ConfigOk(config) && config.sameTiming
    requires Variables(config.streams) == |config.streams| >= 2
    ensures FramesOk(config, frames) && |frames| == config.numSubframes + 1
    ensures Verdict(PutFrames(config, frames, []), config, useSame).Err?
  {
    hide SkipSubframe, PutFrame, Variables, FixedBytes, FixedStandardBytes, Field, WriteLength, LongerPayloads,
         StandardSubframe, ZeroFrames;
    var streams, count := config.streams, config.numSubframes;
    AllVariable(streams);
    LongerWritten(streams);
    var last := Together(LongerPayloads(streams));
    assert FrameOk(config, last);
    frames := ZeroFrames(streams, count) + [last];
    LastFrame(config, count, last);
    LongerField(streams, |streams| - 1, 1);
    SecondLengthLost(streams, |streams| - 1, 1);
    var bits := StandardSubframe(streams, LongerPayloads(streams), []);
    LastPut(config, LongerPayloads(streams));
    NothingPassedOften(streams, count, bits);
  }

  lemma LastPut(config: LatmConfig, payloads: seq<Bits>)
    requires FrameOk(config, Together(payloads))
    ensures PutFrame(config, Together(payloads), []) == StandardSubframe(config.streams, payloads, [])
  {
  }

  /** Frames of zeros before a last one. */
  lemma LastFrame(config: LatmConfig, count: nat, last: StandardFrame)
    requires ConfigOk(config) && config.sameTiming && FrameOk(config, last)
    requires Variables(config.streams) == |config.streams|
    ensures var frames := ZeroFrames(config.streams, count) + [last];
      && |frames| == count + 1 && FramesOk(config, frames)
      && PutFrames(config, frames, []) == Zeros(8 * (count * |config.streams|)) + PutFrame(config, last, [])
  {
    hide PutFrame, Variables, FixedStandardBytes;
    AllVariable(config.streams);
    var zeros := ZeroFrames(config.streams, count);
    ZeroFramesBits(config, count, PutFrame(config, last, []));
    FramesThenLast(config, zeros, last);
  }

  lemma {:induction false} FramesThenLast(config: LatmConfig, frames: seq<StandardFrame>, last: StandardFrame)
    requires FramesOk(config, frames) && FrameOk(config, last)
    ensures FramesOk(config, frames + [last])
    ensures PutFrames(config, frames + [last], []) == PutFrames(config, frames, PutFrame(config, last, []))
    decreases |frames|
  {
    hide PutFrame, FrameOk;
    if frames == [] {
      assert frames + [last] == [last] && [last][1..] == [];
    } else {
      FramesThenLast(config, frames[1..], last);
      assert (frames + [last])[1..] == frames[1..] + [last];
    }
  }

  // ---------- main results

  /** Elements in the standard's layout are read rightly, whatever they carry, exactly when all
      streams have the same time framing and there is only one, of variable length. */
  lemma StandardElementsIff(config: LatmConfig, useSame: bool)
    requires ConfigOk(config)
    ensures ReadsElements(config, useSame) <==> OneVariable(config)
  {
    hide Verdict, PutFrames, FramesOk;
    FewVariables(config.streams);
    if OneVariable(config) {
      OneVariableRead(config, useSame);
    } else if !config.sameTiming {
      var frames := ChunkedIsMisread(config, useSame);
      assert Outcome(config, useSame, []).Ok?;
    } else if Variables(config.streams) < |config.streams| {
      var frames := FixedIsMisread(config, useSame);
      assert Outcome(config, useSame, []).Ok?;
    } else {
      var frames := SecondIsMisread(config, useSame);
      assert Outcome(config, useSame, []).Ok?;
    }
  }

  /** The same for parsing elements that bring a configuration, whatever went before. */
  lemma ParsedElementsIff(mux: Mux, previous: Option<LatmConfig>)
    requires MuxOk(mux)
    ensures
      (forall frames, tail :: FramesOk(ConfigOf(mux), frames) && |frames| == mux.numSubframes + 1 ==>
         ParseElement(PutFlag(false, PutConfig(mux, PutFrames(ConfigOf(mux), frames, tail))), previous)
         == Outcome(ConfigOf(mux), false, tail)) <==> OneVariable(ConfigOf(mux))
  {
    hide ParseElement, PutFlag, PutConfig, PutFrames, FramesOk, Outcome, OneVariable, MuxOk, StreamsOf, Verdict;
    var config := ConfigOf(mux);
    NewVerdict(mux, [], previous);
    StandardElementsIff(config, false);
    if OneVariable(config) {
      forall frames, tail | FramesOk(config, frames) && |frames| == mux.numSubframes + 1
        ensures ParseElement(PutFlag(false, PutConfig(mux, PutFrames(config, frames, tail))), previous)
                == Outcome(config, false, tail)
      {
        NewVerdict(mux, PutFrames(config, frames, tail), previous);
      }
    } else {
      var frames, tail :| FramesOk(config, frames) && |frames| == config.numSubframes + 1
        && Verdict(PutFrames(config, frames, tail), config, false) != Outcome(config, false, tail);
      NewVerdict(mux, PutFrames(config, frames, tail), previous);
    }
  }

  /** And for elements that repeat one. */
  lemma RepeatedElementsIff(config: LatmConfig)
    requires ConfigOk(config)
    ensures
      (forall frames, tail :: FramesOk(config, frames) && |frames| == config.numSubframes + 1 ==>
         ParseElement(PutFlag(true, PutFrames(config, frames, tail)), Some(config))
         == Outcome(config, true, tail)) <==> OneVariable(config)
  {
    hide ParseElement, PutFlag, PutFrames, FramesOk, Outcome, OneVariable, ConfigOk, Verdict;
    StandardElementsIff(config, true);
    if OneVariable(config) {
      forall frames, tail | FramesOk(config, frames) && |frames| == config.numSubframes + 1
        ensures ParseElement(PutFlag(true, PutFrames(config, frames, tail)), Some(config))
                == Outcome(config, true, tail)
      {
        RepeatVerdict(config, PutFrames(config, frames, tail));
      }
    } else {
      var frames, tail :| FramesOk(config, frames) && |frames| == config.numSubframes + 1
        && Verdict(PutFrames(config, frames, tail), config, true) != Outcome(config, true, tail);
      RepeatVerdict(config, PutFrames(config, frames, tail));
    }
  }

  /** One variable-length stream without the same time framing: an empty payload in one chunk. */
  lemma ChunkMisread(asc: AscInfo)
    ensures var config := LatmConfig(false, 0, [LatmStream(asc, 0, None)]);
      var frames := [InChunks([Chunk(0, [], true)])];
      && ConfigOk(config) && FramesOk(config, frames)
      && ParseElement(PutFlag(true, PutFrames(config, frames, [])), Some(config)).Err?
  {
    hide Verdict, PutFrame, ChunkInfo;
    var streams := [LatmStream(asc, 0, None)];
    var config := LatmConfig(false, 0, streams);
    assert PlainFrame(streams, 1) == InChunks([Chunk(0, [], true)]);
    PlainFrameBits(config, 1);
    var frames := [PlainFrame(streams, 1)];
    assert frames[1..] == [];
    var bits := PutFrame(config, frames[0], []);
    MisalignedRefused(bits, config, true);
    RepeatVerdict(config, bits);
  }
}
