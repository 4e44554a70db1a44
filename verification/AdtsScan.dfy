/** The ADTS frame scan (Annex 1.A of ISO/IEC 14496-3): an exact recogniser of files that are a
    sequence of well-formed frames. */
module AdtsScan {
  import opened Wrappers
  import opened Basics
  import opened BitSyntax

  const SAMPLE_RATE_COUNT := 13
  const SAMPLES_PER_BLOCK := 1024

  // ---------- one frame

  /** The 12-bit sync word and the zero layer. */
  predicate HasSync(data: seq<byte>)
    requires |data| >= 2
  {
    data[0] == 0xff && data[1] / 16 == 0xf && data[1] / 2 % 4 == 0
  }

  function HeaderSize(data: seq<byte>): nat
    requires |data| >= 2
  {
    if data[1] % 2 == 1 then 7 else 9
  }

  function RateIndex(data: seq<byte>): nat
    requires |data| >= 7
  {
    data[2] / 4 % 16
  }

  function FrameLength(data: seq<byte>): nat
    requires |data| >= 7
  {
    (data[3] as int) % 4 * 2048 + (data[4] as int) * 8 + data[5] / 32
  }

  function RawBlocks(data: seq<byte>): nat
    requires |data| >= 7
  {
    data[6] % 4
  }

  function Fullness(data: seq<byte>): nat
    requires |data| >= 7
  {
    (data[5] as int) % 32 * 64 + data[6] / 4
  }

  /** MPEG id, profile, sample-rate index and channel configuration. */
  datatype Config = Config(id: nat, profile: nat, rateIndex: nat, channels: nat)

  function ConfigOf(data: seq<byte>): Config
    requires |data| >= 7
  {
    Config(data[1] / 8 % 2, data[2] / 64, RateIndex(data), data[2] % 2 * 4 + data[3] / 64)
  }

  /** A frame that is exactly as long as it says, header included. */
  predicate WellFormed(frame: seq<byte>) {
    && |frame| >= 7
    && HasSync(frame)
    && RateIndex(frame) < SAMPLE_RATE_COUNT
    && |frame| == FrameLength(frame) >= HeaderSize(frame)
  }

  predicate AllWellFormed(frames: seq<seq<byte>>) {
    forall i :: 0 <= i < |frames| ==> WellFormed(frames[i])
  }

  // ---------- a file

  ghost predicate IsStream(file: seq<byte>, frames: seq<seq<byte>>) {
    && Joined(frames) == file
    && |frames| <= MAX_AAC_FRAMES
    && AllWellFormed(frames)
  }

  /** The length of the frame at the front of `rest`, if there is one. */
  function FrontFrame(rest: seq<byte>): (length: Option<nat>)
    ensures length.Some? ==> 0 < length.value <= |rest| && WellFormed(rest[..length.value])
  {
    if |rest| >= 7 && FrameLength(rest) <= |rest| && WellFormed(rest[..FrameLength(rest)])
    then Some(FrameLength(rest)) else None
  }

  lemma FrontFrameFound(frame: seq<byte>, after: seq<byte>)
    requires WellFormed(frame)
    ensures FrontFrame(frame + after) == Some(|frame|)
  {
    assert (frame + after)[..|frame|] == frame;
    assert forall i :: 0 <= i < 7 ==> (frame + after)[i] == frame[i];
  }

  /** A file is a sequence of well-formed frames in at most one way. */
  lemma {:induction false} StreamUnique(file: seq<byte>, a: seq<seq<byte>>, b: seq<seq<byte>>)
    requires Joined(a) == file && Joined(b) == file
    requires AllWellFormed(a)
    requires AllWellFormed(b)
    ensures a == b
    decreases |a|
  {
    if a != [] {
      assert |a[0]| > 0 && b != [];
      FrontFrameFound(a[0], Joined(a[1..]));
      FrontFrameFound(b[0], Joined(b[1..]));
      var n := |a[0]|;
      assert file[..n] == a[0] == b[0] && file[n..] == Joined(a[1..]) == Joined(b[1..]);
      StreamUnique(file[n..], a[1..], b[1..]);
    }
  }

  // ---------- a writer

  /** All header fields but the length; `flags` are the four copyright and originality bits. */
  datatype Header = Header(
    id: nat, profile: nat, rateIndex: nat, private: nat, channels: nat, flags: nat, fullness: nat, blocks: nat,
    crc: Option<(byte, byte)>)

  /** Every field fits its width. */
  predicate HeaderOk(h: Header) {
    && h.id < 2 && h.profile < 4 && h.rateIndex < 16 && h.private < 2 && h.channels < 8 && h.flags < 16
    && h.fullness < 2048 && h.blocks < 4
  }

  function SizeOfHeader(h: Header): nat {
    if h.crc.Some? then 9 else 7
  }

  /** One frame; the length is cut to its 13 bits. The test suite writes frames like this one, with
      0x7ff for the fullness, a fixed CRC, and zero for the fields it has no parameter for. */
  function AdtsFrame(h: Header, payload: seq<byte>): seq<byte>
    requires HeaderOk(h)
  {
    var length := SizeOfHeader(h) + |payload|;
    [0xff,
     (0xf0 + h.id * 8 + if h.crc.Some? then 0 else 1) as byte,
     (h.profile * 64 + h.rateIndex * 4 + h.private * 2 + h.channels / 4) as byte,
     (h.channels % 4 * 64 + h.flags * 4 + length / 2048 % 4) as byte,
     (length / 8 % 256) as byte,
     (length % 8 * 32 + h.fullness / 64) as byte,
     (h.fullness % 64 * 4 + h.blocks) as byte]
    + (if h.crc.Some? then [h.crc.value.0, h.crc.value.1] else []) + payload
  }

  /** What is written is a frame exactly when the rate is known and the length fits its 13 bits,
      and then every field reads back. */
  lemma FrameRoundTrip(h: Header, payload: seq<byte>)
    requires HeaderOk(h)
    ensures var frame := AdtsFrame(h, payload);
      && (WellFormed(frame) <==> h.rateIndex < SAMPLE_RATE_COUNT && |frame| < 8192)
      && ConfigOf(frame) == Config(h.id, h.profile, h.rateIndex, h.channels)
      && frame[HeaderSize(frame)..] == payload
      && RawBlocks(frame) == h.blocks && IsProtected(frame) == h.crc.Some?
      && (IsVariableRate(frame) <==> h.fullness == 0x7ff)
  {
    hide AdtsFrame, ConfigOf, FrameLength, HasSync, RateIndex, HeaderSize, IsProtected, RawBlocks, Fullness, HeaderOk;
    WrittenHeader(h, payload);
    WrittenFields(h, payload);
  }

  lemma WrittenHeader(h: Header, payload: seq<byte>)
    requires HeaderOk(h)
    ensures var frame := AdtsFrame(h, payload);
      && |frame| == SizeOfHeader(h) + |payload| >= HeaderSize(frame) >= 7 && HasSync(frame)
      && frame[HeaderSize(frame)..] == payload
      && IsProtected(frame) == h.crc.Some? && RawBlocks(frame) == h.blocks && Fullness(frame) == h.fullness
  {
    var length := SizeOfHeader(h) + |payload|;
    FullnessBits(length, h.fullness, h.blocks);
    IdBits(h.id, if h.crc.Some? then 0 else 1);
  }

  lemma WrittenFields(h: Header, payload: seq<byte>)
    requires HeaderOk(h)
    ensures var frame := AdtsFrame(h, payload);
      && |frame| >= 7 && FrameLength(frame) == (SizeOfHeader(h) + |payload|) % 8192 && RateIndex(frame) == h.rateIndex
      && ConfigOf(frame) == Config(h.id, h.profile, h.rateIndex, h.channels)
  {
    var length := SizeOfHeader(h) + |payload|;
    IdBits(h.id, if h.crc.Some? then 0 else 1);
    LengthBits(length);
    FullnessBits(length, h.fullness, h.blocks);
    ConfigBits(h, length / 2048 % 4);
  }

  lemma IdBits(id: nat, absent: nat)
    requires id < 2 && absent < 2
    ensures var first := 0xf0 + id * 8 + absent;
            first / 16 == 0xf && first / 8 % 2 == id && first / 2 % 4 == 0 && first % 2 == absent
  {
  }

  lemma ConfigBits(h: Header, low: nat)
    requires HeaderOk(h) && low < 4
    ensures var second := h.profile * 64 + h.rateIndex * 4 + h.private * 2 + h.channels / 4;
      var third := h.channels % 4 * 64 + h.flags * 4 + low;
      && second / 64 == h.profile && second / 4 % 16 == h.rateIndex
      && second % 2 * 4 + third / 64 == h.channels && third % 4 == low
  {
    SecondBits(h.profile, h.rateIndex, h.private, h.channels / 4);
    ThirdBits(h.channels % 4, h.flags, low);
  }

  lemma SecondBits(profile: nat, rateIndex: nat, private: nat, high: nat)
    requires profile < 4 && rateIndex < 16 && private < 2 && high < 2
    ensures var second := profile * 64 + rateIndex * 4 + private * 2 + high;
            second / 64 == profile && second / 4 % 16 == rateIndex && second % 2 == high
  {
    var second := profile * 64 + rateIndex * 4 + private * 2 + high;
    assert second / 4 == profile * 16 + rateIndex;
  }

  lemma ThirdBits(low: nat, flags: nat, length: nat)
    requires low < 4 && flags < 16 && length < 4
    ensures var third := low * 64 + flags * 4 + length; third / 64 == low && third % 4 == length
  {
  }

  lemma FullnessBits(length: nat, fullness: nat, blocks: nat)
    requires fullness < 2048 && blocks < 4
    ensures var fifth, sixth := length % 8 * 32 + fullness / 64, fullness % 64 * 4 + blocks;
      fifth / 32 == length % 8 && fifth % 32 * 64 + sixth / 4 == fullness && sixth % 4 == blocks
  {
  }

  lemma LengthBits(length: nat)
    ensures length / 2048 % 4 * 2048 + length / 8 % 256 * 8 + length % 8 == length % 8192
  {
    HighBits(length);
    MiddleBits(length);
  }

  lemma HighBits(length: nat)
    ensures length % 8192 == length / 2048 % 4 * 2048 + length % 2048
  {
    var high := length / 2048;
    assert length == 8192 * (high / 4) + (high % 4 * 2048 + length % 2048);
  }

  lemma MiddleBits(length: nat)
    ensures length % 2048 == length / 8 % 256 * 8 + length % 8
  {
    var middle := length / 8;
    assert length == 2048 * (middle / 256) + (middle % 256 * 8 + length % 8);
  }

  // ---------- totals over the frames of an accepted file

  function Samples(frames: seq<seq<byte>>): nat
    requires AllWellFormed(frames)
  {
    if frames == [] then 0
    else
      var last := |frames| - 1;
      assert WellFormed(frames[last]);
      Samples(frames[..last]) + SAMPLES_PER_BLOCK * (RawBlocks(frames[last]) + 1)
  }

  function CountIf(frames: seq<seq<byte>>, p: seq<byte> -> bool): nat {
    if frames == [] then 0
    else CountIf(frames[..|frames| - 1], p) + (if p(frames[|frames| - 1]) then 1 else 0)
  }

  predicate IsProtected(frame: seq<byte>) {
    |frame| >= 7 && HeaderSize(frame) == 9
  }

  predicate IsVariableRate(frame: seq<byte>) {
    |frame| >= 7 && Fullness(frame) == 0x7ff
  }

  /** Frames whose configuration differs from that of the first frame. */
  function Changes(frames: seq<seq<byte>>): nat
    requires AllWellFormed(frames)
  {
    if frames == [] then 0
    else
      var last := |frames| - 1;
      assert WellFormed(frames[last]) && WellFormed(frames[0]);
      Changes(frames[..last]) + (if ConfigOf(frames[last]) != ConfigOf(frames[0]) then 1 else 0)
  }

  datatype Counts = Counts(
    frames: nat,
    bytes: nat,
    samples: nat,
    variableRateFrames: nat,
    firstConfig: Option<Config>,
    configChanges: nat)

  datatype Report = Report(
    syncValid: bool, boundsValid: bool, headersValid: bool, counts: Counts, protectedFrames: nat)

  ghost predicate Tallies(r: Counts, frames: seq<seq<byte>>)
    requires AllWellFormed(frames)
  {
    && r.frames == |frames|
    && r.bytes == |Joined(frames)|
    && r.samples == Samples(frames)
    && r.variableRateFrames == CountIf(frames, IsVariableRate)
    && r.firstConfig == (if frames == [] then None else Some(ConfigOf(frames[0])))
    && r.configChanges == Changes(frames)
  }

  predicate Passed(r: Report) {
    r.syncValid && r.boundsValid && r.headersValid
  }

  /** The part of a file that was scanned, as frames. */
  ghost predicate ScannedTo(file: seq<byte>, offset: nat, frames: seq<seq<byte>>) {
    && offset <= |file|
    && Joined(frames) == file[..offset]
    && AllWellFormed(frames)
  }

  predicate HeaderComplete(rest: seq<byte>) {
    |rest| >= 7 && HasSync(rest) && |rest| >= HeaderSize(rest)
  }

  predicate HeaderFits(rest: seq<byte>)
    requires |rest| >= 7
  {
    RateIndex(rest) < SAMPLE_RATE_COUNT && FrameLength(rest) >= HeaderSize(rest)
  }

  /** The one flag that is cleared, by what stands where the scan stops after so many frames. */
  predicate FlagsMean(r: Report, unread: seq<byte>) {
    if r.counts.frames == MAX_AAC_FRAMES && unread != [] then r.syncValid && !r.boundsValid && r.headersValid
    else
      && (r.syncValid <==> |unread| < 7 || HasSync(unread))
      && (r.headersValid <==> HeaderComplete(unread) ==> HeaderFits(unread))
      && (r.boundsValid <==>
            || unread == []
            || (|unread| >= 7 && !HasSync(unread))
            || (HeaderComplete(unread) && !HeaderFits(unread)))
  }

  /** The frames counted as protected: those read whose header has a CRC, and one that is refused
      after its CRC. */
  predicate ProtectedMeans(r: Report, frames: seq<seq<byte>>, unread: seq<byte>) {
    var refused := r.counts.frames < MAX_AAC_FRAMES && HeaderComplete(unread) && HeaderSize(unread) == 9;
    r.protectedFrames == CountIf(frames, IsProtected) + if refused then 1 else 0
  }

  datatype Fault = NoFault | NoSync | OutOfBounds | BadHeader

  /** Judges the header at the front of `rest`; a CRC is read before the header is judged. */
  method NextFrame(rest: seq<byte>) returns (fault: Fault, length: nat, crcRead: bool)
    ensures fault == NoFault <==> FrontFrame(rest).Some?
    ensures fault == NoFault ==> FrontFrame(rest) == Some(length) && crcRead == IsProtected(rest[..length])
    ensures fault == NoSync <==> |rest| >= 7 && !HasSync(rest)
    ensures fault == BadHeader <==> HeaderComplete(rest) && !HeaderFits(rest)
    ensures crcRead <==> HeaderComplete(rest) && HeaderSize(rest) == 9
  {
    length, crcRead := 0, false;
    if |rest| < 7 {
      return OutOfBounds, length, crcRead;
    }
    if !HasSync(rest) {
      return NoSync, length, crcRead;
    }
    if HeaderSize(rest) == 9 {
      if |rest| < 9 {
        return OutOfBounds, length, crcRead;
      }
      crcRead := true;
    }
    length := FrameLength(rest);
    if RateIndex(rest) >= SAMPLE_RATE_COUNT || length < HeaderSize(rest) {
      return BadHeader, length, crcRead;
    }
    fault := if length > |rest| then OutOfBounds else NoFault;
  }

  function Counted(r: Counts, frame: seq<byte>): Counts
    requires WellFormed(frame)
  {
    r.(frames := r.frames + 1,
       bytes := r.bytes + |frame|,
       samples := r.samples + SAMPLES_PER_BLOCK * (RawBlocks(frame) + 1),
       variableRateFrames := r.variableRateFrames + (if IsVariableRate(frame) then 1 else 0),
       firstConfig := if r.firstConfig.None? then Some(ConfigOf(frame)) else r.firstConfig,
       configChanges := r.configChanges
         + (if r.firstConfig.Some? && r.firstConfig.value != ConfigOf(frame) then 1 else 0))
  }

  lemma TalliesStep(r: Counts, frames: seq<seq<byte>>, frame: seq<byte>)
    requires AllWellFormed(frames)
    requires WellFormed(frame) && Tallies(r, frames)
    ensures AllWellFormed(frames + [frame]) && Tallies(Counted(r, frame), frames + [frame])
    ensures Counted(r, frame).frames == r.frames + 1 && Counted(r, frame).bytes == r.bytes + |frame|
    ensures CountIf(frames + [frame], IsProtected)
            == CountIf(frames, IsProtected) + (if IsProtected(frame) then 1 else 0)
  {
    assert (frames + [frame])[..|frames|] == frames;
    JoinedSnoc(frames, frame);
  }

  /** Passing means being a sequence of at most the limit of well-formed frames. Whatever happens
      the counts are those of the frames up to where none follows, or the limit is met, and the flags
      say what stopped the scan. */
  method Audit(file: seq<byte>) returns (r: Report)
    ensures Passed(r) <==> exists frames :: IsStream(file, frames)
    ensures Passed(r) ==> r.counts.bytes == |file|
    ensures forall frames :: IsStream(file, frames) ==>
              Tallies(r.counts, frames) && r.protectedFrames == CountIf(frames, IsProtected)
    ensures r.counts.bytes <= |file| && r.counts.frames <= MAX_AAC_FRAMES
    ensures FlagsMean(r, file[r.counts.bytes..])
    ensures r.counts.frames < MAX_AAC_FRAMES ==> FrontFrame(file[r.counts.bytes..]).None?
    ensures exists frames :: ScannedTo(file, r.counts.bytes, frames) && Tallies(r.counts, frames)
              && ProtectedMeans(r, frames, file[r.counts.bytes..])
  {
    hide ScannedTo, Tallies, WellFormed, AllWellFormed, FrontFrame, IsProtected, Counted, CountIf, IsStream;
    var counts, crcs := Counts(0, 0, 0, 0, None, 0), 0;
    var offset := 0;
    ghost var done: seq<seq<byte>> := [];
    NothingScanned(file);
    while offset < |file|
      invariant offset <= |file| && counts.bytes == offset && counts.frames == |done| <= MAX_AAC_FRAMES
      invariant ScannedTo(file, offset, done) && AllWellFormed(done) && Tallies(counts, done)
      invariant crcs == CountIf(done, IsProtected)
      decreases |file| - offset
    {
      if counts.frames == MAX_AAC_FRAMES {
        OverLimit(file, offset, done);
        return Report(true, false, true, counts, crcs);
      }
      var fault, length, crcRead := NextFrame(file[offset..]);
      if crcRead {
        crcs := crcs + 1;
      }
      if fault != NoFault {
        Stuck(file, offset, done);
        return Report(fault != NoSync, fault != OutOfBounds, fault != BadHeader, counts, crcs);
      }
      var frame := file[offset..][..length];
      assert frame == file[offset..offset + length];
      Advance(file, offset, offset + length, done);
      TalliesStep(counts, done, frame);
      counts := Counted(counts, frame);
      done := done + [frame];
      offset := offset + length;
    }
    Finished(file, done);
    r := Report(true, true, true, counts, crcs);
  }

  lemma NothingScanned(file: seq<byte>)
    ensures ScannedTo(file, 0, []) && AllWellFormed([]) && CountIf([], IsProtected) == 0
    ensures Tallies(Counts(0, 0, 0, 0, None, 0), [])
  {
  }

  lemma Finished(file: seq<byte>, done: seq<seq<byte>>)
    requires ScannedTo(file, |file|, done) && |done| <= MAX_AAC_FRAMES
    ensures IsStream(file, done) && AllWellFormed(done)
    ensures forall frames :: IsStream(file, frames) ==> frames == done
  {
    assert file[..|file|] == file;
    forall frames | IsStream(file, frames)
      ensures frames == done
    {
      StreamUnique(file, frames, done);
    }
  }

  lemma Advance(file: seq<byte>, offset: nat, end: nat, done: seq<seq<byte>>)
    requires offset < end <= |file| && ScannedTo(file, offset, done)
    requires WellFormed(file[offset..end])
    ensures ScannedTo(file, end, done + [file[offset..end]])
    ensures |Joined(done + [file[offset..end]])| == end
    ensures (done + [file[offset..end]])[..|done|] == done
  {
    JoinedSnoc(done, file[offset..end]);
    assert file[..offset] + file[offset..end] == file[..end];
  }

  /** Where no frame begins the file is no sequence of frames. */
  lemma {:induction false} Stuck(file: seq<byte>, offset: nat, done: seq<seq<byte>>)
    requires ScannedTo(file, offset, done) && offset < |file|
    requires FrontFrame(file[offset..]).None?
    ensures !exists frames :: IsStream(file, frames)
  {
    forall frames | IsStream(file, frames)
      ensures false
    {
      Continues(file, offset, done, frames);
    }
  }

  lemma {:induction false} Continues(file: seq<byte>, offset: nat, done: seq<seq<byte>>, frames: seq<seq<byte>>)
    requires ScannedTo(file, offset, done)
    requires Joined(frames) == file && AllWellFormed(frames)
    ensures |done| <= |frames| && Joined(frames[|done|..]) == file[offset..]
    ensures offset < |file| ==> |done| < |frames| && FrontFrame(file[offset..]).Some?
    decreases |done|
  {
    if done == [] {
      assert file[offset..] == file && frames[0..] == frames;
      if offset < |file| {
        FrontFrameFound(frames[0], Joined(frames[1..]));
      }
    } else {
      var n := |done[0]|;
      assert file[..offset][..n] == done[0];
      assert file == done[0] + file[n..];
      FrontFrameFound(done[0], file[n..]);
      assert frames != [];
      FrontFrameFound(frames[0], Joined(frames[1..]));
      assert file[n..] == Joined(frames[1..]);
      assert Joined(done[1..]) == file[n..][..offset - n];
      Continues(file[n..], offset - n, done[1..], frames[1..]);
      assert frames[1..][|done| - 1..] == frames[|done|..] && file[n..][offset - n..] == file[offset..];
    }
  }

  lemma OverLimit(file: seq<byte>, offset: nat, done: seq<seq<byte>>)
    requires ScannedTo(file, offset, done) && offset < |file| && |done| == MAX_AAC_FRAMES
    ensures !exists frames :: IsStream(file, frames)
  {
    forall frames | IsStream(file, frames)
      ensures false
    {
      Continues(file, offset, done, frames);
    }
  }
}
