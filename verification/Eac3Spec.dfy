/** What an E-AC-3 elementary stream has to look like, position by position, without the
    assembler: the frames are cut at each primary frame, and every access-unit group is
    compared with the first one (section E2.3.1 of ATSC A/52). */
module Eac3Spec {
  import opened Wrappers
  import opened Basics
  import opened Eac3Stream

  function Last<T>(s: seq<T>): T
    requires s != []
  {
    s[|s| - 1]
  }

  function Front<T>(s: seq<T>): seq<T>
    requires s != []
  {
    s[..|s| - 1]
  }

  /** The frames cut before each primary frame; frames ahead of the first one are dropped. */
  function Chunks(frames: seq<Frame>): seq<seq<Frame>> {
    if frames == [] then []
    else
      var before := Chunks(Front(frames));
      if Last(frames).IsPrimary() then before + [[Last(frames)]]
      else if before == [] then []
      else before[|before| - 1 := Last(before) + [Last(frames)]]
  }

  /** How many independent substreams start in `chunk`. */
  function Presentations(chunk: seq<Frame>): nat {
    if chunk == [] then 0
    else Presentations(Front(chunk)) + (if Last(chunk).IsIndependent() then 1 else 0)
  }

  /** Frame `i` continues the numbering and the timing of its group. */
  predicate OrderedAt(chunk: seq<Frame>, i: nat)
    requires i < |chunk|
  {
    && chunk[i].sampleRate == chunk[0].sampleRate
    && chunk[i].blocks == chunk[0].blocks
    && (chunk[i].IsIndependent() ==> chunk[i].Id() == Presentations(chunk[..i]))
    && (!chunk[i].IsIndependent() ==>
          && chunk[i].IsDependent()
          && i > 0
          && (chunk[i - 1].IsIndependent() ==> chunk[i - 1].Kind() != Converted && chunk[i].Id() == 0)
          && (chunk[i - 1].IsDependent() ==> chunk[i].Id() == chunk[i - 1].Id() + 1))
  }

  predicate Ordered(chunk: seq<Frame>) {
    forall i :: 0 <= i < |chunk| ==> OrderedAt(chunk, i)
  }

  /** A dependent frame has a compression word exactly when it is the last one of its owner. */
  predicate CompressionAt(chunk: seq<Frame>, i: nat)
    requires i < |chunk|
  {
    chunk[i].IsDependent() ==>
      (chunk[i].compressionWord.Some? <==> i + 1 == |chunk| || !chunk[i + 1].IsDependent())
  }

  predicate CompressionPlaced(chunk: seq<Frame>) {
    forall i :: 0 <= i < |chunk| ==> CompressionAt(chunk, i)
  }

  datatype Role = Start(kind: IndependentKind) | Follow | Reserved

  function RoleOf(frame: Frame): Role {
    if frame.IsIndependent() then Start(frame.Kind())
    else if frame.IsDependent() then Follow
    else Reserved
  }

  function Roles(chunk: seq<Frame>): seq<Role> {
    seq(|chunk|, i requires 0 <= i < |chunk| => RoleOf(chunk[i]))
  }

  /** All loudspeaker locations of presentation `id`: frame i belongs to the presentation
      numbered by the independent frames up to and including i. */
  function PresentationMask(chunk: seq<Frame>, id: nat): bv16 {
    if chunk == [] then 0
    else
      var before := PresentationMask(Front(chunk), id);
      if Presentations(chunk) == id + 1 then before | Last(chunk).Mask() else before
  }

  predicate GroupWellFormed(chunk: seq<Frame>) {
    Ordered(chunk) && CompressionPlaced(chunk)
  }

  predicate SameShape(chunk: seq<Frame>, first: seq<Frame>) {
    && Roles(chunk) == Roles(first)
    && forall id :: 0 <= id < Presentations(first) ==>
         PresentationMask(chunk, id) == PresentationMask(first, id)
  }

  /** Audio blocks of the groups in `chunks`, counted once per group. */
  function TotalBlocks(chunks: seq<seq<Frame>>): nat {
    if chunks == [] then 0
    else TotalBlocks(Front(chunks)) + (if Last(chunks) == [] then 0 else Last(chunks)[0].blocks)
  }

  /** The running total stops at the `m`-th access-unit boundary. */
  ghost predicate StopsAt(chunks: seq<seq<Frame>>, m: nat) {
    exists i :: 0 <= i <= |chunks| && TotalBlocks(chunks[..i]) == m * BLOCKS_PER_UNIT
  }

  ghost predicate NoUnitStraddled(chunks: seq<seq<Frame>>) {
    forall m: nat :: m * BLOCKS_PER_UNIT <= TotalBlocks(chunks) ==> StopsAt(chunks, m)
  }

  ghost predicate ChunksWellFormed(chunks: seq<seq<Frame>>) {
    && (forall i :: 0 <= i < |chunks| ==> GroupWellFormed(chunks[i]) && SameShape(chunks[i], chunks[0]))
    && NoUnitStraddled(chunks)
  }

  ghost predicate WellFormed(frames: seq<Frame>) {
    && (frames != [] ==> frames[0].IsPrimary())
    && ChunksWellFormed(Chunks(frames))
    && TotalBlocks(Chunks(frames)) % BLOCKS_PER_UNIT == 0
  }

  /** Audio blocks carried by the independent frames with this id. */
  function BlocksCarried(frames: seq<Frame>, id: nat): nat {
    if frames == [] then 0
    else BlocksCarried(Front(frames), id)
         + (if Last(frames).IsIndependent() && Last(frames).Id() == id then Last(frames).blocks else 0)
  }

  // Cutting is faithful: the pieces are the stream, and each begins at its only primary frame.

  ghost predicate IsGroup(chunk: seq<Frame>) {
    chunk != [] && chunk[0].IsPrimary() && forall i :: 1 <= i < |chunk| ==> !chunk[i].IsPrimary()
  }

  lemma GroupGrows(chunk: seq<Frame>, frame: Frame)
    requires IsGroup(chunk) && !frame.IsPrimary()
    ensures IsGroup(chunk + [frame])
  {
  }

  lemma {:induction false} ChunksCut(frames: seq<Frame>)
    ensures forall i :: 0 <= i < |Chunks(frames)| ==> IsGroup(Chunks(frames)[i])
    ensures frames != [] && frames[0].IsPrimary() ==> Joined(Chunks(frames)) == frames && Chunks(frames) != []
  {
    ChunksAreGroups(frames);
    if frames != [] && frames[0].IsPrimary() {
      ChunksJoin(frames);
    }
  }

  lemma {:induction false} ChunksAreGroups(frames: seq<Frame>)
    ensures forall i :: 0 <= i < |Chunks(frames)| ==> IsGroup(Chunks(frames)[i])
  {
    if frames != [] {
      ChunksAreGroups(Front(frames));
      var before := Chunks(Front(frames));
      if Last(frames).IsPrimary() {
        assert IsGroup([Last(frames)]);
      } else if before != [] {
        GroupGrows(Last(before), Last(frames));
      }
    }
  }

  lemma {:induction false} ChunksJoin(frames: seq<Frame>)
    requires frames != [] && frames[0].IsPrimary()
    ensures Joined(Chunks(frames)) == frames && Chunks(frames) != []
  {
    hide Chunks, Joined;
    var front, last := Front(frames), Last(frames);
    assert frames == front + [last];
    ChunksNext(frames);
    NoChunks();
    if front == [] {
      assert frames[0] == last;
      JoinedSnoc([], [last]);
    } else {
      ChunksJoin(front);
      var before := Chunks(front);
      JoinedSnoc(before, [last]);
      JoinedSnoc(Front(before), Last(before));
      JoinedSnoc(Front(before), Last(before) + [last]);
      assert before == Front(before) + [Last(before)];
      assert Joined(Front(before)) + (Last(before) + [last]) == Joined(Front(before)) + Last(before) + [last];
    }
  }

  lemma ChunksNext(frames: seq<Frame>)
    requires frames != []
    ensures var before := Chunks(Front(frames));
      Chunks(frames)
      == if Last(frames).IsPrimary() then before + [[Last(frames)]]
         else if before == [] then []
         else Front(before) + [Last(before) + [Last(frames)]]
  {
  }

  lemma NoChunks()
    ensures Chunks([]) == [] && Joined<Frame>([]) == []
  {
  }

  lemma {:induction false} ChunksUnique(chunks: seq<seq<Frame>>)
    requires forall i :: 0 <= i < |chunks| ==> IsGroup(chunks[i])
    ensures Chunks(Joined(chunks)) == chunks
    decreases |Joined(chunks)|
  {
    hide Chunks, Joined;
    NoChunks();
    if chunks != [] {
      var before, last := Front(chunks), Last(chunks);
      var frames := Joined(chunks);
      assert chunks == before + [last];
      JoinedSnoc(before, last);
      assert last == Front(last) + [Last(last)];
      assert Last(frames) == Last(last);
      ChunksNext(frames);
      if |last| == 1 {
        assert Front(last) == [];
        assert Front(frames) == Joined(before);
        ChunksUnique(before);
      } else {
        var shorter := before + [Front(last)];
        JoinedSnoc(before, Front(last));
        assert Front(frames) == Joined(shorter);
        ChunksUnique(shorter);
        assert Front(shorter) == before;
      }
    }
  }
}
