/** The loudspeaker locations of presentations and the roles of frames, said of the header fields
    of single frames: what an accepted stream may carry and what a report names. */
module Eac3Locations {
  import opened Wrappers
  import opened Basics
  import opened Eac3Stream
  import opened Eac3Spec
  import opened Eac3Recogniser

  // ---------- one frame

  /** Some of these locations are in the mask; with a single bit, that location. */
  predicate Has(mask: bv16, locations: bv16) {
    mask & locations != 0
  }

  const LEFT: bv16 := 0x8000
  const CENTRE: bv16 := 0x4000
  const RIGHT: bv16 := 0x2000
  const LEFT_SURROUND: bv16 := 0x1000
  const RIGHT_SURROUND: bv16 := 0x0800
  const CENTRE_SURROUND: bv16 := 0x0100
  const LOW_FREQUENCY: bv16 := 0x0001

  /** The locations of an audio coding mode: a centre when it is odd, left and right in all but the
      mono mode, two surrounds from 6 on and one before. */
  predicate ModeHas(acmod: byte, lfe: bool, locations: bv16) {
    || (acmod < 8 && (
          || (acmod % 2 == 1 && Has(CENTRE, locations))
          || (acmod != 1 && Has(LEFT | RIGHT, locations))
          || (acmod / 2 == 2 && Has(CENTRE_SURROUND, locations))
          || (acmod / 2 == 3 && Has(LEFT_SURROUND | RIGHT_SURROUND, locations))))
    || (lfe && Has(LOW_FREQUENCY, locations))
  }

  /** A dependent frame with a channel map brings what the map says, any other frame its mode. */
  predicate Brings(frame: Frame, locations: bv16) {
    if frame.substream.Some? && frame.substream.value.streamType == 1 && frame.channelMap.Some?
    then Has(frame.channelMap.value, locations)
    else ModeHas(frame.acmod, frame.lfe, locations)
  }

  lemma HasEither(a: bv16, b: bv16, locations: bv16)
    ensures Has(a | b, locations) <==> Has(a, locations) || Has(b, locations)
  {
    assert (a | b) & locations == (a & locations) | (b & locations);
  }

  lemma ModeLocations(acmod: byte, lfe: bool, locations: bv16)
    ensures Has(ChannelMask(acmod, lfe), locations) <==> ModeHas(acmod, lfe, locations)
  {
    hide Has, ChannelMask;
    MasksOfModes(acmod, lfe);
    var front, sides := LEFT | RIGHT, LEFT_SURROUND | RIGHT_SURROUND;
    HasNone(locations);
    HasEither(front, CENTRE, locations);
    HasEither(front, CENTRE_SURROUND, locations);
    HasEither(front | CENTRE, CENTRE_SURROUND, locations);
    HasEither(front, sides, locations);
    HasEither(front | CENTRE, sides, locations);
    HasEither(ChannelMask(acmod, false), LOW_FREQUENCY, locations);
  }

  lemma MasksOfModes(acmod: byte, lfe: bool)
    ensures var plain := ChannelMask(acmod, false);
            ChannelMask(acmod, lfe) == if lfe then plain | LOW_FREQUENCY else plain
    ensures var front, sides := LEFT | RIGHT, LEFT_SURROUND | RIGHT_SURROUND;
      ChannelMask(acmod, false)
      == match acmod
         case 0 => front
         case 1 => CENTRE
         case 2 => front
         case 3 => front | CENTRE
         case 4 => front | CENTRE_SURROUND
         case 5 => front | CENTRE | CENTRE_SURROUND
         case 6 => front | sides
         case 7 => front | CENTRE | sides
         case _ => 0
  {
  }

  lemma HasNone(locations: bv16)
    ensures !Has(0, locations)
  {
  }

  lemma FrameLocations(frame: Frame, locations: bv16)
    ensures Has(frame.Mask(), locations) <==> Brings(frame, locations)
  {
    hide ChannelMask, ModeHas, Has;
    ModeLocations(frame.acmod, frame.lfe, locations);
  }

  // ---------- one group

  /** The frame begins this presentation: legacy AC-3 is presentation 0, stream types 0 and 2 name
      theirs. */
  predicate Begins(frame: Frame, id: nat) {
    match frame.substream
    case None => id == 0
    case Some(substream) => substream.streamType in {0, 2} && substream.id == id
  }

  predicate Continues(frame: Frame) {
    frame.substream.Some? && frame.substream.value.streamType == 1
  }

  /** Frame `i` is of this presentation: the last one that begins any, at or before it, begins this
      one. */
  predicate FrameOf(chunk: seq<Frame>, i: nat, id: nat)
    requires i < |chunk|
  {
    exists j :: 0 <= j <= i && Begins(chunk[j], id) && forall k :: j < k <= i ==> Continues(chunk[k])
  }

  predicate Carries(chunk: seq<Frame>, id: nat, locations: bv16) {
    exists i :: 0 <= i < |chunk| && FrameOf(chunk, i, id) && Brings(chunk[i], locations)
  }

  lemma RawRoles(frame: Frame)
    ensures frame.IsIndependent() <==> exists id: byte :: Begins(frame, id)
    ensures forall id: nat :: Begins(frame, id) <==> frame.IsIndependent() && frame.Id() == id
    ensures Continues(frame) <==> frame.IsDependent()
  {
    assert frame.IsIndependent() ==> Begins(frame, frame.Id());
  }

  lemma FrameOfFront(chunk: seq<Frame>, i: nat, id: nat)
    requires i < |chunk| - 1
    ensures FrameOf(chunk, i, id) <==> FrameOf(Front(chunk), i, id)
  {
    var front := Front(chunk);
    if j :| 0 <= j <= i && Begins(chunk[j], id) && forall k :: j < k <= i ==> Continues(chunk[k]) {
      assert Begins(front[j], id) && forall k :: j < k <= i ==> Continues(front[k]);
    }
    if j :| 0 <= j <= i && Begins(front[j], id) && forall k :: j < k <= i ==> Continues(front[k]) {
      assert Begins(chunk[j], id) && forall k :: j < k <= i ==> Continues(chunk[k]);
    }
  }

  lemma LastFrameOf(chunk: seq<Frame>, id: nat)
    requires chunk != []
    ensures FrameOf(chunk, |chunk| - 1, id) <==>
            || Begins(Last(chunk), id)
            || (|chunk| > 1 && Continues(Last(chunk)) && FrameOf(Front(chunk), |chunk| - 2, id))
  {
    hide Begins, Continues;
    var n := |chunk| - 1;
    if n > 0 {
      FrameOfFront(chunk, n - 1, id);
    }
    if Begins(Last(chunk), id) {
      assert FrameOf(chunk, n, id);
    }
    if j :| 0 <= j <= n && Begins(chunk[j], id) && forall k :: j < k <= n ==> Continues(chunk[k]) {
      if j < n {
        assert FrameOf(chunk, n - 1, id);
      }
    }
    if n > 0 && Continues(Last(chunk)) && FrameOf(chunk, n - 1, id) {
      var j :| 0 <= j <= n - 1 && Begins(chunk[j], id) && forall k :: j < k <= n - 1 ==> Continues(chunk[k]);
      assert Begins(chunk[j], id) && forall k :: j < k <= n ==> Continues(chunk[k]);
    }
  }

  /** The last frame of an ordered group is of its last presentation. */
  lemma {:induction false} LastPresentation(chunk: seq<Frame>, id: nat)
    requires chunk != [] && Ordered(chunk)
    ensures FrameOf(chunk, |chunk| - 1, id) <==> Presentations(chunk) == id + 1
    decreases |chunk|
  {
    hide Begins, Continues, FrameOf, Ordered;
    OrderedFront(chunk);
    LastFrameOf(chunk, id);
    RawRoles(Last(chunk));
    PresentationsNext(chunk, id);
    assert OrderedAt(chunk, |chunk| - 1) && chunk[..|chunk| - 1] == Front(chunk);
    if |chunk| > 1 {
      LastPresentation(Front(chunk), id);
    } else {
      assert Presentations(Front(chunk)) == 0;
    }
  }

  /** The mask of a presentation is the locations that its frames bring. */
  lemma {:induction false} LocationsAre(chunk: seq<Frame>, id: nat, locations: bv16)
    requires Ordered(chunk)
    ensures Has(PresentationMask(chunk, id), locations) <==> Carries(chunk, id, locations)
    decreases |chunk|
  {
    hide Ordered, FrameOf, Brings, Has;
    if chunk == [] {
      HasNone(locations);
    } else {
      OrderedFront(chunk);
      LocationsAre(Front(chunk), id, locations);
      LastPresentation(chunk, id);
      PresentationsNext(chunk, id);
      FrameLocations(Last(chunk), locations);
      HasEither(PresentationMask(Front(chunk), id), Last(chunk).Mask(), locations);
      CarriesNext(chunk, id, locations);
    }
  }

  lemma CarriesNext(chunk: seq<Frame>, id: nat, locations: bv16)
    requires chunk != []
    ensures Carries(chunk, id, locations) <==>
            || Carries(Front(chunk), id, locations)
            || (FrameOf(chunk, |chunk| - 1, id) && Brings(Last(chunk), locations))
  {
    hide FrameOf, Brings;
    forall i | 0 <= i < |chunk| - 1
      ensures FrameOf(chunk, i, id) <==> FrameOf(Front(chunk), i, id)
    {
      FrameOfFront(chunk, i, id);
    }
    if i :| 0 <= i < |Front(chunk)| && FrameOf(Front(chunk), i, id) && Brings(Front(chunk)[i], locations) {
      assert FrameOf(chunk, i, id) && Brings(chunk[i], locations);
    }
    if i :| 0 <= i < |chunk| && FrameOf(chunk, i, id) && Brings(chunk[i], locations) {
      assert i < |chunk| - 1 ==> FrameOf(Front(chunk), i, id) && Brings(Front(chunk)[i], locations);
    }
  }

  // ---------- groups that match

  lemma MasksEqual(a: bv16, b: bv16)
    ensures a == b <==> forall locations :: Has(a, locations) <==> Has(b, locations)
  {
    hide Has;
    if forall locations :: Has(a, locations) <==> Has(b, locations) {
      assert Has(a, a & !b) <==> Has(b, a & !b);
      assert Has(a, b & !a) <==> Has(b, b & !a);
      HasOnly(a, b);
      HasOnly(b, a);
      NoDifference(a, b);
    }
  }

  lemma HasOnly(a: bv16, b: bv16)
    ensures Has(a, a & !b) <==> a & !b != 0
    ensures !Has(b, a & !b)
  {
    assert a & (a & !b) == a & !b && b & (a & !b) == 0;
  }

  lemma NoDifference(a: bv16, b: bv16)
    requires a & !b == 0 && b & !a == 0
    ensures a == b
  {
  }

  /** What stream type a frame has in the assembly, and whether it names one at all. */
  predicate SameRole(a: Frame, b: Frame) {
    match (a.substream, b.substream)
    case (None, None) => true
    case (Some(x), Some(y)) => x.streamType == y.streamType || (x.streamType > 2 && y.streamType > 2)
    case _ => false
  }

  lemma RolesAre(a: Frame, b: Frame)
    ensures RoleOf(a) == RoleOf(b) <==> SameRole(a, b)
  {
  }

  predicate SameRoles(a: seq<Frame>, b: seq<Frame>) {
    |a| == |b| && forall i :: 0 <= i < |a| ==> SameRole(a[i], b[i])
  }

  lemma RoleListsAre(a: seq<Frame>, b: seq<Frame>)
    ensures Roles(a) == Roles(b) <==> SameRoles(a, b)
  {
    hide SameRole, RoleOf;
    forall i, j
      ensures 0 <= i < |a| && 0 <= j < |b| ==> (RoleOf(a[i]) == RoleOf(b[j]) <==> SameRole(a[i], b[j]))
    {
      if 0 <= i < |a| && 0 <= j < |b| {
        RolesAre(a[i], b[j]);
      }
    }
    assert |Roles(a)| == |a| && |Roles(b)| == |b|;
    if Roles(a) == Roles(b) {
      forall i | 0 <= i < |a|
        ensures SameRole(a[i], b[i])
      {
        assert Roles(a)[i] == Roles(b)[i];
      }
    }
  }

  /** No frame is of a presentation past the last. */
  lemma {:induction false} NothingBeyond(chunk: seq<Frame>, id: nat)
    requires Ordered(chunk) && id >= Presentations(chunk)
    ensures PresentationMask(chunk, id) == 0
    ensures forall i :: 0 <= i < |chunk| ==> !FrameOf(chunk, i, id)
    decreases |chunk|
  {
    hide Ordered, FrameOf;
    if chunk != [] {
      OrderedFront(chunk);
      PresentationsNext(chunk, id);
      LastPresentation(chunk, id);
      NothingBeyond(Front(chunk), id);
      forall i | 0 <= i < |chunk| - 1
        ensures !FrameOf(chunk, i, id)
      {
        FrameOfFront(chunk, i, id);
      }
    }
  }

  /** Two groups have one shape exactly when their frames have the same roles and their
      presentations carry the same locations. */
  lemma SameShapeIff(chunk: seq<Frame>, first: seq<Frame>)
    requires Ordered(chunk) && Ordered(first)
    ensures SameShape(chunk, first) <==>
            SameRoles(chunk, first) && forall id: nat, l :: Carries(chunk, id, l) <==> Carries(first, id, l)
  {
    hide Ordered, Carries, Roles, SameRoles, Presentations;
    RoleListsAre(chunk, first);
    forall id: nat, l
      ensures Has(PresentationMask(chunk, id), l) <==> Carries(chunk, id, l)
      ensures Has(PresentationMask(first, id), l) <==> Carries(first, id, l)
    {
      LocationsAre(chunk, id, l);
      LocationsAre(first, id, l);
    }
    forall id: nat
      ensures id >= Presentations(first) && SameRoles(chunk, first) ==>
                PresentationMask(chunk, id) == PresentationMask(first, id)
      ensures PresentationMask(chunk, id) == PresentationMask(first, id) <==>
              forall l :: Has(PresentationMask(chunk, id), l) <==> Has(PresentationMask(first, id), l)
    {
      MasksEqual(PresentationMask(chunk, id), PresentationMask(first, id));
      if id >= Presentations(first) && SameRoles(chunk, first) {
        PresentationsOfRoles(chunk, first);
        NothingBeyond(chunk, id);
        NothingBeyond(first, id);
      }
    }
  }

  // ---------- numbering, said of neighbouring frames

  /** A dependent frame after the one that it follows: numbered from 0, and not after a converted
      stream. */
  predicate FollowsOn(before: Frame, frame: Frame) {
    && Continues(frame)
    && if Continues(before) then frame.substream.value.id == before.substream.value.id + 1
       else frame.substream.value.id == 0 && (before.substream.Some? ==> before.substream.value.streamType != 2)
  }

  ghost predicate InPlace(chunk: seq<Frame>, i: nat)
    requires i < |chunk|
  {
    && chunk[i].sampleRate == chunk[0].sampleRate && chunk[i].blocks == chunk[0].blocks
    && if i == 0 then Begins(chunk[0], 0)
       else FollowsOn(chunk[i - 1], chunk[i]) || exists id: nat :: Begins(chunk[i], id) && AfterPrevious(chunk, i, id)
  }

  /** The frame before is of the presentation before. */
  predicate AfterPrevious(chunk: seq<Frame>, i: nat, id: nat)
    requires 0 < i < |chunk|
  {
    id > 0 && FrameOf(chunk, i - 1, id - 1)
  }

  lemma {:induction false} OrderedIff(chunk: seq<Frame>)
    ensures Ordered(chunk) <==> forall i :: 0 <= i < |chunk| ==> InPlace(chunk, i)
    decreases |chunk|
  {
    hide Ordered, InPlace;
    if chunk == [] {
      NothingOrdered();
    } else {
      var front := Front(chunk);
      OrderedIff(front);
      OrderedFront(chunk);
      forall i | 0 <= i < |front|
        ensures InPlace(chunk, i) <==> InPlace(front, i)
      {
        InPlaceFront(chunk, i);
      }
      if Ordered(front) {
        LastInPlace(chunk);
      }
    }
  }

  lemma NothingOrdered()
    ensures Ordered([])
  {
  }

  lemma InPlaceFront(chunk: seq<Frame>, i: nat)
    requires i < |chunk| - 1
    ensures InPlace(chunk, i) <==> InPlace(Front(chunk), i)
  {
    hide FrameOf, Begins, FollowsOn;
    if i > 0 {
      forall id: nat
        ensures AfterPrevious(chunk, i, id) <==> AfterPrevious(Front(chunk), i, id)
      {
        if id > 0 {
          FrameOfFront(chunk, i - 1, id - 1);
        }
      }
    }
  }

  lemma EachOrdered(chunk: seq<Frame>, i: nat)
    requires Ordered(chunk) && i < |chunk|
    ensures chunk[i].IsIndependent() || chunk[i].IsDependent()
  {
    assert OrderedAt(chunk, i);
  }

  lemma LastFrameBefore(chunk: seq<Frame>, id: nat)
    requires |chunk| > 1 && Ordered(Front(chunk))
    ensures FrameOf(chunk, |chunk| - 2, id) <==> Presentations(Front(chunk)) == id + 1
  {
    hide Ordered, FrameOf;
    FrameOfFront(chunk, |chunk| - 2, id);
    LastPresentation(Front(chunk), id);
  }

  lemma FirstBegins(chunk: seq<Frame>)
    requires chunk != [] && Ordered(chunk)
    ensures Presentations(chunk) > 0
  {
    assert OrderedAt(chunk, 0) && chunk[..0] == [];
    GroupMirrors(chunk);
  }

  lemma LastInPlace(chunk: seq<Frame>)
    requires chunk != [] && Ordered(Front(chunk))
    ensures OrderedAt(chunk, |chunk| - 1) <==> InPlace(chunk, |chunk| - 1)
  {
    hide Ordered, FrameOf, Begins;
    var n := |chunk| - 1;
    assert chunk[..n] == Front(chunk);
    RawRoles(chunk[n]);
    if n > 0 {
      FirstBegins(Front(chunk));
      EachOrdered(Front(chunk), n - 1);
      RawRoles(chunk[n - 1]);
      forall id: nat
        ensures AfterPrevious(chunk, n, id) <==> id > 0 && Presentations(Front(chunk)) == id
      {
        if id > 0 {
          LastFrameBefore(chunk, id - 1);
        }
      }
    }
  }

  // ---------- whole streams

  /** A compression word stands on a dependent frame exactly when none follows it. */
  predicate WordInPlace(chunk: seq<Frame>, i: nat)
    requires i < |chunk|
  {
    Continues(chunk[i]) ==>
      (chunk[i].compressionWord.Some? <==> i == |chunk| - 1 || !Continues(chunk[i + 1]))
  }

  ghost predicate PlainGroup(chunk: seq<Frame>, first: seq<Frame>) {
    && (forall i :: 0 <= i < |chunk| ==> InPlace(chunk, i) && WordInPlace(chunk, i))
    && SameRoles(chunk, first)
    && forall id: nat, l :: Carries(chunk, id, l) <==> Carries(first, id, l)
  }

  /** The stream, said of header fields only. */
  ghost predicate PlainStream(frames: seq<Frame>) {
    var chunks := Chunks(frames);
    && (frames != [] ==> Begins(frames[0], 0))
    && (forall i :: 0 <= i < |chunks| ==> PlainGroup(chunks[i], chunks[0]))
    && NoUnitStraddled(chunks) && TotalBlocks(chunks) % BLOCKS_PER_UNIT == 0
  }

  lemma WordsIff(chunk: seq<Frame>)
    ensures CompressionPlaced(chunk) <==> forall i :: 0 <= i < |chunk| ==> WordInPlace(chunk, i)
  {
    forall i | 0 <= i < |chunk|
      ensures CompressionAt(chunk, i) <==> WordInPlace(chunk, i)
    {
      RawRoles(chunk[i]);
      if i < |chunk| - 1 {
        RawRoles(chunk[i + 1]);
      }
    }
  }

  lemma PlainGroupIff(chunk: seq<Frame>, first: seq<Frame>)
    requires Ordered(first)
    ensures PlainGroup(chunk, first) <==> GroupWellFormed(chunk) && SameShape(chunk, first)
  {
    hide Ordered, InPlace, WordInPlace, CompressionPlaced, SameShape, SameRoles, Carries;
    OrderedIff(chunk);
    WordsIff(chunk);
    if Ordered(chunk) {
      SameShapeIff(chunk, first);
    }
  }

  lemma PlainGroupsIff(chunks: seq<seq<Frame>>)
    ensures (forall i :: 0 <= i < |chunks| ==> PlainGroup(chunks[i], chunks[0])) <==>
            (forall i :: 0 <= i < |chunks| ==> GroupWellFormed(chunks[i]) && SameShape(chunks[i], chunks[0]))
  {
    hide Ordered, InPlace, SameShape, CompressionPlaced, PlainGroup;
    if chunks != [] {
      if PlainGroup(chunks[0], chunks[0]) {
        PlainIsOrdered(chunks[0], chunks[0]);
      }
      if Ordered(chunks[0]) {
        forall i | 0 <= i < |chunks|
          ensures PlainGroup(chunks[i], chunks[0]) <==> GroupWellFormed(chunks[i]) && SameShape(chunks[i], chunks[0])
        {
          PlainGroupIff(chunks[i], chunks[0]);
        }
      } else {
        assert !GroupWellFormed(chunks[0]);
      }
    }
  }

  lemma PlainIsOrdered(chunk: seq<Frame>, first: seq<Frame>)
    requires PlainGroup(chunk, first)
    ensures Ordered(chunk)
  {
    hide Ordered, InPlace;
    OrderedIff(chunk);
  }

  /** The assembler accepts a stream exactly when its frames, read field by field, make it up: each
      in its place, and all groups carrying the same locations in the same roles. */
  lemma AcceptedIff(frames: seq<Frame>)
    ensures Finish(Feed(frames)).valid <==> PlainStream(frames)
  {
    hide Feed, Finish, PlainGroup, GroupWellFormed, SameShape, NoUnitStraddled, Chunks;
    ExactRecogniser(frames);
    PlainGroupsIff(Chunks(frames));
    if frames != [] {
      RawRoles(frames[0]);
    }
  }

  /** A location that one group's presentation carries and another's does not spoils the stream. */
  lemma LocationsAgree(frames: seq<Frame>, i: nat, j: nat, id: nat, l: bv16)
    requires i < |Chunks(frames)| && j < |Chunks(frames)| && Finish(Feed(frames)).valid
    ensures Carries(Chunks(frames)[i], id, l) <==> Carries(Chunks(frames)[j], id, l)
  {
    hide Feed, Finish, Carries, NoUnitStraddled, Chunks, SameRoles, InPlace, WordInPlace;
    AcceptedIff(frames);
    var chunks := Chunks(frames);
    assert PlainGroup(chunks[i], chunks[0]) && PlainGroup(chunks[j], chunks[0]);
  }

  /** One mask for each presentation that begins in the group, of the locations it carries. */
  ghost predicate MasksMean(masks: map<byte, bv16>, first: seq<Frame>) {
    && (forall id: byte :: id in masks <==> BeginsIn(first, id))
    && (forall id: byte, l :: id in masks ==> (Has(masks[id], l) <==> Carries(first, id, l)))
  }

  /** The masks reported of an accepted stream: one for each presentation of its first group, of the
      locations that this group carries. */
  lemma ReportedMasks(frames: seq<Frame>)
    requires frames != [] && Finish(Feed(frames)).valid
    ensures Chunks(frames) != [] && MasksMean(Finish(Feed(frames)).masks, Chunks(frames)[0])
  {
    hide Carries, Has, BeginsIn, PresentationMask, Ordered, CompressionPlaced, Presentations;
    ExactRecogniser(frames);
    ChunksCut(frames);
    RunState(frames);
    SealedSettled(Chunks(frames));
    var chunks, masks := Chunks(frames), Finish(Feed(frames)).masks;
    assert GroupWellFormed(chunks[0]);
    forall id: byte
      ensures id in masks <==> BeginsIn(chunks[0], id)
    {
      PresentationsAre(chunks[0], id);
    }
    forall id: byte, l | id in masks
      ensures Has(masks[id], l) <==> Carries(chunks[0], id, l)
    {
      LocationsAre(chunks[0], id, l);
    }
  }

  predicate BeginsIn(chunk: seq<Frame>, id: nat) {
    exists i :: 0 <= i < |chunk| && Begins(chunk[i], id)
  }

  /** Presentations are numbered from 0, without a gap. */
  lemma {:induction false} PresentationsAre(chunk: seq<Frame>, id: nat)
    requires Ordered(chunk)
    ensures id < Presentations(chunk) <==> BeginsIn(chunk, id)
    decreases |chunk|
  {
    hide Ordered, Begins;
    if chunk != [] {
      var front, n := Front(chunk), |chunk| - 1;
      OrderedFront(chunk);
      PresentationsAre(front, id);
      RawRoles(chunk[n]);
      assert chunk[..n] == front && OrderedAt(chunk, n);
      assert forall i :: 0 <= i < n ==> front[i] == chunk[i];
    }
  }
}
