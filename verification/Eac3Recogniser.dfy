/** The assembler accepts exactly the streams of `Eac3Spec.WellFormed`, and its counters
    conserve audio blocks. */
module Eac3Recogniser {
  import opened Wrappers
  import opened Basics
  import opened Eac3Stream
  import opened Eac3Spec

  // ---------- one group: the tree the assembler builds, against the flat frames

  /** The group the assembler holds after the frames of `chunk`. */
  function GroupOf(chunk: seq<Frame>): Group
    requires chunk != []
    ensures GroupOf(chunk).sampleRate == chunk[0].sampleRate && GroupOf(chunk).blocks == chunk[0].blocks
  {
    var frame := Last(chunk);
    var before := if |chunk| == 1 then Group(frame.sampleRate, frame.blocks, []) else GroupOf(Front(chunk));
    if frame.IsIndependent() then AddIndependent(before, frame)
    else if frame.IsDependent() && before.independents != [] then AddDependent(before, frame)
    else before
  }

  lemma {:induction false} OrderedFront(chunk: seq<Frame>)
    requires chunk != []
    ensures Ordered(chunk) <==> Ordered(Front(chunk)) && OrderedAt(chunk, |chunk| - 1)
  {
    var front := Front(chunk);
    forall i | 0 <= i < |front|
      ensures OrderedAt(chunk, i) == OrderedAt(front, i)
    {
      assert chunk[..i] == front[..i];
    }
  }

  ghost predicate Numbered(items: seq<Independent>) {
    forall i :: 0 <= i < |items| ==>
      && items[i].id == i
      && forall j :: 0 <= j < |items[i].dependents| ==> items[i].dependents[j].id == j
  }

  /** The last independent of the tree mirrors the tail of the frames. */
  ghost predicate Mirrors(items: seq<Independent>, chunk: seq<Frame>)
    requires chunk != []
  {
    && |items| == Presentations(chunk)
    && items != []
    && var owner := Last(items); var frame := Last(chunk);
       if frame.IsIndependent() then owner.dependents == [] && owner.kind == frame.Kind()
       else frame.IsDependent() && owner.kind != Converted && |owner.dependents| == frame.Id() + 1
  }

  lemma {:induction false} GroupMirrors(chunk: seq<Frame>)
    requires chunk != [] && chunk[0].IsPrimary() && Ordered(chunk)
    ensures Numbered(GroupOf(chunk).independents) && Mirrors(GroupOf(chunk).independents, chunk)
  {
    OrderedFront(chunk);
    assert OrderedAt(chunk, |chunk| - 1);
    if |chunk| == 1 {
      assert chunk[..0] == [];
    } else {
      GroupMirrors(Front(chunk));
      assert Front(chunk)[|chunk| - 2] == chunk[|chunk| - 2];
    }
  }

  /** Compression words of every dependent that already has a successor in the group. */
  ghost predicate EarlierCompression(items: seq<Independent>) {
    && (forall i :: 0 <= i < |items| - 1 ==> CompressionOnLastOnly(items[i].dependents))
    && (items != [] ==>
          forall j :: 0 <= j < |Last(items).dependents| - 1 ==> Last(items).dependents[j].compressionWord.None?)
  }

  ghost predicate EarlierPlaced(chunk: seq<Frame>) {
    forall i :: 0 <= i < |chunk| - 1 ==> CompressionAt(chunk, i)
  }

  ghost predicate LastWord(items: seq<Independent>, chunk: seq<Frame>)
    requires items != [] && chunk != []
  {
    Last(chunk).IsDependent() ==>
      Last(items).dependents != [] && Last(Last(items).dependents).compressionWord == Last(chunk).compressionWord
  }

  lemma {:induction false} EarlierAfterIndependent(group: Group, frame: Frame)
    requires group.independents != []
    ensures EarlierCompression(AddIndependent(group, frame).independents) <==>
            EarlierCompression(group.independents) && CompressionOnLastOnly(Last(group.independents).dependents)
  {
    var before, after := group.independents, AddIndependent(group, frame).independents;
    assert forall i :: 0 <= i < |before| ==> after[i] == before[i];
    if EarlierCompression(after) {
      assert CompressionOnLastOnly(after[|before| - 1].dependents);
    }
  }

  lemma {:induction false} EarlierAfterDependent(group: Group, frame: Frame)
    requires group.independents != []
    ensures var dependents := Last(group.independents).dependents;
            EarlierCompression(AddDependent(group, frame).independents) <==>
            EarlierCompression(group.independents)
            && (dependents != [] ==> Last(dependents).compressionWord.None?)
  {
    var before, after := group.independents, AddDependent(group, frame).independents;
    assert forall i :: 0 <= i < |before| - 1 ==> after[i] == before[i];
    var earlier, later := Last(before).dependents, Last(after).dependents;
    assert forall j :: 0 <= j < |earlier| ==> earlier[j] == later[j];
  }

  lemma {:induction false} CompressionMirrors(chunk: seq<Frame>)
    requires chunk != [] && chunk[0].IsPrimary() && Ordered(chunk)
    ensures GroupOf(chunk).independents != []
    ensures LastWord(GroupOf(chunk).independents, chunk)
    ensures EarlierCompression(GroupOf(chunk).independents) <==> EarlierPlaced(chunk)
  {
    GroupMirrors(chunk);
    if |chunk| > 1 {
      var front := Front(chunk);
      OrderedFront(chunk);
      GroupMirrors(front);
      CompressionMirrors(front);
      EarlierFront(chunk);
      assert OrderedAt(chunk, |chunk| - 1);
      if Last(chunk).IsIndependent() {
        EarlierAfterIndependent(GroupOf(front), Last(chunk));
      } else {
        EarlierAfterDependent(GroupOf(front), Last(chunk));
      }
    }
  }

  lemma {:induction false} EarlierFront(chunk: seq<Frame>)
    requires |chunk| > 1
    ensures EarlierPlaced(chunk) <==> EarlierPlaced(Front(chunk)) && CompressionAt(chunk, |chunk| - 2)
  {
    var front := Front(chunk);
    assert forall i :: 0 <= i < |front| - 1 ==> CompressionAt(chunk, i) == CompressionAt(front, i);
  }

  /** The assembler's compression rule on the tree is the positional one on the frames. */
  lemma {:induction false} CompressionAgrees(chunk: seq<Frame>)
    requires chunk != [] && chunk[0].IsPrimary() && Ordered(chunk)
    ensures CompressionPlaced(chunk) <==>
            forall i :: 0 <= i < |GroupOf(chunk).independents| ==>
              CompressionOnLastOnly(GroupOf(chunk).independents[i].dependents)
  {
    GroupMirrors(chunk);
    CompressionMirrors(chunk);
    var items := GroupOf(chunk).independents;
    assert (forall i :: 0 <= i < |items| ==> CompressionOnLastOnly(items[i].dependents)) <==>
           EarlierCompression(items) && CompressionOnLastOnly(Last(items).dependents);
    assert CompressionPlaced(chunk) <==> EarlierPlaced(chunk) && CompressionAt(chunk, |chunk| - 1);
  }

  /** The merged locations of presentation `id`, none if the group has no such presentation. */
  function MaskAt(items: seq<Independent>, id: nat): bv16 {
    if id < |items| then MergedMask(items[id].mask, items[id].dependents) else 0
  }

  lemma {:induction false} MaskMirrors(chunk: seq<Frame>, id: nat)
    requires chunk != [] && chunk[0].IsPrimary() && Ordered(chunk)
    ensures |GroupOf(chunk).independents| == Presentations(chunk)
    ensures MaskAt(GroupOf(chunk).independents, id) == PresentationMask(chunk, id)
  {
    hide Ordered, MaskAt, Numbered, AddIndependent, AddDependent, GroupOf, PresentationMask, Presentations;
    var frame, front := Last(chunk), Front(chunk);
    GroupMirrors(chunk);
    GroupNext(chunk);
    PresentationsNext(chunk, id);
    NoMasks(id);
    if |chunk| == 1 {
      MaskOfNext(Group(frame.sampleRate, frame.blocks, []), frame, id);
    } else {
      OrderedFront(chunk);
      MaskMirrors(front, id);
      if frame.IsIndependent() {
        MaskOfNext(GroupOf(front), frame, id);
      } else {
        GroupMirrors(front);
        MaskOfExtended(GroupOf(front), frame, id);
      }
    }
  }

  /** The group of the frames but the last, and none for a single frame. */
  lemma GroupNext(chunk: seq<Frame>)
    requires chunk != []
    ensures var frame := Last(chunk);
      var before := if |chunk| == 1 then Group(frame.sampleRate, frame.blocks, []) else GroupOf(Front(chunk));
      && (frame.IsIndependent() ==> GroupOf(chunk) == AddIndependent(before, frame))
      && (frame.IsDependent() && before.independents != [] ==> GroupOf(chunk) == AddDependent(before, frame))
  {
  }

  lemma PresentationsNext(chunk: seq<Frame>, id: nat)
    requires chunk != []
    ensures Presentations(chunk) == Presentations(Front(chunk)) + if Last(chunk).IsIndependent() then 1 else 0
    ensures PresentationMask(chunk, id)
            == if Presentations(chunk) == id + 1 then PresentationMask(Front(chunk), id) | Last(chunk).Mask()
               else PresentationMask(Front(chunk), id)
  {
  }

  lemma NoMasks(id: nat)
    ensures MaskAt([], id) == 0 && PresentationMask([], id) == 0 && Presentations([]) == 0
  {
  }

  lemma MaskOfNext(group: Group, frame: Frame, id: nat)
    ensures var before := MaskAt(group.independents, id);
            MaskAt(AddIndependent(group, frame).independents, id)
            == if id == |group.independents| then before | frame.Mask() else before
  {
  }

  lemma MaskOfExtended(group: Group, frame: Frame, id: nat)
    requires group.independents != []
    ensures var before := MaskAt(group.independents, id);
            MaskAt(AddDependent(group, frame).independents, id)
            == if id == |group.independents| - 1 then before | frame.Mask() else before
  {
    var owner, item := Last(group.independents), Last(AddDependent(group, frame).independents);
    assert item.dependents[..|item.dependents| - 1] == owner.dependents;
  }

  // ---------- group signatures against frame roles

  datatype Shape = Shape(kind: IndependentKind, dependents: nat)

  function ShapesOf(items: seq<Independent>): seq<Shape> {
    seq(|items|, i requires 0 <= i < |items| => Shape(items[i].kind, |items[i].dependents|))
  }

  /** The substream tree that a sequence of roles determines. */
  function Fold(roles: seq<Role>): seq<Shape> {
    if roles == [] then []
    else
      var before := Fold(Front(roles));
      match Last(roles)
      case Start(kind) => before + [Shape(kind, 0)]
      case Follow =>
        if before == [] then []
        else before[|before| - 1 := Last(before).(dependents := Last(before).dependents + 1)]
      case Reserved => before
  }

  function Unfold(shapes: seq<Shape>): seq<Role> {
    if shapes == [] then []
    else Unfold(Front(shapes)) + [Start(Last(shapes).kind)] + seq(Last(shapes).dependents, _ => Follow)
  }

  lemma {:induction false} UnfoldFold(roles: seq<Role>)
    requires roles != [] && roles[0].Start? && forall i :: 0 <= i < |roles| ==> !roles[i].Reserved?
    ensures Fold(roles) != [] && Unfold(Fold(roles)) == roles
  {
    hide Fold, Unfold;
    var front, last := Front(roles), Last(roles);
    FoldFront(roles);
    assert roles == front + [last];
    if |roles| == 1 {
      UnfoldNext([], Shape(last.kind, 0));
    } else {
      UnfoldFold(front);
      var before := Fold(front);
      if last.Start? {
        UnfoldNext(before, Shape(last.kind, 0));
      } else {
        UnfoldLonger(before);
      }
    }
  }

  lemma FoldFront(roles: seq<Role>)
    requires roles != []
    ensures Fold([]) == [] && Unfold([]) == []
    ensures var before, last := Fold(Front(roles)), Last(roles);
      && (last.Start? ==> Fold(roles) == before + [Shape(last.kind, 0)])
      && (last.Follow? && before != [] ==>
            Fold(roles) == Front(before) + [Last(before).(dependents := Last(before).dependents + 1)])
  {
  }

  lemma UnfoldNext(shapes: seq<Shape>, last: Shape)
    ensures Unfold(shapes + [last]) == Unfold(shapes) + [Start(last.kind)] + seq(last.dependents, _ => Follow)
  {
    assert Front(shapes + [last]) == shapes;
  }

  lemma UnfoldLonger(shapes: seq<Shape>)
    requires shapes != []
    ensures Unfold(Front(shapes) + [Last(shapes).(dependents := Last(shapes).dependents + 1)])
            == Unfold(shapes) + [Follow]
  {
    hide Unfold;
    var last := Last(shapes);
    var longer := last.(dependents := last.dependents + 1);
    assert shapes == Front(shapes) + [last];
    UnfoldNext(Front(shapes), last);
    UnfoldNext(Front(shapes), longer);
    assert seq(longer.dependents, _ => Follow) == seq(last.dependents, _ => Follow) + [Follow];
  }

  lemma {:induction false} ShapesMirror(chunk: seq<Frame>)
    requires chunk != [] && chunk[0].IsPrimary() && Ordered(chunk)
    ensures ShapesOf(GroupOf(chunk).independents) == Fold(Roles(chunk))
  {
    hide Ordered, Numbered, AddIndependent, AddDependent, GroupOf, Presentations, Fold, ShapesOf;
    var frame, front := Last(chunk), Front(chunk);
    GroupMirrors(chunk);
    GroupNext(chunk);
    FoldNext(chunk);
    if |chunk| == 1 {
      ShapesOfNext(Group(frame.sampleRate, frame.blocks, []), frame);
    } else {
      OrderedFront(chunk);
      ShapesMirror(front);
      GroupMirrors(front);
      if frame.IsIndependent() {
        ShapesOfNext(GroupOf(front), frame);
      } else {
        ShapesOfExtended(GroupOf(front), frame);
      }
    }
  }

  lemma FoldNext(chunk: seq<Frame>)
    requires chunk != []
    ensures var before := Fold(Roles(Front(chunk)));
      && (|chunk| == 1 ==> before == [] && ShapesOf([]) == [])
      && (Last(chunk).IsIndependent() ==> Fold(Roles(chunk)) == before + [Shape(Last(chunk).Kind(), 0)])
      && (Last(chunk).IsDependent() && before != [] ==>
            Fold(Roles(chunk)) == Front(before) + [Last(before).(dependents := Last(before).dependents + 1)])
  {
    assert Front(Roles(chunk)) == Roles(Front(chunk));
  }

  lemma ShapesOfNext(group: Group, frame: Frame)
    ensures ShapesOf(AddIndependent(group, frame).independents)
            == ShapesOf(group.independents) + [Shape(frame.Kind(), 0)]
  {
  }

  lemma ShapesOfExtended(group: Group, frame: Frame)
    requires group.independents != []
    ensures var before := ShapesOf(group.independents);
            before != [] && ShapesOf(AddDependent(group, frame).independents)
                            == Front(before) + [Last(before).(dependents := Last(before).dependents + 1)]
  {
  }

  lemma {:induction false} SignaturesAreShapes(left: seq<Independent>, right: seq<Independent>)
    requires Numbered(left) && Numbered(right)
    ensures SignatureOf(left) == SignatureOf(right) <==> ShapesOf(left) == ShapesOf(right)
  {
    var l, r := SignatureOf(left), SignatureOf(right);
    if l == r {
      assert |left| == |right|;
      forall i | 0 <= i < |left|
        ensures ShapesOf(left)[i] == ShapesOf(right)[i]
      {
        assert l[i] == r[i];
        assert |l[i].dependents| == |left[i].dependents| && |r[i].dependents| == |right[i].dependents|;
      }
    }
    if ShapesOf(left) == ShapesOf(right) {
      assert |left| == |right|;
      forall i | 0 <= i < |left|
        ensures l[i] == r[i]
      {
        assert ShapesOf(left)[i] == ShapesOf(right)[i];
        assert l[i].dependents == r[i].dependents;
      }
    }
  }

  /** Equal signatures mean equal roles at every position. */
  lemma {:induction false} SignatureAgrees(chunk: seq<Frame>, first: seq<Frame>)
    requires IsGroup(chunk) && IsGroup(first) && Ordered(chunk) && Ordered(first)
    ensures SignatureOf(GroupOf(chunk).independents) == SignatureOf(GroupOf(first).independents) <==>
            Roles(chunk) == Roles(first)
  {
    GroupMirrors(chunk);
    GroupMirrors(first);
    ShapesMirror(chunk);
    ShapesMirror(first);
    SignaturesAreShapes(GroupOf(chunk).independents, GroupOf(first).independents);
    NoReserved(chunk);
    NoReserved(first);
    UnfoldFold(Roles(chunk));
    UnfoldFold(Roles(first));
  }

  lemma {:induction false} NoReserved(chunk: seq<Frame>)
    requires Ordered(chunk)
    ensures forall i :: 0 <= i < |chunk| ==> !Roles(chunk)[i].Reserved?
  {
    forall i | 0 <= i < |chunk|
      ensures !Roles(chunk)[i].Reserved?
    {
      assert OrderedAt(chunk, i);
    }
  }

  // ---------- whole runs

  predicate NoneEmpty(chunks: seq<seq<Frame>>) {
    forall i :: 0 <= i < |chunks| ==> chunks[i] != []
  }

  /** The state just after the groups of `chunks` are finalised. */
  function Sealed(chunks: seq<seq<Frame>>): Access
    requires NoneEmpty(chunks)
  {
    if chunks == [] then START else FinalizeGroup(Pending(chunks))
  }

  /** The state while the last group of `chunks` is still open. */
  function Pending(chunks: seq<seq<Frame>>): Access
    requires chunks != [] && NoneEmpty(chunks)
    decreases chunks, 0
  {
    var a := Sealed(Front(chunks));
    a.(current := Some(GroupOf(Last(chunks))), valid := a.valid && Ordered(Last(chunks)))
  }

  /** One more frame of the open group: the assembler's immediate checks are `OrderedAt`. */
  lemma {:induction false} UpdateExtendsGroup(a: Access, chunk: seq<Frame>, frame: Frame)
    requires chunk != [] && chunk[0].IsPrimary() && !frame.IsPrimary()
    requires a.current == Some(GroupOf(chunk)) && (a.valid ==> Ordered(chunk))
    ensures Update(a, frame) ==
            a.(current := Some(GroupOf(chunk + [frame])), valid := a.valid && Ordered(chunk + [frame]))
  {
    var longer := chunk + [frame];
    assert Front(longer) == chunk;
    GroupNonempty(chunk);
    if a.valid {
      GroupMirrors(chunk);
      OrderedFront(longer);
      assert longer[|longer| - 2] == Last(chunk);
    }
  }

  lemma {:induction false} GroupNonempty(chunk: seq<Frame>)
    requires chunk != [] && chunk[0].IsPrimary()
    ensures GroupOf(chunk).independents != [] && GroupOf(chunk).independents[0].id == 0
  {
    if |chunk| > 1 {
      GroupNonempty(Front(chunk));
    }
  }

  lemma {:induction false} OrderedSingleton(frame: Frame)
    requires frame.IsPrimary()
    ensures Ordered([frame])
  {
    assert [frame][..0] == [];
  }

  lemma {:induction false} RunState(frames: seq<Frame>)
    requires frames != [] && frames[0].IsPrimary()
    ensures Chunks(frames) != [] && NoneEmpty(Chunks(frames))
    ensures Feed(frames) == Pending(Chunks(frames))
  {
    ChunksCut(frames);
    var frame, front := Last(frames), Front(frames);
    var before, chunks := Chunks(front), Chunks(frames);
    ChunksCut(front);
    if front != [] {
      RunState(front);
    }
    if frame.IsPrimary() {
      assert Front(chunks) == before;
      assert front != [] ==> Sealed(before) == FinalizeGroup(Feed(front));
      OrderedSingleton(frame);
    } else {
      assert Front(chunks) == Front(before);
      UpdateExtendsGroup(Feed(front), Last(before), frame);
      OrderedFront(Last(chunks));
      assert Front(Last(chunks)) == Last(before);
    }
  }

  lemma {:induction false} OrphansRejected(frames: seq<Frame>)
    requires frames != [] && !frames[0].IsPrimary()
    ensures !Feed(frames).valid
  {
    if |frames| == 1 {
      assert Feed(Front(frames)) == START;
    } else {
      OrphansRejected(Front(frames));
      UpdateSticky(Feed(Front(frames)), Last(frames));
    }
  }

  // ---------- rejection is final

  lemma {:induction false} AbsorbSticky(a: Access, items: seq<Independent>, blocks: byte)
    ensures AbsorbAll(a, items, blocks).valid ==> a.valid
  {
    if items != [] {
      AbsorbSticky(a, Front(items), blocks);
    }
  }

  lemma {:induction false} FinalizeSticky(a: Access)
    ensures FinalizeGroup(a).valid ==> a.valid
    ensures FinalizeGroup(a).groups == a.groups + (if a.current.Some? then 1 else 0)
    ensures FinalizeGroup(a).current == None
  {
    hide Absorb, AbsorbAll, SignatureOf;
    if a.current.Some? {
      var group := a.current.value;
      var taken := a.(current := None, groups := a.groups + 1);
      var signature := SignatureOf(group.independents);
      var compared := if taken.signature.Some?
                      then taken.(valid := taken.valid && taken.signature.value == signature)
                      else taken.(signature := Some(signature));
      AbsorbSticky(compared, group.independents, group.blocks);
      AbsorbFrame(compared, group.independents, group.blocks);
    }
  }

  lemma {:induction false} UpdateSticky(a: Access, frame: Frame)
    ensures Update(a, frame).valid ==> a.valid
  {
    FinalizeSticky(a);
  }

  /** Absorbing leaves the other fields alone. */
  lemma {:induction false} AbsorbFrame(a: Access, items: seq<Independent>, blocks: byte)
    ensures var r := AbsorbAll(a, items, blocks);
            r == a.(valid := r.valid, masks := r.masks, blocks := r.blocks)
  {
    if items != [] {
      AbsorbFrame(a, Front(items), blocks);
    }
  }

  // ---------- finalising a group in closed form

  /** What absorbing numbered substreams does to each id. */
  lemma {:induction false} AbsorbedMasks(a: Access, items: seq<Independent>, blocks: byte)
    requires Numbered(items)
    ensures var r := AbsorbAll(a, items, blocks);
      && (forall id: byte :: id in r.masks <==> id in a.masks || id < |items|)
      && (forall id: byte :: id in a.masks ==> r.masks[id] == a.masks[id])
      && (forall id: byte :: id < |items| && id !in a.masks ==>
            r.masks[id] == MergedMask(items[id].mask, items[id].dependents))
  {
    if items != [] {
      AbsorbedMasks(a, Front(items), blocks);
      assert Last(items).id == |items| - 1;
    }
  }

  lemma {:induction false} AbsorbedBlocks(a: Access, items: seq<Independent>, blocks: byte)
    requires Numbered(items)
    ensures var r := AbsorbAll(a, items, blocks);
      && (forall id: byte :: id in r.blocks <==> id in a.blocks || id < |items|)
      && (forall id: byte :: id < |items| ==> r.blocks[id] == SaturatingAdd(BlocksOf(a.blocks, id), blocks))
      && (forall id: byte :: id >= |items| && id in a.blocks ==> r.blocks[id] == a.blocks[id])
  {
    if items != [] {
      AbsorbedBlocks(a, Front(items), blocks);
      assert Last(items).id == |items| - 1;
    }
  }

  /** Absorbing keeps `valid` exactly when each substream is acceptable by itself. */
  lemma {:induction false} AbsorbedValid(a: Access, items: seq<Independent>, blocks: byte)
    requires Numbered(items)
    ensures AbsorbAll(a, items, blocks).valid <==>
            a.valid && forall i :: 0 <= i < |items| ==> Absorbable(a, items[i], blocks)
  {
    hide CompressionOnLastOnly, MergedMask, SaturatingAdd, AbsorbAll, Absorb, BlocksOf;
    AbsorbNone(a, blocks);
    if items != [] {
      var front, last := Front(items), Last(items);
      AbsorbedValid(a, front, blocks);
      AbsorbLast(a, items, blocks);
      AbsorbedMasks(a, front, blocks);
      AbsorbedBlocks(a, front, blocks);
      assert last.id == |items| - 1;
      NewBlocks(a, AbsorbAll(a, front, blocks), last.id);
      assert forall i :: 0 <= i < |front| ==> front[i] == items[i];
    }
  }

  lemma AbsorbLast(a: Access, items: seq<Independent>, blocks: byte)
    requires items != []
    ensures var before, item := AbsorbAll(a, Front(items), blocks), Last(items);
      AbsorbAll(a, items, blocks).valid <==> before.valid && Absorbable(before, item, blocks)
  {
    hide CompressionOnLastOnly, MergedMask, SaturatingAdd, BlocksOf;
  }

  lemma NewBlocks(a: Access, b: Access, id: byte)
    requires id in a.blocks <==> id in b.blocks
    requires id in a.blocks ==> a.blocks[id] == b.blocks[id]
    ensures BlocksOf(a.blocks, id) == BlocksOf(b.blocks, id)
  {
  }

  ghost predicate Absorbable(a: Access, item: Independent, blocks: byte) {
    && CompressionOnLastOnly(item.dependents)
    && (item.id in a.masks ==> a.masks[item.id] == MergedMask(item.mask, item.dependents))
    && SaturatingAdd(BlocksOf(a.blocks, item.id), blocks) <= BLOCKS_PER_UNIT
  }

  // ---------- access-unit boundaries

  lemma {:induction false} TotalMonotone(chunks: seq<seq<Frame>>, i: nat)
    requires i <= |chunks|
    ensures TotalBlocks(chunks[..i]) <= TotalBlocks(chunks)
  {
    if i < |chunks| {
      TotalMonotone(Front(chunks), i);
      assert Front(chunks)[..i] == chunks[..i];
    } else {
      assert chunks[..i] == chunks;
    }
  }

  /** The boundary condition one group at a time, as the assembler checks it. */
  lemma {:induction false} NoUnitStraddledStep(chunks: seq<seq<Frame>>)
    requires chunks != []
    ensures NoUnitStraddled(chunks) <==>
            && NoUnitStraddled(Front(chunks))
            && TotalBlocks(chunks) <= BLOCKS_PER_UNIT * (TotalBlocks(Front(chunks)) / BLOCKS_PER_UNIT + 1)
  {
    var front := Front(chunks);
    var before, after := TotalBlocks(front), TotalBlocks(chunks);
    var next := before / BLOCKS_PER_UNIT + 1;
    assert chunks[..|chunks|] == chunks && front[..|front|] == front;
    assert forall i :: 0 <= i <= |front| ==> chunks[..i] == front[..i];
    if NoUnitStraddled(chunks) {
      if after > BLOCKS_PER_UNIT * next {
        assert StopsAt(chunks, next);
        var i :| 0 <= i <= |chunks| && TotalBlocks(chunks[..i]) == next * BLOCKS_PER_UNIT;
        assert i <= |front| && TotalBlocks(front[..i]) == next * BLOCKS_PER_UNIT;
        TotalMonotone(front, i);
      }
      forall m: nat | m * BLOCKS_PER_UNIT <= before
        ensures StopsAt(front, m)
      {
        assert StopsAt(chunks, m);
        var i :| 0 <= i <= |chunks| && TotalBlocks(chunks[..i]) == m * BLOCKS_PER_UNIT;
        if i == |chunks| {
          assert TotalBlocks(front[..|front|]) == m * BLOCKS_PER_UNIT;
        } else {
          assert TotalBlocks(front[..i]) == m * BLOCKS_PER_UNIT;
        }
      }
    }
    if NoUnitStraddled(front) && after <= BLOCKS_PER_UNIT * next {
      forall m: nat | m * BLOCKS_PER_UNIT <= after
        ensures StopsAt(chunks, m)
      {
        if m * BLOCKS_PER_UNIT <= before {
          assert StopsAt(front, m);
          var i :| 0 <= i <= |front| && TotalBlocks(front[..i]) == m * BLOCKS_PER_UNIT;
          assert TotalBlocks(chunks[..i]) == m * BLOCKS_PER_UNIT;
        } else {
          assert m >= next;
          assert TotalBlocks(chunks[..|chunks|]) == m * BLOCKS_PER_UNIT;
        }
      }
    }
  }

  // ---------- the state between groups

  ghost predicate SettledFields(a: Access, chunks: seq<seq<Frame>>)
    requires chunks != [] && chunks[0] != []
  {
    var n := Presentations(chunks[0]);
    && a.signature == Some(SignatureOf(GroupOf(chunks[0]).independents))
    && (forall id: byte :: id in a.masks <==> id < n)
    && (forall id: byte :: id in a.masks ==> a.masks[id] == PresentationMask(chunks[0], id))
    && (forall id: byte :: id in a.blocks <==> id < n)
    && (forall id: byte :: id in a.blocks ==> a.blocks[id] == TotalBlocks(chunks) % BLOCKS_PER_UNIT)
    && a.completeUnits == TotalBlocks(chunks) / BLOCKS_PER_UNIT
  }

  ghost predicate Settled(a: Access, chunks: seq<seq<Frame>>)
    requires NoneEmpty(chunks)
  {
    && (a.valid <==> ChunksWellFormed(chunks))
    && (a.valid && chunks != [] ==> SettledFields(a, chunks))
    && (chunks == [] ==> a == START)
  }

  ghost predicate GroupsMatch(chunks: seq<seq<Frame>>, first: seq<Frame>) {
    forall i :: 0 <= i < |chunks| ==> GroupWellFormed(chunks[i]) && SameShape(chunks[i], first)
  }

  lemma {:induction false} GroupsMatchStep(chunks: seq<seq<Frame>>, first: seq<Frame>)
    requires chunks != []
    ensures GroupsMatch(chunks, first) <==>
            GroupsMatch(Front(chunks), first) && GroupWellFormed(Last(chunks)) && SameShape(Last(chunks), first)
  {
    assert forall i :: 0 <= i < |chunks| - 1 ==> Front(chunks)[i] == chunks[i];
  }

  /** Well-formedness of the groups so far, one group at a time. */
  lemma {:induction false} ChunksWellFormedStep(chunks: seq<seq<Frame>>)
    requires chunks != []
    ensures ChunksWellFormed(chunks) <==>
            && ChunksWellFormed(Front(chunks))
            && GroupWellFormed(Last(chunks)) && SameShape(Last(chunks), chunks[0])
            && TotalBlocks(chunks) <= BLOCKS_PER_UNIT * (TotalBlocks(Front(chunks)) / BLOCKS_PER_UNIT + 1)
  {
    NoUnitStraddledStep(chunks);
    GroupsMatchStep(chunks, chunks[0]);
    assert ChunksWellFormed(chunks) <==> GroupsMatch(chunks, chunks[0]) && NoUnitStraddled(chunks);
    if |chunks| > 1 {
      assert Front(chunks)[0] == chunks[0];
      assert ChunksWellFormed(Front(chunks)) <==>
             GroupsMatch(Front(chunks), chunks[0]) && NoUnitStraddled(Front(chunks));
    }
  }

  ghost predicate MasksAgree(masks: map<byte, bv16>, chunk: seq<Frame>) {
    forall id: byte :: id < Presentations(chunk) && id in masks ==> masks[id] == PresentationMask(chunk, id)
  }

  /** Absorbing a whole ordered group judges it by the positional rules. */
  lemma {:induction false} GroupJudged(a: Access, chunk: seq<Frame>, total: byte)
    requires IsGroup(chunk) && Ordered(chunk)
    requires forall id: byte :: id < Presentations(chunk) ==> BlocksOf(a.blocks, id) == total
    ensures AbsorbAll(a, GroupOf(chunk).independents, GroupOf(chunk).blocks).valid <==>
            && a.valid && CompressionPlaced(chunk) && MasksAgree(a.masks, chunk)
            && total + chunk[0].blocks <= BLOCKS_PER_UNIT
  {
    hide AbsorbAll, Ordered, CompressionPlaced, CompressionOnLastOnly, MergedMask, PresentationMask, Presentations;
    var items, b := GroupOf(chunk).independents, GroupOf(chunk).blocks;
    GroupMirrors(chunk);
    AbsorbedValid(a, items, b);
    CompressionAgrees(chunk);
    forall i | 0 <= i < |items|
      ensures Absorbable(a, items[i], b) <==>
              && CompressionOnLastOnly(items[i].dependents)
              && (items[i].id in a.masks ==> a.masks[items[i].id] == PresentationMask(chunk, i))
              && total + b <= BLOCKS_PER_UNIT
    {
      MaskMirrors(chunk, i);
      assert items[i].id == i;
    }
    if a.valid && CompressionPlaced(chunk) && MasksAgree(a.masks, chunk) && total + b <= BLOCKS_PER_UNIT {
      forall i | 0 <= i < |items|
        ensures Absorbable(a, items[i], b)
      {
        assert items[i].id == i;
      }
    }
    if a.valid && forall i :: 0 <= i < |items| ==> Absorbable(a, items[i], b) {
      forall id: byte | id < Presentations(chunk) && id in a.masks
        ensures a.masks[id] == PresentationMask(chunk, id)
      {
        assert items[id].id == id && Absorbable(a, items[id], b);
      }
      assert Absorbable(a, items[0], b);
    }
  }

  /** The maps after absorbing a group whose ids are already known, or whose ids are all new. */
  lemma {:induction false} GroupRecorded(a: Access, chunk: seq<Frame>, total: byte)
    requires IsGroup(chunk) && Ordered(chunk) && total + chunk[0].blocks <= BLOCKS_PER_UNIT
    requires forall id: byte :: id in a.masks ==> id < Presentations(chunk)
    requires forall id: byte :: id in a.blocks ==> id < Presentations(chunk)
    requires forall id: byte :: id < Presentations(chunk) ==> BlocksOf(a.blocks, id) == total
    requires MasksAgree(a.masks, chunk)
    ensures var r := AbsorbAll(a, GroupOf(chunk).independents, GroupOf(chunk).blocks);
      && (forall id: byte :: id in r.masks <==> id < Presentations(chunk))
      && (forall id: byte :: id in r.masks ==> r.masks[id] == PresentationMask(chunk, id))
      && (forall id: byte :: id in r.blocks <==> id < Presentations(chunk))
      && (forall id: byte :: id in r.blocks ==> r.blocks[id] == total + chunk[0].blocks)
  {
    var items, b := GroupOf(chunk).independents, GroupOf(chunk).blocks;
    GroupMirrors(chunk);
    AbsorbedMasks(a, items, b);
    AbsorbedBlocks(a, items, b);
    forall id: byte | id < |items|
      ensures MergedMask(items[id].mask, items[id].dependents) == PresentationMask(chunk, id)
    {
      MaskMirrors(chunk, id);
    }
  }

  /** The state once the finished group's signature is compared. */
  function Compared(a: Access): Access
    requires a.current.Some?
  {
    var taken := a.(current := None, groups := a.groups + 1);
    var signature := SignatureOf(a.current.value.independents);
    if taken.signature.Some?
    then taken.(valid := taken.valid && taken.signature.value == signature)
    else taken.(signature := Some(signature))
  }

  lemma {:induction false} FinalizeIs(a: Access)
    requires a.current.Some? && a.current.value.independents != [] && a.current.value.independents[0].id == 0
    ensures FinalizeGroup(a) ==
            CloseUnit(AbsorbAll(Compared(a), a.current.value.independents, a.current.value.blocks))
  {
  }

  lemma {:induction false} SignatureKnown(before: seq<seq<Frame>>, chunk: seq<Frame>)
    requires NoneEmpty(before) && IsGroup(chunk) && Ordered(chunk)
    requires forall i :: 0 <= i < |before| ==> IsGroup(before[i])
    requires Settled(Sealed(before), before) && Sealed(before).valid
    ensures var first := (before + [chunk])[0];
            var a := Compared(Sealed(before).(current := Some(GroupOf(chunk))));
            && a.signature == Some(SignatureOf(GroupOf(first).independents))
            && (a.valid <==> Roles(chunk) == Roles(first))
  {
    if before != [] {
      assert GroupWellFormed(before[0]);
      SignatureAgrees(chunk, before[0]);
    }
  }

  lemma {:induction false} PresentationsOfRoles(chunk: seq<Frame>, first: seq<Frame>)
    requires Roles(chunk) == Roles(first)
    ensures Presentations(chunk) == Presentations(first)
  {
    assert |Roles(chunk)| == |Roles(first)|;
    if chunk != [] {
      assert Roles(Front(chunk)) == Roles(chunk)[..|chunk| - 1] == Roles(Front(first));
      PresentationsOfRoles(Front(chunk), Front(first));
      assert Roles(chunk)[|chunk| - 1] == Roles(first)[|chunk| - 1];
    }
  }

  /** The maps of a settled state, as the next group finds them. */
  ghost predicate Uniform(a: Access, before: seq<seq<Frame>>, first: seq<Frame>) {
    var n, total := Presentations(first), TotalBlocks(before) % BLOCKS_PER_UNIT;
    && (forall id: byte :: id in a.masks ==> id < n)
    && (forall id: byte :: id in a.blocks ==> id < n)
    && (forall id: byte :: id < n ==> BlocksOf(a.blocks, id) == total)
    && a.completeUnits == TotalBlocks(before) / BLOCKS_PER_UNIT
    && (before != [] ==> forall id: byte :: id < n ==> id in a.masks && a.masks[id] == PresentationMask(first, id))
    && (before == [] ==> a.masks == map[])
  }

  /** A group with the right signature: judged, recorded, and closed. */
  lemma {:induction false} AbsorbMatching(a: Access, before: seq<seq<Frame>>, chunk: seq<Frame>)
    requires a.valid && IsGroup(chunk) && Ordered(chunk)
    requires Roles(chunk) == Roles((before + [chunk])[0])
    requires Uniform(a, before, (before + [chunk])[0])
    ensures var first := (before + [chunk])[0];
      var r := CloseUnit(AbsorbAll(a, GroupOf(chunk).independents, GroupOf(chunk).blocks));
      && (r.valid <==> CompressionPlaced(chunk) && SameShape(chunk, first)
                       && TotalBlocks(before) % BLOCKS_PER_UNIT + chunk[0].blocks <= BLOCKS_PER_UNIT)
      && r.valid == AbsorbAll(a, GroupOf(chunk).independents, GroupOf(chunk).blocks).valid
      && (r.valid ==> r.signature == a.signature && Recorded(r, first, TotalBlocks(before) + chunk[0].blocks))
  {
    hide AbsorbAll, CloseUnit, Roles, MasksAgree, CompressionPlaced, Ordered, PresentationMask, Presentations;
    var first := (before + [chunk])[0];
    var items, b := GroupOf(chunk).independents, GroupOf(chunk).blocks;
    var total := TotalBlocks(before) % BLOCKS_PER_UNIT;
    PresentationsOfRoles(chunk, first);
    MasksAgreeIsSameShape(a, before, chunk);
    GroupJudged(a, chunk, total);
    AbsorbFrame(a, items, b);
    var absorbed := AbsorbAll(a, items, b);
    if absorbed.valid {
      GroupRecorded(a, chunk, total);
      GroupNonempty(chunk);
      GroupMirrors(chunk);
      CloseUniform(absorbed, total + b);
      DivModStep(TotalBlocks(before), b);
    } else {
      CloseUniform(absorbed, 0);
    }
  }

  ghost predicate Recorded(a: Access, first: seq<Frame>, total: nat) {
    var n := Presentations(first);
    && (forall id: byte :: id in a.masks <==> id < n)
    && (forall id: byte :: id in a.masks ==> a.masks[id] == PresentationMask(first, id))
    && (forall id: byte :: id in a.blocks <==> id < n)
    && (forall id: byte :: id in a.blocks ==> a.blocks[id] == total % BLOCKS_PER_UNIT)
    && a.completeUnits == total / BLOCKS_PER_UNIT
  }

  lemma DivModStep(total: nat, b: nat)
    requires total % BLOCKS_PER_UNIT + b <= BLOCKS_PER_UNIT
    ensures (total + b) % BLOCKS_PER_UNIT == (total % BLOCKS_PER_UNIT + b) % BLOCKS_PER_UNIT
    ensures (total + b) / BLOCKS_PER_UNIT
            == total / BLOCKS_PER_UNIT + (total % BLOCKS_PER_UNIT + b) / BLOCKS_PER_UNIT
  {
  }

  lemma {:induction false} MasksAgreeIsSameShape(a: Access, before: seq<seq<Frame>>, chunk: seq<Frame>)
    requires IsGroup(chunk) && Ordered(chunk)
    requires Roles(chunk) == Roles((before + [chunk])[0])
    requires Uniform(a, before, (before + [chunk])[0])
    ensures MasksAgree(a.masks, chunk) <==> SameShape(chunk, (before + [chunk])[0])
  {
    var first := (before + [chunk])[0];
    PresentationsOfRoles(chunk, first);
    GroupMirrors(chunk);
    var items := GroupOf(chunk).independents;
    if before != [] && MasksAgree(a.masks, chunk) {
      forall id: nat | id < Presentations(first)
        ensures PresentationMask(chunk, id) == PresentationMask(first, id)
      {
        assert items[id].id == id;
        var key: byte := id;
        assert key in a.masks;
      }
    }
  }

  lemma {:induction false} SettledIsUniform(s: Access, before: seq<seq<Frame>>, chunk: seq<Frame>)
    requires NoneEmpty(before) && chunk != []
    requires Settled(s, before) && s.valid
    ensures Uniform(s, before, (before + [chunk])[0])
  {
    if before != [] {
      assert (before + [chunk])[0] == before[0];
    }
  }

  /** The verdict on one more group, from the verdicts on its parts. */
  lemma {:induction false} SettledStep(before: seq<seq<Frame>>, chunk: seq<Frame>, r: Access)
    requires NoneEmpty(before) && chunk != []
    requires ChunksWellFormed(before) && Ordered(chunk)
    requires var first := (before + [chunk])[0];
      r.valid <==> CompressionPlaced(chunk) && SameShape(chunk, first)
                   && TotalBlocks(before) % BLOCKS_PER_UNIT + chunk[0].blocks <= BLOCKS_PER_UNIT
    requires var first := (before + [chunk])[0];
      r.valid ==> && r.signature == Some(SignatureOf(GroupOf(first).independents))
                  && Recorded(r, first, TotalBlocks(before) + chunk[0].blocks)
    ensures Settled(r, before + [chunk])
  {
    var chunks := before + [chunk];
    assert Front(chunks) == before;
    ChunksWellFormedStep(chunks);
    assert TotalBlocks(chunks) == TotalBlocks(before) + chunk[0].blocks;
    assert chunks[0] != [];
  }

  lemma {:induction false} RejectedStep(before: seq<seq<Frame>>, chunk: seq<Frame>, r: Access)
    requires NoneEmpty(before) && chunk != [] && !r.valid
    requires ChunksWellFormed(before) && Ordered(chunk) ==> Roles(chunk) != Roles((before + [chunk])[0])
    ensures Settled(r, before + [chunk])
  {
    assert Front(before + [chunk]) == before;
    ChunksWellFormedStep(before + [chunk]);
  }

  /** Finalising the open group judges it against the first one. */
  lemma {:induction false} SealStep(before: seq<seq<Frame>>, chunk: seq<Frame>)
    requires NoneEmpty(before) && IsGroup(chunk)
    requires forall i :: 0 <= i < |before| ==> IsGroup(before[i])
    requires Settled(Sealed(before), before)
    ensures Settled(Sealed(before + [chunk]), before + [chunk])
  {
    hide AbsorbAll, CloseUnit, GroupOf, Roles, SameShape, Ordered, CompressionPlaced, Recorded, SettledFields,
         SignatureOf, FinalizeGroup, Presentations, PresentationMask, TotalBlocks;
    assert Front(before + [chunk]) == before;
    var s := Sealed(before);
    var a := s.(current := Some(GroupOf(chunk)), valid := s.valid && Ordered(chunk));
    assert a == Pending(before + [chunk]);
    GroupNonempty(chunk);
    FinalizeIs(a);
    FinalizeSticky(a);
    if a.valid {
      SignatureKnown(before, chunk);
      SettledIsUniform(s, before, chunk);
      var compared := Compared(a);
      if compared.valid {
        AbsorbMatching(compared, before, chunk);
        SettledStep(before, chunk, FinalizeGroup(a));
      } else {
        AbsorbSticky(compared, GroupOf(chunk).independents, GroupOf(chunk).blocks);
        CloseSticky(AbsorbAll(compared, GroupOf(chunk).independents, GroupOf(chunk).blocks));
        RejectedStep(before, chunk, FinalizeGroup(a));
      }
    } else {
      RejectedStep(before, chunk, FinalizeGroup(a));
    }
  }

  lemma CloseSticky(a: Access)
    ensures CloseUnit(a).valid ==> a.valid
  {
  }

  lemma {:induction false} NothingStraddled()
    ensures ChunksWellFormed([])
  {
    forall m: nat | m * BLOCKS_PER_UNIT <= TotalBlocks([])
      ensures StopsAt([], m)
    {
      var none: seq<seq<Frame>> := [];
      assert none[..0] == [];
    }
  }

  /** Closing a unit when all accumulators agree. */
  lemma {:induction false} CloseUniform(a: Access, total: byte)
    requires total <= BLOCKS_PER_UNIT
    requires a.valid ==> 0 in a.blocks && forall id: byte :: id in a.blocks ==> a.blocks[id] == total
    ensures var r := CloseUnit(a);
      && r.valid == a.valid
      && r == a.(valid := r.valid, completeUnits := r.completeUnits, blocks := r.blocks)
      && (a.valid ==>
            && (forall id: byte :: id in r.blocks <==> id in a.blocks)
            && (forall id: byte :: id in r.blocks ==> r.blocks[id] == total % BLOCKS_PER_UNIT)
            && r.completeUnits == a.completeUnits + total / BLOCKS_PER_UNIT)
  {
  }

  lemma {:induction false} SealedSettled(chunks: seq<seq<Frame>>)
    requires forall i :: 0 <= i < |chunks| ==> IsGroup(chunks[i])
    ensures NoneEmpty(chunks) && Settled(Sealed(chunks), chunks)
  {
    if chunks == [] {
      NothingStraddled();
    } else {
      SealedSettled(Front(chunks));
      assert chunks == Front(chunks) + [Last(chunks)];
      SealStep(Front(chunks), Last(chunks));
    }
  }

  // ---------- main results

  /** The assembler's verdict is the declarative one, for every sequence of syncframes. */
  lemma ExactRecogniser(frames: seq<Frame>)
    ensures Finish(Feed(frames)).valid <==> WellFormed(frames)
  {
    var chunks := Chunks(frames);
    if frames == [] {
      NothingStraddled();
    } else if !frames[0].IsPrimary() {
      OrphansRejected(frames);
      FinalizeSticky(Feed(frames));
    } else {
      ChunksCut(frames);
      RunState(frames);
      SealedSettled(chunks);
      var closed := Sealed(chunks);
      if closed.valid {
        GroupMirrors(chunks[0]);
        assert GroupWellFormed(chunks[0]);
        assert 0 in closed.blocks;
      }
    }
  }

  lemma {:induction false} CarriedPerGroup(chunk: seq<Frame>, id: nat)
    requires chunk != [] && chunk[0].IsPrimary() && Ordered(chunk)
    ensures BlocksCarried(chunk, id) == if id < Presentations(chunk) then chunk[0].blocks else 0
  {
    OrderedFront(chunk);
    assert OrderedAt(chunk, |chunk| - 1);
    if |chunk| == 1 {
      assert Front(chunk) == [];
    } else {
      CarriedPerGroup(Front(chunk), id);
    }
  }

  lemma {:induction false} CarriedInGroups(frames: seq<Frame>, id: nat)
    requires frames != [] && frames[0].IsPrimary() && ChunksWellFormed(Chunks(frames))
    ensures Chunks(frames) != []
    ensures id < Presentations(Chunks(frames)[0]) ==> BlocksCarried(frames, id) == TotalBlocks(Chunks(frames))
  {
    ChunksCut(frames);
    var chunks := Chunks(frames);
    if id < Presentations(chunks[0]) {
      CarriedInChunks(chunks, id);
    }
  }

  lemma {:induction false} CarriedInChunks(chunks: seq<seq<Frame>>, id: nat)
    requires chunks != [] && forall i :: 0 <= i < |chunks| ==> IsGroup(chunks[i])
    requires GroupsMatch(chunks, chunks[0]) && id < Presentations(chunks[0])
    ensures BlocksCarried(Joined(chunks), id) == TotalBlocks(chunks)
  {
    hide Joined, TotalBlocks, BlocksCarried, Ordered, CompressionPlaced, PresentationMask, Presentations;
    var front, last := Front(chunks), Last(chunks);
    assert GroupWellFormed(last) && SameShape(last, chunks[0]);
    PresentationsOfRoles(last, chunks[0]);
    CarriedPerGroup(last, id);
    CarriedConcat(Joined(front), last, id);
    JoinedSnoc(front, last);
    assert chunks == front + [last];
    TotalNext(chunks, id);
    if front != [] {
      GroupsMatchStep(chunks, chunks[0]);
      CarriedInChunks(front, id);
    }
  }

  lemma TotalNext(chunks: seq<seq<Frame>>, id: nat)
    requires chunks != [] && Last(chunks) != []
    ensures TotalBlocks(chunks) == TotalBlocks(Front(chunks)) + Last(chunks)[0].blocks
    ensures |chunks| == 1 ==> TotalBlocks(Front(chunks)) == 0 && BlocksCarried(Joined(Front(chunks)), id) == 0
  {
    if |chunks| == 1 {
      NoChunks();
    }
  }

  lemma {:induction false} CarriedConcat(left: seq<Frame>, right: seq<Frame>, id: nat)
    ensures BlocksCarried(left + right, id) == BlocksCarried(left, id) + BlocksCarried(right, id)
  {
    if right == [] {
      assert left + right == left;
    } else {
      assert Front(left + right) == left + Front(right);
      CarriedConcat(left, Front(right), id);
    }
  }

  /** Every presentation of an accepted stream carries six blocks per completed unit. */
  lemma BlocksConserved(frames: seq<Frame>, id: nat)
    requires frames != [] && Finish(Feed(frames)).valid
    ensures Chunks(frames) != []
    ensures id < Presentations(Chunks(frames)[0]) ==>
              BlocksCarried(frames, id) == BLOCKS_PER_UNIT * Finish(Feed(frames)).completeUnits
    ensures 0 < Presentations(Chunks(frames)[0])
  {
    ExactRecogniser(frames);
    ChunksCut(frames);
    RunState(frames);
    SealedSettled(Chunks(frames));
    CarriedInGroups(frames, id);
    assert GroupWellFormed(Chunks(frames)[0]);
    GroupMirrors(Chunks(frames)[0]);
  }

  /** At any point of a run that is still accepted, the accumulators agree and are below six. */
  lemma AccumulatorsAgree(frames: seq<Frame>)
    requires Feed(frames).valid
    ensures forall id, other :: id in Feed(frames).blocks && other in Feed(frames).blocks ==>
              Feed(frames).blocks[id] == Feed(frames).blocks[other] < BLOCKS_PER_UNIT
  {
    if frames != [] {
      if !frames[0].IsPrimary() {
        OrphansRejected(frames);
      }
      ChunksCut(frames);
      RunState(frames);
      SealedSettled(Front(Chunks(frames)));
    }
  }

  lemma {:induction false} OpenGroupStarts(frames: seq<Frame>)
    requires Feed(frames).current.Some?
    ensures var items := Feed(frames).current.value.independents; items != [] && items[0].id == 0
  {
    if frames != [] && !Last(frames).IsPrimary() {
      OpenGroupStarts(Front(frames));
    }
  }

  /** The test for a missing substream 0 never fires, and while the stream is still accepted
      presentation 0 never completes a unit without all the others. */
  lemma UnitsCloseTogether(frames: seq<Frame>)
    requires Feed(frames).current.Some?
    ensures var group := Feed(frames).current.value;
      && group.independents != [] && group.independents[0].id == 0
      && var absorbed := AbsorbAll(Compared(Feed(frames)), group.independents, group.blocks);
         absorbed.valid && 0 in absorbed.blocks && absorbed.blocks[0] == BLOCKS_PER_UNIT ==>
           AllAtSix(absorbed.blocks)
  {
    assert Feed([]).current == None;
    hide AbsorbAll, GroupOf, Sealed, Chunks, Feed, Joined, SignatureOf, Ordered, Settled, AllAtSix, Compared, IsGroup;
    OpenGroupStarts(frames);
    var a := Feed(frames);
    if a.valid {
      if !frames[0].IsPrimary() {
        OrphansRejected(frames);
      }
      ChunksCut(frames);
      RunState(frames);
      var before, chunk := Front(Chunks(frames)), Last(Chunks(frames));
      SealedSettled(before);
      OpenUnit(before, chunk);
    } else {
      ComparedSticky(a);
      AbsorbSticky(Compared(a), a.current.value.independents, a.current.value.blocks);
    }
  }

  lemma ComparedSticky(a: Access)
    requires a.current.Some?
    ensures Compared(a).valid ==> a.valid
  {
  }

  lemma OpenUnit(before: seq<seq<Frame>>, chunk: seq<Frame>)
    requires NoneEmpty(before) && IsGroup(chunk) && Ordered(chunk)
    requires forall i :: 0 <= i < |before| ==> IsGroup(before[i])
    requires Settled(Sealed(before), before) && Sealed(before).valid
    ensures var a := Compared(Sealed(before).(current := Some(GroupOf(chunk))));
      var absorbed := AbsorbAll(a, GroupOf(chunk).independents, GroupOf(chunk).blocks);
      absorbed.valid && 0 in absorbed.blocks && absorbed.blocks[0] == BLOCKS_PER_UNIT ==> AllAtSix(absorbed.blocks)
  {
    hide AbsorbAll, CloseUnit, GroupOf, Roles, SameShape, Ordered, CompressionPlaced, Recorded, SettledFields, Sealed,
         SignatureOf, Presentations, PresentationMask, TotalBlocks, AllAtSix;
    var a := Compared(Sealed(before).(current := Some(GroupOf(chunk))));
    var absorbed := AbsorbAll(a, GroupOf(chunk).independents, GroupOf(chunk).blocks);
    AbsorbSticky(a, GroupOf(chunk).independents, GroupOf(chunk).blocks);
    if absorbed.valid {
      SignatureKnown(before, chunk);
      SettledIsUniform(Sealed(before), before, chunk);
      AbsorbMatching(a, before, chunk);
      ClosedAtSix(absorbed, (before + [chunk])[0], TotalBlocks(before) + chunk[0].blocks);
    }
  }

  lemma ClosedAtSix(a: Access, first: seq<Frame>, total: nat)
    requires a.valid && CloseUnit(a).valid && Recorded(CloseUnit(a), first, total)
    ensures 0 in a.blocks && a.blocks[0] == BLOCKS_PER_UNIT ==> AllAtSix(a.blocks)
  {
  }

  function PrimaryCount(frames: seq<Frame>): nat {
    if frames == [] then 0
    else PrimaryCount(Front(frames)) + (if Last(frames).IsPrimary() then 1 else 0)
  }

  /** Accepted or not, every primary frame opens one group and every group is finalised once. */
  lemma {:induction false} GroupsCounted(frames: seq<Frame>)
    ensures Finish(Feed(frames)).groups == PrimaryCount(frames)
  {
    FinalizeSticky(Feed(frames));
    if frames != [] {
      GroupsCounted(Front(frames));
      FinalizeSticky(Feed(Front(frames)));
    }
  }
}
