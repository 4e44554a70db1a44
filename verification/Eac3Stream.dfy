/** The E-AC-3 access-unit assembler: syncframe headers, the assembler's state and its
    transitions, first as functions on values and then as the class that updates fields. */
module Eac3Stream {
  import opened Wrappers
  import opened Basics

  const BLOCKS_PER_UNIT := 6

  datatype IndependentKind = LegacyAc3 | Eac3 | Converted

  /** The stream type and substream id, which only an E-AC-3 header carries. */
  datatype Substream = Substream(streamType: byte, id: byte)

  /** The part of a parsed header that access-unit assembly looks at. */
  datatype Frame = Frame(
    sampleRate: nat,
    blocks: byte,
    acmod: byte,
    lfe: bool,
    compressionWord: Option<byte>,
    substream: Option<Substream>,
    channelMap: Option<bv16>)
  {
    function StreamType(): byte {
      if substream.Some? then substream.value.streamType else 0
    }

    function Id(): byte {
      if substream.Some? then substream.value.id else 0
    }

    predicate IsIndependent() {
      StreamType() == 0 || StreamType() == 2
    }

    predicate IsDependent() {
      StreamType() == 1
    }

    /** The frame that opens an access-unit group. */
    predicate IsPrimary() {
      IsIndependent() && Id() == 0
    }

    function Kind(): IndependentKind {
      if substream.None? then LegacyAc3
      else if substream.value.streamType == 2 then Converted
      else Eac3
    }

    /** The loudspeaker locations the frame adds to its presentation. */
    function Mask(): bv16 {
      if IsDependent() then channelMap.GetOr(ChannelMask(acmod, lfe)) else ChannelMask(acmod, lfe)
    }
  }

  function ChannelMask(acmod: byte, lfe: bool): bv16 {
    var L: bv16 := 0x8000;
    var C: bv16 := 0x4000;
    var R: bv16 := 0x2000;
    var LS: bv16 := 0x1000;
    var RS: bv16 := 0x0800;
    var CS: bv16 := 0x0100;
    var LFE: bv16 := 0x0001;
    var mask: bv16 :=
      match acmod
      case 0 => L | R
      case 2 => L | R
      case 1 => C
      case 3 => L | C | R
      case 4 => L | R | CS
      case 5 => L | C | R | CS
      case 6 => L | R | LS | RS
      case 7 => L | C | R | LS | RS
      case _ => 0;
    if lfe then mask | LFE else mask
  }

  datatype Dependent = Dependent(id: byte, mask: bv16, compressionWord: Option<byte>)

  datatype Independent = Independent(id: byte, kind: IndependentKind, mask: bv16, dependents: seq<Dependent>)

  datatype Group = Group(sampleRate: nat, blocks: byte, independents: seq<Independent>)

  datatype Signature = Signature(id: byte, kind: IndependentKind, dependents: seq<byte>)

  /** The assembler's fields as one value. */
  datatype Access = Access(
    valid: bool,
    groups: nat,
    completeUnits: nat,
    current: Option<Group>,
    signature: Option<seq<Signature>>,
    blocks: map<byte, byte>,
    masks: map<byte, bv16>)

  const START := Access(true, 0, 0, None, None, map[], map[])

  function SaturatingAdd(a: byte, b: byte): byte {
    if a + b > 255 then 255 else a + b
  }

  function BlocksOf(blocks: map<byte, byte>, id: byte): byte {
    if id in blocks then blocks[id] else 0
  }

  function SignatureOf(independents: seq<Independent>): seq<Signature> {
    seq(|independents|, i requires 0 <= i < |independents| =>
      var item := independents[i];
      Signature(item.id, item.kind,
                seq(|item.dependents|, j requires 0 <= j < |item.dependents| => item.dependents[j].id)))
  }

  /** A compression word on the last dependent and on no other. */
  predicate CompressionOnLastOnly(dependents: seq<Dependent>) {
    forall j :: 0 <= j < |dependents| ==>
      (dependents[j].compressionWord.Some? <==> j == |dependents| - 1)
  }

  function MergedMask(mask: bv16, dependents: seq<Dependent>): bv16 {
    if dependents == [] then mask
    else MergedMask(mask, dependents[..|dependents| - 1]) | dependents[|dependents| - 1].mask
  }

  /** Accounts for one independent substream of a finished group. */
  function Absorb(a: Access, item: Independent, blocks: byte): Access {
    var mask := MergedMask(item.mask, item.dependents);
    var total := SaturatingAdd(BlocksOf(a.blocks, item.id), blocks);
    a.(valid := a.valid
                && CompressionOnLastOnly(item.dependents)
                && (item.id in a.masks ==> a.masks[item.id] == mask)
                && total <= BLOCKS_PER_UNIT,
       masks := if item.id in a.masks then a.masks else a.masks[item.id := mask],
       blocks := a.blocks[item.id := total])
  }

  function AbsorbAll(a: Access, items: seq<Independent>, blocks: byte): Access {
    if items == [] then a
    else Absorb(AbsorbAll(a, items[..|items| - 1], blocks), items[|items| - 1], blocks)
  }

  lemma AbsorbNone(a: Access, blocks: byte)
    ensures AbsorbAll(a, [], blocks) == a
  {
  }

  lemma AbsorbNext(a: Access, items: seq<Independent>, i: nat, blocks: byte)
    requires i < |items|
    ensures AbsorbAll(a, items[..i + 1], blocks) == Absorb(AbsorbAll(a, items[..i], blocks), items[i], blocks)
  {
    assert items[..i + 1][..i] == items[..i];
  }

  predicate AllAtSix(blocks: map<byte, byte>) {
    forall id <- blocks.Keys :: blocks[id] == BLOCKS_PER_UNIT
  }

  /** Closes an access unit once presentation 0 has six blocks. */
  function CloseUnit(a: Access): Access {
    if 0 in a.blocks && a.blocks[0] == BLOCKS_PER_UNIT then
      if AllAtSix(a.blocks) then
        a.(completeUnits := a.completeUnits + 1, blocks := map id | id in a.blocks :: 0)
      else
        a.(valid := false)
    else
      a
  }

  function FinalizeGroup(a: Access): Access {
    if a.current.None? then a
    else
      var group := a.current.value;
      var taken := a.(current := None, groups := a.groups + 1);
      if group.independents == [] || group.independents[0].id != 0 then
        taken.(valid := false)
      else
        var signature := SignatureOf(group.independents);
        var compared := if taken.signature.Some?
                        then taken.(valid := taken.valid && taken.signature.value == signature)
                        else taken.(signature := Some(signature));
        CloseUnit(AbsorbAll(compared, group.independents, group.blocks))
  }

  function AddIndependent(group: Group, frame: Frame): Group {
    group.(independents := group.independents + [Independent(frame.Id(), frame.Kind(), frame.Mask(), [])])
  }

  function AddDependent(group: Group, frame: Frame): Group
    requires group.independents != []
  {
    var last := |group.independents| - 1;
    var owner := group.independents[last];
    var added := Dependent(frame.Id(), frame.Mask(), frame.compressionWord);
    group.(independents := group.independents[last := owner.(dependents := owner.dependents + [added])])
  }

  predicate SameTiming(group: Group, frame: Frame) {
    group.sampleRate == frame.sampleRate && group.blocks == frame.blocks
  }

  /** One syncframe. A group is judged only when the next one starts. */
  function Update(a: Access, frame: Frame): Access {
    if frame.IsIndependent() then
      var ready := if frame.Id() == 0
                    then FinalizeGroup(a).(current := Some(Group(frame.sampleRate, frame.blocks, [])))
                    else a;
      if ready.current.None? then ready.(valid := false)
      else
        var group := ready.current.value;
        ready.(valid := ready.valid && SameTiming(group, frame) && frame.Id() == |group.independents|,
                current := Some(AddIndependent(group, frame)))
    else if frame.IsDependent() then
      if a.current.None? || a.current.value.independents == [] then a.(valid := false)
      else
        var group := a.current.value;
        var owner := group.independents[|group.independents| - 1];
        a.(valid := a.valid && owner.kind != Converted && SameTiming(group, frame)
                    && frame.Id() == |owner.dependents|,
           current := Some(AddDependent(group, frame)))
    else
      a.(valid := false)
  }

  function Feed(frames: seq<Frame>): Access {
    if frames == [] then START
    else Update(Feed(frames[..|frames| - 1]), frames[|frames| - 1])
  }

  function Finish(a: Access): Access {
    var closed := FinalizeGroup(a);
    closed.(valid := closed.valid && forall id <- closed.blocks.Keys :: closed.blocks[id] == 0)
  }

  method CompressionInPlace(dependents: seq<Dependent>) returns (ok: bool)
    ensures ok <==> CompressionOnLastOnly(dependents)
  {
    ok := true;
    if dependents != [] {
      var last := |dependents| - 1;
      for j := 0 to last
        invariant ok <==> forall k :: 0 <= k < j ==> dependents[k].compressionWord.None?
      {
        if dependents[j].compressionWord.Some? {
          ok := false;
        }
      }
      if dependents[last].compressionWord.None? {
        ok := false;
      }
    }
  }

  class AccessUnits {
    var valid: bool
    var groups: nat
    var completeUnits: nat
    var current: Option<Group>
    var signature: Option<seq<Signature>>
    var accumulatedBlocks: map<byte, byte>
    var presentationMasks: map<byte, bv16>

    function State(): Access
      reads this
    {
      Access(valid, groups, completeUnits, current, signature, accumulatedBlocks, presentationMasks)
    }

    constructor ()
      ensures State() == START
    {
      valid, groups, completeUnits := true, 0, 0;
      current, signature := None, None;
      accumulatedBlocks, presentationMasks := map[], map[];
    }

    method UpdateGroup(frame: Frame)
      modifies this
      ensures State() == Update(old(State()), frame)
    {
      if frame.IsIndependent() {
        if frame.Id() == 0 {
          FinalizeCurrent();
          current := Some(Group(frame.sampleRate, frame.blocks, []));
        }
        if current.None? {
          valid := false;
          return;
        }
        var group := current.value;
        if group.sampleRate != frame.sampleRate || group.blocks != frame.blocks
           || frame.Id() != |group.independents|
        {
          valid := false;
        }
        current := Some(AddIndependent(group, frame));
      } else if frame.IsDependent() {
        if current.None? || current.value.independents == [] {
          valid := false;
          return;
        }
        var group := current.value;
        var owner := group.independents[|group.independents| - 1];
        if owner.kind == Converted || group.sampleRate != frame.sampleRate
           || group.blocks != frame.blocks || frame.Id() != |owner.dependents|
        {
          valid := false;
        }
        current := Some(AddDependent(group, frame));
      } else {
        valid := false;
      }
    }

    method FinalizeCurrent()
      modifies this
      ensures State() == FinalizeGroup(old(State()))
    {
      hide SignatureOf, Absorb, AbsorbAll;
      if current.None? {
        return;
      }
      var group := current.value;
      current := None;
      groups := groups + 1;
      if group.independents == [] || group.independents[0].id != 0 {
        valid := false;
        return;
      }
      var found := SignatureOf(group.independents);
      if signature.Some? {
        if signature.value != found {
          valid := false;
        }
      } else {
        signature := Some(found);
      }
      ghost var compared := State();
      AbsorbNone(compared, group.blocks);
      for i := 0 to |group.independents|
        invariant State() == AbsorbAll(compared, group.independents[..i], group.blocks)
      {
        AbsorbNext(compared, group.independents, i, group.blocks);
        AbsorbOne(group.independents[i], group.blocks);
      }
      assert group.independents[..|group.independents|] == group.independents;
      if 0 in accumulatedBlocks && accumulatedBlocks[0] == BLOCKS_PER_UNIT {
        if forall id <- accumulatedBlocks.Keys :: accumulatedBlocks[id] == BLOCKS_PER_UNIT {
          completeUnits := completeUnits + 1;
          accumulatedBlocks := map id | id in accumulatedBlocks :: 0;
        } else {
          valid := false;
        }
      }
    }

    method AbsorbOne(item: Independent, blocks: byte)
      modifies this
      ensures State() == Absorb(old(State()), item, blocks)
    {
      var ordered := CompressionInPlace(item.dependents);
      if !ordered {
        valid := false;
      }
      var mask := MergedMask(item.mask, item.dependents);
      if item.id !in presentationMasks {
        presentationMasks := presentationMasks[item.id := mask];
      } else if presentationMasks[item.id] != mask {
        valid := false;
      }
      var total := SaturatingAdd(BlocksOf(accumulatedBlocks, item.id), blocks);
      accumulatedBlocks := accumulatedBlocks[item.id := total];
      if total > BLOCKS_PER_UNIT {
        valid := false;
      }
    }

    method FinishUnits()
      modifies this
      ensures State() == Finish(old(State()))
    {
      FinalizeCurrent();
      if exists id <- accumulatedBlocks.Keys :: accumulatedBlocks[id] != 0 {
        valid := false;
      }
    }
  }
}
