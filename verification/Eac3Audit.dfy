/** The frame loop of the AC-3 audit: sample counting and the access-unit verdict. */
module Eac3Audit {
  import opened Wrappers
  import opened Eac3Stream
  import opened Eac3Spec
  import Recogniser = Eac3Recogniser
  import Locations = Eac3Locations

  const SAMPLES_PER_BLOCK := 256

  datatype Format = Ac3Format | Eac3Format

  datatype Report = Report(
    format: Option<Format>,
    frames: nat,
    decodedSamples: nat,
    substreamsValid: bool,
    units: Access)

  function FormatOf(frame: Frame): Format {
    if frame.substream.Some? then Eac3Format else Ac3Format
  }

  predicate HasEac3(frames: seq<Frame>) {
    exists i :: 0 <= i < |frames| && frames[i].substream.Some?
  }

  /** The running totals of the frame loop; the assembler is one of its parts. */
  class State {
    var format: Option<Format>
    var decodedSamples: nat
    var substreamsValid: bool
    const units: AccessUnits

    constructor ()
      ensures format == None && decodedSamples == 0 && substreamsValid
      ensures fresh(units) && units.State() == START
    {
      format, decodedSamples, substreamsValid := None, 0, true;
      units := new AccessUnits();
    }

    method UpdateState(frame: Frame)
      modifies this, units
      ensures units.State() == Update(old(units.State()), frame)
      ensures units.State().valid ==> old(units.State().valid)
      ensures substreamsValid == (old(substreamsValid)
                && (frame.substream.Some? ==> frame.StreamType() <= 2 && units.State().valid))
      ensures units.State().valid && old(substreamsValid) ==> substreamsValid
      ensures format == if old(format) == None || frame.substream.Some? then Some(FormatOf(frame)) else old(format)
      ensures decodedSamples == old(decodedSamples)
                + (if frame.IsPrimary() then frame.blocks * SAMPLES_PER_BLOCK else 0)
    {
      if format == None || FormatOf(frame) == Eac3Format {
        format := Some(FormatOf(frame));
      }
      Recogniser.UpdateSticky(units.State(), frame);
      units.UpdateGroup(frame);
      if frame.substream.Some? {
        if frame.StreamType() > 2 {
          substreamsValid := false;
        }
        substreamsValid := substreamsValid && units.valid;
      }
      if frame.IsPrimary() {
        decodedSamples := decodedSamples + frame.blocks * SAMPLES_PER_BLOCK;
      }
    }
  }

  ghost predicate Tallied(frames: seq<Frame>, format: Option<Format>, decoded: nat) {
    && (format == None <==> frames == [])
    && (format == Some(Eac3Format) <==> HasEac3(frames))
    && decoded == SAMPLES_PER_BLOCK * BlocksCarried(frames, 0)
  }

  lemma TalliedStep(frames: seq<Frame>, format: Option<Format>, decoded: nat, frame: Frame)
    requires Tallied(frames, format, decoded)
    ensures Tallied(frames + [frame],
                    if format == None || frame.substream.Some? then Some(FormatOf(frame)) else format,
                    decoded + (if frame.IsPrimary() then frame.blocks * SAMPLES_PER_BLOCK else 0))
  {
    assert Front(frames + [frame]) == frames;
    if HasEac3(frames) {
      var i :| 0 <= i < |frames| && frames[i].substream.Some?;
      assert (frames + [frame])[i].substream.Some?;
    }
    if frame.substream.Some? {
      assert (frames + [frame])[|frames|].substream.Some?;
    }
  }

  /** Access units are finished and judged as soon as one E-AC-3 frame is present; an accepted
      stream decodes to 1536 samples for each completed unit. */
  method Audit(frames: seq<Frame>) returns (report: Report)
    ensures report.frames == |frames|
    ensures report.format == Some(Eac3Format) <==> HasEac3(frames)
    ensures report.decodedSamples == SAMPLES_PER_BLOCK * BlocksCarried(frames, 0)
    ensures report.format == Some(Eac3Format) ==>
              && report.units == Finish(Feed(frames))
              && (report.substreamsValid && report.units.valid <==> WellFormed(frames))
              && (report.units.valid <==> Locations.PlainStream(frames))
              && report.units.groups == Recogniser.PrimaryCount(frames)
    ensures report.format == Some(Eac3Format) && report.units.valid ==>
              && report.substreamsValid && report.decodedSamples == 1536 * report.units.completeUnits
              && Chunks(frames) != [] && Locations.MasksMean(report.units.masks, Chunks(frames)[0])
  {
    hide *;
    var state := new State();
    assert frames[..0] == [];
    NothingTallied();
    for i := 0 to |frames|
      invariant fresh(state) && fresh(state.units)
      invariant state.units.State() == Feed(frames[..i])
      invariant Tallied(frames[..i], state.format, state.decodedSamples)
      invariant state.units.State().valid ==> state.substreamsValid
    {
      assert frames[..i + 1] == frames[..i] + [frames[i]];
      FeedNext(frames[..i], frames[i]);
      TalliedStep(frames[..i], state.format, state.decodedSamples, frames[i]);
      state.UpdateState(frames[i]);
    }
    assert frames[..|frames|] == frames;
    TalliedMeans(frames, state.format, state.decodedSamples);
    if state.format == Some(Eac3Format) {
      Finishing(frames);
      state.units.FinishUnits();
    }
    report := Report(state.format, |frames|, state.decodedSamples, state.substreamsValid, state.units.State());
  }

  lemma FeedNext(frames: seq<Frame>, frame: Frame)
    ensures Feed(frames + [frame]) == Update(Feed(frames), frame)
  {
    assert Front(frames + [frame]) == frames;
  }

  lemma NothingTallied()
    ensures Tallied([], None, 0) && Feed([]) == START
  {
  }

  lemma TalliedMeans(frames: seq<Frame>, format: Option<Format>, decoded: nat)
    requires Tallied(frames, format, decoded)
    ensures format == Some(Eac3Format) <==> HasEac3(frames)
    ensures decoded == SAMPLES_PER_BLOCK * BlocksCarried(frames, 0)
    ensures HasEac3(frames) ==> frames != []
  {
  }

  lemma Finishing(frames: seq<Frame>)
    requires frames != []
    ensures var units := Finish(Feed(frames));
      && (units.valid ==> Feed(frames).valid)
      && (units.valid <==> WellFormed(frames)) && (units.valid <==> Locations.PlainStream(frames))
      && units.groups == Recogniser.PrimaryCount(frames)
      && (units.valid ==> SAMPLES_PER_BLOCK * BlocksCarried(frames, 0) == 1536 * units.completeUnits)
      && (units.valid ==> Chunks(frames) != [] && Locations.MasksMean(units.masks, Chunks(frames)[0]))
  {
    Recogniser.FinalizeSticky(Feed(frames));
    Recogniser.ExactRecogniser(frames);
    Locations.AcceptedIff(frames);
    Recogniser.GroupsCounted(frames);
    if Finish(Feed(frames)).valid {
      Recogniser.BlocksConserved(frames, 0);
      Locations.ReportedMasks(frames);
    }
  }
}
