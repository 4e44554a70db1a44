/** AES31 time labels: hours, minutes, seconds, frames and a remainder in samples, counted with
    or without dropped labels (the drop-frame counting section of SMPTE ST 12-1). */
module Aes31Time {
  import opened Wrappers
  import opened Basics

  datatype FrameRate = FrameRate(numerator: nat, denominator: nat, nominal: nat, dropFrame: bool)

  datatype Timing = Timing(sampleRate: nat, rate: FrameRate)

  /** The five digit runs of a label; `semicolon` records a ';' among the separators. */
  datatype Label = Label(hours: nat, minutes: nat, seconds: nat, frames: nat, remainder: nat)

  predicate CanDrop(rate: FrameRate) {
    rate.denominator == 1001 && (rate.numerator == 30000 || rate.numerator == 60000)
  }

  /** The rates that the frame-rate field can name. */
  predicate Named(rate: FrameRate) {
    && ((rate.denominator == 1001 && rate.numerator == 1000 * rate.nominal && rate.nominal in {24, 30, 60})
        || (rate.denominator == 1 && rate.numerator == rate.nominal && rate.nominal in {24, 25, 30, 48, 50, 60}))
    && (rate.dropFrame ==> CanDrop(rate))
  }

  predicate TimingOk(timing: Timing) {
    Named(timing.rate) && 8_000 <= timing.sampleRate <= 768_000
  }

  function DroppedPerMinute(rate: FrameRate): nat {
    if rate.nominal == 60 then 4 else 2
  }

  function CeilDiv(a: nat, b: nat): nat
    requires b > 0
  {
    (a + b - 1) / b
  }

  /** Samples per frame, rounded up. */
  function SamplesPerFrameCeil(timing: Timing): nat
    requires TimingOk(timing)
  {
    CeilDiv(timing.sampleRate * timing.rate.denominator, timing.rate.numerator)
  }

  datatype TimeError = OutOfRange | CannotDrop | DroppedLabel | Underflow

  function ParseTime(mark: Label, semicolon: bool, timing: Timing): Result<nat, TimeError>
    requires TimingOk(timing)
  {
    var rate := timing.rate;
    if mark.minutes >= 60 || mark.seconds >= 60 || mark.frames >= rate.nominal
       || mark.remainder >= SamplesPerFrameCeil(timing)
    then Err(OutOfRange)
    else
      if !(rate.dropFrame || semicolon) then Ok(RawCount(mark, rate))
      else if !CanDrop(rate) then Err(CannotDrop)
      else if mark.minutes % 10 != 0 && mark.seconds == 0 && mark.frames < DroppedPerMinute(rate)
      then Err(DroppedLabel)
      else if DroppedBefore(mark, rate) > RawCount(mark, rate) then Err(Underflow)
      else Ok(RawCount(mark, rate) - DroppedBefore(mark, rate))
  }

  /** Labels counted as if none were dropped. */
  function RawCount(mark: Label, rate: FrameRate): nat {
    (mark.hours * 3600 + mark.minutes * 60 + mark.seconds) * rate.nominal + mark.frames
  }

  /** Labels dropped up to the label's minute. */
  function DroppedBefore(mark: Label, rate: FrameRate): nat {
    var totalMinutes := mark.hours * 60 + mark.minutes;
    DroppedPerMinute(rate) * (totalMinutes - totalMinutes / 10)
  }

  /** Position in samples times the rate's numerator, so exact: a frame is
      `sampleRate * denominator / numerator` samples. The source rounds this to a double. */
  function Position(frameNumber: nat, remainder: nat, timing: Timing): nat {
    frameNumber * (timing.sampleRate * timing.rate.denominator) + remainder * timing.rate.numerator
  }

  // ---------- the order of labels

  function MinuteOf(mark: Label): nat {
    mark.hours * 60 + mark.minutes
  }

  /** In samples: so many frames, and the remainder. */
  lemma PositionIsExact(frameNumber: nat, remainder: nat, timing: Timing)
    requires TimingOk(timing)
    ensures var n, d := timing.rate.numerator as real, timing.rate.denominator as real;
            Position(frameNumber, remainder, timing) as real / n
            == frameNumber as real * (timing.sampleRate as real * d / n) + remainder as real
  {
    var a, b := timing.sampleRate * timing.rate.denominator, timing.rate.numerator;
    assert a as real == timing.sampleRate as real * timing.rate.denominator as real;
    DividedSum(frameNumber, a, remainder, b);
  }

  lemma DividedSum(n: nat, a: nat, r: nat, b: nat)
    requires b > 0
    ensures (n * a + r * b) as real / b as real == n as real * (a as real / b as real) + r as real
  {
    assert (n * a + r * b) as real == n as real * a as real + r as real * b as real;
    var x := a as real / b as real;
    assert a as real == x * b as real;
    assert n as real * a as real + r as real * b as real == (n as real * x + r as real) * b as real;
  }

  /** Lexicographic order of (h, m, s, f), minutes and seconds being below 60. */
  predicate LabelLess(a: Label, b: Label) {
    || a.hours < b.hours
    || (a.hours == b.hours && a.minutes < b.minutes)
    || (a.hours == b.hours && a.minutes == b.minutes && a.seconds < b.seconds)
    || (a.hours == b.hours && a.minutes == b.minutes && a.seconds == b.seconds && a.frames < b.frames)
  }

  predicate SameFrame(a: Label, b: Label) {
    a.(remainder := 0) == b.(remainder := 0)
  }

  /** The frame number of a drop-frame label, minute by minute: every minute but each tenth has
      `d` numbers fewer, and its labels start at `d`. */
  lemma DropCount(mark: Label, semicolon: bool, timing: Timing)
    requires TimingOk(timing) && (timing.rate.dropFrame || semicolon)
    requires ParseTime(mark, semicolon, timing).Ok?
    ensures var n := timing.rate.nominal; var d := DroppedPerMinute(timing.rate);
      && (n, d) in {(30, 2), (60, 4)}
      && ParseTime(mark, semicolon, timing).value
         == 60 * n * MinuteOf(mark) - d * (MinuteOf(mark) - MinuteOf(mark) / 10) + n * mark.seconds + mark.frames
      && (MinuteOf(mark) % 10 != 0 && mark.seconds == 0 ==> mark.frames >= d)
      && mark.minutes < 60 && mark.seconds < 60 && mark.frames < n
  {
    RawNumber(mark, timing.rate);
    MinuteDigits(mark);
    assert DroppedBefore(mark, timing.rate)
           == DroppedPerMinute(timing.rate) * (MinuteOf(mark) - MinuteOf(mark) / 10);
    hide RawCount, DroppedBefore, MinuteOf, SamplesPerFrameCeil;
  }

  /** A label is accepted exactly when its parts are in range, the remainder being less than a frame
      takes, and in drop mode the rate can drop and the label is none that it drops. */
  lemma AcceptedLabelIff(mark: Label, semicolon: bool, timing: Timing)
    requires TimingOk(timing)
    ensures ParseTime(mark, semicolon, timing).Ok? <==>
      && mark.minutes < 60 && mark.seconds < 60 && mark.frames < timing.rate.nominal
      && mark.remainder * timing.rate.numerator < timing.sampleRate * timing.rate.denominator
      && (semicolon || timing.rate.dropFrame ==>
            && timing.rate.denominator == 1001 && timing.rate.nominal in {30, 60}
            && !(mark.minutes % 10 != 0 && mark.seconds == 0 && mark.frames < timing.rate.nominal / 15))
  {
    NeverUnderflows(mark, semicolon, timing);
    CeilIsLeast(timing.sampleRate * timing.rate.denominator, timing.rate.numerator, mark.remainder);
    hide RawCount, DroppedBefore, CeilDiv;
  }

  /** The subtraction of dropped labels never underflows. */
  lemma NeverUnderflows(mark: Label, semicolon: bool, timing: Timing)
    requires TimingOk(timing)
    ensures ParseTime(mark, semicolon, timing) != Err(Underflow)
  {
    var totalMinutes := MinuteOf(mark);
    if timing.rate.nominal == 60 {
      assert 4 * (totalMinutes - totalMinutes / 10) <= 3600 * totalMinutes;
    } else {
      assert 2 * (totalMinutes - totalMinutes / 10) <= 2 * totalMinutes;
    }
  }

  /** Minutes, seconds and frames in order, with the labels that a short minute drops absent. */
  lemma DropCountIncreases(n: nat, d: nat, ma: nat, sa: nat, fa: nat, mb: nat, sb: nat, fb: nat)
    requires (n == 30 && d == 2) || (n == 60 && d == 4)
    requires sa < 60 && sb < 60 && fa < n && fb < n
    requires mb % 10 != 0 && sb == 0 ==> fb >= d
    requires ma < mb || (ma == mb && (sa < sb || (sa == sb && fa < fb)))
    ensures 60 * n * ma - d * (ma - ma / 10) + n * sa + fa < 60 * n * mb - d * (mb - mb / 10) + n * sb + fb
  {
    if ma < mb {
      assert ma / 10 <= mb / 10;
      assert mb % 10 == 0 ==> ma / 10 < mb / 10;
      if n == 30 {
        assert 30 * sa + fa < 1800;
      } else {
        assert 60 * sa + fa < 3600;
      }
    } else if n == 30 {
      assert sa < sb ==> 30 * sa + 30 <= 30 * sb;
    } else {
      assert sa < sb ==> 60 * sa + 60 <= 60 * sb;
    }
  }

  /** Later accepted labels have larger frame numbers. */
  lemma FrameNumbersIncrease(a: Label, b: Label, semicolon: bool, timing: Timing)
    requires TimingOk(timing) && LabelLess(a, b)
    requires ParseTime(a, semicolon, timing).Ok? && ParseTime(b, semicolon, timing).Ok?
    ensures ParseTime(a, semicolon, timing).value < ParseTime(b, semicolon, timing).value
  {
    var n := timing.rate.nominal;
    if timing.rate.dropFrame || semicolon {
      DropCount(a, semicolon, timing);
      DropCount(b, semicolon, timing);
      hide ParseTime, TimingOk;
      DropCountIncreases(n, DroppedPerMinute(timing.rate),
                         MinuteOf(a), a.seconds, a.frames, MinuteOf(b), b.seconds, b.frames);
    } else {
      SecondsIncrease(a, b);
      PlainIncreases(n, SecondsOf(a), a.frames, SecondsOf(b), b.frames);
    }
  }

  function SecondsOf(mark: Label): nat {
    mark.hours * 3600 + mark.minutes * 60 + mark.seconds
  }

  lemma SecondsIncrease(a: Label, b: Label)
    requires LabelLess(a, b) && a.minutes < 60 && a.seconds < 60 && b.minutes < 60 && b.seconds < 60
    ensures SecondsOf(a) < SecondsOf(b) || (SecondsOf(a) == SecondsOf(b) && a.frames < b.frames)
  {
  }

  lemma PlainIncreases(n: nat, sa: nat, fa: nat, sb: nat, fb: nat)
    requires fa < n && (sa < sb || (sa == sb && fa < fb))
    ensures sa * n + fa < sb * n + fb
  {
    if sa < sb {
      assert sb * n == (sa + 1) * n + (sb - sa - 1) * n;
    }
  }

  // ---------- every frame number has a label

  /** The label of a frame number in drop-frame counting: ten-minute blocks whose first minute is
      full and whose other nine have `d` labels fewer. */
  function DropLabel(number: nat, n: nat, d: nat): Label
    requires (n == 30 && d == 2) || (n == 60 && d == 4)
  {
    var full := 60 * n;
    var short := 60 * n - d;
    var tens := number / (full + 9 * short);
    var inTen := number % (full + 9 * short);
    var minute := if inTen < full then 0 else 1 + (inTen - full) / short;
    var inMinute := if inTen < full then inTen else (inTen - full) % short + d;
    var total := 10 * tens + minute;
    Label(total / 60, total % 60, inMinute / n, inMinute % n, 0)
  }

  function PlainLabel(number: nat, n: nat): Label
    requires n > 0
  {
    var seconds := number / n;
    Label(seconds / 3600, seconds / 60 % 60, seconds % 60, number % n, 0)
  }

  function LabelOf(number: nat, semicolon: bool, timing: Timing): Label
    requires TimingOk(timing) && (semicolon ==> CanDrop(timing.rate))
  {
    if timing.rate.dropFrame || semicolon
    then DropLabel(number, timing.rate.nominal, DroppedPerMinute(timing.rate))
    else PlainLabel(number, timing.rate.nominal)
  }

  lemma DropLabelParts(number: nat, n: nat, d: nat)
    requires (n == 30 && d == 2) || (n == 60 && d == 4)
    ensures var mark := DropLabel(number, n, d); var total := MinuteOf(mark);
      && mark.minutes < 60 && mark.seconds < 60 && mark.frames < n && mark.remainder == 0
      && (mark.minutes % 10 != 0 && mark.seconds == 0 ==> mark.frames >= d)
      && 60 * n * total - d * (total - total / 10) + n * mark.seconds + mark.frames == number
  {
    if n == 30 {
      DropLabelParts30(number);
    } else {
      DropLabelParts60(number);
    }
  }

  lemma DropLabelParts30(number: nat)
    ensures var mark := DropLabel(number, 30, 2); var total := MinuteOf(mark);
      && mark.minutes < 60 && mark.seconds < 60 && mark.frames < 30 && mark.remainder == 0
      && (mark.minutes % 10 != 0 && mark.seconds == 0 ==> mark.frames >= 2)
      && 60 * 30 * total - 2 * (total - total / 10) + 30 * mark.seconds + mark.frames == number
  {
    var tens, inTen := number / 17982, number % 17982;
    var minute := if inTen < 1800 then 0 else 1 + (inTen - 1800) / 1798;
    var inMinute := if inTen < 1800 then inTen else (inTen - 1800) % 1798 + 2;
    InTen30(inTen);
    PartsOf(tens, minute, inMinute, 30, 2);
    assert number == 17982 * tens + (1798 * minute + inMinute);
    Recounted(tens, minute, inMinute, number, 30, 2);
  }

  lemma InTen30(inTen: nat)
    requires inTen < 17982
    ensures var minute := if inTen < 1800 then 0 else 1 + (inTen - 1800) / 1798;
      var inMinute := if inTen < 1800 then inTen else (inTen - 1800) % 1798 + 2;
      && minute < 10 && inMinute < 1800 && (minute > 0 ==> inMinute >= 2)
      && inTen == 1798 * minute + inMinute
  {
  }

  lemma DropLabelParts60(number: nat)
    ensures var mark := DropLabel(number, 60, 4); var total := MinuteOf(mark);
      && mark.minutes < 60 && mark.seconds < 60 && mark.frames < 60 && mark.remainder == 0
      && (mark.minutes % 10 != 0 && mark.seconds == 0 ==> mark.frames >= 4)
      && 60 * 60 * total - 4 * (total - total / 10) + 60 * mark.seconds + mark.frames == number
  {
    var tens, inTen := number / 35964, number % 35964;
    var minute := if inTen < 3600 then 0 else 1 + (inTen - 3600) / 3596;
    var inMinute := if inTen < 3600 then inTen else (inTen - 3600) % 3596 + 4;
    InTen60(inTen);
    PartsOf(tens, minute, inMinute, 60, 4);
    assert number == 35964 * tens + (3596 * minute + inMinute);
    Recounted(tens, minute, inMinute, number, 60, 4);
  }

  lemma InTen60(inTen: nat)
    requires inTen < 35964
    ensures var minute := if inTen < 3600 then 0 else 1 + (inTen - 3600) / 3596;
      var inMinute := if inTen < 3600 then inTen else (inTen - 3600) % 3596 + 4;
      && minute < 10 && inMinute < 3600 && (minute > 0 ==> inMinute >= 4)
      && inTen == 3596 * minute + inMinute
  {
  }

  lemma PartsOf(tens: nat, minute: nat, inMinute: nat, n: nat, d: nat)
    requires (n == 30 && d == 2) || (n == 60 && d == 4)
    requires minute < 10 && inMinute < 60 * n && (minute > 0 ==> inMinute >= d)
    ensures var total := 10 * tens + minute;
      var mark := Label(total / 60, total % 60, inMinute / n, inMinute % n, 0);
      && MinuteOf(mark) == total && total / 10 == tens && n * mark.seconds + mark.frames == inMinute
      && mark.minutes < 60 && mark.seconds < 60 && mark.frames < n
      && (mark.minutes % 10 != 0 && mark.seconds == 0 ==> mark.frames >= d)
  {
    SplitsInto(inMinute, n);
    TenMinutes(tens, minute);
  }

  lemma Recounted(tens: nat, minute: nat, inMinute: nat, number: nat, n: nat, d: nat)
    requires (n == 30 && d == 2 && number == 17982 * tens + (1798 * minute + inMinute))
             || (n == 60 && d == 4 && number == 35964 * tens + (3596 * minute + inMinute))
    ensures 60 * n * (10 * tens + minute) - d * (10 * tens + minute - tens) + inMinute == number
  {
  }

  lemma SplitsInto(x: nat, n: nat)
    requires n == 30 || n == 60
    ensures n * (x / n) + x % n == x && x % n < n && (x < 60 * n ==> x / n < 60)
    ensures x / n == 0 ==> x % n == x
  {
  }

  lemma TenMinutes(tens: nat, minute: nat)
    requires minute < 10
    ensures (10 * tens + minute) / 10 == tens && (10 * tens + minute) % 10 == minute
    ensures (10 * tens + minute) / 60 * 60 + (10 * tens + minute) % 60 == 10 * tens + minute
    ensures (10 * tens + minute) % 60 % 10 == minute
  {
  }

  /** No frame number is skipped: each is the number of an accepted label. */
  lemma EveryNumberHasALabel(number: nat, semicolon: bool, timing: Timing)
    requires TimingOk(timing) && (semicolon ==> CanDrop(timing.rate))
    ensures ParseTime(LabelOf(number, semicolon, timing), semicolon, timing) == Ok(number)
  {
    PositiveFrames(timing);
    if timing.rate.dropFrame || semicolon {
      DropLabelAccepted(number, semicolon, timing);
    } else {
      PlainLabelAccepted(number, timing);
    }
  }

  lemma DropLabelAccepted(number: nat, semicolon: bool, timing: Timing)
    requires TimingOk(timing) && (timing.rate.dropFrame || semicolon) && CanDrop(timing.rate)
    requires SamplesPerFrameCeil(timing) > 0
    ensures ParseTime(DropLabel(number, timing.rate.nominal, DroppedPerMinute(timing.rate)), semicolon, timing)
            == Ok(number)
  {
    var n, d := timing.rate.nominal, DroppedPerMinute(timing.rate);
    DropLabelParts(number, n, d);
    var mark := DropLabel(number, n, d);
    RawNumber(mark, timing.rate);
    assert RawCount(mark, timing.rate) - DroppedBefore(mark, timing.rate) == number;
    hide DropLabel, SamplesPerFrameCeil, RawCount, DroppedBefore;
    MinuteDigits(mark);
  }

  lemma RawNumber(mark: Label, rate: FrameRate)
    ensures RawCount(mark, rate)
            == 60 * rate.nominal * MinuteOf(mark) + rate.nominal * mark.seconds + mark.frames
  {
  }

  lemma MinuteDigits(mark: Label)
    ensures MinuteOf(mark) % 10 == mark.minutes % 10 && MinuteOf(mark) / 10 <= MinuteOf(mark)
  {
    LastDigit(6 * mark.hours, mark.minutes);
  }

  lemma LastDigit(tens: nat, n: nat)
    ensures (10 * tens + n) % 10 == n % 10
  {
    assert 10 * tens + n == 10 * (tens + n / 10) + n % 10;
  }

  lemma PlainLabelAccepted(number: nat, timing: Timing)
    requires TimingOk(timing) && !timing.rate.dropFrame && SamplesPerFrameCeil(timing) > 0
    ensures ParseTime(PlainLabel(number, timing.rate.nominal), false, timing) == Ok(number)
  {
    var n := timing.rate.nominal;
    PlainSeconds(number / n);
    hide SamplesPerFrameCeil;
    assert number == (number / n) * n + number % n;
  }

  lemma PlainSeconds(s: nat)
    ensures s / 3600 * 3600 + s / 60 % 60 * 60 + s % 60 == s
  {
    assert s / 60 / 60 == s / 3600;
  }

  lemma PositiveFrames(timing: Timing)
    requires TimingOk(timing)
    ensures SamplesPerFrameCeil(timing) > 0
    ensures forall r: nat :: r < SamplesPerFrameCeil(timing) <==>
              r * timing.rate.numerator < timing.sampleRate * timing.rate.denominator
  {
    var a, b := timing.sampleRate * timing.rate.denominator, timing.rate.numerator;
    forall r: nat
      ensures r < CeilDiv(a, b) <==> r * b < a
    {
      CeilIsLeast(a, b, r);
    }
    assert 0 * b < a;
  }

  lemma CeilIsLeast(a: nat, b: nat, r: nat)
    requires b > 0
    ensures r < CeilDiv(a, b) <==> r * b < a
  {
    var q, m := (a + b - 1) / b, (a + b - 1) % b;
    assert a + b - 1 == q * b + m;
    if r < q {
      LaterBy(r, q, b);
    } else if q < r {
      LaterBy(q, r, b);
    }
  }

  /** Accepted labels and frame numbers correspond one to one, in order. */
  lemma LabelsAreNumbers(mark: Label, semicolon: bool, timing: Timing)
    requires TimingOk(timing) && ParseTime(mark, semicolon, timing).Ok?
    ensures semicolon ==> CanDrop(timing.rate)
    ensures LabelOf(ParseTime(mark, semicolon, timing).value, semicolon, timing) == mark.(remainder := 0)
  {
    var number := ParseTime(mark, semicolon, timing).value;
    var bare := mark.(remainder := 0);
    BareAccepted(mark, semicolon, timing);
    hide ParseTime, TimingOk, LabelOf;
    var same := LabelOf(number, semicolon, timing);
    EveryNumberHasALabel(number, semicolon, timing);
    if LabelLess(same, bare) {
      FrameNumbersIncrease(same, bare, semicolon, timing);
    } else if LabelLess(bare, same) {
      FrameNumbersIncrease(bare, same, semicolon, timing);
    }
    NoRemainder(number, semicolon, timing);
  }

  lemma NoRemainder(number: nat, semicolon: bool, timing: Timing)
    requires TimingOk(timing) && (semicolon ==> CanDrop(timing.rate))
    ensures LabelOf(number, semicolon, timing).remainder == 0
  {
  }

  lemma BareAccepted(mark: Label, semicolon: bool, timing: Timing)
    requires TimingOk(timing) && ParseTime(mark, semicolon, timing).Ok?
    ensures semicolon ==> CanDrop(timing.rate)
    ensures ParseTime(mark.(remainder := 0), semicolon, timing) == ParseTime(mark, semicolon, timing)
  {
    PositiveFrames(timing);
  }

  // ---------- positions

  /** The remainder stays within its frame, so exact positions follow (h, m, s, f, r). */
  lemma PositionsIncrease(a: Label, b: Label, semicolon: bool, timing: Timing)
    requires TimingOk(timing)
    requires LabelLess(a, b) || (SameFrame(a, b) && a.remainder < b.remainder)
    requires ParseTime(a, semicolon, timing).Ok? && ParseTime(b, semicolon, timing).Ok?
    ensures Position(ParseTime(a, semicolon, timing).value, a.remainder, timing)
            < Position(ParseTime(b, semicolon, timing).value, b.remainder, timing)
  {
    AcceptedRemainder(a, semicolon, timing);
    if LabelLess(a, b) {
      FrameNumbersIncrease(a, b, semicolon, timing);
    } else {
      SameNumber(a, b, semicolon, timing);
    }
    assert timing.rate.numerator > 0;
    hide *;
    PositionStep(ParseTime(a, semicolon, timing).value, a.remainder,
                 ParseTime(b, semicolon, timing).value, b.remainder, timing);
  }

  lemma AcceptedRemainder(a: Label, semicolon: bool, timing: Timing)
    requires TimingOk(timing) && ParseTime(a, semicolon, timing).Ok?
    ensures a.remainder * timing.rate.numerator < timing.sampleRate * timing.rate.denominator
  {
    assert a.remainder < SamplesPerFrameCeil(timing);
    hide ParseTime;
    PositiveFrames(timing);
  }

  lemma SameNumber(a: Label, b: Label, semicolon: bool, timing: Timing)
    requires TimingOk(timing) && SameFrame(a, b)
    requires ParseTime(a, semicolon, timing).Ok? && ParseTime(b, semicolon, timing).Ok?
    ensures ParseTime(a, semicolon, timing).value == ParseTime(b, semicolon, timing).value
  {
  }

  lemma PositionStep(na: nat, ra: nat, nb: nat, rb: nat, timing: Timing)
    requires na < nb || (na == nb && ra < rb)
    requires ra * timing.rate.numerator < timing.sampleRate * timing.rate.denominator
    requires timing.rate.numerator > 0
    ensures Position(na, ra, timing) < Position(nb, rb, timing)
  {
    var per, num := timing.sampleRate * timing.rate.denominator, timing.rate.numerator;
    if na < nb {
      LaterBy(na, nb, per);
    } else {
      LaterBy(ra, rb, num);
    }
  }

  lemma LaterBy(a: nat, b: nat, unit: nat)
    requires a < b
    ensures a * unit + unit <= b * unit
  {
    OneMore(a, unit);
    ProductOrdered(a + 1, b, unit);
  }
}
