/** Parameters of operation groups: repeated definitions, and control points of varying values. */
module AafVarying {
  import opened Wrappers
  import opened Basics

  /** Read from eight bytes, the denominator only being known not to be zero. */
  datatype Rational = Rational(numerator: int, denominator: int)

  predicate Equal(a: Rational, b: Rational) {
    a.numerator * b.denominator == b.numerator * a.denominator
  }

  predicate LessOrEqual(a: Rational, b: Rational) {
    a.numerator * b.denominator <= b.numerator * a.denominator
  }

  // ---------- control points

  /** The last known time among the first `k`. */
  function Latest(times: seq<Option<Rational>>, k: nat): Option<Rational>
    requires k <= |times|
  {
    if k == 0 then None else if times[k - 1].Some? then times[k - 1] else Latest(times, k - 1)
  }

  predicate OutOfOrder(last: Option<Rational>, time: Option<Rational>) {
    last.Some? && time.Some? && (!LessOrEqual(last.value, time.value) || Equal(last.value, time.value))
  }

  function Disorder(times: seq<Option<Rational>>, k: nat): nat
    requires k <= |times|
  {
    if k == 0 then 0
    else Disorder(times, k - 1) + if OutOfOrder(Latest(times, k - 1), times[k - 1]) then 1 else 0
  }

  function VaryingFindings(times: seq<Option<Rational>>): nat {
    if times == [] then 1 else Disorder(times, |times|)
  }

  method ValidateVaryingValue(times: seq<Option<Rational>>) returns (findings: nat)
    ensures findings == VaryingFindings(times)
  {
    if times == [] {
      return 1;
    }
    findings := 0;
    var previous: Option<Rational> := None;
    for k := 0 to |times|
      invariant previous == Latest(times, k) && findings == Disorder(times, k)
    {
      if times[k].None? {
        continue;
      }
      if OutOfOrder(previous, times[k]) {
        findings := findings + 1;
      }
      previous := times[k];
    }
  }

  // ---------- what the comparison means

  function Normal(r: Rational): Rational {
    if r.denominator < 0 then Rational(-r.numerator, -r.denominator) else r
  }

  /** The order of the numbers, whatever the signs of the denominators. */
  predicate Less(a: Rational, b: Rational) {
    Normal(a).numerator * Normal(b).denominator < Normal(b).numerator * Normal(a).denominator
  }

  lemma Products(a: int, b: int)
    ensures -a * b == -(a * b) && a * -b == -(a * b) && -a * -b == a * b
  {
  }

  /** The cross products compare two numbers rightly exactly when the denominators have the same
      sign or the numbers are the same. */
  lemma ComparesRightly(a: Rational, b: Rational)
    requires a.denominator != 0 && b.denominator != 0
    ensures (OutOfOrder(Some(a), Some(b)) <==> !Less(a, b)) <==>
            (a.denominator > 0 <==> b.denominator > 0) || Equal(a, b)
  {
    Products(a.numerator, b.denominator);
    Products(b.numerator, a.denominator);
  }

  /** -1, stored as 1/-1, before 0 is reported. */
  lemma NegativeDenominatorMisjudged()
    ensures var before, after := Rational(1, -1), Rational(0, 1);
      Less(before, after) && VaryingFindings([Some(before), Some(after)]) == 1
  {
    var times := [Some(Rational(1, -1)), Some(Rational(0, 1))];
    assert Latest(times, 0) == None && Latest(times, 1) == times[0];
    assert Disorder(times, 1) == 0;
  }

  lemma Scaled(x: int, y: int, unit: int)
    requires x < y && unit > 0
    ensures x * unit < y * unit
  {
    assert (y - x) * unit > 0;
    assert y * unit == x * unit + (y - x) * unit;
  }

  lemma LessIsTransitive(a: Rational, b: Rational, c: Rational)
    requires a.denominator != 0 && b.denominator != 0 && c.denominator != 0 && Less(a, b) && Less(b, c)
    ensures Less(a, c)
  {
    var p, q, r := Normal(a), Normal(b), Normal(c);
    Scaled(p.numerator * q.denominator, q.numerator * p.denominator, r.denominator);
    Scaled(q.numerator * r.denominator, r.numerator * q.denominator, p.denominator);
    Rearranged(p.numerator, q.denominator, r.denominator);
    Rearranged(q.numerator, p.denominator, r.denominator);
    Rearranged(r.numerator, q.denominator, p.denominator);
    if p.numerator * r.denominator >= r.numerator * p.denominator {
      AtLeastScaled(r.numerator * p.denominator, p.numerator * r.denominator, q.denominator);
    }
  }

  lemma Rearranged(n: int, x: int, y: int)
    ensures n * x * y == n * y * x
  {
  }

  lemma AtLeastScaled(x: int, y: int, unit: int)
    requires x <= y && unit > 0
    ensures x * unit <= y * unit
  {
    if x < y {
      Scaled(x, y, unit);
    }
  }

  /** No denominator is zero and all have the same sign. */
  predicate SameSign(times: seq<Option<Rational>>, positive: bool) {
    forall i :: 0 <= i < |times| && times[i].Some? ==>
      if positive then times[i].value.denominator > 0 else times[i].value.denominator < 0
  }

  predicate IncreasingUpTo(times: seq<Option<Rational>>, k: nat)
    requires k <= |times|
  {
    forall i, j :: 0 <= i < j < k && times[i].Some? && times[j].Some? ==> Less(times[i].value, times[j].value)
  }

  lemma {:induction false} LatestIsKnown(times: seq<Option<Rational>>, k: nat) returns (at: nat)
    requires k <= |times|
    ensures Latest(times, k).None? ==> forall i :: 0 <= i < k ==> times[i].None?
    ensures Latest(times, k).Some? ==>
              at < k && times[at] == Latest(times, k) && forall i :: at < i < k ==> times[i].None?
  {
    at := 0;
    if k > 0 {
      if times[k - 1].Some? {
        at := k - 1;
      } else {
        at := LatestIsKnown(times, k - 1);
      }
    }
  }

  lemma {:induction false} OrderIsIncreasing(times: seq<Option<Rational>>, positive: bool, k: nat)
    requires k <= |times| && SameSign(times, positive)
    ensures Disorder(times, k) == 0 <==> IncreasingUpTo(times, k)
  {
    if k > 0 {
      hide Less, LessOrEqual, Equal;
      OrderIsIncreasing(times, positive, k - 1);
      var at := LatestIsKnown(times, k - 1);
      if Latest(times, k - 1).Some? && times[k - 1].Some? {
        ComparesRightly(times[at].value, times[k - 1].value);
        forall i | 0 <= i < k - 1 && times[i].Some? && Less(times[at].value, times[k - 1].value)
                   && IncreasingUpTo(times, k - 1)
          ensures Less(times[i].value, times[k - 1].value)
        {
          if i < at {
            LessIsTransitive(times[i].value, times[at].value, times[k - 1].value);
          }
        }
      }
    }
  }

  /** When all denominators have the same sign, there are no findings exactly when there are
      points and their known times increase. */
  lemma VaryingSound(times: seq<Option<Rational>>, positive: bool)
    requires SameSign(times, positive)
    ensures VaryingFindings(times) == 0 <==> times != [] && IncreasingUpTo(times, |times|)
  {
    OrderIsIncreasing(times, positive, |times|);
  }

  // ---------- no findings, said of neighbours

  /** Two known times with none known between them. */
  predicate Neighbours(times: seq<Option<Rational>>, j: nat, k: nat)
    requires j < k < |times|
  {
    times[j].Some? && times[k].Some? && forall i :: j < i < k ==> times[i].None?
  }

  /** The cross products of the first are less than those of the second. */
  predicate Follows(a: Rational, b: Rational) {
    a.numerator * b.denominator < b.numerator * a.denominator
  }

  predicate NeighboursFollow(times: seq<Option<Rational>>, k: nat)
    requires k <= |times|
  {
    forall i, j :: 0 <= i < j < k && Neighbours(times, i, j) ==> Follows(times[i].value, times[j].value)
  }

  lemma {:induction false} LatestIsNeighbour(times: seq<Option<Rational>>, k: nat)
    requires k < |times|
    ensures times[k].Some? ==> forall i :: 0 <= i < k && Neighbours(times, i, k) ==> Latest(times, k) == times[i]
    ensures times[k].Some? && Latest(times, k).Some? ==> exists i :: 0 <= i < k && Neighbours(times, i, k)
  {
    var at := LatestIsKnown(times, k);
    if times[k].Some? && Latest(times, k).Some? {
      assert Neighbours(times, at, k);
    }
    forall i | 0 <= i < k && times[k].Some? && Neighbours(times, i, k)
      ensures Latest(times, k) == times[i]
    {
      LatestKnown(times, k, i);
    }
  }

  lemma {:induction false} LatestKnown(times: seq<Option<Rational>>, k: nat, i: nat)
    requires i < k <= |times| && times[i].Some? && forall j :: i < j < k ==> times[j].None?
    ensures Latest(times, k) == times[i]
  {
    if i < k - 1 {
      LatestKnown(times, k - 1, i);
    }
  }

  lemma {:induction false} OrderMeans(times: seq<Option<Rational>>, k: nat)
    requires k <= |times|
    ensures Disorder(times, k) == 0 <==> NeighboursFollow(times, k)
  {
    hide Neighbours, Latest;
    if k > 0 {
      OrderMeans(times, k - 1);
      LatestIsNeighbour(times, k - 1);
      NeighboursKnown(times, k - 1);
    }
  }

  lemma NeighboursKnown(times: seq<Option<Rational>>, k: nat)
    requires k < |times|
    ensures forall i :: 0 <= i < k && Neighbours(times, i, k) ==> times[i].Some? && times[k].Some?
  {
  }

  /** A varying value has no findings exactly when it has points and each known time is, by cross
      products, greater than the known one before it. */
  lemma VaryingMeans(times: seq<Option<Rational>>)
    ensures VaryingFindings(times) == 0 <==> times != [] && NeighboursFollow(times, |times|)
  {
    OrderMeans(times, |times|);
  }

  // ---------- which denominators are judged rightly

  /** Times with these denominators, where they are known. */
  function TimesWith(denominators: seq<Option<int>>, numerators: seq<int>): seq<Option<Rational>>
    requires |numerators| == |denominators|
  {
    seq(|denominators|, i requires 0 <= i < |denominators| =>
      if denominators[i].Some? then Some(Rational(numerators[i], denominators[i].value)) else None)
  }

  predicate OneSign(denominators: seq<Option<int>>) {
    forall i, j :: 0 <= i < |denominators| && 0 <= j < |denominators| && denominators[i].Some? && denominators[j].Some?
      ==> (denominators[i].value > 0 <==> denominators[j].value > 0)
  }

  /** Whatever the numerators, no findings means that there are points and their times increase. */
  ghost predicate JudgedRightly(denominators: seq<Option<int>>) {
    forall numerators: seq<int> :: |numerators| == |denominators| ==>
      var times := TimesWith(denominators, numerators);
      VaryingFindings(times) == 0 <==> times != [] && IncreasingUpTo(times, |times|)
  }

  /** Increasing times without findings have denominators of one sign. */
  lemma {:induction false} IncreasingHasOneSign(times: seq<Option<Rational>>, k: nat, at: nat)
    requires at < k <= |times| && times[at].Some? && Disorder(times, k) == 0 && IncreasingUpTo(times, k)
    requires forall i :: 0 <= i < k && times[i].Some? ==> times[i].value.denominator != 0
    requires forall i :: at < i < k ==> times[i].None?
    ensures forall i :: 0 <= i < k && times[i].Some? ==>
              (times[i].value.denominator > 0 <==> times[at].value.denominator > 0)
    decreases k
  {
    hide Less, LessOrEqual, Equal;
    if at < k - 1 {
      IncreasingHasOneSign(times, k - 1, at);
    } else {
      var before := LatestIsKnown(times, k - 1);
      if Latest(times, k - 1).Some? {
        ComparesRightly(times[before].value, times[at].value);
        assert !OutOfOrder(times[before], times[at]);
        IncreasingHasOneSign(times, k - 1, before);
      }
    }
  }

  lemma ProductsByIndex(i: nat, j: nat, a: int, b: int)
    requires i < j && a != 0 && b != 0
    ensures Less(Rational(i * a, a), Rational(j * b, b))
  {
    var p, q := if a < 0 then -a else a, if b < 0 then -b else b;
    Products(i, a);
    Products(j, b);
    Positive(p, q);
    Scaled(i, j, p * q);
    Regrouped(i, p, q);
    Regrouped(j, q, p);
  }

  lemma Positive(p: int, q: int)
    requires p > 0 && q > 0
    ensures p * q > 0 && q * p == p * q
  {
  }

  lemma Regrouped(n: int, p: int, q: int)
    ensures n * p * q == n * (p * q)
  {
  }

  /** Varying values are judged rightly, whatever their numerators, exactly when the denominators
      of all known times have the same sign. */
  lemma JudgedRightlyIff(denominators: seq<Option<int>>)
    requires forall i :: 0 <= i < |denominators| && denominators[i].Some? ==> denominators[i].value != 0
    ensures JudgedRightly(denominators) <==> OneSign(denominators)
  {
    if OneSign(denominators) {
      forall numerators: seq<int> | |numerators| == |denominators|
        ensures var times := TimesWith(denominators, numerators);
                VaryingFindings(times) == 0 <==> times != [] && IncreasingUpTo(times, |times|)
      {
        var times := TimesWith(denominators, numerators);
        var positive := SameSign(times, true);
        VaryingSound(times, positive);
      }
    } else {
      MixedSignsMisjudged(denominators);
    }
  }

  lemma MixedSignsMisjudged(denominators: seq<Option<int>>)
    requires forall i :: 0 <= i < |denominators| && denominators[i].Some? ==> denominators[i].value != 0
    requires !OneSign(denominators)
    ensures !JudgedRightly(denominators)
  {
    hide Less;
    var n := |denominators|;
    var numerators := seq(n, i requires 0 <= i < n =>
      if denominators[i].Some? then i * denominators[i].value else 0);
    var times := TimesWith(denominators, numerators);
    forall i, j | 0 <= i < j < n && times[i].Some? && times[j].Some?
      ensures Less(times[i].value, times[j].value)
    {
      ProductsByIndex(i, j, denominators[i].value, denominators[j].value);
    }
    var a, b :| 0 <= a < n && 0 <= b < n && denominators[a].Some? && denominators[b].Some?
                && !(denominators[a].value > 0 <==> denominators[b].value > 0);
    assert times[a].Some? && times[b].Some?;
    if VaryingFindings(times) == 0 {
      var at := LatestIsKnown(times, n);
      IncreasingHasOneSign(times, n, at);
    }
  }

  // ---------- repeated definitions

  /** Whether the definition at `k` was there before. */
  predicate Repeated(definitions: seq<Option<Bytes>>, k: nat)
    requires k < |definitions|
  {
    definitions[k].Some? && exists i :: 0 <= i < k && definitions[i] == definitions[k]
  }

  function Repeats(definitions: seq<Option<Bytes>>, k: nat): nat
    requires k <= |definitions|
  {
    if k == 0 then 0 else Repeats(definitions, k - 1) + if Repeated(definitions, k - 1) then 1 else 0
  }

  method CountRepeats(definitions: seq<Option<Bytes>>) returns (repeats: nat)
    ensures repeats == Repeats(definitions, |definitions|)
  {
    repeats := 0;
    var seen: set<Bytes> := {};
    for k := 0 to |definitions|
      invariant repeats == Repeats(definitions, k)
      invariant forall d :: d in seen <==> exists i :: 0 <= i < k && definitions[i] == Some(d)
    {
      if definitions[k].Some? {
        if definitions[k].value in seen {
          repeats := repeats + 1;
        }
        seen := seen + {definitions[k].value};
      }
    }
  }

  lemma {:induction false} NoRepeats(definitions: seq<Option<Bytes>>, k: nat)
    requires k <= |definitions|
    ensures Repeats(definitions, k) == 0 <==>
            forall i, j :: 0 <= i < j < k && definitions[i].Some? ==> definitions[i] != definitions[j]
  {
    if k > 0 {
      NoRepeats(definitions, k - 1);
    }
  }
}
