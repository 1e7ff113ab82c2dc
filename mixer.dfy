/** The accuracy mixer: the weight of each group, the weighted overall
    accuracy, and the split of a fixed population of 50 people into the two
    groups with the number of correctly classified people in each. Every
    value is recomputed from the three slider inputs; nothing is stored. */
module Mixer {
  import opened Rounding

  /** Size of the simulated population. */
  const TotalPeople: int := 50

  /** The slider ranges: an accuracy is a percentage, a weight a fraction. */
  predicate ValidAccuracy(acc: real) { 0.0 <= acc <= 100.0 }
  predicate ValidWeight(w: real) { 0.0 <= w <= 1.0 }

  function Min(a: real, b: real): real { if a <= b then a else b }
  function Max(a: real, b: real): real { if a <= b then b else a }

  /** The minority group's weight is what the predominant weight leaves. */
  function MinorityWeight(w: real): (w2: real)
    requires ValidWeight(w)
    ensures ValidWeight(w2)
    ensures w + w2 == 1.0
  {
    1.0 - w
  }

  /** Overall accuracy: the two group accuracies mixed by the two weights. */
  function WeightedAverage(pa: real, ma: real, w: real): (avg: real)
    requires ValidAccuracy(pa) && ValidAccuracy(ma) && ValidWeight(w)
    ensures Min(pa, ma) <= avg <= Max(pa, ma)
    ensures ValidAccuracy(avg)
    ensures w == 1.0 ==> avg == pa
    ensures w == 0.0 ==> avg == ma
  {
    var w2 := MinorityWeight(w);
    MixBounds(pa, ma, w, w2);
    pa * w + ma * w2
  }

  /** A convex combination of two values lies between them. */
  lemma MixBounds(pa: real, ma: real, w: real, w2: real)
    requires 0.0 <= w && 0.0 <= w2 && w + w2 == 1.0
    ensures Min(pa, ma) * (w + w2) <= pa * w + ma * w2 <= Max(pa, ma) * (w + w2)
  {
    var lo, hi := Min(pa, ma), Max(pa, ma);
    assert lo * w <= pa * w <= hi * w by { MulMonotone(lo, pa, w); MulMonotone(pa, hi, w); }
    assert lo * w2 <= ma * w2 <= hi * w2 by { MulMonotone(lo, ma, w2); MulMonotone(ma, hi, w2); }
  }

  lemma MulMonotone(a: real, b: real, c: real)
    requires a <= b && 0.0 <= c
    ensures a * c <= b * c
  {
    assert b * c - a * c == (b - a) * c;
  }

  /** The overall accuracy moves away from the minority accuracy in
      proportion to the predominant weight. */
  lemma WeightedAverageOffset(pa: real, ma: real, w: real)
    requires ValidAccuracy(pa) && ValidAccuracy(ma) && ValidWeight(w)
    ensures WeightedAverage(pa, ma, w) - ma == w * (pa - ma)
    ensures pa - WeightedAverage(pa, ma, w) == (1.0 - w) * (pa - ma)
  {
  }

  /** When the two accuracies differ, the overall accuracy equals the
      predominant one exactly when the predominant weight is 1, and the
      minority one exactly when it is 0. */
  lemma {:induction false} WeightedAverageHitsEnds(pa: real, ma: real, w: real)
    requires ValidAccuracy(pa) && ValidAccuracy(ma) && ValidWeight(w)
    requires pa != ma
    ensures WeightedAverage(pa, ma, w) == pa <==> w == 1.0
    ensures WeightedAverage(pa, ma, w) == ma <==> w == 0.0
  {
    WeightedAverageOffset(pa, ma, w);
    if WeightedAverage(pa, ma, w) == ma {
      ZeroProduct(w, pa - ma);
    }
    if WeightedAverage(pa, ma, w) == pa {
      ZeroProduct(1.0 - w, pa - ma);
    }
  }

  lemma MulPositive(a: real, b: real)
    requires a > 0.0 && b > 0.0
    ensures a * b > 0.0
  {
  }

  lemma ZeroProduct(a: real, b: real)
    requires a * b == 0.0 && b != 0.0
    ensures a == 0.0
  {
  }

  /** Raising the predominant accuracy never lowers the overall accuracy,
      and strictly raises it while the predominant weight is positive. */
  lemma WeightedAverageMonotone(pa1: real, pa2: real, ma: real, w: real)
    requires ValidAccuracy(pa1) && ValidAccuracy(pa2) && ValidAccuracy(ma) && ValidWeight(w)
    requires pa1 <= pa2
    ensures WeightedAverage(pa1, ma, w) <= WeightedAverage(pa2, ma, w)
    ensures pa1 < pa2 && w > 0.0 ==> WeightedAverage(pa1, ma, w) < WeightedAverage(pa2, ma, w)
  {
    var d := pa2 - pa1;
    WeightedAverageOffset(pa1, ma, w);
    WeightedAverageOffset(pa2, ma, w);
    assert WeightedAverage(pa2, ma, w) - WeightedAverage(pa1, ma, w) == w * d;
    MulMonotone(0.0, d, w);
    if pa1 < pa2 && w > 0.0 {
      MulPositive(w, d);
    }
  }

  /** Size of the predominant group: the rounded share of the population. */
  function PredominantPeople(w: real): (n: int)
    requires ValidWeight(w)
    ensures 0 <= n <= TotalPeople
  {
    var n := RoundHalfEven(TotalPeople as real * w);
    WithinHalfKeepsIntegerBounds(TotalPeople as real * w, n, 0, TotalPeople);
    n
  }

  /** Size of the minority group: the rest of the population, so that the
      two groups always add up to the whole population. */
  function MinorityPeople(w: real): (n: int)
    requires ValidWeight(w)
    ensures 0 <= n <= TotalPeople
    ensures PredominantPeople(w) + n == TotalPeople
  {
    TotalPeople - PredominantPeople(w)
  }

  /** The split is sound under any rounding that lands within one half of
      the exact share, not only under ties-to-even: whatever integer the
      float rounding produces, both groups lie in [0, 50]. */
  lemma SplitUnderAnyRounding(w: real, n: int)
    requires ValidWeight(w)
    requires Dist(n as real, TotalPeople as real * w) <= 0.5
    ensures 0 <= n <= TotalPeople
    ensures 0 <= TotalPeople - n <= TotalPeople
  {
  }

  /** The exact (unrounded) number of correct people in a group. */
  function ExactCorrect(people: int, acc: real): real
  {
    people as real * acc / 100.0
  }

  lemma ExactCorrectBounds(people: int, acc: real)
    requires 0 <= people && ValidAccuracy(acc)
    ensures 0.0 <= ExactCorrect(people, acc) <= people as real
  {
    MulMonotone(0.0, acc, people as real);
    MulMonotone(acc, 100.0, people as real);
    assert acc * people as real <= 100.0 * people as real;
  }

  /** Correct people in a group: the group's accuracy applied to its size,
      rounded. Never negative and never more than the group. */
  function CorrectPeople(people: int, acc: real): (c: int)
    requires 0 <= people && ValidAccuracy(acc)
    ensures 0 <= c <= people
  {
    CorrectUnderAnyRounding(people, acc, RoundHalfEven(ExactCorrect(people, acc)));
    RoundHalfEven(ExactCorrect(people, acc))
  }

  /** The count bound holds for any rounding within one half. */
  lemma CorrectUnderAnyRounding(people: int, acc: real, c: int)
    requires 0 <= people && ValidAccuracy(acc)
    requires Dist(c as real, ExactCorrect(people, acc)) <= 0.5
    ensures 0 <= c <= people
  {
    ExactCorrectBounds(people, acc);
    WithinHalfKeepsIntegerBounds(ExactCorrect(people, acc), c, 0, people);
  }

  /** Everything the page derives from the three inputs. */
  datatype Mix = Mix(
    minorityWeight: real,
    weightedAverage: real,
    predominantPeople: int,
    minorityPeople: int,
    correctPredominant: int,
    correctMinority: int)

  /** The derived values, and the invariants that hold between them for
      every admissible input. */
  function Compute(pa: real, ma: real, w: real): (m: Mix)
    requires ValidAccuracy(pa) && ValidAccuracy(ma) && ValidWeight(w)
    ensures m.minorityWeight + w == 1.0 && ValidWeight(m.minorityWeight)
    ensures Min(pa, ma) <= m.weightedAverage <= Max(pa, ma)
    ensures m.predominantPeople + m.minorityPeople == TotalPeople
    ensures 0 <= m.predominantPeople && 0 <= m.minorityPeople
    ensures 0 <= m.correctPredominant <= m.predominantPeople
    ensures 0 <= m.correctMinority <= m.minorityPeople
  {
    var pred := PredominantPeople(w);
    var min := MinorityPeople(w);
    Mix(MinorityWeight(w), WeightedAverage(pa, ma, w), pred, min,
        CorrectPeople(pred, pa), CorrectPeople(min, ma))
  }

  /** The page's default inputs (85.0, 70.0, 0.7): an overall accuracy of
      80.5, groups of 35 and 15, 29.75 rounded to 30 correct in the first
      group and the tie 10.5 rounded to the even 10 in the second. */
  lemma DefaultInputs()
    ensures Compute(85.0, 70.0, 0.7) == Mix(0.3, 80.5, 35, 15, 30, 10)
  {
  }

  /** Weight 0 puts the whole population in the minority group and weight 1
      in the predominant group; the overall accuracy is then exactly that
      group's accuracy. */
  lemma ExtremeWeights(pa: real, ma: real)
    requires ValidAccuracy(pa) && ValidAccuracy(ma)
    ensures Compute(pa, ma, 0.0).predominantPeople == 0
    ensures Compute(pa, ma, 0.0).minorityPeople == TotalPeople
    ensures Compute(pa, ma, 0.0).weightedAverage == ma
    ensures Compute(pa, ma, 1.0).predominantPeople == TotalPeople
    ensures Compute(pa, ma, 1.0).minorityPeople == 0
    ensures Compute(pa, ma, 1.0).weightedAverage == pa
  {
  }
}
