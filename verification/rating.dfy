/** The weighted rating of `compute_scores` (app.py:24-28): a movie's average
    vote `r` shrunk towards the corpus mean `c` with the weight of its vote
    count `v` against the threshold `m`,
        v/(v+m) * r + m/(v+m) * c.
    `c` (a pandas mean) and `m` (a pandas 0.90 quantile) are parameters. */
module Rating {

  /** A float64 score: a real value, or NaN where numpy divides 0 by 0. */
  datatype Score = Value(x: real) | NaN

  /** The score of one movie. The threshold `m` is a quantile of vote counts
      and so never negative. When `v + m` is zero the formula is numpy's 0/0:
      the score is NaN, and the code has no guard against it. */
  function WeightedRating(v: nat, r: real, m: real, c: real): (s: Score)
    requires m >= 0.0
    ensures s.NaN? <==> v == 0 && m == 0.0
  {
    var n := v as real + m;
    if n == 0.0 then NaN else Value(v as real / n * r + m / n * c)
  }

  /** The share of the movie's own average in its score. */
  function Weight(v: nat, m: real): (w: real)
    requires v as real + m != 0.0
  {
    v as real / (v as real + m)
  }

  /** The share of the corpus mean in the score. */
  function MeanWeight(v: nat, m: real): (w: real)
    requires v as real + m != 0.0
  {
    m / (v as real + m)
  }

  /** `base` moved the fraction `w` of the way along `gap`. */
  function Toward(base: real, w: real, gap: real): (x: real)
  {
    base + w * gap
  }

  /** The score is the mean moved towards the movie's average by the movie's
      share, and equally the movie's average moved towards the mean by the
      mean's share. */
  lemma ShrinkForm(v: nat, r: real, m: real, c: real)
    requires m >= 0.0 && v as real + m != 0.0
    ensures WeightedRating(v, r, m, c) == Value(Toward(c, Weight(v, m), r - c))
    ensures WeightedRating(v, r, m, c) == Value(Toward(r, MeanWeight(v, m), c - r))
  {
    SharesSumToOne(v as real, m);
    Mix(Weight(v, m), MeanWeight(v, m), r, c);
  }

  /** The two shares of the score add up to one. */
  lemma SharesSumToOne(a: real, b: real)
    requires a + b != 0.0
    ensures a / (a + b) + b / (a + b) == 1.0
  {
    var n := a + b;
    var x := a / n;
    var y := b / n;
    DivMul(a, n);
    DivMul(b, n);
    SumTimes(x, y, n);
    SumTimes(x + y, -1.0, n);
    ProductZero(x + y - 1.0, n);
  }

  /** With a non-negative threshold both shares lie in [0, 1]. */
  lemma WeightBounds(v: nat, m: real)
    requires m >= 0.0 && v as real + m > 0.0
    ensures 0.0 <= Weight(v, m) <= 1.0
    ensures 0.0 <= MeanWeight(v, m) <= 1.0
  {
    var n := v as real + m;
    var w := v as real / n;
    var u := m / n;
    DivMul(v as real, n);
    DivMul(m, n);
    SignOfFactor(w, n);
    SignOfFactor(u, n);
    SharesSumToOne(v as real, m);
  }

  /** The score is a convex combination of the movie's average and the corpus
      mean, so it lies between them. */
  lemma ScoreIsConvex(v: nat, r: real, m: real, c: real)
    requires m >= 0.0 && v as real + m > 0.0
    ensures WeightedRating(v, r, m, c).Value?
    ensures var s := WeightedRating(v, r, m, c).x;
            (if r <= c then r else c) <= s <= (if r <= c then c else r)
  {
    ShrinkForm(v, r, m, c);
    WeightBounds(v, m);
    if c <= r {
      TowardWithin(c, Weight(v, m), r - c);
    } else {
      TowardWithin(r, MeanWeight(v, m), c - r);
    }
  }

  /** A movie whose average equals the corpus mean scores exactly the mean. */
  lemma ScoreAtMean(v: nat, m: real, c: real)
    requires m >= 0.0 && v as real + m != 0.0
    ensures WeightedRating(v, c, m, c) == Value(c)
  {
    ShrinkForm(v, c, m, c);
    TowardNowhere(c, Weight(v, m));
  }

  /** Without votes the score is the mean; with a zero threshold it is the
      movie's own average. */
  lemma ScoreExtremes(v: nat, r: real, m: real, c: real)
    requires m >= 0.0
    ensures v == 0 && m != 0.0 ==> WeightedRating(v, r, m, c) == Value(c)
    ensures m == 0.0 && v > 0 ==> WeightedRating(v, r, m, c) == Value(r)
  {
    if v == 0 && m != 0.0 {
      ShrinkForm(v, r, m, c);
      assert Weight(v, m) == 0.0;
    } else if m == 0.0 && v > 0 {
      ShrinkForm(v, r, m, c);
      assert MeanWeight(v, m) == 0.0;
    }
  }

  /** More votes give more weight to the movie's own average, and less to
      the mean. */
  lemma WeightMonotone(v1: nat, v2: nat, m: real)
    requires m >= 0.0 && v1 <= v2 && v1 as real + m > 0.0
    ensures Weight(v1, m) <= Weight(v2, m)
    ensures MeanWeight(v2, m) <= MeanWeight(v1, m)
  {
    MeanWeightAntitone(v1, v2, m);
    SharesSumToOne(v1 as real, m);
    SharesSumToOne(v2 as real, m);
  }

  lemma MeanWeightAntitone(v1: nat, v2: nat, m: real)
    requires m >= 0.0 && v1 <= v2 && v1 as real + m > 0.0
    ensures MeanWeight(v2, m) <= MeanWeight(v1, m)
  {
    var n1 := v1 as real + m;
    var n2 := v2 as real + m;
    var q1 := m / n1;
    var q2 := m / n2;
    DivMul(m, n1);
    DivMul(m, n2);
    SignOfFactor(q2, n2);
    TimesMonotone(q2, n1, n2);
    SumTimes(q1, -q2, n1);
    SignOfFactor(q1 - q2, n1);
  }

  /** Among movies with the same average, more votes move the score away from
      the mean: up when the average is above it, down when below. */
  lemma ScoreMonotoneInVotes(v1: nat, v2: nat, r: real, m: real, c: real)
    requires m >= 0.0 && v1 <= v2 && v1 as real + m > 0.0
    ensures r >= c ==> WeightedRating(v1, r, m, c).x <= WeightedRating(v2, r, m, c).x
    ensures r <= c ==> WeightedRating(v1, r, m, c).x >= WeightedRating(v2, r, m, c).x
  {
    ShrinkForm(v1, r, m, c);
    ShrinkForm(v2, r, m, c);
    WeightMonotone(v1, v2, m);
    if r >= c {
      TowardFurther(c, Weight(v1, m), Weight(v2, m), r - c);
    }
    if r <= c {
      TowardFurther(r, MeanWeight(v2, m), MeanWeight(v1, m), c - r);
    }
  }

  // ----- moving along a gap -----

  /** Moving a fraction in [0, 1] along a non-negative gap stays within it. */
  lemma TowardWithin(base: real, w: real, gap: real)
    requires 0.0 <= w <= 1.0 && gap >= 0.0
    ensures base <= Toward(base, w, gap) <= base + gap
  {
    FractionOf(w, gap);
  }

  /** A larger fraction of a non-negative gap moves further. */
  lemma TowardFurther(base: real, w1: real, w2: real, gap: real)
    requires w1 <= w2 && gap >= 0.0
    ensures Toward(base, w1, gap) <= Toward(base, w2, gap)
  {
    TimesMonotone(gap, w1, w2);
  }

  lemma TowardNowhere(base: real, w: real)
    ensures Toward(base, w, base - base) == base
  {
  }

  /** A mix of `a` and `b` with shares adding up to one is either end moved
      towards the other. */
  lemma Mix(x: real, y: real, a: real, b: real)
    requires x + y == 1.0
    ensures x * a + y * b == Toward(b, x, a - b)
    ensures x * a + y * b == Toward(a, y, b - a)
  {
  }

  // ----- arithmetic steps over the reals -----

  lemma DivMul(a: real, n: real)
    requires n != 0.0
    ensures (a / n) * n == a
  {
  }

  lemma SumTimes(x: real, y: real, n: real)
    ensures (x + y) * n == x * n + y * n
  {
  }

  lemma ProductZero(x: real, n: real)
    requires n != 0.0 && x * n == 0.0
    ensures x == 0.0
  {
  }

  lemma SignOfFactor(x: real, n: real)
    requires n > 0.0 && x * n >= 0.0
    ensures x >= 0.0
  {
  }

  lemma TimesMonotone(x: real, a: real, b: real)
    requires x >= 0.0 && a <= b
    ensures x * a <= x * b && a * x <= b * x
  {
  }

  lemma FractionOf(w: real, d: real)
    requires 0.0 <= w <= 1.0 && d >= 0.0
    ensures 0.0 <= w * d <= d
  {
  }
}
