/**
 * The homogeneity test of the region grower: the population mean and variance of the
 * image over the nonzero cells of a candidate mask, and the mask of every image pixel
 * whose absolute deviation from the mean is within `numSigma` standard deviations.
 *
 * Statistics are exact reals. The standard deviation is never formed: the test
 * |x - mu| <= numSigma * sigma is stated through the variance (see WithinSigma and
 * WithinSigmaMatchesStd).
 */
module Homogeneity {
  import opened Grids

  /** Number of nonzero entries of one row. */
  function RowCount(sel: seq<real>): (n: nat) {
    if |sel| == 0 then 0 else (if sel[0] != 0.0 then 1 else 0) + RowCount(sel[1..])
  }

  /** Number of nonzero cells of `d` (the size of the candidate support). */
  function CountNonzero(d: Grid): (n: nat) {
    if |d| == 0 then 0 else RowCount(d[0]) + CountNonzero(d[1..])
  }

  /** Sum of `v[k]` over the positions where `sel[k]` is nonzero. */
  function RowSupportSum(v: seq<real>, sel: seq<real>): (sum: real)
    requires |v| == |sel|
  {
    if |v| == 0 then 0.0
    else (if sel[0] != 0.0 then v[0] else 0.0) + RowSupportSum(v[1..], sel[1..])
  }

  /** Sum of `img` over the nonzero cells of `d` (numpy's `img[d != 0].sum()`). */
  function SupportSum(img: Grid, d: Grid): (sum: real)
    requires SameShape(img, d)
  {
    if |img| == 0 then 0.0 else RowSupportSum(img[0], d[0]) + SupportSum(img[1..], d[1..])
  }

  /**
   * Mean of the image over the support of `d` (numpy's `img[d != 0].mean()`): it lies
   * between the smallest and the largest support pixel.
   */
  function Mean(img: Grid, d: Grid): (mu: real)
    requires SameShape(img, d) && CountNonzero(d) > 0
  {
    SupportSum(img, d) / (CountNonzero(d) as real)
  }

  /** The mean lies between the smallest and the largest pixel of the support. */
  lemma MeanWithinSupport(img: Grid, d: Grid)
    requires SameShape(img, d) && CountNonzero(d) > 0
    ensures exists i, j | InBounds(d, i, j) && d[i][j] != 0.0 :: img[i][j] <= Mean(img, d)
    ensures exists i, j | InBounds(d, i, j) && d[i][j] != 0.0 :: Mean(img, d) <= img[i][j]
  {
    AverageAttained(img, d, Mean(img, d));
  }

  /** The grid of squared deviations (x - mu)^2. */
  function SquaredDeviations(img: Grid, mu: real): (sq: Grid)
    ensures SameShape(sq, img)
    ensures forall i, j | InBounds(img, i, j) :: sq[i][j] == (img[i][j] - mu) * (img[i][j] - mu)
  {
    seq(|img|, i requires 0 <= i < |img| =>
      seq(|img[i]|, j requires 0 <= j < |img[i]| => (img[i][j] - mu) * (img[i][j] - mu)))
  }

  /**
   * Population variance (numpy's default `std` squared, `ddof=0`) of the image over the
   * support of `d`. It is never negative, so the standard deviation exists.
   */
  function Variance(img: Grid, d: Grid): (v: real)
    requires SameShape(img, d) && CountNonzero(d) > 0
    ensures 0.0 <= v
  {
    var sq := SquaredDeviations(img, Mean(img, d));
    SquaredDeviationsNonnegative(img, Mean(img, d));
    SupportSumNonnegative(sq, d);
    SupportSum(sq, d) / (CountNonzero(d) as real)
  }

  /**
   * The acceptance test |x - mu| <= numSigma * sqrt(variance), written without the
   * square root: for numSigma >= 0 both sides are squared; for numSigma < 0 the right
   * side is negative unless the variance is 0, and then only x == mu passes.
   * The mean itself passes unless the width is negative and the spread is not zero, and
   * a negative width lets nothing but the mean pass.
   */
  function WithinSigma(x: real, mu: real, variance: real, numSigma: real): (ok: bool)
    ensures variance >= 0.0 && x == mu ==> (ok <==> numSigma >= 0.0 || variance == 0.0)
    ensures ok && numSigma < 0.0 ==> x == mu
  {
    var dev := x - mu;
    SquareFacts(dev, dev * dev);
    if numSigma >= 0.0 then dev * dev <= numSigma * numSigma * variance
    else variance == 0.0 && dev == 0.0
  }

  lemma ProductPositive(x: real, y: real, p: real)
    requires p == x * y && x > 0.0 && y > 0.0
    ensures 0.0 < p
  {
  }

  /** A square `s` of `x` is never negative, and it is positive exactly when `x` is not zero. */
  lemma SquareFacts(x: real, s: real)
    requires s == x * x
    ensures 0.0 <= s
    ensures 0.0 < s <==> x != 0.0
  {
    if x > 0.0 {
      ProductPositive(x, x, s);
    } else if x < 0.0 {
      ProductPositive(-x, -x, s);
    }
  }

  /** Every squared deviation is nonnegative. */
  lemma SquaredDeviationsNonnegative(img: Grid, mu: real)
    ensures forall i, j | InBounds(img, i, j) :: 0.0 <= SquaredDeviations(img, mu)[i][j]
  {
    var sq := SquaredDeviations(img, mu);
    forall i, j | InBounds(img, i, j)
      ensures 0.0 <= sq[i][j]
    {
      SquareFacts(img[i][j] - mu, sq[i][j]);
    }
  }

  /** The acceptance mask over the whole image: 1 where the test passes, 0 elsewhere. */
  function AcceptMask(img: Grid, mu: real, variance: real, numSigma: real): (a: Grid)
    requires IsGrid(img)
    ensures IsGrid(a) && SameShape(a, img)
  {
    seq(|img|, i requires 0 <= i < |img| =>
      seq(Width(img), j requires 0 <= j < Width(img) =>
        if WithinSigma(img[i][j], mu, variance, numSigma) then 1.0 else 0.0))
  }

  /** The acceptance mask is a 0/1 mask that is 1 exactly at the pixels passing the test. */
  lemma AcceptMaskCells(img: Grid, mu: real, variance: real, numSigma: real)
    requires IsGrid(img)
    ensures var a := AcceptMask(img, mu, variance, numSigma);
      IsBinary(a) &&
      forall i, j | InBounds(img, i, j) :: a[i][j] == 1.0 <==> WithinSigma(img[i][j], mu, variance, numSigma)
  {
  }

  lemma SquaresOrdered(a: real, b: real)
    requires 0.0 <= a && 0.0 <= b
    ensures a <= b <==> a * a <= b * b
  {
    var aa, ab, bb := a * a, a * b, b * b;
    if a <= b {
      assert aa <= ab <= bb;
    } else {
      assert bb <= ab < aa;
    }
  }

  /**
   * For any standard deviation s (s >= 0, s * s == variance), WithinSigma is exactly the
   * grower's test `abs(x - mu) <= numSigma * s`, with numpy's `std` as s.
   */
  lemma WithinSigmaMatchesStd(x: real, mu: real, variance: real, numSigma: real, s: real)
    requires 0.0 <= s && s * s == variance
    ensures WithinSigma(x, mu, variance, numSigma) <==> Abs(x - mu) <= numSigma * s
  {
    var dev := x - mu;
    assert Abs(dev) * Abs(dev) == dev * dev;
    if numSigma >= 0.0 {
      var bound := numSigma * s;
      assert 0.0 <= bound;
      assert numSigma * numSigma * variance == bound * bound;
      SquaresOrdered(Abs(dev), bound);
    } else if s == 0.0 {
      assert numSigma * s == 0.0;
    } else {
      assert numSigma * s < 0.0;
      assert variance > 0.0;
    }
  }

  lemma {:induction false} RowCountPositiveIff(sel: seq<real>)
    ensures RowCount(sel) > 0 <==> exists k | 0 <= k < |sel| :: sel[k] != 0.0
  {
    if |sel| > 0 {
      RowCountPositiveIff(sel[1..]);
      if RowCount(sel[1..]) > 0 {
        var k :| 0 <= k < |sel[1..]| && sel[1..][k] != 0.0;
        assert sel[k + 1] != 0.0;
      }
      if exists k | 0 <= k < |sel| :: sel[k] != 0.0 {
        var k :| 0 <= k < |sel| && sel[k] != 0.0;
        if k > 0 { assert sel[1..][k - 1] != 0.0; }
      }
    }
  }

  /** The support is nonempty exactly when some cell is nonzero. */
  lemma {:induction false} CountPositiveIff(d: Grid)
    ensures CountNonzero(d) > 0 <==> !IsEmptyMask(d)
  {
    if |d| > 0 {
      CountPositiveIff(d[1..]);
      RowCountPositiveIff(d[0]);
      var tail := d[1..];
      if !IsEmptyMask(tail) {
        var i, j :| 0 <= i < |tail| && 0 <= j < |tail[i]| && tail[i][j] != 0.0;
        assert tail[i] == d[i + 1];
        assert d[i + 1][j] != 0.0;
      }
      if !IsEmptyMask(d) {
        var i, j :| 0 <= i < |d| && 0 <= j < |d[i]| && d[i][j] != 0.0;
        if i == 0 {
          assert d[0][j] != 0.0;
        } else {
          assert tail[i - 1] == d[i];
          assert tail[i - 1][j] != 0.0;
        }
      }
    }
  }

  lemma {:induction false} RowSupportSumLocal(v: seq<real>, w: seq<real>, sel: seq<real>)
    requires |v| == |sel| && |w| == |sel|
    requires forall k | 0 <= k < |sel| :: sel[k] != 0.0 ==> v[k] == w[k]
    ensures RowSupportSum(v, sel) == RowSupportSum(w, sel)
  {
    if |v| > 0 {
      RowSupportSumLocal(v[1..], w[1..], sel[1..]);
    }
  }

  /** The support sum reads the image only on the support: pixels outside it are irrelevant. */
  lemma {:induction false} SupportSumLocal(img1: Grid, img2: Grid, d: Grid)
    requires SameShape(img1, d) && SameShape(img2, d)
    requires forall i, j | InBounds(d, i, j) :: d[i][j] != 0.0 ==> img1[i][j] == img2[i][j]
    ensures SupportSum(img1, d) == SupportSum(img2, d)
  {
    if |d| > 0 {
      RowSupportSumLocal(img1[0], img2[0], d[0]);
      assert forall i, j | InBounds(d[1..], i, j) :: d[1..][i][j] == d[i + 1][j];
      SupportSumLocal(img1[1..], img2[1..], d[1..]);
    }
  }

  /** Mean and variance are functions of the image values on the nonzero cells of `d` only. */
  lemma StatisticsDependOnlyOnSupport(img1: Grid, img2: Grid, d: Grid)
    requires SameShape(img1, d) && SameShape(img2, d) && CountNonzero(d) > 0
    requires forall i, j | InBounds(d, i, j) :: d[i][j] != 0.0 ==> img1[i][j] == img2[i][j]
    ensures Mean(img1, d) == Mean(img2, d)
    ensures Variance(img1, d) == Variance(img2, d)
  {
    SupportSumLocal(img1, img2, d);
    var mu := Mean(img1, d);
    assert mu == Mean(img2, d);
    DeviationsLocal(img1, img2, d, mu);
  }

  lemma DeviationsLocal(img1: Grid, img2: Grid, d: Grid, mu: real)
    requires SameShape(img1, d) && SameShape(img2, d)
    requires forall i, j | InBounds(d, i, j) :: d[i][j] != 0.0 ==> img1[i][j] == img2[i][j]
    ensures SupportSum(SquaredDeviations(img1, mu), d) == SupportSum(SquaredDeviations(img2, mu), d)
  {
    var sq1, sq2 := SquaredDeviations(img1, mu), SquaredDeviations(img2, mu);
    forall i, j | InBounds(d, i, j) && d[i][j] != 0.0
      ensures sq1[i][j] == sq2[i][j]
    {
      assert InBounds(img1, i, j) && InBounds(img2, i, j);
    }
    SupportSumLocal(sq1, sq2, d);
  }

  lemma {:induction false} RowSupportSumNonnegative(v: seq<real>, sel: seq<real>)
    requires |v| == |sel|
    requires forall k | 0 <= k < |v| :: 0.0 <= v[k]
    ensures 0.0 <= RowSupportSum(v, sel)
  {
    if |v| > 0 {
      RowSupportSumNonnegative(v[1..], sel[1..]);
    }
  }

  lemma {:induction false} SupportSumNonnegative(img: Grid, d: Grid)
    requires SameShape(img, d)
    requires forall i, j | InBounds(img, i, j) :: 0.0 <= img[i][j]
    ensures 0.0 <= SupportSum(img, d)
  {
    if |img| > 0 {
      RowSupportSumNonnegative(img[0], d[0]);
      assert forall i, j | InBounds(img[1..], i, j) :: img[1..][i][j] == img[i + 1][j];
      SupportSumNonnegative(img[1..], d[1..]);
    }
  }

  /**
   * The variance is positive exactly when some support pixel differs from the mean, so it
   * is zero exactly when the support is constant; the test then accepts only pixels equal
   * to the mean, whatever numSigma is.
   */
  lemma VariancePositiveIff(img: Grid, d: Grid)
    requires SameShape(img, d) && CountNonzero(d) > 0
    ensures 0.0 < Variance(img, d) <==> exists i, j | InBounds(d, i, j) && d[i][j] != 0.0 :: img[i][j] != Mean(img, d)
  {
    var mu := Mean(img, d);
    DeviationsPositiveIff(img, d, mu);
    assert Variance(img, d) == SupportSum(SquaredDeviations(img, mu), d) / (CountNonzero(d) as real);
  }

  /** The squared deviations from `mu` have a positive support sum exactly when some support pixel is not `mu`. */
  lemma DeviationsPositiveIff(img: Grid, d: Grid, mu: real)
    requires SameShape(img, d)
    ensures 0.0 < SupportSum(SquaredDeviations(img, mu), d) <==>
      exists i, j | InBounds(d, i, j) && d[i][j] != 0.0 :: img[i][j] != mu
  {
    var sq := SquaredDeviations(img, mu);
    SquaredDeviationsNonnegative(img, mu);
    SupportSumPositiveIff(sq, d);
    forall i, j | InBounds(d, i, j)
      ensures 0.0 < sq[i][j] <==> img[i][j] != mu
    {
      SquaredDeviationAt(img, mu, i, j);
      SquareFacts(img[i][j] - mu, sq[i][j]);
    }
  }

  lemma {:induction false} RowSupportSumPositiveIff(v: seq<real>, sel: seq<real>)
    requires |v| == |sel|
    requires forall k | 0 <= k < |v| :: 0.0 <= v[k]
    ensures 0.0 < RowSupportSum(v, sel) <==> exists k | 0 <= k < |v| && sel[k] != 0.0 :: 0.0 < v[k]
  {
    if |v| > 0 {
      RowSupportSumPositiveIff(v[1..], sel[1..]);
      RowSupportSumNonnegative(v[1..], sel[1..]);
      assert forall k | 1 <= k < |v| :: v[k] == v[1..][k - 1] && sel[k] == sel[1..][k - 1];
    }
  }

  /** A support sum of nonnegative terms is positive exactly when some term on the support is. */
  lemma {:induction false} SupportSumPositiveIff(v: Grid, d: Grid)
    requires SameShape(v, d)
    requires forall i, j | InBounds(v, i, j) :: 0.0 <= v[i][j]
    ensures 0.0 < SupportSum(v, d) <==> exists i, j | InBounds(d, i, j) && d[i][j] != 0.0 :: 0.0 < v[i][j]
  {
    if |v| > 0 {
      var v', d' := v[1..], d[1..];
      assert forall i | 1 <= i < |v| :: v[i] == v'[i - 1] && d[i] == d'[i - 1];
      RowSupportSumPositiveIff(v[0], d[0]);
      RowSupportSumNonnegative(v[0], d[0]);
      SupportSumPositiveIff(v', d');
      SupportSumNonnegative(v', d');
    }
  }

  /** `n` copies of `c` added up. */
  function Scale(n: nat, c: real): (total: real) {
    if n == 0 then 0.0 else Scale(n - 1, c) + c
  }

  lemma {:induction false} ScaleIsProduct(n: nat, c: real)
    ensures Scale(n, c) == (n as real) * c
  {
    if n > 0 {
      ScaleIsProduct(n - 1, c);
      assert (n as real) * c == ((n - 1) as real) * c + c;
    }
  }

  lemma {:induction false} RowSupportSumAbove(v: seq<real>, sel: seq<real>, c: real)
    requires |v| == |sel|
    requires forall k | 0 <= k < |v| :: sel[k] != 0.0 ==> c < v[k]
    ensures Scale(RowCount(sel), c) <= RowSupportSum(v, sel)
    ensures RowCount(sel) > 0 ==> Scale(RowCount(sel), c) < RowSupportSum(v, sel)
  {
    if |v| > 0 {
      RowSupportSumAbove(v[1..], sel[1..], c);
    }
  }

  lemma {:induction false} ScaleAdd(m: nat, n: nat, c: real)
    ensures Scale(m + n, c) == Scale(m, c) + Scale(n, c)
  {
    if n > 0 {
      ScaleAdd(m, n - 1, c);
    }
  }

  lemma {:induction false} SupportSumAbove(img: Grid, d: Grid, c: real)
    requires SameShape(img, d)
    requires forall i, j | InBounds(d, i, j) :: d[i][j] != 0.0 ==> c < img[i][j]
    ensures Scale(CountNonzero(d), c) <= SupportSum(img, d)
    ensures CountNonzero(d) > 0 ==> Scale(CountNonzero(d), c) < SupportSum(img, d)
  {
    if |d| > 0 {
      RowSupportSumAbove(img[0], d[0], c);
      var img', d' := img[1..], d[1..];
      forall i, j | InBounds(d', i, j) && d'[i][j] != 0.0
        ensures c < img'[i][j]
      {
        assert InBounds(d, i + 1, j) && d'[i] == d[i + 1] && img'[i] == img[i + 1];
      }
      SupportSumAbove(img', d', c);
      ScaleAdd(RowCount(d[0]), CountNonzero(d'), c);
    }
  }

  lemma DivideThenMultiply(s: real, n: real)
    requires n > 0.0
    ensures (s / n) * n == s
  {
  }

  lemma SquaredDeviationAt(img: Grid, mu: real, i: int, j: int)
    requires InBounds(img, i, j)
    ensures SquaredDeviations(img, mu)[i][j] == (img[i][j] - mu) * (img[i][j] - mu)
  {
  }

  lemma {:induction false} RowSupportSumBelow(v: seq<real>, sel: seq<real>, c: real)
    requires |v| == |sel|
    requires forall k | 0 <= k < |v| :: sel[k] != 0.0 ==> v[k] < c
    ensures RowSupportSum(v, sel) <= Scale(RowCount(sel), c)
    ensures RowCount(sel) > 0 ==> RowSupportSum(v, sel) < Scale(RowCount(sel), c)
  {
    if |v| > 0 {
      RowSupportSumBelow(v[1..], sel[1..], c);
    }
  }

  lemma {:induction false} SupportSumBelow(img: Grid, d: Grid, c: real)
    requires SameShape(img, d)
    requires forall i, j | InBounds(d, i, j) :: d[i][j] != 0.0 ==> img[i][j] < c
    ensures SupportSum(img, d) <= Scale(CountNonzero(d), c)
    ensures CountNonzero(d) > 0 ==> SupportSum(img, d) < Scale(CountNonzero(d), c)
  {
    if |d| > 0 {
      RowSupportSumBelow(img[0], d[0], c);
      var img', d' := img[1..], d[1..];
      forall i, j | InBounds(d', i, j) && d'[i][j] != 0.0
        ensures img'[i][j] < c
      {
        assert InBounds(d, i + 1, j) && d'[i] == d[i + 1] && img'[i] == img[i + 1];
      }
      SupportSumBelow(img', d', c);
      ScaleAdd(RowCount(d[0]), CountNonzero(d'), c);
    }
  }

  /** A support sum no smaller than `c` times the support size has a term no smaller than `c`. */
  lemma AverageBoundBelow(v: Grid, d: Grid, c: real)
    requires SameShape(v, d) && CountNonzero(d) > 0
    requires Scale(CountNonzero(d), c) <= SupportSum(v, d)
    ensures exists i, j | InBounds(d, i, j) && d[i][j] != 0.0 :: c <= v[i][j]
  {
    if forall i, j | InBounds(d, i, j) && d[i][j] != 0.0 :: v[i][j] < c {
      SupportSumBelow(v, d, c);
      assert false;
    }
  }

  /** The average of a support sum is no larger than some term and no smaller than some term. */
  lemma AverageAttained(v: Grid, d: Grid, c: real)
    requires SameShape(v, d) && CountNonzero(d) > 0
    requires c == SupportSum(v, d) / (CountNonzero(d) as real)
    ensures exists i, j | InBounds(d, i, j) && d[i][j] != 0.0 :: v[i][j] <= c
    ensures exists i, j | InBounds(d, i, j) && d[i][j] != 0.0 :: c <= v[i][j]
  {
    var n := CountNonzero(d);
    DivideThenMultiply(SupportSum(v, d), n as real);
    ScaleIsProduct(n, c);
    AverageBound(v, d, c);
    AverageBoundBelow(v, d, c);
  }

  /** A support sum no larger than `c` times the support size has a term no larger than `c`. */
  lemma AverageBound(v: Grid, d: Grid, c: real)
    requires SameShape(v, d) && CountNonzero(d) > 0
    requires SupportSum(v, d) <= Scale(CountNonzero(d), c)
    ensures exists i, j | InBounds(d, i, j) && d[i][j] != 0.0 :: v[i][j] <= c
  {
    if forall i, j | InBounds(d, i, j) && d[i][j] != 0.0 :: c < v[i][j] {
      SupportSumAbove(v, d, c);
      assert false;
    }
  }

  /**
   * Helper for SomePixelWithinOneSigma: the variance times the support size is the sum of
   * the squared deviations over the support.
   */
  lemma VarianceIsAverage(img: Grid, d: Grid)
    requires SameShape(img, d) && CountNonzero(d) > 0
    ensures SupportSum(SquaredDeviations(img, Mean(img, d)), d) == Scale(CountNonzero(d), Variance(img, d))
  {
    var s, n := SupportSum(SquaredDeviations(img, Mean(img, d)), d), CountNonzero(d);
    DivideThenMultiply(s, n as real);
    ScaleIsProduct(n, s / (n as real));
  }

  /**
   * Some pixel of the support deviates from the mean by at most one standard deviation:
   * the variance is the average squared deviation, and not every term of an average
   * exceeds it.
   */
  lemma SomePixelWithinOneSigma(img: Grid, d: Grid)
    requires SameShape(img, d) && CountNonzero(d) > 0
    ensures exists i, j | InBounds(d, i, j) && d[i][j] != 0.0 ::
      (img[i][j] - Mean(img, d)) * (img[i][j] - Mean(img, d)) <= Variance(img, d)
  {
    var mu, v := Mean(img, d), Variance(img, d);
    var sq := SquaredDeviations(img, mu);
    var n := CountNonzero(d);
    VarianceIsAverage(img, d);
    AverageBound(sq, d, v);
    var i, j :| InBounds(d, i, j) && d[i][j] != 0.0 && sq[i][j] <= v;
    SquaredDeviationAt(img, mu, i, j);
  }

  /** A pixel within one standard deviation of the mean passes every test of width numSigma >= 1. */
  lemma WithinOneSigmaPasses(x: real, mu: real, variance: real, numSigma: real)
    requires numSigma >= 1.0 && variance >= 0.0 && (x - mu) * (x - mu) <= variance
    ensures WithinSigma(x, mu, variance, numSigma)
  {
    assert numSigma * numSigma >= numSigma;
    assert (numSigma * numSigma - 1.0) * variance >= 0.0;
  }

  /** Helper for SomePixelAccepted, over an abstract mean and variance. */
  lemma ExistsAccepted(img: Grid, d: Grid, mu: real, v: real, numSigma: real)
    requires SameShape(img, d) && numSigma >= 1.0 && v >= 0.0
    requires exists i, j | InBounds(d, i, j) && d[i][j] != 0.0 :: (img[i][j] - mu) * (img[i][j] - mu) <= v
    ensures exists i, j | InBounds(d, i, j) && d[i][j] != 0.0 :: WithinSigma(img[i][j], mu, v, numSigma)
  {
    var i, j :| InBounds(d, i, j) && d[i][j] != 0.0 && (img[i][j] - mu) * (img[i][j] - mu) <= v;
    WithinOneSigmaPasses(img[i][j], mu, v, numSigma);
  }

  /** With numSigma >= 1 some pixel of a nonempty support passes the acceptance test. */
  lemma SomePixelAccepted(img: Grid, d: Grid, numSigma: real)
    requires SameShape(img, d) && CountNonzero(d) > 0 && numSigma >= 1.0
    ensures exists i, j | InBounds(d, i, j) && d[i][j] != 0.0 ::
      WithinSigma(img[i][j], Mean(img, d), Variance(img, d), numSigma)
  {
    SomePixelWithinOneSigma(img, d);
    ExistsAccepted(img, d, Mean(img, d), Variance(img, d), numSigma);
  }
}
