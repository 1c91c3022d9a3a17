/** The three defuzzifiers of FuzzySet (FuzzyEngine/Fuzzy.py:140-187): the
    earliest maximum, the centroid and the mean of maxima. Each is a scan over
    the set's dictionary, which iterates the domain in order. */
module Defuzzify {
  import opened Common
  import opened Fuzzy

  // ------------------------------------------------------------ earliest maximum

  /** max_membership: the domain value of the earliest degree that is the
      largest one, provided it exceeds 0; None when no degree exceeds 0. */
  method MaxMembership(a: FuzzySet) returns (r: Option<real>)
    requires WellFormed(a)
    ensures r.None? <==> forall k :: 0 <= k < |a.degrees| ==> a.degrees[k] <= 0.0
    ensures r.Some? ==>
      exists k ::
        && 0 <= k < |a.degrees| && r.value == a.Values()[k] && 0.0 < a.degrees[k]
        && (forall j :: 0 <= j < |a.degrees| ==> a.degrees[j] <= a.degrees[k])
        && (forall j :: 0 <= j < k ==> a.degrees[j] < a.degrees[k])
  {
    var xs, ds := a.Values(), a.degrees;
    var maxVal: Option<real> := None;
    var mx := 0.0;
    ghost var best := 0;
    for i := 0 to |ds|
      invariant maxVal.None? ==> mx == 0.0 && forall k :: 0 <= k < i ==> ds[k] <= 0.0
      invariant maxVal.Some? ==> best < i && maxVal.value == xs[best] && mx == ds[best] && 0.0 < mx
      invariant maxVal.Some? ==> forall k :: 0 <= k < i ==> ds[k] <= mx
      invariant maxVal.Some? ==> forall k :: 0 <= k < best ==> ds[k] < mx
    {
      if ds[i] > mx {
        maxVal := Some(xs[i]);
        mx := ds[i];
        best := i;
      }
    }
    r := maxVal;
  }

  // -------------------------------------------------------------------- centroid

  /** The sum of a list of weights. */
  function Mass(ws: seq<real>): real
  {
    if |ws| == 0 then 0.0 else Mass(ws[..|ws| - 1]) + ws[|ws| - 1]
  }

  /** The sum of weight times position. */
  function Moment(xs: seq<real>, ws: seq<real>): real
    requires |xs| == |ws|
  {
    if |ws| == 0 then 0.0
    else Moment(xs[..|ws| - 1], ws[..|ws| - 1]) + ws[|ws| - 1] * xs[|ws| - 1]
  }

  /** The weight centroid gives the value at position k: its degree times
      the distance from the FIRST domain value (the first value itself
      contributes nothing). */
  function AnchoredWeights(xs: seq<real>, ds: seq<real>): (ws: seq<real>)
    requires |xs| == |ds| > 0
    ensures |ws| == |xs| && ws[0] == 0.0
    ensures forall k :: 0 < k < |xs| ==> ws[k] == ds[k] * (xs[k] - xs[0])
  {
    seq(|xs|, k requires 0 <= k < |xs| => if k == 0 then 0.0 else ds[k] * (xs[k] - xs[0]))
  }

  /** The weights of a Riemann sum: degree times the step from the previous value. */
  function StepWeights(xs: seq<real>, ds: seq<real>): (ws: seq<real>)
    requires |xs| == |ds| > 0
    ensures |ws| == |xs| && ws[0] == 0.0
    ensures forall k :: 0 < k < |xs| ==> ws[k] == ds[k] * (xs[k] - xs[k - 1])
  {
    seq(|xs|, k requires 0 <= k < |xs| => if k == 0 then 0.0 else ds[k] * (xs[k] - xs[k - 1]))
  }

  /** centroid as written: `prev` is set on the first key and never again,
      so every step is measured from the first domain value. The quotient
      fails when the accumulated mass is zero (ZeroDivisionError, as for a
      domain of plain numbers). */
  method Centroid(a: FuzzySet) returns (r: Result<real>)
    requires WellFormed(a)
    ensures var w := AnchoredWeights(a.Values(), a.degrees);
      && (Mass(w) == 0.0 ==> r == Err(DivisionByZero))
      && (Mass(w) != 0.0 ==> r == Ok(Moment(a.Values(), w) / Mass(w)))
  {
    var xs, ds := a.Values(), a.degrees;
    ghost var w := AnchoredWeights(xs, ds);
    var sum1, sum2 := 0.0, 0.0;
    var prev: Option<real> := None;
    for i := 0 to |xs|
      invariant i == 0 ==> prev.None?
      invariant i > 0 ==> prev == Some(xs[0])
      invariant sum1 == Moment(xs[..i], w[..i])
      invariant sum2 == Mass(w[..i])
    {
      assert xs[..i + 1][..i] == xs[..i] && w[..i + 1][..i] == w[..i];
      if prev.None? {
        prev := Some(xs[i]);
      } else {
        var x := xs[i];
        var dx := x - prev.value;
        var m := ds[i];
        assert w[i] == m * dx;
        assert m * x * dx == w[i] * x;
        sum1 := sum1 + m * x * dx;
        sum2 := sum2 + m * dx;
      }
    }
    assert xs[..|xs|] == xs && w[..|xs|] == w;
    if sum2 == 0.0 {
      return Err(DivisionByZero);
    }
    r := Ok(sum1 / sum2);
  }

  /** centroid as evidently intended: `prev` advances with every key, so the
      weights are the steps of a Riemann sum of the membership curve. */
  function CentroidIntended(a: FuzzySet): (r: Result<real>)
    requires WellFormed(a)
    ensures var w := StepWeights(a.Values(), a.degrees);
      r.Ok? <==> Mass(w) != 0.0
  {
    var w := StepWeights(a.Values(), a.degrees);
    if Mass(w) == 0.0 then Err(DivisionByZero) else Ok(Moment(a.Values(), w) / Mass(w))
  }

  /** With non-negative weights the mass is positive exactly when some weight is. */
  lemma {:induction false} MassPositiveIff(ws: seq<real>)
    requires forall k :: 0 <= k < |ws| ==> 0.0 <= ws[k]
    ensures 0.0 <= Mass(ws)
    ensures 0.0 < Mass(ws) <==> exists k :: 0 <= k < |ws| && 0.0 < ws[k]
  {
    if |ws| > 0 {
      var init := ws[..|ws| - 1];
      MassPositiveIff(init);
      assert forall k :: 0 <= k < |init| ==> init[k] == ws[k];
      if 0.0 < Mass(init) {
        var k :| 0 <= k < |init| && 0.0 < init[k];
        assert 0.0 < ws[k];
      }
    }
  }

  /** `n` copies of `c`. */
  function Const(c: real, n: nat): (ys: seq<real>)
    ensures |ys| == n && forall k :: 0 <= k < n ==> ys[k] == c
  {
    seq(n, k requires 0 <= k < n => c)
  }

  /** Placing every weight at `c` gives the mass times `c`. */
  lemma {:induction false} ConstMoment(ws: seq<real>, c: real)
    ensures Moment(Const(c, |ws|), ws) == Mass(ws) * c
  {
    if |ws| > 0 {
      var n := |ws| - 1;
      assert Const(c, |ws|)[..n] == Const(c, n);
      ConstMoment(ws[..n], c);
      Distribute(Mass(ws), Mass(ws[..n]), ws[n], c);
    }
  }

  lemma Distribute(s: real, p: real, w: real, c: real)
    requires s == p + w
    ensures s * c == p * c + w * c
  {
  }

  lemma ScaleMonotone(w: real, x: real, y: real)
    requires 0.0 <= w && x <= y
    ensures w * x <= w * y
  {
    MulNonNegative(w, y - x);
    assert w * (y - x) == w * y - w * x;
  }

  /** Moving weighted positions right never lowers the weighted sum. */
  lemma {:induction false} MomentMonotone(xs: seq<real>, ys: seq<real>, ws: seq<real>)
    requires |xs| == |ys| == |ws|
    requires forall k :: 0 <= k < |ws| ==> 0.0 <= ws[k]
    requires forall k :: 0 <= k < |ws| && ws[k] != 0.0 ==> xs[k] <= ys[k]
    ensures Moment(xs, ws) <= Moment(ys, ws)
  {
    if |ws| > 0 {
      var n := |ws| - 1;
      MomentMonotone(xs[..n], ys[..n], ws[..n]);
      if ws[n] != 0.0 {
        ScaleMonotone(ws[n], xs[n], ys[n]);
      }
    }
  }

  /** The weighted sum lies between the mass times the least and the
      greatest position carrying weight. */
  lemma MomentBounds(xs: seq<real>, ws: seq<real>, lo: real, hi: real)
    requires |xs| == |ws|
    requires forall k :: 0 <= k < |ws| ==> 0.0 <= ws[k]
    requires forall k :: 0 <= k < |ws| && ws[k] != 0.0 ==> lo <= xs[k] <= hi
    ensures Mass(ws) * lo <= Moment(xs, ws) <= Mass(ws) * hi
  {
    MomentMonotone(Const(lo, |ws|), xs, ws);
    MomentMonotone(xs, Const(hi, |ws|), ws);
    ConstMoment(ws, lo);
    ConstMoment(ws, hi);
  }

  /** A quotient bounded as in MomentBounds lies in [lo, hi]. */
  lemma QuotientWithin(num: real, den: real, lo: real, hi: real)
    requires 0.0 < den && den * lo <= num <= den * hi
    ensures lo <= num / den <= hi
  {
  }

  /** The division step: a weighted sum between the mass times lo and
      times hi gives a weighted mean in [lo, hi]. */
  lemma MeanWithin(xs: seq<real>, ws: seq<real>, lo: real, hi: real)
    requires |xs| == |ws| && 0.0 < Mass(ws)
    requires Mass(ws) * lo <= Moment(xs, ws) <= Mass(ws) * hi
    ensures lo <= Moment(xs, ws) / Mass(ws) <= hi
  {
    var num, den := Moment(xs, ws), Mass(ws);
    QuotientWithin(num, den, lo, hi);
  }

  /** A weighted mean with non-negative weights lies between bounds on the
      positions that carry weight. */
  lemma WeightedMeanWithin(xs: seq<real>, ws: seq<real>, lo: real, hi: real)
    requires |xs| == |ws| && 0.0 < Mass(ws)
    requires forall k :: 0 <= k < |ws| ==> 0.0 <= ws[k]
    requires forall k :: 0 <= k < |ws| && ws[k] != 0.0 ==> lo <= xs[k] <= hi
    ensures lo <= Moment(xs, ws) / Mass(ws) <= hi
  {
    MomentBounds(xs, ws, lo, hi);
    MeanWithin(xs, ws, lo, hi);
  }

  /** Degree times a positive gap is positive exactly when the degree is. */
  lemma WeightPositiveIff(d: real, gap: real)
    requires 0.0 <= d && 0.0 < gap
    ensures 0.0 <= d * gap
    ensures 0.0 < d * gap <==> 0.0 < d
  {
    if 0.0 < d {
      MulPositive(d, gap);
    } else {
      assert d == 0.0;
    }
  }

  /** The anchored weights of non-negative degrees over an increasing domain
      are non-negative, and positive exactly where the degree is, after the first value. */
  lemma AnchoredWeightSigns(xs: seq<real>, ds: seq<real>)
    requires |xs| == |ds| > 0 && StrictlyIncreasing(xs)
    requires forall k :: 0 <= k < |ds| ==> 0.0 <= ds[k]
    ensures var w := AnchoredWeights(xs, ds);
      && w[0] == 0.0
      && forall k :: 1 <= k < |w| ==> 0.0 <= w[k] && (0.0 < w[k] <==> 0.0 < ds[k])
  {
    var w := AnchoredWeights(xs, ds);
    forall k | 1 <= k < |w| ensures 0.0 <= w[k] && (0.0 < w[k] <==> 0.0 < ds[k]) {
      assert w[k] == ds[k] * (xs[k] - xs[0]) && xs[0] < xs[k];
      WeightPositiveIff(ds[k], xs[k] - xs[0]);
    }
  }

  /** The same for the step weights. */
  lemma StepWeightSigns(xs: seq<real>, ds: seq<real>)
    requires |xs| == |ds| > 0 && StrictlyIncreasing(xs)
    requires forall k :: 0 <= k < |ds| ==> 0.0 <= ds[k]
    ensures var w := StepWeights(xs, ds);
      && w[0] == 0.0
      && forall k :: 1 <= k < |w| ==> 0.0 <= w[k] && (0.0 < w[k] <==> 0.0 < ds[k])
  {
    var w := StepWeights(xs, ds);
    forall k | 1 <= k < |w| ensures 0.0 <= w[k] && (0.0 < w[k] <==> 0.0 < ds[k]) {
      assert w[k] == ds[k] * (xs[k] - xs[k - 1]) && xs[k - 1] < xs[k];
      WeightPositiveIff(ds[k], xs[k] - xs[k - 1]);
    }
  }

  /** Weights that vanish at the first position and are positive exactly
      where the degree is give a positive mass exactly when some degree
      after the first is positive. */
  lemma SignedWeightsMass(ds: seq<real>, w: seq<real>)
    requires |ds| == |w| > 0 && w[0] == 0.0
    requires forall k :: 1 <= k < |w| ==> 0.0 <= w[k] && (0.0 < w[k] <==> 0.0 < ds[k])
    ensures 0.0 <= Mass(w)
    ensures 0.0 < Mass(w) <==> exists k :: 1 <= k < |ds| && 0.0 < ds[k]
  {
    MassPositiveIff(w);
    if 0.0 < Mass(w) {
      var k :| 0 <= k < |w| && 0.0 < w[k];
      assert 1 <= k && 0.0 < ds[k];
    } else {
      assert forall k :: 1 <= k < |ds| ==> ds[k] <= 0.0;
    }
  }

  /** Every value after the first of an increasing domain lies between the
      second and the last. */
  lemma IncreasingBetween(xs: seq<real>)
    requires |xs| > 1 && StrictlyIncreasing(xs)
    ensures forall k :: 1 <= k < |xs| ==> xs[1] <= xs[k] <= xs[|xs| - 1]
  {
  }

  /** The centroid of any weights that vanish at the first position and are
      positive exactly where the degree is, over an increasing domain. */
  lemma SignedCentroid(xs: seq<real>, ds: seq<real>, w: seq<real>)
    requires |xs| == |ds| == |w| > 0 && StrictlyIncreasing(xs) && w[0] == 0.0
    requires forall k :: 1 <= k < |w| ==> 0.0 <= w[k] && (0.0 < w[k] <==> 0.0 < ds[k])
    ensures 0.0 <= Mass(w)
    ensures 0.0 < Mass(w) <==> exists k :: 1 <= k < |xs| && 0.0 < ds[k]
    ensures 0.0 < Mass(w) ==> |xs| > 1 && xs[1] <= Moment(xs, w) / Mass(w) <= xs[|xs| - 1]
  {
    SignedWeightsMass(ds, w);
    if 0.0 < Mass(w) {
      IncreasingBetween(xs);
      WeightedMeanWithin(xs, w, xs[1], xs[|xs| - 1]);
    }
  }

  /** On an increasing domain with non-negative degrees the centroid as
      written is defined exactly when some value after the first has a
      positive degree, and then lies between the second and the last value. */
  lemma CentroidWithinDomain(a: FuzzySet)
    requires WellFormed(a) && StrictlyIncreasing(a.Values())
    requires forall k :: 0 <= k < |a.degrees| ==> 0.0 <= a.degrees[k]
    ensures var xs, w := a.Values(), AnchoredWeights(a.Values(), a.degrees);
      && 0.0 <= Mass(w)
      && (0.0 < Mass(w) <==> exists k :: 1 <= k < |xs| && 0.0 < a.degrees[k])
      && (0.0 < Mass(w) ==> |xs| > 1 && xs[1] <= Moment(xs, w) / Mass(w) <= xs[|xs| - 1])
  {
    AnchoredWeightSigns(a.Values(), a.degrees);
    SignedCentroid(a.Values(), a.degrees, AnchoredWeights(a.Values(), a.degrees));
  }

  /** The same for the intended centroid. */
  lemma CentroidIntendedWithinDomain(a: FuzzySet)
    requires WellFormed(a) && StrictlyIncreasing(a.Values())
    requires forall k :: 0 <= k < |a.degrees| ==> 0.0 <= a.degrees[k]
    ensures var xs, w := a.Values(), StepWeights(a.Values(), a.degrees);
      && (CentroidIntended(a).Ok? <==> exists k :: 1 <= k < |xs| && 0.0 < a.degrees[k])
      && (CentroidIntended(a).Ok? ==> |xs| > 1 && xs[1] <= Moment(xs, w) / Mass(w) <= xs[|xs| - 1])
      && (CentroidIntended(a).Ok? ==> CentroidIntended(a).value == Moment(xs, w) / Mass(w))
  {
    StepWeightSigns(a.Values(), a.degrees);
    SignedCentroid(a.Values(), a.degrees, StepWeights(a.Values(), a.degrees));
  }

  /** On a one-value domain the anchored mass is zero, so centroid always
      divides by zero there. */
  lemma CentroidSingleValue(xs: seq<real>, ds: seq<real>)
    requires |xs| == |ds| == 1
    ensures Mass(AnchoredWeights(xs, ds)) == 0.0
  {
    assert AnchoredWeights(xs, ds) == [0.0];
    assert Mass([0.0]) == Mass([]) + 0.0;
  }

  /** The intended mass is an area: with every degree 1 it is the width of the domain. */
  lemma {:induction false} StepMassIsWidth(xs: seq<real>, ds: seq<real>)
    requires |xs| == |ds| > 0
    requires forall k :: 0 <= k < |ds| ==> ds[k] == 1.0
    ensures Mass(StepWeights(xs, ds)) == xs[|xs| - 1] - xs[0]
  {
    var n := |xs| - 1;
    if n > 0 {
      StepMassIsWidth(xs[..n], ds[..n]);
      var w, v := StepWeights(xs, ds), StepWeights(xs[..n], ds[..n]);
      forall k | 0 <= k < n ensures w[k] == v[k] {
        assert xs[..n][k] == xs[k] && ds[..n][k] == ds[k];
        if k > 0 {
          assert xs[..n][k - 1] == xs[k - 1];
        }
      }
      assert w[..n] == v;
      assert w[n] == 1.0 * (xs[n] - xs[n - 1]);
    } else {
      assert StepWeights(xs, ds) == [0.0];
      assert Mass([0.0]) == Mass([]) + 0.0;
    }
  }

  /** On the domain [0, 1, 2] with every degree 1, the centroid as written
      weighs the values by 1 and 2 instead of 1 and 1: mass 3 instead of the
      width 2, and 5/3 instead of 3/2. */
  lemma CentroidAnchorCounterexample(a: FuzzySet)
    requires a.Values() == [0.0, 1.0, 2.0] && a.degrees == [1.0, 1.0, 1.0]
    ensures WellFormed(a)
    ensures Mass(AnchoredWeights(a.Values(), a.degrees)) == 3.0
    ensures Moment(a.Values(), AnchoredWeights(a.Values(), a.degrees)) == 5.0
    ensures Mass(StepWeights(a.Values(), a.degrees)) == 2.0
    ensures CentroidIntended(a) == Ok(1.5)
  {
    var xs, ds := a.Values(), a.degrees;
    assert AnchoredWeights(xs, ds) == [0.0, 1.0, 2.0];
    assert StepWeights(xs, ds) == [0.0, 1.0, 1.0];
    assert [0.0, 1.0, 2.0][..2] == [0.0, 1.0] && [0.0, 1.0, 1.0][..2] == [0.0, 1.0];
    assert [0.0, 1.0][..1] == [0.0] && [0.0][..0] == [];
    assert Mass([0.0, 1.0]) == 1.0 && Moment([0.0, 1.0], [0.0, 1.0]) == 1.0;
  }

  // -------------------------------------------------------------- mean of maxima

  /** Weight 1 at the positions carrying degree `m`, 0 elsewhere. */
  function Indicator(ds: seq<real>, m: real): (ws: seq<real>)
    ensures |ws| == |ds| && forall k :: 0 <= k < |ds| ==> ws[k] == if ds[k] == m then 1.0 else 0.0
  {
    seq(|ds|, k requires 0 <= k < |ds| => if ds[k] == m then 1.0 else 0.0)
  }

  /** How many positions carry degree `m` (a real, so that the mean is real division). */
  function LevelCount(ds: seq<real>, m: real): real
  {
    Mass(Indicator(ds, m))
  }

  /** The sum of the values whose degree is `m`. */
  function LevelSum(xs: seq<real>, ds: seq<real>, m: real): real
    requires |xs| == |ds|
  {
    Moment(xs, Indicator(ds, m))
  }

  /** Extending the scan by one position adds it to the level if it carries `m`. */
  lemma LevelStep(xs: seq<real>, ds: seq<real>, i: nat, m: real)
    requires |xs| == |ds| && i < |ds|
    ensures LevelCount(ds[..i + 1], m) == LevelCount(ds[..i], m) + (if ds[i] == m then 1.0 else 0.0)
    ensures LevelSum(xs[..i + 1], ds[..i + 1], m) == LevelSum(xs[..i], ds[..i], m) + (if ds[i] == m then xs[i] else 0.0)
  {
    assert Indicator(ds[..i + 1], m)[..i] == Indicator(ds[..i], m);
    assert xs[..i + 1][..i] == xs[..i];
  }

  /** mean_max as written starts its running sum at None, so it succeeds only
      when the first degree that is not negative is positive. */
  predicate MeanMaxDefined(ds: seq<real>): (b: bool)
    ensures b ==> exists i :: 0 <= i < |ds| && 0.0 < ds[i]
    ensures |ds| > 0 && 0.0 <= ds[0] ==> (b <==> 0.0 < ds[0])
  {
    exists i :: 0 <= i < |ds| && 0.0 < ds[i] && forall j :: 0 <= j < i ==> ds[j] < 0.0
  }

  /** No position carries a degree above every degree of the list. */
  lemma {:induction false} LevelEmpty(xs: seq<real>, ds: seq<real>, m: real)
    requires |xs| == |ds|
    requires forall k :: 0 <= k < |ds| ==> ds[k] < m
    ensures LevelCount(ds, m) == 0.0 && LevelSum(xs, ds, m) == 0.0
  {
    if |ds| > 0 {
      var n := |ds| - 1;
      LevelEmpty(xs[..n], ds[..n], m);
      LevelStep(xs, ds, n, m);
      assert xs[..n + 1] == xs && ds[..n + 1] == ds;
    }
  }

  /** A level that some position carries is counted at least once. */
  lemma LevelCountPositive(ds: seq<real>, m: real, k: nat)
    requires k < |ds| && ds[k] == m
    ensures 0.0 < LevelCount(ds, m)
  {
    var w := Indicator(ds, m);
    MassPositiveIff(w);
    assert 0.0 < w[k];
  }

  /** mean_max: the mean of the domain values whose degree is the maximum.
      `None + key` fails when a zero degree comes before any positive one,
      and `None / 0` when every degree is negative. */
  method MeanMax(a: FuzzySet) returns (r: Result<real>)
    requires WellFormed(a)
    ensures r.Ok? <==> MeanMaxDefined(a.degrees)
    ensures r.Err? ==> r.error == NoneOperand
    ensures r.Ok? ==> var m := MaxOf(a.degrees);
      && 0.0 < LevelCount(a.degrees, m)
      && r.value == LevelSum(a.Values(), a.degrees, m) / LevelCount(a.degrees, m)
  {
    var xs, ds := a.Values(), a.degrees;
    var maxSum: Option<real> := None;
    var mx := 0.0;
    var count: nat := 0;
    ghost var first, at := 0, 0;
    for i := 0 to |ds|
      invariant maxSum.None? ==> mx == 0.0 && count == 0 && forall k :: 0 <= k < i ==> ds[k] < 0.0
      invariant maxSum.Some? ==> && first <= at < i && 0.0 < ds[first] && ds[at] == mx
                                  && (forall j :: 0 <= j < first ==> ds[j] < 0.0)
                                  && (forall k :: 0 <= k < i ==> ds[k] <= mx)
                                  && 0 < count && count as real == LevelCount(ds[..i], mx)
                                  && maxSum.value == LevelSum(xs[..i], ds[..i], mx)
    {
      if ds[i] > mx {
        if maxSum.None? {
          first := i;
        }
        NewLevel(xs, ds, i);
        maxSum := Some(xs[i]);
        count := 1;
        mx := ds[i];
        at := i;
      } else if ds[i] == mx {
        if maxSum.None? {
          NotDefinedAtZero(ds, i);
          return Err(NoneOperand);
        }
        LevelStep(xs, ds, i, mx);
        count := count + 1;
        maxSum := Some(maxSum.value + xs[i]);
      } else {
        LevelStep(xs, ds, i, mx);
      }
    }
    assert xs[..|ds|] == xs && ds[..|ds|] == ds;
    if maxSum.None? {
      return Err(NoneOperand);
    }
    MaxOfUnique(ds, mx, at);
    r := Ok(maxSum.value / count as real);
  }

  /** A degree above all earlier ones starts a level holding its position alone. */
  lemma NewLevel(xs: seq<real>, ds: seq<real>, i: nat)
    requires |xs| == |ds| && i < |ds|
    requires forall k :: 0 <= k < i ==> ds[k] < ds[i]
    ensures LevelCount(ds[..i + 1], ds[i]) == 1.0 && LevelSum(xs[..i + 1], ds[..i + 1], ds[i]) == xs[i]
  {
    LevelEmpty(xs[..i], ds[..i], ds[i]);
    LevelStep(xs, ds, i, ds[i]);
  }

  /** A zero degree preceded only by negative ones rules the mean of maxima out. */
  lemma NotDefinedAtZero(ds: seq<real>, i: nat)
    requires i < |ds| && ds[i] == 0.0
    requires forall k :: 0 <= k < i ==> ds[k] < 0.0
    ensures !MeanMaxDefined(ds)
  {
  }

  /** With non-negative degrees the mean of maxima as written is defined
      exactly when the first degree is positive. */
  lemma MeanMaxNeedsPositiveFirst(ds: seq<real>)
    requires |ds| > 0
    requires forall k :: 0 <= k < |ds| ==> 0.0 <= ds[k]
    ensures MeanMaxDefined(ds) <==> 0.0 < ds[0]
  {
  }

  /** The mean of maxima lies between the least and the greatest value
      attaining the maximum. */
  lemma MeanMaxWithinMaximisers(a: FuzzySet, lo: real, hi: real)
    requires WellFormed(a)
    requires forall k :: 0 <= k < |a.degrees| && a.degrees[k] == MaxOf(a.degrees) ==> lo <= a.Values()[k] <= hi
    ensures 0.0 < LevelCount(a.degrees, MaxOf(a.degrees))
    ensures var m := MaxOf(a.degrees);
      lo <= LevelSum(a.Values(), a.degrees, m) / LevelCount(a.degrees, m) <= hi
  {
    var j :| 0 <= j < |a.degrees| && a.degrees[j] == MaxOf(a.degrees);
    LevelMeanWithin(a.Values(), a.degrees, MaxOf(a.degrees), j, lo, hi);
  }

  /** The mean of the values at a level some position carries lies between
      bounds on those values. */
  lemma LevelMeanWithin(xs: seq<real>, ds: seq<real>, m: real, j: nat, lo: real, hi: real)
    requires |xs| == |ds| && j < |ds| && ds[j] == m
    requires forall k :: 0 <= k < |ds| && ds[k] == m ==> lo <= xs[k] <= hi
    ensures 0.0 < LevelCount(ds, m)
    ensures lo <= LevelSum(xs, ds, m) / LevelCount(ds, m) <= hi
  {
    LevelCountPositive(ds, m, j);
    WeightedMeanWithin(xs, Indicator(ds, m), lo, hi);
  }

  /** mean_max as evidently intended: the running sum starts at 0, so a zero
      degree before the first positive one is counted like any other, and
      only an empty count divides by zero. */
  function MeanMaxIntended(a: FuzzySet): (r: Result<real>)
    requires WellFormed(a)
    ensures r.Ok? <==> exists k :: 0 <= k < |a.degrees| && 0.0 <= a.degrees[k]
    ensures r.Ok? ==> 0.0 < LevelCount(a.degrees, Max(0.0, MaxOf(a.degrees)))
  {
    var m := Max(0.0, MaxOf(a.degrees));
    if MaxOf(a.degrees) < 0.0 then
      Err(DivisionByZero)
    else
      var j :| 0 <= j < |a.degrees| && a.degrees[j] == MaxOf(a.degrees);
      LevelCountPositive(a.degrees, m, j);
      Ok(LevelSum(a.Values(), a.degrees, m) / LevelCount(a.degrees, m))
  }

  /** The intended mean of maxima agrees with the one as written wherever
      that one succeeds, and succeeds on every set with non-negative degrees. */
  lemma MeanMaxIntendedExtends(a: FuzzySet)
    requires WellFormed(a)
    ensures MeanMaxDefined(a.degrees) ==> var m := MaxOf(a.degrees);
      0.0 < LevelCount(a.degrees, m) && MeanMaxIntended(a) == Ok(LevelSum(a.Values(), a.degrees, m) / LevelCount(a.degrees, m))
    ensures (forall k :: 0 <= k < |a.degrees| ==> 0.0 <= a.degrees[k]) ==> MeanMaxIntended(a).Ok?
  {
    if MeanMaxDefined(a.degrees) {
      var i :| 0 <= i < |a.degrees| && 0.0 < a.degrees[i] && forall j :: 0 <= j < i ==> a.degrees[j] < 0.0;
      assert a.degrees[i] <= MaxOf(a.degrees);
      assert Max(0.0, MaxOf(a.degrees)) == MaxOf(a.degrees);
      var j :| 0 <= j < |a.degrees| && a.degrees[j] == MaxOf(a.degrees);
      LevelCountPositive(a.degrees, MaxOf(a.degrees), j);
    }
    assert 0.0 <= a.degrees[0] ==> exists k :: 0 <= k < |a.degrees| && 0.0 <= a.degrees[k];
  }

  /** On the domain [0, 1] with degrees [0, 1], mean_max as written adds the
      first key to None, while the intended result is 1, the only maximiser. */
  lemma MeanMaxNoneCounterexample(a: FuzzySet)
    requires a.Values() == [0.0, 1.0] && a.degrees == [0.0, 1.0]
    ensures WellFormed(a)
    ensures !MeanMaxDefined(a.degrees)
    ensures MeanMaxIntended(a) == Ok(1.0)
  {
    var ds := a.degrees;
    assert MaxOf(ds) == 1.0 by {
      MaxOfUnique(ds, 1.0, 1);
    }
    assert Max(0.0, MaxOf(ds)) == 1.0;
    NewLevel(a.Values(), ds, 1);
    assert ds[..2] == ds && a.Values()[..2] == a.Values();
    NotDefinedAtZero(ds, 0);
  }
}
