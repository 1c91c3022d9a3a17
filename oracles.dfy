/** The worked examples of FuzzyEngine/Fuzzy_test.py, stated on the model:
    each lemma fixes the test's inputs and proves the output the test
    expects. */
module Oracles {
  import opened Common
  import opened Fuzzy
  import opened SetOps
  import opened RelationOps

  /** The integer domain 0..10 of the linguistic-variable tests. */
  function Range11(): (xs: seq<real>)
    ensures |xs| == 11 && forall i :: 0 <= i < 11 ==> xs[i] == i as real
  {
    seq(11, i requires 0 <= i < 11 => i as real)
  }

  /** make_set with the eleven degrees of 'Poor' succeeds and registers them. */
  lemma MakeSetPoor(u: LinguisticVariable)
    requires u.values == Range11()
    ensures Distinct(u.values)
    ensures var d := [1.0, 0.8, 0.6, 0.4, 0.2, 0.0, 0.0, 0.0, 0.0, 0.0, 0.0];
      NewFuzzySet(u, d, "Poor") == Ok(FuzzySet("Poor", u, d))
  {
    var d := [1.0, 0.8, 0.6, 0.4, 0.2, 0.0, 0.0, 0.0, 0.0, 0.0, 0.0];
    assert forall i :: 0 <= i < |d| ==> d[i] <= 1.0;
    var r := NewFuzzySet(u, d, "Poor");
    assert r.Ok?;
  }

  /** make_set_fn with x -> 0.5 * (x mod 2) gives 0 and 0.5 alternately. */
  lemma MakeSetFnMod2(u: LinguisticVariable)
    requires u.values == Range11()
    ensures Distinct(u.values)
    ensures var d := Pointwise((x: real) => 0.5 * ((x.Floor % 2) as real), u.values);
      && NewFuzzySet(u, d, "Mod2").Ok?
      && forall i :: 0 <= i < 11 ==> d[i] == if i % 2 == 0 then 0.0 else 0.5
  {
    var d := Pointwise((x: real) => 0.5 * ((x.Floor % 2) as real), u.values);
    forall i | 0 <= i < 11
      ensures d[i] == if i % 2 == 0 then 0.0 else 0.5
    {
      assert (i as real).Floor == i;
    }
  }

  /** The domain [1, 1.5, 2, 2.5, 3] of the fuzzy-set tests. */
  function Domain5(): seq<real>
  {
    [1.0, 1.5, 2.0, 2.5, 3.0]
  }

  /** B1 of the fuzzy-set tests. */
  function B1(u: LinguisticVariable): FuzzySet
  {
    FuzzySet("B1", u, [1.0, 0.75, 0.3, 0.15, 0.0])
  }

  /** B2 of the fuzzy-set tests. */
  function B2(u: LinguisticVariable): FuzzySet
  {
    FuzzySet("B2", u, [1.0, 0.6, 0.2, 0.1, 0.0])
  }

  /** B1 and B2 pass the construction checks. */
  lemma TestSetsWellFormed(u: LinguisticVariable)
    requires u.values == Domain5()
    ensures WellFormed(B1(u)) && WellFormed(B2(u))
  {
  }

  /** A five-value cut whose first two degrees reach alpha and the rest do not. */
  lemma CutFirstTwo(xs: seq<real>, ms: seq<real>, alpha: real)
    requires |xs| == |ms| == 5
    requires ms[0] >= alpha && ms[1] >= alpha
    requires ms[2] < alpha && ms[3] < alpha && ms[4] < alpha
    ensures Cut(xs, ms, alpha, 5) == [xs[0], xs[1]]
  {
    assert Cut(xs, ms, alpha, 0) == [];
    assert Cut(xs, ms, alpha, 1) == [xs[0]];
    assert Cut(xs, ms, alpha, 2) == [xs[0], xs[1]];
    assert Cut(xs, ms, alpha, 3) == [xs[0], xs[1]];
    assert Cut(xs, ms, alpha, 4) == [xs[0], xs[1]];
  }

  /** B1 has the alpha-cut [1, 1.5] at 0.5. */
  lemma AlphaCutB1(u: LinguisticVariable)
    requires u.values == Domain5()
    ensures WellFormed(B1(u)) && AlphaCut(B1(u), 0.5) == [1.0, 1.5]
  {
    TestSetsWellFormed(u);
    var a := B1(u);
    CutFirstTwo(a.Values(), a.degrees, 0.5);
    assert AlphaCut(a, 0.5) == Cut(a.Values(), a.degrees, 0.5, 5);
  }

  /** B2 has the alpha-cut [1, 1.5] at 0.5. */
  lemma AlphaCutB2(u: LinguisticVariable)
    requires u.values == Domain5()
    ensures WellFormed(B2(u)) && AlphaCut(B2(u), 0.5) == [1.0, 1.5]
  {
    TestSetsWellFormed(u);
    var a := B2(u);
    CutFirstTwo(a.Values(), a.degrees, 0.5);
    assert AlphaCut(a, 0.5) == Cut(a.Values(), a.degrees, 0.5, 5);
  }

  /** The complement of B1. */
  lemma ComplementB1(u: LinguisticVariable)
    requires u.values == Domain5()
    ensures WellFormed(B1(u)) && Complement(B1(u)).Ok?
    ensures Complement(B1(u)).value.degrees == [0.0, 0.25, 0.7, 0.85, 1.0]
  {
    var c := Complement(B1(u)).value.degrees;
    assert |c| == 5 && c[0] == 0.0 && c[1] == 0.25 && c[2] == 0.7 && c[3] == 0.85 && c[4] == 1.0;
  }

  /** The complement of B2. */
  lemma ComplementB2(u: LinguisticVariable)
    requires u.values == Domain5()
    ensures WellFormed(B2(u)) && Complement(B2(u)).Ok?
    ensures Complement(B2(u)).value.degrees == [0.0, 0.4, 0.8, 0.9, 1.0]
  {
    var c := Complement(B2(u)).value.degrees;
    assert |c| == 5 && c[0] == 0.0 && c[1] == 0.4 && c[2] == 0.8 && c[3] == 0.9 && c[4] == 1.0;
  }

  /** B1 | B2 is B1, since B2 lies below B1 everywhere. */
  lemma UnionExample(u: LinguisticVariable)
    requires u.values == Domain5()
    ensures WellFormed(B1(u)) && WellFormed(B2(u)) && Union(B1(u), B2(u)).Ok?
    ensures Union(B1(u), B2(u)).value.degrees == [1.0, 0.75, 0.3, 0.15, 0.0]
  {
    var c := Union(B1(u), B2(u)).value.degrees;
    assert |c| == 5 && c[0] == 1.0 && c[1] == 0.75 && c[2] == 0.3 && c[3] == 0.15 && c[4] == 0.0;
  }

  /** B1 & B2 is B2. */
  lemma IntersectExample(u: LinguisticVariable)
    requires u.values == Domain5()
    ensures WellFormed(B1(u)) && WellFormed(B2(u)) && Intersect(B1(u), B2(u)).Ok?
    ensures Intersect(B1(u), B2(u)).value.degrees == [1.0, 0.6, 0.2, 0.1, 0.0]
  {
    var c := Intersect(B1(u), B2(u)).value.degrees;
    assert |c| == 5 && c[0] == 1.0 && c[1] == 0.6 && c[2] == 0.2 && c[3] == 0.1 && c[4] == 0.0;
  }

  /** The Cartesian product of A = {1: 0.3, 2: 0.7, 3: 1} and B = {10: 0.4, 20: 0.9}. */
  lemma CartesianProductExample()
    ensures ProductMatrix([0.3, 0.7, 1.0], [0.4, 0.9]) == [[0.3, 0.3], [0.4, 0.7], [0.4, 0.9]]
  {
    var m := ProductMatrix([0.3, 0.7, 1.0], [0.4, 0.9]);
    assert m[0] == [0.3, 0.3] && m[1] == [0.4, 0.7] && m[2] == [0.4, 0.9];
  }

  /** The maximum of two values. */
  lemma MaxOfTwo(s: seq<real>)
    requires |s| == 2
    ensures MaxOf(s) == Max(s[0], s[1])
  {
    assert s[1..] == [s[1]];
  }

  /** A max-min cell whose middle domain has two values. */
  lemma MaxMinCellOfTwo(A: seq<seq<real>>, B: seq<seq<real>>, n: nat, i: nat, j: nat)
    requires Conformable(A, B, n) && |B| == 2 && i < |A| && j < n
    ensures MaxMinCell(A, B, n, i, j) == Max(Min(A[i][0], B[0][j]), Min(A[i][1], B[1][j]))
  {
    MaxOfTwo(seq(|B|, k requires 0 <= k < |B| => Min(A[i][k], B[k][j])));
  }

  /** A max-product cell whose middle domain has two values. */
  lemma MaxProductCellOfTwo(A: seq<seq<real>>, B: seq<seq<real>>, n: nat, i: nat, j: nat)
    requires Conformable(A, B, n) && |B| == 2 && i < |A| && j < n
    ensures MaxProductCell(A, B, n, i, j) == Max(A[i][0] * B[0][j], A[i][1] * B[1][j])
  {
    MaxOfTwo(seq(|B|, k requires 0 <= k < |B| => A[i][k] * B[k][j]));
  }

  /** The relations R and S of the composition test. */
  function R(): seq<seq<real>> { [[0.6, 0.3], [0.2, 0.9]] }

  function S(): seq<seq<real>> { [[1.0, 0.5, 0.3], [0.8, 0.4, 0.7]] }

  /** Max-min composition of R with S. */
  lemma MaxMinExample()
    ensures Conformable(R(), S(), 3)
    ensures MaxMinMatrix(R(), S(), 3) == [[0.6, 0.5, 0.3], [0.8, 0.4, 0.7]]
  {
    forall i, j | 0 <= i < 2 && 0 <= j < 3 {
      MaxMinCellOfTwo(R(), S(), 3, i, j);
    }
    var m := MaxMinMatrix(R(), S(), 3);
    assert m[0] == [0.6, 0.5, 0.3] && m[1] == [0.8, 0.4, 0.7];
  }

  /** Max-product composition of R with S. */
  lemma MaxProductExample()
    ensures Conformable(R(), S(), 3)
    ensures MaxProductMatrix(R(), S(), 3) == [[0.6, 0.3, 0.21], [0.72, 0.36, 0.63]]
  {
    forall i, j | 0 <= i < 2 && 0 <= j < 3 {
      MaxProductCellOfTwo(R(), S(), 3, i, j);
    }
    var m := MaxProductMatrix(R(), S(), 3);
    assert m[0] == [0.6, 0.3, 0.21] && m[1] == [0.72, 0.36, 0.63];
  }
}
