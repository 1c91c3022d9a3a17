/** The operators of FuzzySet (FuzzyEngine/Fuzzy.py:62-138): construction from
    a dictionary, alpha-cut, complement, intersection, union, the extension
    principle and the Cartesian product. */
module SetOps {
  import opened Common
  import opened Fuzzy

  /** FuzzySet.make: a dictionary, given as its (key, degree) pairs in
      insertion order, becomes a fresh variable over its keys and a set over
      that variable. The set is not registered in the new variable. */
  method Make(d: seq<(real, real)>, name: string) returns (r: Result<(LinguisticVariable, FuzzySet)>)
    requires forall i, j :: 0 <= i < j < |d| ==> d[i].0 != d[j].0
    ensures r.Ok? <==> |d| > 0 && forall i :: 0 <= i < |d| ==> d[i].1 <= 1.0
    ensures r.Err? ==> r.error == if |d| == 0 then EmptyMax else AboveOne
    ensures r.Ok? ==>
      var (u, s) := r.value;
      && fresh(u) && u.name == name && u.sets == map[]
      && |u.values| == |d| && (forall i :: 0 <= i < |d| ==> u.values[i] == d[i].0)
      && s.lingVar == u && s.name == name && WellFormed(s)
      && forall i :: 0 <= i < |d| ==> d[i].0 in Membership(s) && Membership(s)[d[i].0] == d[i].1
  {
    var keys := seq(|d|, i requires 0 <= i < |d| => d[i].0);
    var degrees := seq(|d|, i requires 0 <= i < |d| => d[i].1);
    assert forall i :: 0 <= i < |d| ==> keys[i] == d[i].0 && degrees[i] == d[i].1;
    var u := new LinguisticVariable(keys, name);
    var s := NewFuzzySet(u, degrees, name);
    if s.Err? {
      return Err(s.error);
    }
    r := Ok((u, s.value));
  }

  // ---------------------------------------------------------------- alpha-cut

  /** The positions among the first `n` whose degree reaches `alpha`, in
      increasing order. */
  function CutPositions(ms: seq<real>, alpha: real, n: nat): (idx: seq<nat>)
    requires n <= |ms|
    ensures forall p :: 0 <= p < |idx| ==> idx[p] < n && ms[idx[p]] >= alpha
    ensures forall p, q :: 0 <= p < q < |idx| ==> idx[p] < idx[q]
    ensures forall i :: 0 <= i < n && ms[i] >= alpha ==> i in idx
  {
    if n == 0 then []
    else CutPositions(ms, alpha, n - 1) + (if ms[n - 1] >= alpha then [n - 1] else [])
  }

  /** The values among the first `n` of the domain whose degree reaches
      `alpha`: the list comprehension of alpha_cut, stopped after `n` values. */
  function Cut(xs: seq<real>, ms: seq<real>, alpha: real, n: nat): (r: seq<real>)
    requires n <= |xs| == |ms|
    ensures |r| == |CutPositions(ms, alpha, n)|
    ensures forall p :: 0 <= p < |r| ==> r[p] == xs[CutPositions(ms, alpha, n)[p]]
  {
    if n == 0 then []
    else Cut(xs, ms, alpha, n - 1) + (if ms[n - 1] >= alpha then [xs[n - 1]] else [])
  }

  /** alpha_cut: the domain values whose degree is at least `alpha`, in
      domain order: the values at the increasing positions of the qualifying
      degrees, and every qualifying value is listed. */
  function AlphaCut(a: FuzzySet, alpha: real): (r: seq<real>)
    requires WellFormed(a)
    ensures |r| == |CutPositions(a.degrees, alpha, |a.degrees|)|
    ensures forall p :: 0 <= p < |r| ==> r[p] == a.Values()[CutPositions(a.degrees, alpha, |a.degrees|)[p]]
    ensures forall x :: x in r <==>
      exists i :: 0 <= i < |a.degrees| && a.Values()[i] == x && a.degrees[i] >= alpha
  {
    var r := Cut(a.Values(), a.degrees, alpha, |a.degrees|);
    var idx := CutPositions(a.degrees, alpha, |a.degrees|);
    forall i | 0 <= i < |a.degrees| && a.degrees[i] >= alpha ensures a.Values()[i] in r {
      var p :| 0 <= p < |idx| && idx[p] == i;
      assert r[p] == a.Values()[i];
    }
    r
  }

  /** Raising the threshold of the cut only removes elements. */
  lemma {:induction false} CutShrinks(ms: seq<real>, lo: real, hi: real, n: nat)
    requires n <= |ms| && lo <= hi
    ensures |CutPositions(ms, hi, n)| <= |CutPositions(ms, lo, n)|
  {
    if n > 0 {
      CutShrinks(ms, lo, hi, n - 1);
    }
  }

  /** For a1 <= a2, the a2-cut is contained in the a1-cut and no longer. */
  lemma AlphaCutMonotone(a: FuzzySet, a1: real, a2: real)
    requires WellFormed(a) && a1 <= a2
    ensures forall x :: x in AlphaCut(a, a2) ==> x in AlphaCut(a, a1)
    ensures |AlphaCut(a, a2)| <= |AlphaCut(a, a1)|
  {
    CutShrinks(a.degrees, a1, a2, |a.degrees|);
  }

  // ------------------------------------------------------- element-wise operators

  /** `~a`: every degree m becomes 1 - m. The result goes through the
      constructor again, so it fails exactly when some degree is negative
      (then 1 - m exceeds 1). */
  function Complement(a: FuzzySet): (r: Result<FuzzySet>)
    requires WellFormed(a)
    ensures r.Ok? <==> forall i :: 0 <= i < |a.degrees| ==> a.degrees[i] >= 0.0
    ensures r.Err? ==> r.error == AboveOne
    ensures r.Ok? ==>
      && r.value.lingVar == a.lingVar && r.value.name == "not " + a.name && WellFormed(r.value)
      && |r.value.degrees| == |a.degrees|
      && forall i :: 0 <= i < |a.degrees| ==> r.value.degrees[i] + a.degrees[i] == 1.0
  {
    var d := seq(|a.degrees|, i requires 0 <= i < |a.degrees| => 1.0 - a.degrees[i]);
    assert forall i :: 0 <= i < |d| ==> (d[i] <= 1.0 <==> a.degrees[i] >= 0.0);
    NewFuzzySet(a.lingVar, d, "not " + a.name)
  }

  /** `a & b`: the pointwise minimum, over the identical variable only. */
  function Intersect(a: FuzzySet, b: FuzzySet): (r: Result<FuzzySet>)
    requires WellFormed(a) && WellFormed(b)
    ensures r.Ok? <==> a.lingVar == b.lingVar
    ensures r.Err? ==> r.error == VariableMismatch
    ensures r.Ok? ==>
      && r.value.lingVar == a.lingVar && r.value.name == a.name + " and " + b.name && WellFormed(r.value)
      && forall i :: 0 <= i < |a.degrees| ==>
           && r.value.degrees[i] <= a.degrees[i] && r.value.degrees[i] <= b.degrees[i]
           && (r.value.degrees[i] == a.degrees[i] || r.value.degrees[i] == b.degrees[i])
  {
    if a.lingVar != b.lingVar then Err(VariableMismatch)
    else NewFuzzySet(a.lingVar, seq(|a.degrees|, i requires 0 <= i < |a.degrees| => Min(a.degrees[i], b.degrees[i])),
                     a.name + " and " + b.name)
  }

  /** `a | b`: the pointwise maximum, over the identical variable only. */
  function Union(a: FuzzySet, b: FuzzySet): (r: Result<FuzzySet>)
    requires WellFormed(a) && WellFormed(b)
    ensures r.Ok? <==> a.lingVar == b.lingVar
    ensures r.Err? ==> r.error == VariableMismatch
    ensures r.Ok? ==>
      && r.value.lingVar == a.lingVar && r.value.name == a.name + " or " + b.name && WellFormed(r.value)
      && forall i :: 0 <= i < |a.degrees| ==>
           && a.degrees[i] <= r.value.degrees[i] && b.degrees[i] <= r.value.degrees[i]
           && (r.value.degrees[i] == a.degrees[i] || r.value.degrees[i] == b.degrees[i])
  {
    if a.lingVar != b.lingVar then Err(VariableMismatch)
    else NewFuzzySet(a.lingVar, seq(|a.degrees|, i requires 0 <= i < |a.degrees| => Max(a.degrees[i], b.degrees[i])),
                     a.name + " or " + b.name)
  }

  /** Complementing twice restores every degree (when the first complement
      succeeds, the second does too). */
  lemma DoubleComplement(a: FuzzySet)
    requires WellFormed(a) && Complement(a).Ok?
    ensures Complement(Complement(a).value).Ok?
    ensures Complement(Complement(a).value).value.degrees == a.degrees
    ensures Complement(Complement(a).value).value.lingVar == a.lingVar
  {
    var c := Complement(a).value;
    assert forall i :: 0 <= i < |c.degrees| ==> c.degrees[i] >= 0.0;
    var cc := Complement(c).value;
    assert |cc.degrees| == |a.degrees|;
    assert forall i :: 0 <= i < |a.degrees| ==> cc.degrees[i] == a.degrees[i];
  }

  /** Intersection and union are commutative on degrees. */
  lemma IntersectUnionCommute(a: FuzzySet, b: FuzzySet)
    requires WellFormed(a) && WellFormed(b) && a.lingVar == b.lingVar
    ensures Intersect(a, b).value.degrees == Intersect(b, a).value.degrees
    ensures Union(a, b).value.degrees == Union(b, a).value.degrees
  {
    var ab, ba := Intersect(a, b).value, Intersect(b, a).value;
    assert forall i :: 0 <= i < |ab.degrees| ==> ab.degrees[i] == ba.degrees[i];
    var ob, bo := Union(a, b).value, Union(b, a).value;
    assert forall i :: 0 <= i < |ob.degrees| ==> ob.degrees[i] == bo.degrees[i];
  }

  /** A & A and A | A have the degrees of A. */
  lemma IntersectUnionIdempotent(a: FuzzySet)
    requires WellFormed(a)
    ensures Intersect(a, a).value.degrees == a.degrees
    ensures Union(a, a).value.degrees == a.degrees
  {
    var i, u := Intersect(a, a).value, Union(a, a).value;
    assert |i.degrees| == |a.degrees|;
    assert |u.degrees| == |a.degrees|;
  }

  /** De Morgan: ~(A | B) has the degrees of ~A & ~B, whenever both
      complements exist. */
  lemma DeMorgan(a: FuzzySet, b: FuzzySet)
    requires WellFormed(a) && WellFormed(b) && a.lingVar == b.lingVar
    requires Complement(a).Ok? && Complement(b).Ok?
    ensures Complement(Union(a, b).value).Ok?
    ensures Intersect(Complement(a).value, Complement(b).value).Ok?
    ensures Complement(Union(a, b).value).value.degrees
         == Intersect(Complement(a).value, Complement(b).value).value.degrees
  {
    var u := Union(a, b).value;
    var ca, cb := Complement(a).value, Complement(b).value;
    forall i | 0 <= i < |u.degrees| ensures u.degrees[i] >= 0.0 {
      assert a.degrees[i] >= 0.0 && a.degrees[i] <= u.degrees[i];
    }
    var lhs := Complement(u).value;
    var rhs := Intersect(ca, cb).value;
    forall i | 0 <= i < |a.degrees| ensures lhs.degrees[i] == rhs.degrees[i] {
      assert lhs.degrees[i] + u.degrees[i] == 1.0;
      assert ca.degrees[i] + a.degrees[i] == 1.0;
      assert cb.degrees[i] + b.degrees[i] == 1.0;
    }
  }

  // -------------------------------------------------------- extension principle

  /** The domain values `f` maps to `o`, in domain order (the grouping list
      that FuzzySet.extend builds for `o`). */
  function Preimages(xs: seq<real>, f: real -> real, o: real): (r: seq<real>)
    ensures forall x :: x in r <==> x in xs && f(x) == o
  {
    if |xs| == 0 then []
    else
      var init := Preimages(xs[..|xs| - 1], f, o);
      assert forall x :: x in xs <==> x in xs[..|xs| - 1] || x == xs[|xs| - 1];
      init + (if f(xs[|xs| - 1]) == o then [xs[|xs| - 1]] else [])
  }

  /** The grouping loop of FuzzySet.extend: each image of `f` is mapped to
      the list of its preimages, and no other key is present. */
  method GroupPreimages(xs: seq<real>, f: real -> real) returns (out: map<real, seq<real>>)
    ensures forall o :: o in out <==> Preimages(xs, f, o) != []
    ensures forall o :: o in out ==> out[o] == Preimages(xs, f, o)
  {
    out := map[];
    for i := 0 to |xs|
      invariant forall o :: o in out <==> Preimages(xs[..i], f, o) != []
      invariant forall o :: o in out ==> out[o] == Preimages(xs[..i], f, o)
    {
      var o := f(xs[i]);
      assert xs[..i + 1][..i] == xs[..i];
      if o in out {
        out := out[o := out[o] + [xs[i]]];
      } else {
        out := out[o := [xs[i]]];
      }
    }
    assert xs[..|xs|] == xs;
  }

  /** The degrees of a list of domain values, looked up in the set's dictionary. */
  function DegreesOf(a: FuzzySet, xs: seq<real>): (r: seq<real>)
    requires WellFormed(a)
    requires forall x :: x in xs ==> x in a.Values()
    ensures |r| == |xs|
  {
    seq(|xs|, j requires 0 <= j < |xs| => Membership(a)[xs[j]])
  }

  /** The degree list FuzzySet.extend computes for the output domain `ys`:
      the minimum degree over the preimages of each output value, or a
      KeyError when some output value has no preimage. */
  function ExtendDegrees(a: FuzzySet, f: real -> real, ys: seq<real>): (r: Result<seq<real>>)
    requires WellFormed(a)
    ensures r.Ok? <==> forall j :: 0 <= j < |ys| ==> Preimages(a.Values(), f, ys[j]) != []
    ensures r.Err? ==> r.error == MissingPreimage
    ensures r.Ok? ==> |r.value| == |ys|
  {
    if exists j :: 0 <= j < |ys| && Preimages(a.Values(), f, ys[j]) == [] then Err(MissingPreimage)
    else Ok(seq(|ys|, j requires 0 <= j < |ys| => MinOf(DegreesOf(a, Preimages(a.Values(), f, ys[j])))))
  }

  /** The set FuzzySet.extend builds over a supplied output variable. */
  function ExtendSet(a: FuzzySet, f: real -> real, outVar: LinguisticVariable, outName: string): (r: Result<FuzzySet>)
    requires WellFormed(a) && Distinct(outVar.values)
    ensures (exists j :: 0 <= j < |outVar.values| && Preimages(a.Values(), f, outVar.values[j]) == []) ==>
      r == Err(MissingPreimage)
    ensures r.Ok? ==> && WellFormed(r.value) && r.value.lingVar == outVar && r.value.name == outName
                      && r.value.degrees == ExtendDegrees(a, f, outVar.values).value
  {
    match ExtendDegrees(a, f, outVar.values)
    case Err(e) => Err(e)
    case Ok(d) => NewFuzzySet(outVar, d, outName)
  }

  /** Each output degree is the minimum of the degrees of the output value's
      preimages: no preimage has a smaller degree, and one has exactly it. */
  lemma ExtendIsMinOverPreimages(a: FuzzySet, f: real -> real, ys: seq<real>, j: nat)
    requires WellFormed(a) && ExtendDegrees(a, f, ys).Ok? && j < |ys|
    ensures forall i :: 0 <= i < |a.degrees| && f(a.Values()[i]) == ys[j] ==>
      ExtendDegrees(a, f, ys).value[j] <= a.degrees[i]
    ensures exists i :: (0 <= i < |a.degrees| && f(a.Values()[i]) == ys[j] &&
      ExtendDegrees(a, f, ys).value[j] == a.degrees[i])
  {
    var xs := a.Values();
    var pre := Preimages(xs, f, ys[j]);
    assert pre != [];
    var ds := DegreesOf(a, pre);
    var m := ExtendDegrees(a, f, ys).value[j];
    assert m == MinOf(ds);
    forall i | 0 <= i < |a.degrees| && f(xs[i]) == ys[j]
      ensures m <= a.degrees[i]
    {
      assert xs[i] in pre;
      var k :| 0 <= k < |pre| && pre[k] == xs[i];
      assert ds[k] == Membership(a)[xs[i]] == a.degrees[i];
    }
    var k :| 0 <= k < |ds| && ds[k] == m;
    assert pre[k] in pre;
    var i :| 0 <= i < |xs| && xs[i] == pre[k];
    assert a.degrees[i] == Membership(a)[pre[k]] == m;
  }

  /** The degrees of an extension never exceed 1, as every input degree is at most 1. */
  lemma ExtendDegreesAtMostOne(a: FuzzySet, f: real -> real, ys: seq<real>)
    requires WellFormed(a) && ExtendDegrees(a, f, ys).Ok?
    ensures forall j :: 0 <= j < |ys| ==> ExtendDegrees(a, f, ys).value[j] <= 1.0
  {
    forall j | 0 <= j < |ys| ensures ExtendDegrees(a, f, ys).value[j] <= 1.0 {
      ExtendIsMinOverPreimages(a, f, ys, j);
    }
  }

  /** Over a supplied output variable, the extension succeeds exactly when
      that variable's domain is non-empty and every one of its values has a
      preimage. */
  lemma ExtendSetSucceeds(a: FuzzySet, f: real -> real, outVar: LinguisticVariable, outName: string)
    requires WellFormed(a) && Distinct(outVar.values)
    ensures ExtendSet(a, f, outVar, outName).Ok? <==>
      && |outVar.values| > 0
      && forall j :: 0 <= j < |outVar.values| ==> IsImage(a.Values(), f, outVar.values[j])
  {
    var xs := a.Values();
    forall j | 0 <= j < |outVar.values|
      ensures Preimages(xs, f, outVar.values[j]) != [] <==> IsImage(xs, f, outVar.values[j])
    {
      var y := outVar.values[j];
      if IsImage(xs, f, y) {
        var i :| 0 <= i < |xs| && f(xs[i]) == y;
        assert xs[i] in Preimages(xs, f, y);
      }
      if Preimages(xs, f, y) != [] {
        var x := Preimages(xs, f, y)[0];
        assert x in Preimages(xs, f, y);
        var i :| 0 <= i < |xs| && xs[i] == x;
      }
    }
    if ExtendDegrees(a, f, outVar.values).Ok? {
      ExtendDegreesAtMostOne(a, f, outVar.values);
    }
  }

  /** Extending through the variable that LinguisticVariable.extend builds
      for the same function never fails. */
  lemma ExtendOverImageDomainSucceeds(a: FuzzySet, f: real -> real, outVar: LinguisticVariable, outName: string)
    requires WellFormed(a)
    requires outVar.values == ImageDomain(a.Values(), f)
    ensures Distinct(outVar.values)
    ensures ExtendSet(a, f, outVar, outName).Ok?
  {
    ExtendSetSucceeds(a, f, outVar, outName);
    assert forall j :: 0 <= j < |outVar.values| ==> outVar.values[j] in ImageDomain(a.Values(), f);
  }

  /** FuzzySet.extend. Without an output variable the Python code reads
      `out_values` before assigning it, so that call always fails. With one,
      the new set is built and registered in the output variable. */
  method Extend(a: FuzzySet, f: real -> real, outName: string, outVar: LinguisticVariable?)
    returns (r: Result<(LinguisticVariable, FuzzySet)>)
    requires WellFormed(a)
    requires outVar != null ==> Distinct(outVar.values)
    modifies outVar
    ensures outVar == null ==> r == Err(UnboundOutValues)
    ensures outVar != null ==>
      && (r.Ok? <==> ExtendSet(a, f, outVar, outName).Ok?)
      && (r.Err? ==> r.error == ExtendSet(a, f, outVar, outName).error && outVar.sets == old(outVar.sets))
      && (r.Ok? ==> (r.value == (outVar, ExtendSet(a, f, outVar, outName).value)
                  && outVar.sets == old(outVar.sets)[outName := r.value.1]))
    ensures outVar != null && old(outVar.Valid()) ==> outVar.Valid()
  {
    var out := GroupPreimages(a.Values(), f);
    if outVar == null {
      return Err(UnboundOutValues);
    }
    var ys := outVar.values;
    if exists j :: 0 <= j < |ys| && ys[j] !in out {
      return Err(MissingPreimage);
    }
    assert forall j :: 0 <= j < |ys| ==> ys[j] in out && out[ys[j]] == Preimages(a.Values(), f, ys[j]) != [];
    var degrees := seq(|ys|, j requires 0 <= j < |ys| => MinOf(DegreesOf(a, out[ys[j]])));
    var spec := ExtendDegrees(a, f, ys);
    assert spec.Ok?;
    forall j | 0 <= j < |ys| ensures degrees[j] == spec.value[j] {
      assert out[ys[j]] == Preimages(a.Values(), f, ys[j]);
    }
    assert spec.value == degrees;
    var s := NewFuzzySet(outVar, degrees, outName);
    if s.Err? {
      return Err(s.error);
    }
    outVar.AddSet(s.value);
    r := Ok((outVar, s.value));
  }

  // --------------------------------------------------------- Cartesian product

  /** The product matrix of two degree lists. */
  function ProductMatrix(da: seq<real>, db: seq<real>): (m: seq<seq<real>>)
    ensures Shaped(m, |da|, |db|)
  {
    seq(|da|, i requires 0 <= i < |da| => seq(|db|, j requires 0 <= j < |db| => Min(da[i], db[j])))
  }

  /** cartesian_product: fills a zeroed |A| x |B| array cell by cell with
      min(a_i, b_j) and wraps it in a relation from A's variable to B's; the
      relation constructor's shape check always passes. */
  method CartesianProduct(a: FuzzySet, b: FuzzySet) returns (rel: FuzzyRelation)
    requires WellFormed(a) && WellFormed(b)
    ensures NewRelation(a.lingVar, b.lingVar, rel.arr) == Ok(rel)
    ensures rel.arr == ProductMatrix(a.degrees, b.degrees)
    ensures forall i, j :: 0 <= i < |a.degrees| && 0 <= j < |b.degrees| ==>
      && rel.arr[i][j] <= a.degrees[i] && rel.arr[i][j] <= b.degrees[j]
      && (rel.arr[i][j] == a.degrees[i] || rel.arr[i][j] == b.degrees[j])
  {
    var m, n := |a.degrees|, |b.degrees|;
    var arr := new real[m, n]((i, j) => 0.0);
    for i := 0 to m
      invariant forall p, q :: 0 <= p < i && 0 <= q < n ==> arr[p, q] == Min(a.degrees[p], b.degrees[q])
    {
      for j := 0 to n
        invariant forall p, q :: 0 <= p < i && 0 <= q < n ==> arr[p, q] == Min(a.degrees[p], b.degrees[q])
        invariant forall q :: 0 <= q < j ==> arr[i, q] == Min(a.degrees[i], b.degrees[q])
      {
        arr[i, j] := Min(a.degrees[i], b.degrees[j]);
      }
    }
    var rows := Rows(arr);
    forall i | 0 <= i < m ensures rows[i] == ProductMatrix(a.degrees, b.degrees)[i] {
      assert forall j :: 0 <= j < n ==> rows[i][j] == ProductMatrix(a.degrees, b.degrees)[i][j];
    }
    var made := NewRelation(a.lingVar, b.lingVar, rows);
    rel := made.value;
  }
}
