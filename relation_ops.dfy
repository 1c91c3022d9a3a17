/** The operators of FuzzyRelation (FuzzyEngine/Fuzzy.py:190-243): max-min and
    max-product composition, `*`, and element-wise intersection and union. */
module RelationOps {
  import opened Common
  import opened Fuzzy

  /** A is |A| x |B| and B is |B| x n, so the composition of A with B is defined. */
  predicate Conformable(A: seq<seq<real>>, B: seq<seq<real>>, n: nat)
  {
    && (forall i :: 0 <= i < |A| ==> |A[i]| == |B|)
    && (forall k :: 0 <= k < |B| ==> |B[k]| == n)
  }

  /** max over k of min(A[i][k], B[k][j]). */
  function MaxMinCell(A: seq<seq<real>>, B: seq<seq<real>>, n: nat, i: nat, j: nat): (c: real)
    requires Conformable(A, B, n) && |B| > 0 && i < |A| && j < n
    ensures forall k :: 0 <= k < |B| ==> Min(A[i][k], B[k][j]) <= c
    ensures exists k :: 0 <= k < |B| && Min(A[i][k], B[k][j]) == c
  {
    var col := seq(|B|, k requires 0 <= k < |B| => Min(A[i][k], B[k][j]));
    assert forall k :: 0 <= k < |B| ==> col[k] == Min(A[i][k], B[k][j]);
    MaxOf(col)
  }

  /** max over k of A[i][k] * B[k][j]. */
  function MaxProductCell(A: seq<seq<real>>, B: seq<seq<real>>, n: nat, i: nat, j: nat): (c: real)
    requires Conformable(A, B, n) && |B| > 0 && i < |A| && j < n
    ensures forall k :: 0 <= k < |B| ==> A[i][k] * B[k][j] <= c
    ensures exists k :: 0 <= k < |B| && A[i][k] * B[k][j] == c
  {
    var col := seq(|B|, k requires 0 <= k < |B| => A[i][k] * B[k][j]);
    assert forall k :: 0 <= k < |B| ==> col[k] == A[i][k] * B[k][j];
    MaxOf(col)
  }

  /** The inner max() has something to reduce, or no cell is ever computed. */
  predicate Reducible(rows: nat, inner: nat, cols: nat)
  {
    inner > 0 || rows == 0 || cols == 0
  }

  /** The max-min composition of two matrices. */
  function MaxMinMatrix(A: seq<seq<real>>, B: seq<seq<real>>, n: nat): (M: seq<seq<real>>)
    requires Conformable(A, B, n) && Reducible(|A|, |B|, n)
    ensures Shaped(M, |A|, n)
    ensures forall i, j :: 0 <= i < |A| && 0 <= j < n ==> M[i][j] == MaxMinCell(A, B, n, i, j)
  {
    seq(|A|, i requires 0 <= i < |A| => seq(n, j requires 0 <= j < n => MaxMinCell(A, B, n, i, j)))
  }

  /** The max-product composition of two matrices. */
  function MaxProductMatrix(A: seq<seq<real>>, B: seq<seq<real>>, n: nat): (M: seq<seq<real>>)
    requires Conformable(A, B, n) && Reducible(|A|, |B|, n)
    ensures Shaped(M, |A|, n)
    ensures forall i, j :: 0 <= i < |A| && 0 <= j < n ==> M[i][j] == MaxProductCell(A, B, n, i, j)
  {
    seq(|A|, i requires 0 <= i < |A| => seq(n, j requires 0 <= j < n => MaxProductCell(A, B, n, i, j)))
  }

  /** max_min: requires self.tgt to be that.src (identity), fills a zeroed
      |src| x |that.tgt| array cell by cell, and wraps it in a relation from
      self.src to that.tgt. With an empty middle domain the first cell's
      max() fails. */
  method MaxMin(r: FuzzyRelation, s: FuzzyRelation) returns (res: Result<FuzzyRelation>)
    requires WellShaped(r) && WellShaped(s)
    ensures r.tgt != s.src ==> res == Err(VariableMismatch)
    ensures r.tgt == s.src && !Reducible(|r.src.values|, |r.tgt.values|, |s.tgt.values|) ==> res == Err(EmptyMax)
    ensures r.tgt == s.src && Reducible(|r.src.values|, |r.tgt.values|, |s.tgt.values|) ==>
      && res == NewRelation(r.src, s.tgt, MaxMinMatrix(r.arr, s.arr, |s.tgt.values|))
      && res.Ok?
  {
    if r.tgt != s.src {
      return Err(VariableMismatch);
    }
    var m, n, inner := |r.src.values|, |s.tgt.values|, |r.tgt.values|;
    var arr := new real[m, n]((i, j) => 0.0);
    for i := 0 to m
      invariant i > 0 && n > 0 ==> inner > 0
      invariant forall p, q :: 0 <= p < i && 0 <= q < n ==> arr[p, q] == MaxMinCell(r.arr, s.arr, n, p, q)
    {
      for j := 0 to n
        invariant j > 0 ==> inner > 0
        invariant i > 0 && n > 0 ==> inner > 0
        invariant forall p, q :: 0 <= p < i && 0 <= q < n ==> arr[p, q] == MaxMinCell(r.arr, s.arr, n, p, q)
        invariant forall q :: 0 <= q < j ==> arr[i, q] == MaxMinCell(r.arr, s.arr, n, i, q)
      {
        if inner == 0 {
          return Err(EmptyMax);
        }
        arr[i, j] := MaxMinCell(r.arr, s.arr, n, i, j);
      }
    }
    var rows := Rows(arr);
    var spec := MaxMinMatrix(r.arr, s.arr, n);
    forall i | 0 <= i < m ensures rows[i] == spec[i] {
      assert forall j :: 0 <= j < n ==> rows[i][j] == spec[i][j];
    }
    assert rows == spec;
    res := NewRelation(r.src, s.tgt, rows);
  }

  /** max_product: as max_min, with the product in place of min. */
  method MaxProduct(r: FuzzyRelation, s: FuzzyRelation) returns (res: Result<FuzzyRelation>)
    requires WellShaped(r) && WellShaped(s)
    ensures r.tgt != s.src ==> res == Err(VariableMismatch)
    ensures r.tgt == s.src && !Reducible(|r.src.values|, |r.tgt.values|, |s.tgt.values|) ==> res == Err(EmptyMax)
    ensures r.tgt == s.src && Reducible(|r.src.values|, |r.tgt.values|, |s.tgt.values|) ==>
      && res == NewRelation(r.src, s.tgt, MaxProductMatrix(r.arr, s.arr, |s.tgt.values|))
      && res.Ok?
  {
    if r.tgt != s.src {
      return Err(VariableMismatch);
    }
    var m, n, inner := |r.src.values|, |s.tgt.values|, |r.tgt.values|;
    var arr := new real[m, n]((i, j) => 0.0);
    for i := 0 to m
      invariant i > 0 && n > 0 ==> inner > 0
      invariant forall p, q :: 0 <= p < i && 0 <= q < n ==> arr[p, q] == MaxProductCell(r.arr, s.arr, n, p, q)
    {
      for j := 0 to n
        invariant j > 0 ==> inner > 0
        invariant i > 0 && n > 0 ==> inner > 0
        invariant forall p, q :: 0 <= p < i && 0 <= q < n ==> arr[p, q] == MaxProductCell(r.arr, s.arr, n, p, q)
        invariant forall q :: 0 <= q < j ==> arr[i, q] == MaxProductCell(r.arr, s.arr, n, i, q)
      {
        if inner == 0 {
          return Err(EmptyMax);
        }
        arr[i, j] := MaxProductCell(r.arr, s.arr, n, i, j);
      }
    }
    var rows := Rows(arr);
    var spec := MaxProductMatrix(r.arr, s.arr, n);
    forall i | 0 <= i < m ensures rows[i] == spec[i] {
      assert forall j :: 0 <= j < n ==> rows[i][j] == spec[i][j];
    }
    assert rows == spec;
    res := NewRelation(r.src, s.tgt, rows);
  }

  /** `r * s`: the same identity check, then max_min. */
  method Mul(r: FuzzyRelation, s: FuzzyRelation) returns (res: Result<FuzzyRelation>)
    requires WellShaped(r) && WellShaped(s)
    ensures r.tgt != s.src ==> res == Err(VariableMismatch)
    ensures r.tgt == s.src && !Reducible(|r.src.values|, |r.tgt.values|, |s.tgt.values|) ==> res == Err(EmptyMax)
    ensures r.tgt == s.src && Reducible(|r.src.values|, |r.tgt.values|, |s.tgt.values|) ==>
      res == NewRelation(r.src, s.tgt, MaxMinMatrix(r.arr, s.arr, |s.tgt.values|))
  {
    if r.tgt != s.src {
      return Err(VariableMismatch);
    }
    res := MaxMin(r, s);
  }

  // ------------------------------------------------------------ associativity

  /** min(A[i][k], B[k][l], C[l][j]): the strength of the path i -> k -> l -> j. */
  function Chain(A: seq<seq<real>>, B: seq<seq<real>>, C: seq<seq<real>>, i: nat, k: nat, l: nat, j: nat): real
    requires i < |A| && k < |A[i]| && k < |B| && l < |B[k]| && l < |C| && j < |C[l]|
  {
    Min(A[i][k], Min(B[k][l], C[l][j]))
  }

  /** The shapes under which (A o B) o C and A o (B o C) are both defined. */
  predicate Chainable(A: seq<seq<real>>, B: seq<seq<real>>, C: seq<seq<real>>, q: nat, n: nat)
  {
    && |B| > 0 && q > 0
    && Conformable(A, B, q)
    && Conformable(B, C, n)
    && |C| == q
  }

  /** ((A o B) o C)[i][j] is at least every path strength through (k, l). */
  lemma LeftComposeBounds(A: seq<seq<real>>, B: seq<seq<real>>, C: seq<seq<real>>, q: nat, n: nat, i: nat, j: nat, k: nat, l: nat)
    requires Chainable(A, B, C, q, n) && i < |A| && j < n && k < |B| && l < q
    ensures Chain(A, B, C, i, k, l, j) <= MaxMinCell(MaxMinMatrix(A, B, q), C, n, i, j)
  {
    var AB := MaxMinMatrix(A, B, q);
    var inner := seq(|B|, k' requires 0 <= k' < |B| => Min(A[i][k'], B[k'][l]));
    assert inner[k] <= MaxOf(inner) == AB[i][l];
    var outer := seq(q, l' requires 0 <= l' < q => Min(AB[i][l'], C[l'][j]));
    assert outer[l] <= MaxOf(outer);
  }

  /** ((A o B) o C)[i][j] is the strength of one path. */
  lemma LeftComposeAttained(A: seq<seq<real>>, B: seq<seq<real>>, C: seq<seq<real>>, q: nat, n: nat, i: nat, j: nat)
    returns (k: nat, l: nat)
    requires Chainable(A, B, C, q, n) && i < |A| && j < n
    ensures k < |B| && l < q
    ensures MaxMinCell(MaxMinMatrix(A, B, q), C, n, i, j) == Chain(A, B, C, i, k, l, j)
  {
    var AB := MaxMinMatrix(A, B, q);
    var outer := seq(q, l' requires 0 <= l' < q => Min(AB[i][l'], C[l'][j]));
    l :| 0 <= l < q && outer[l] == MaxOf(outer);
    var inner := seq(|B|, k' requires 0 <= k' < |B| => Min(A[i][k'], B[k'][l]));
    assert AB[i][l] == MaxOf(inner);
    k :| 0 <= k < |B| && inner[k] == MaxOf(inner);
  }

  /** (A o (B o C))[i][j] is at least every path strength through (k, l). */
  lemma RightComposeBounds(A: seq<seq<real>>, B: seq<seq<real>>, C: seq<seq<real>>, q: nat, n: nat, i: nat, j: nat, k: nat, l: nat)
    requires Chainable(A, B, C, q, n) && i < |A| && j < n && k < |B| && l < q
    ensures Chain(A, B, C, i, k, l, j) <= MaxMinCell(A, MaxMinMatrix(B, C, n), n, i, j)
  {
    var BC := MaxMinMatrix(B, C, n);
    var inner := seq(q, l' requires 0 <= l' < q => Min(B[k][l'], C[l'][j]));
    assert inner[l] <= MaxOf(inner) == BC[k][j];
    var outer := seq(|B|, k' requires 0 <= k' < |B| => Min(A[i][k'], BC[k'][j]));
    assert outer[k] <= MaxOf(outer);
  }

  /** (A o (B o C))[i][j] is the strength of one path. */
  lemma RightComposeAttained(A: seq<seq<real>>, B: seq<seq<real>>, C: seq<seq<real>>, q: nat, n: nat, i: nat, j: nat)
    returns (k: nat, l: nat)
    requires Chainable(A, B, C, q, n) && i < |A| && j < n
    ensures k < |B| && l < q
    ensures MaxMinCell(A, MaxMinMatrix(B, C, n), n, i, j) == Chain(A, B, C, i, k, l, j)
  {
    var BC := MaxMinMatrix(B, C, n);
    var outer := seq(|B|, k' requires 0 <= k' < |B| => Min(A[i][k'], BC[k'][j]));
    k :| 0 <= k < |B| && outer[k] == MaxOf(outer);
    var inner := seq(q, l' requires 0 <= l' < q => Min(B[k][l'], C[l'][j]));
    assert BC[k][j] == MaxOf(inner);
    l :| 0 <= l < q && inner[l] == MaxOf(inner);
  }

  /** Max-min composition is associative: both bracketings give, at every
      cell, the strongest path through the two middle domains. */
  lemma MaxMinAssociative(A: seq<seq<real>>, B: seq<seq<real>>, C: seq<seq<real>>, q: nat, n: nat)
    requires Chainable(A, B, C, q, n)
    ensures Conformable(MaxMinMatrix(A, B, q), C, n) && Conformable(A, MaxMinMatrix(B, C, n), n)
    ensures MaxMinMatrix(MaxMinMatrix(A, B, q), C, n) == MaxMinMatrix(A, MaxMinMatrix(B, C, n), n)
  {
    var left := MaxMinMatrix(MaxMinMatrix(A, B, q), C, n);
    var right := MaxMinMatrix(A, MaxMinMatrix(B, C, n), n);
    forall i, j | 0 <= i < |A| && 0 <= j < n ensures left[i][j] == right[i][j] {
      var k1, l1 := LeftComposeAttained(A, B, C, q, n, i, j);
      var k2, l2 := RightComposeAttained(A, B, C, q, n, i, j);
      LeftComposeBounds(A, B, C, q, n, i, j, k2, l2);
      RightComposeBounds(A, B, C, q, n, i, j, k1, l1);
    }
    forall i | 0 <= i < |A| ensures left[i] == right[i] {
    }
  }

  // ------------------------------------------------------------ degree bounds

  lemma ProductBelowMin(a: real, b: real)
    requires 0.0 <= a <= 1.0 && 0.0 <= b <= 1.0
    ensures 0.0 <= a * b <= Min(a, b)
  {
    MulNonNegative(a, b);
    MulNonNegative(a, 1.0 - b);
    MulNonNegative(b, 1.0 - a);
    assert a * (1.0 - b) == a - a * b;
    assert b * (1.0 - a) == b - a * b;
  }

  /** max() is monotone under an entry-wise bound. */
  lemma MaxOfMonotone(s: seq<real>, t: seq<real>)
    requires |s| == |t| > 0
    requires forall k :: 0 <= k < |s| ==> s[k] <= t[k]
    ensures MaxOf(s) <= MaxOf(t)
  {
    var k :| 0 <= k < |s| && s[k] == MaxOf(s);
    assert t[k] <= MaxOf(t);
  }

  /** One cell of the comparison below. */
  lemma MaxProductCellBelowMaxMinCell(A: seq<seq<real>>, B: seq<seq<real>>, n: nat, i: nat, j: nat)
    requires Conformable(A, B, n) && |B| > 0 && i < |A| && j < n
    requires InUnitInterval(A) && InUnitInterval(B)
    ensures 0.0 <= MaxProductCell(A, B, n, i, j) <= MaxMinCell(A, B, n, i, j) <= 1.0
  {
    var mins := seq(|B|, k requires 0 <= k < |B| => Min(A[i][k], B[k][j]));
    var prods := seq(|B|, k requires 0 <= k < |B| => A[i][k] * B[k][j]);
    forall k | 0 <= k < |B| ensures 0.0 <= prods[k] <= mins[k] <= 1.0 {
      assert 0.0 <= A[i][k] <= 1.0 && 0.0 <= B[k][j] <= 1.0;
      ProductBelowMin(A[i][k], B[k][j]);
    }
    MaxOfMonotone(prods, mins);
    assert prods[0] <= MaxOf(prods);
    var k :| 0 <= k < |B| && mins[k] == MaxOf(mins);
  }

  /** On degrees in [0, 1], max-product never exceeds max-min, and both stay in [0, 1]. */
  lemma MaxProductBelowMaxMin(A: seq<seq<real>>, B: seq<seq<real>>, n: nat)
    requires Conformable(A, B, n) && Reducible(|A|, |B|, n)
    requires InUnitInterval(A) && InUnitInterval(B)
    ensures InUnitInterval(MaxMinMatrix(A, B, n))
    ensures InUnitInterval(MaxProductMatrix(A, B, n))
    ensures forall i, j :: 0 <= i < |A| && 0 <= j < n ==>
      MaxProductMatrix(A, B, n)[i][j] <= MaxMinMatrix(A, B, n)[i][j]
  {
    var mm, mp := MaxMinMatrix(A, B, n), MaxProductMatrix(A, B, n);
    forall i, j | 0 <= i < |A| && 0 <= j < n
      ensures 0.0 <= mp[i][j] <= mm[i][j] <= 1.0
    {
      MaxProductCellBelowMaxMinCell(A, B, n, i, j);
    }
  }

  // ------------------------------------------- element-wise intersection and union

  /** The element-wise combination of two equally shaped matrices. */
  function Elementwise(A: seq<seq<real>>, B: seq<seq<real>>, op: (real, real) -> real): (M: seq<seq<real>>)
    requires |A| == |B| && forall i :: 0 <= i < |A| ==> |A[i]| == |B[i]|
    ensures |M| == |A| && forall i :: 0 <= i < |A| ==> |M[i]| == |A[i]|
    ensures forall i, j :: 0 <= i < |A| && 0 <= j < |A[i]| ==> M[i][j] == op(A[i][j], B[i][j])
  {
    seq(|A|, i requires 0 <= i < |A| => seq(|A[i]|, j requires 0 <= j < |A[i]| => op(A[i][j], B[i][j])))
  }

  /** Relation `&` as the source writes it: `a == b & c == d` parses as a
      chained comparison around `b & c`, and `&` is not defined between two
      linguistic variables, so every call raises TypeError. */
  function RelationAndAsWritten(r: FuzzyRelation, s: FuzzyRelation): (res: Result<FuzzyRelation>)
    ensures res == Err(UnsupportedOperand)
  {
    Err(UnsupportedOperand)
  }

  /** Relation `|` as the source writes it: fails for the same reason. */
  function RelationOrAsWritten(r: FuzzyRelation, s: FuzzyRelation): (res: Result<FuzzyRelation>)
    ensures res == Err(UnsupportedOperand)
  {
    Err(UnsupportedOperand)
  }

  /** Relation `&` as intended: element-wise min, over identical source and
      target variables only. */
  function RelationIntersect(r: FuzzyRelation, s: FuzzyRelation): (res: Result<FuzzyRelation>)
    requires WellShaped(r) && WellShaped(s)
    ensures res.Ok? <==> r.src == s.src && r.tgt == s.tgt
    ensures res.Err? ==> res.error == VariableMismatch
    ensures res.Ok? ==>
      && res.value.src == r.src && res.value.tgt == r.tgt && WellShaped(res.value)
      && forall i, j :: 0 <= i < |r.arr| && 0 <= j < |r.arr[i]| ==>
           && res.value.arr[i][j] <= r.arr[i][j] && res.value.arr[i][j] <= s.arr[i][j]
           && (res.value.arr[i][j] == r.arr[i][j] || res.value.arr[i][j] == s.arr[i][j])
  {
    if r.src != s.src || r.tgt != s.tgt then Err(VariableMismatch)
    else NewRelation(r.src, r.tgt, Elementwise(r.arr, s.arr, Min))
  }

  /** Relation `|` as intended: element-wise max, over identical source and
      target variables only. */
  function RelationUnion(r: FuzzyRelation, s: FuzzyRelation): (res: Result<FuzzyRelation>)
    requires WellShaped(r) && WellShaped(s)
    ensures res.Ok? <==> r.src == s.src && r.tgt == s.tgt
    ensures res.Err? ==> res.error == VariableMismatch
    ensures res.Ok? ==>
      && res.value.src == r.src && res.value.tgt == r.tgt && WellShaped(res.value)
      && forall i, j :: 0 <= i < |r.arr| && 0 <= j < |r.arr[i]| ==>
           && r.arr[i][j] <= res.value.arr[i][j] && s.arr[i][j] <= res.value.arr[i][j]
           && (res.value.arr[i][j] == r.arr[i][j] || res.value.arr[i][j] == s.arr[i][j])
  {
    if r.src != s.src || r.tgt != s.tgt then Err(VariableMismatch)
    else NewRelation(r.src, r.tgt, Elementwise(r.arr, s.arr, Max))
  }

  /** The intended relation `&` and `|` are idempotent and commutative, while
      the operators as written fail on every pair, R & R included. */
  lemma RelationAndOrPrecedence(r: FuzzyRelation, s: FuzzyRelation)
    requires WellShaped(r) && WellShaped(s) && r.src == s.src && r.tgt == s.tgt
    ensures RelationAndAsWritten(r, r).Err? && RelationOrAsWritten(r, r).Err?
    ensures RelationIntersect(r, r) == Ok(r) && RelationUnion(r, r) == Ok(r)
    ensures RelationIntersect(r, s).value.arr == RelationIntersect(s, r).value.arr
    ensures RelationUnion(r, s).value.arr == RelationUnion(s, r).value.arr
  {
    var ii, uu := RelationIntersect(r, r).value, RelationUnion(r, r).value;
    forall i | 0 <= i < |r.arr| ensures ii.arr[i] == r.arr[i] && uu.arr[i] == r.arr[i] {
      assert forall j :: 0 <= j < |r.arr[i]| ==> ii.arr[i][j] == r.arr[i][j] && uu.arr[i][j] == r.arr[i][j];
    }
    assert ii.arr == r.arr && uu.arr == r.arr;
    var rs, sr := RelationIntersect(r, s).value, RelationIntersect(s, r).value;
    forall i | 0 <= i < |r.arr| ensures rs.arr[i] == sr.arr[i] {
      assert forall j :: 0 <= j < |r.arr[i]| ==> rs.arr[i][j] == sr.arr[i][j];
    }
    var ors, osr := RelationUnion(r, s).value, RelationUnion(s, r).value;
    forall i | 0 <= i < |r.arr| ensures ors.arr[i] == osr.arr[i] {
      assert forall j :: 0 <= j < |r.arr[i]| ==> ors.arr[i][j] == osr.arr[i][j];
    }
  }
}
