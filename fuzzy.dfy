/** The three entities of the engine (FuzzyEngine/Fuzzy.py): linguistic
    variables, fuzzy sets over them and fuzzy relations between two of them,
    with the checks their constructors make. */
module Fuzzy {
  import opened Common

  /** An ordered domain and a mutable registry of named fuzzy sets over it.
      Python compares variables by identity, as Dafny compares references. */
  class LinguisticVariable {
    const name: string
    const values: seq<real>
    var sets: map<string, FuzzySet>

    /** Every registered set is stored under its own name, lies over this
        variable and passed the construction checks. */
    ghost predicate Valid()
      reads this
    {
      && Distinct(values)
      && forall n | n in sets :: sets[n].name == n && sets[n].lingVar == this && WellFormed(sets[n])
    }

    constructor (values: seq<real>, name: string)
      ensures this.values == values && this.name == name && sets == map[]
      ensures Distinct(values) ==> Valid()
    {
      this.values := values;
      this.name := name;
      sets := map[];
    }

    /** make_set_fn: evaluate a membership function at every domain value
        and register the resulting set under `setName`. */
    method MakeSetFn(memFun: real -> real, setName: string) returns (r: Result<FuzzySet>)
      requires Distinct(values)
      modifies this
      ensures r == NewFuzzySet(this, Pointwise(memFun, values), setName)
      ensures r.Ok? ==> forall i :: 0 <= i < |values| ==> r.value.degrees[i] == memFun(values[i])
      ensures sets == if r.Ok? then old(sets)[setName := r.value] else old(sets)
      ensures old(Valid()) ==> Valid()
    {
      r := MakeSet(Pointwise(memFun, values), setName);
    }

    /** make_set: register a set built from a degree list aligned with the
        domain. A failed construction leaves the registry as it was. */
    method MakeSet(degrees: seq<real>, setName: string) returns (r: Result<FuzzySet>)
      requires Distinct(values)
      modifies this
      ensures r == NewFuzzySet(this, degrees, setName)
      ensures sets == if r.Ok? then old(sets)[setName := r.value] else old(sets)
      ensures old(Valid()) ==> Valid()
    {
      r := NewFuzzySet(this, degrees, setName);
      if r.Ok? {
        sets := sets[setName := r.value];
      }
    }

    /** add_set: store a set under its own name, overwriting any entry of
        that name; no check that the set lies over this variable. */
    method AddSet(s: FuzzySet)
      modifies this
      ensures sets == old(sets)[s.name := s]
      ensures old(Valid()) && s.lingVar == this && WellFormed(s) ==> Valid()
    {
      sets := sets[s.name := s];
    }

    /** extend: a new variable whose domain is the sorted, duplicate-free
        list of the images of `f` over this domain. */
    method Extend(f: real -> real, outName: string) returns (out: LinguisticVariable)
      ensures fresh(out)
      ensures out.values == ImageDomain(values, f) && out.name == outName && out.sets == map[]
      ensures out.Valid()
    {
      out := new LinguisticVariable(ImageDomain(values, f), outName);
    }
  }

  /** A fuzzy set: one degree per domain value of its variable, in domain order. */
  datatype FuzzySet = FuzzySet(name: string, lingVar: LinguisticVariable, degrees: seq<real>)
  {
    function Values(): seq<real> { lingVar.values }
  }

  /** A fuzzy relation: a matrix with a row per source value and a column per target value. */
  datatype FuzzyRelation = FuzzyRelation(src: LinguisticVariable, tgt: LinguisticVariable, arr: seq<seq<real>>)

  /** What a FuzzySet that passed its constructor satisfies. */
  predicate WellFormed(a: FuzzySet)
  {
    && Distinct(a.Values())
    && |a.degrees| == |a.Values()|
    && |a.degrees| > 0
    && forall i :: 0 <= i < |a.degrees| ==> a.degrees[i] <= 1.0
  }

  /** What a FuzzyRelation that passed its constructor satisfies. */
  predicate WellShaped(r: FuzzyRelation)
  {
    Shaped(r.arr, |r.src.values|, |r.tgt.values|)
  }

  /** The list comprehension applying `f` to each domain value in order. */
  function Pointwise(f: real -> real, xs: seq<real>): (r: seq<real>)
    ensures |r| == |xs| && forall i :: 0 <= i < |xs| ==> r[i] == f(xs[i])
  {
    seq(|xs|, i requires 0 <= i < |xs| => f(xs[i]))
  }

  /** FuzzySet's constructor: the degree list must have one entry per
      domain value, must be non-empty (max() of it is taken) and no degree
      may exceed 1. There is no lower bound. */
  function NewFuzzySet(lv: LinguisticVariable, degrees: seq<real>, name: string): (r: Result<FuzzySet>)
    requires Distinct(lv.values)
    ensures r.Ok? <==>
      && |degrees| == |lv.values|
      && |degrees| > 0
      && forall i :: 0 <= i < |degrees| ==> degrees[i] <= 1.0
    ensures r.Ok? ==> r.value == FuzzySet(name, lv, degrees) && WellFormed(r.value)
    ensures r.Err? ==> r.error == if |degrees| != |lv.values| then LengthMismatch
                                 else if |degrees| == 0 then EmptyMax
                                 else AboveOne
  {
    if |degrees| != |lv.values| then Err(LengthMismatch)
    else if |degrees| == 0 then Err(EmptyMax)
    else if MaxOf(degrees) > 1.0 then Err(AboveOne)
    else Ok(FuzzySet(name, lv, degrees))
  }

  /** The set's dictionary: each domain value mapped to its degree. */
  function Membership(a: FuzzySet): (m: map<real, real>)
    requires WellFormed(a)
    ensures forall x :: x in m <==> x in a.Values()
    ensures forall i :: 0 <= i < |a.degrees| ==> m[a.Values()[i]] == a.degrees[i]
  {
    var m := map i | 0 <= i < |a.degrees| :: a.Values()[i] := a.degrees[i];
    assert forall x :: x in a.Values() ==> x in m by {
      forall x | x in a.Values() ensures x in m {
        var i :| 0 <= i < |a.Values()| && a.Values()[i] == x;
      }
    }
    m
  }

  /** FuzzyRelation's constructor: the row count must match the source
      domain and every row must have one entry per target value. */
  function NewRelation(src: LinguisticVariable, tgt: LinguisticVariable, arr: seq<seq<real>>): (r: Result<FuzzyRelation>)
    ensures r.Ok? <==> Shaped(arr, |src.values|, |tgt.values|)
    ensures r.Ok? ==> r.value == FuzzyRelation(src, tgt, arr) && WellShaped(r.value)
    ensures r.Err? ==> r.error == if |arr| != |src.values| then RowCountMismatch else ColumnCountMismatch
  {
    if |arr| != |src.values| then Err(RowCountMismatch)
    else if exists i :: 0 <= i < |arr| && |arr[i]| != |tgt.values| then Err(ColumnCountMismatch)
    else Ok(FuzzyRelation(src, tgt, arr))
  }

  /** `y` is the image under `f` of some value of the domain. */
  ghost predicate IsImage(xs: seq<real>, f: real -> real, y: real)
  {
    exists i :: 0 <= i < |xs| && f(xs[i]) == y
  }

  /** numpy.unique of the images of `f`: sorted, without duplicates, and
      holding exactly the values some domain element maps to. */
  function ImageDomain(xs: seq<real>, f: real -> real): (r: seq<real>)
    ensures StrictlyIncreasing(r)
    ensures forall y :: y in r <==> IsImage(xs, f, y)
    ensures |xs| > 0 ==> |r| > 0
  {
    if |xs| == 0 then []
    else
      var init := xs[..|xs| - 1];
      var rest := ImageDomain(init, f);
      assert forall y :: IsImage(init, f, y) ==> IsImage(xs, f, y) by {
        forall y | IsImage(init, f, y) ensures IsImage(xs, f, y) {
          var i :| 0 <= i < |init| && f(init[i]) == y;
          assert f(xs[i]) == y;
        }
      }
      assert forall y :: IsImage(xs, f, y) ==> IsImage(init, f, y) || y == f(xs[|xs| - 1]) by {
        forall y | IsImage(xs, f, y) ensures IsImage(init, f, y) || y == f(xs[|xs| - 1]) {
          var i :| 0 <= i < |xs| && f(xs[i]) == y;
          if i < |xs| - 1 {
            assert f(init[i]) == y;
          }
        }
      }
      assert IsImage(xs, f, f(xs[|xs| - 1]));
      Insert(rest, f(xs[|xs| - 1]))
  }

  /** Insert `y` into a strictly increasing list unless it is already there. */
  function Insert(s: seq<real>, y: real): (r: seq<real>)
    requires StrictlyIncreasing(s)
    ensures StrictlyIncreasing(r)
    ensures forall z :: z in r <==> z in s || z == y
  {
    if |s| == 0 then [y]
    else if y < s[0] then [y] + s
    else if y == s[0] then s
    else
      var rest := Insert(s[1..], y);
      assert forall z :: z in s <==> z == s[0] || z in s[1..];
      assert forall k :: 0 <= k < |rest| ==> s[0] < rest[k] by {
        forall k | 0 <= k < |rest| ensures s[0] < rest[k] {
          assert rest[k] in rest;
        }
      }
      [s[0]] + rest
  }
}
