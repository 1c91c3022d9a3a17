# Fuzzy-set algebra engine in Dafny

A model of the discrete fuzzy-set engine `FuzzyEngine/Fuzzy.py`. It has
three entities:

- **Linguistic variable**: a finite, ordered domain of values with a
  mutable registry of named fuzzy sets. It is a Dafny `class`, because
  Python compares variables by identity and the registry is updated in
  place.
- **Fuzzy set**: one degree per domain value, in domain order.
- **Fuzzy relation**: a dense matrix from one variable's domain to
  another's.

The two values are Dafny `datatype`s. Degrees and domain values are exact
`real`s. A matrix is a list of rows.

Every operation that can raise in Python returns a `Result`. Its `Error`
names the exception:
- a failed assertion: length, maximum above 1, variable identity, matrix
  shape;
- `max()` of an empty list;
- `KeyError`, `UnboundLocalError`, `ZeroDivisionError`, `TypeError`.

How each part of the source is modelled:
- Loops that update variables become methods with loop invariants. Each
  is proved against a specification function:
  - the grouping loop of the extension principle;
  - the nested loops of the Cartesian product and of the compositions,
    which fill a zeroed `array2`;
  - the three defuzzifiers.
- Comprehensions are functions: alpha-cut, complement, intersection,
  union, and the domain step of `LinguisticVariable.extend`.
- Modules:
  - `Common`: errors, `Result`, Python's `min`/`max`.
  - `Fuzzy`: the entities and their constructors.
  - `SetOps`: the set operators.
  - `RelationOps`: the relation operators.
  - `Defuzzify`: the defuzzifiers.
  - `Oracles`: the worked examples of `FuzzyEngine/Fuzzy_test.py`.

## Model

| member | source | states |
|---|---|---|
| Common.MaxOf | FuzzyEngine/Fuzzy.py:58 | Python's `max()` of a non-empty list bounds every element and is one of them |
| Common.MinOf | FuzzyEngine/Fuzzy.py:122 | Python's `min()` of a non-empty list is bounded by every element and is one of them |
| Common.Min | FuzzyEngine/Fuzzy.py:94 | Python's two-argument `min` is at most both arguments and equals one of them |
| Common.Max | FuzzyEngine/Fuzzy.py:100 | Python's two-argument `max` is at least both arguments and equals one of them |
| Fuzzy.LinguisticVariable.constructor | FuzzyEngine/Fuzzy.py:8-12 | a new variable has the given domain and name and an empty registry |
| Fuzzy.LinguisticVariable.MakeSetFn | FuzzyEngine/Fuzzy.py:15-18 | value i gets degree `mem_fun(values[i])`; on success the set is stored under its name and every other entry is unchanged; on failure the registry is untouched; registry validity is preserved |
| Fuzzy.LinguisticVariable.MakeSet | FuzzyEngine/Fuzzy.py:21-24 | the result is the constructor's; on success the set overwrites any entry of the same name and nothing else changes |
| Fuzzy.LinguisticVariable.AddSet | FuzzyEngine/Fuzzy.py:27-28 | the set is stored under its own name, overwriting any entry of that name |
| Fuzzy.LinguisticVariable.Extend | FuzzyEngine/Fuzzy.py:42-47 | a fresh variable whose domain is the sorted, duplicate-free images of the function |
| Fuzzy.NewFuzzySet | FuzzyEngine/Fuzzy.py:51-60 | construction succeeds iff there is one degree per domain value, the list is non-empty and no degree exceeds 1 (no lower bound); otherwise it gives the matching error |
| Fuzzy.Membership | FuzzyEngine/Fuzzy.py:60 | the set's dictionary maps exactly the domain values, value i to degree i |
| Fuzzy.Pointwise | FuzzyEngine/Fuzzy.py:16 | the comprehension gives entry i the function's value at domain value i |
| Fuzzy.NewRelation | FuzzyEngine/Fuzzy.py:191-197 | construction succeeds iff rows = source domain size and every row has one entry per target value; otherwise row or column error |
| Fuzzy.ImageDomain | FuzzyEngine/Fuzzy.py:45 | `np.unique` of the images is strictly increasing and holds exactly the images of the domain |
| Fuzzy.Insert | FuzzyEngine/Fuzzy.py:45 | inserting into a strictly increasing list keeps it strictly increasing and adds exactly the new value |
| SetOps.Make | FuzzyEngine/Fuzzy.py:63-68 | succeeds iff the dictionary is non-empty with no degree above 1; the new variable's values are the keys in order and the set's dictionary equals the input |
| SetOps.CutPositions | FuzzyEngine/Fuzzy.py:84 | the positions listed are increasing, each has degree at least alpha, and every such position is listed |
| SetOps.Cut | FuzzyEngine/Fuzzy.py:84 | the cut lists the domain values at those positions, in order |
| SetOps.AlphaCut | FuzzyEngine/Fuzzy.py:83-84 | the alpha-cut lists, in domain order, exactly the values whose degree is at least alpha |
| SetOps.CutShrinks | FuzzyEngine/Fuzzy.py:84 | a higher threshold never lists more positions |
| SetOps.AlphaCutMonotone | FuzzyEngine/Fuzzy.py:83-84 | raising alpha only removes elements from the cut |
| SetOps.Complement | FuzzyEngine/Fuzzy.py:87-88 | `~a` succeeds iff every degree is non-negative; each new degree is 1 minus the old one, over the same variable, named "not " + name |
| SetOps.Intersect | FuzzyEngine/Fuzzy.py:91-94 | `a & b` succeeds iff both are over the identical variable; each degree is the smaller of the two |
| SetOps.Union | FuzzyEngine/Fuzzy.py:97-100 | the union `a or b` (Python's `__or__`) succeeds iff both are over the identical variable; each degree is the larger of the two |
| SetOps.DoubleComplement | FuzzyEngine/Fuzzy.py:87-88 | complementing twice succeeds and restores every degree and the variable |
| SetOps.IntersectUnionCommute | FuzzyEngine/Fuzzy.py:91-100 | intersection and union are commutative on degrees |
| SetOps.IntersectUnionIdempotent | FuzzyEngine/Fuzzy.py:91-100 | A & A and the union of A with itself have the degrees of A |
| SetOps.DeMorgan | FuzzyEngine/Fuzzy.py:87-100 | the complement of the union of A and B has the degrees of ~A & ~B whenever both complements exist |
| SetOps.Preimages | FuzzyEngine/Fuzzy.py:108-114 | the grouping list of an output value holds exactly the domain values mapped to it |
| SetOps.GroupPreimages | FuzzyEngine/Fuzzy.py:106-114 | the grouping loop maps exactly the images to their preimage lists in domain order |
| SetOps.DegreesOf | FuzzyEngine/Fuzzy.py:122 | looking up a list of domain values gives one degree per value |
| SetOps.ExtendDegrees | FuzzyEngine/Fuzzy.py:122 | the degree list succeeds iff every output value has a preimage (else KeyError), one degree per output value |
| SetOps.ExtendSet | FuzzyEngine/Fuzzy.py:119-124 | over a supplied variable: KeyError when an output value has no preimage; on success a constructed set over that variable, under the given name, whose degrees are the extended degrees (the minimum over preimages, by ExtendIsMinOverPreimages) |
| SetOps.ExtendIsMinOverPreimages | FuzzyEngine/Fuzzy.py:122 | each output degree is at most every preimage's degree and equals one of them: the minimum |
| SetOps.ExtendDegreesAtMostOne | FuzzyEngine/Fuzzy.py:122-124 | extended degrees never exceed 1 |
| SetOps.ExtendSetSucceeds | FuzzyEngine/Fuzzy.py:119-124 | over a supplied variable the extension succeeds iff that domain is non-empty and every value of it is an image |
| SetOps.ExtendOverImageDomainSucceeds | FuzzyEngine/Fuzzy.py:42-47 | using the variable `LinguisticVariable.extend` builds for the same function as output variable never fails |
| SetOps.Extend | FuzzyEngine/Fuzzy.py:103-128 | without an output variable the call fails (UnboundLocalError); with one it gives the set above, registers it in that variable and keeps the registry valid; failure changes nothing |
| SetOps.ProductMatrix | FuzzyEngine/Fuzzy.py:131-138 | the product matrix has one row per degree of A and one column per degree of B |
| SetOps.CartesianProduct | FuzzyEngine/Fuzzy.py:131-138 | the nested loops give a well-shaped relation with entry (i, j) = min(a_i, b_j), at most both degrees and equal to one of them |
| RelationOps.MaxMinCell | FuzzyEngine/Fuzzy.py:207 | a max-min cell bounds min(A[i][k], B[k][j]) for every middle index k and equals it for one: the max over k of the mins |
| RelationOps.MaxProductCell | FuzzyEngine/Fuzzy.py:219 | a max-product cell bounds A[i][k]·B[k][j] for every middle index k and equals it for one: the max over k of the products |
| RelationOps.MaxMinMatrix | FuzzyEngine/Fuzzy.py:203-207 | the max-min matrix has a row per row of A and n columns, with entry (i, j) the max-min cell |
| RelationOps.MaxProductMatrix | FuzzyEngine/Fuzzy.py:215-219 | the max-product matrix has a row per row of A and n columns, with entry (i, j) the max-product cell |
| RelationOps.MaxMin | FuzzyEngine/Fuzzy.py:200-209 | fails unless self.tgt is that.src; fails on an empty middle domain when a cell is computed; otherwise the relation self.src -> that.tgt holding the max-min matrix |
| RelationOps.MaxProduct | FuzzyEngine/Fuzzy.py:212-221 | the same with max-product |
| RelationOps.Mul | FuzzyEngine/Fuzzy.py:224-227 | `*` equals max-min composition, with the same identity check |
| RelationOps.LeftComposeBounds | FuzzyEngine/Fuzzy.py:207 | every path i -> k -> l -> j is bounded by the cell of (A∘B)∘C |
| RelationOps.LeftComposeAttained | FuzzyEngine/Fuzzy.py:207 | some path attains that cell |
| RelationOps.RightComposeBounds | FuzzyEngine/Fuzzy.py:207 | every path is bounded by the cell of A∘(B∘C) |
| RelationOps.RightComposeAttained | FuzzyEngine/Fuzzy.py:207 | some path attains that cell |
| RelationOps.MaxMinAssociative | FuzzyEngine/Fuzzy.py:200-209 | max-min composition is associative |
| RelationOps.ProductBelowMin | FuzzyEngine/Fuzzy.py:219 | for degrees in [0, 1], a product lies between 0 and the smaller factor |
| RelationOps.MaxOfMonotone | FuzzyEngine/Fuzzy.py:207 | max() is monotone under an entry-wise bound |
| RelationOps.MaxProductCellBelowMaxMinCell | FuzzyEngine/Fuzzy.py:207-219 | on unit-interval degrees a max-product cell is at least 0 and at most the max-min cell, which is at most 1 |
| RelationOps.MaxProductBelowMaxMin | FuzzyEngine/Fuzzy.py:200-221 | on unit-interval degrees both compositions stay in [0, 1] and max-product never exceeds max-min |
| RelationOps.Elementwise | FuzzyEngine/Fuzzy.py:237 | entry (i, j) of the element-wise combination is the operator applied to the two entries |
| RelationOps.RelationAndAsWritten | FuzzyEngine/Fuzzy.py:234-237 | relation `&` as written raises TypeError on every call |
| RelationOps.RelationOrAsWritten | FuzzyEngine/Fuzzy.py:240-243 | relation union (`__or__`) as written raises TypeError on every call |
| RelationOps.RelationIntersect | FuzzyEngine/Fuzzy.py:234-237 | intended `&`: succeeds iff source and target are identical; the result is the element-wise minimum |
| RelationOps.RelationUnion | FuzzyEngine/Fuzzy.py:240-243 | intended union: succeeds iff source and target are identical; the result is the element-wise maximum |
| RelationOps.RelationAndOrPrecedence | FuzzyEngine/Fuzzy.py:234-243 | as written, R & R and the union of R with itself fail; the intended operators are idempotent and commutative |
| Defuzzify.MaxMembership | FuzzyEngine/Fuzzy.py:141-150 | None iff no degree exceeds 0; otherwise the earliest value whose positive degree is the maximum |
| Defuzzify.Centroid | FuzzyEngine/Fuzzy.py:153-170 | the scan divides the sum of m·x·(x - x_0) by the sum of m·(x - x_0) over the later values; when that sum is 0 it raises ZeroDivisionError, as Python does for plain-number domains (numpy domains: see Left out) |
| Defuzzify.CentroidIntended | FuzzyEngine/Fuzzy.py:153-170 | the intended centroid, with steps from the previous value, fails exactly when its mass is 0 |
| Defuzzify.AnchoredWeights | FuzzyEngine/Fuzzy.py:157-168 | as written, the weight of the first value is 0 and every later value weighs its degree times its distance from the first value, because `prev` is never advanced |
| Defuzzify.StepWeights | FuzzyEngine/Fuzzy.py:157-168 | as intended, the weight of the first value is 0 and every later value weighs its degree times the step from the previous value |
| Defuzzify.MassPositiveIff | FuzzyEngine/Fuzzy.py:168 | with non-negative weights the mass is non-negative, and positive iff some weight is |
| Defuzzify.ConstMoment | FuzzyEngine/Fuzzy.py:167-168 | placing every weight at c gives a weighted sum of mass times c |
| Defuzzify.MomentMonotone | FuzzyEngine/Fuzzy.py:167 | with non-negative weights, moving weighted positions right never lowers the weighted sum |
| Defuzzify.MomentBounds | FuzzyEngine/Fuzzy.py:167-168 | the weighted sum lies between mass·lo and mass·hi |
| Defuzzify.MeanWithin | FuzzyEngine/Fuzzy.py:170 | the weighted mean lies in [lo, hi] |
| Defuzzify.WeightedMeanWithin | FuzzyEngine/Fuzzy.py:167-170 | a weighted mean with non-negative weights lies between bounds on the weighted positions |
| Defuzzify.WeightPositiveIff | FuzzyEngine/Fuzzy.py:164-168 | degree times a positive step is non-negative, and positive iff the degree is |
| Defuzzify.AnchoredWeightSigns | FuzzyEngine/Fuzzy.py:157-168 | over an increasing domain with non-negative degrees, the anchored weights are 0 at the first value, non-negative, and positive exactly where the degree is |
| Defuzzify.StepWeightSigns | FuzzyEngine/Fuzzy.py:157-168 | the same for the step weights |
| Defuzzify.SignedWeightsMass | FuzzyEngine/Fuzzy.py:168-170 | such weights have positive mass iff some degree after the first is positive |
| Defuzzify.IncreasingBetween | FuzzyEngine/Fuzzy.py:159 | every later value of an increasing domain lies between the second and the last |
| Defuzzify.SignedCentroid | FuzzyEngine/Fuzzy.py:153-170 | such a centroid is defined iff some later degree is positive, and then lies between the second and the last value |
| Defuzzify.CentroidWithinDomain | FuzzyEngine/Fuzzy.py:153-170 | on an increasing domain with non-negative degrees, centroid as written is defined iff a later value has positive degree, and lies in [x_1, x_last] |
| Defuzzify.CentroidIntendedWithinDomain | FuzzyEngine/Fuzzy.py:153-170 | the same for the intended centroid |
| Defuzzify.CentroidSingleValue | FuzzyEngine/Fuzzy.py:153-170 | on a one-value domain centroid divides by zero |
| Defuzzify.StepMassIsWidth | FuzzyEngine/Fuzzy.py:164-168 | with every degree 1 the intended mass is the domain's width |
| Defuzzify.CentroidAnchorCounterexample | FuzzyEngine/Fuzzy.py:157-168 | on [0, 1, 2] with degrees 1, as written gives mass 3 and 5/3; intended gives mass 2 and 3/2 |
| Defuzzify.Indicator | FuzzyEngine/Fuzzy.py:179-185 | weight 1 exactly at the positions carrying the level |
| Defuzzify.LevelStep | FuzzyEngine/Fuzzy.py:183-185 | extending the scan by a position carrying the level adds one to the count and its value to the sum; otherwise neither changes |
| Defuzzify.MeanMaxDefined | FuzzyEngine/Fuzzy.py:174-185 | the condition under which mean_max as written succeeds: it implies some degree is positive, and when the first degree is non-negative it holds iff that degree is positive |
| Defuzzify.LevelEmpty | FuzzyEngine/Fuzzy.py:179-182 | a level above every degree has count 0 and sum 0 |
| Defuzzify.LevelCountPositive | FuzzyEngine/Fuzzy.py:187 | a level some position carries has a positive count |
| Defuzzify.NewLevel | FuzzyEngine/Fuzzy.py:179-182 | a degree above all earlier ones restarts the level with count 1 and sum the value |
| Defuzzify.MeanMax | FuzzyEngine/Fuzzy.py:173-187 | the scan succeeds iff the first non-negative degree is positive (else None arithmetic); then it is the mean of the values attaining the maximum |
| Defuzzify.NotDefinedAtZero | FuzzyEngine/Fuzzy.py:183-185 | a zero degree after only negative ones makes mean_max fail |
| Defuzzify.MeanMaxNeedsPositiveFirst | FuzzyEngine/Fuzzy.py:174-185 | with non-negative degrees mean_max succeeds iff the first degree is positive |
| Defuzzify.MeanMaxWithinMaximisers | FuzzyEngine/Fuzzy.py:173-187 | the mean of maxima lies between the least and greatest value attaining the maximum |
| Defuzzify.LevelMeanWithin | FuzzyEngine/Fuzzy.py:187 | the mean over a carried level lies between bounds on its values |
| Defuzzify.MeanMaxIntended | FuzzyEngine/Fuzzy.py:173-187 | the intended mean of maxima succeeds iff some degree is non-negative, with a positive count |
| Defuzzify.MeanMaxIntendedExtends | FuzzyEngine/Fuzzy.py:173-187 | the intended result agrees with the one as written wherever that one succeeds, and always succeeds with non-negative degrees |
| Defuzzify.MeanMaxNoneCounterexample | FuzzyEngine/Fuzzy.py:174-185 | on [0, 1] with degrees [0, 1] mean_max as written fails, while the intended result is 1 |
| Oracles.MakeSetPoor | FuzzyEngine/Fuzzy_test.py:8-9 | the 'Poor' degrees construct a set over range(11) |
| Oracles.MakeSetFnMod2 | FuzzyEngine/Fuzzy_test.py:11-12 | `0.5 * (x % 2)` gives alternating 0 and 0.5 and constructs a set |
| Oracles.TestSetsWellFormed | FuzzyEngine/Fuzzy_test.py:16-18 | B1 and B2 pass the constructor |
| Oracles.CutFirstTwo | FuzzyEngine/Fuzzy_test.py:20-22 | a five-value cut with only the first two qualifying lists those two |
| Oracles.AlphaCutB1 | FuzzyEngine/Fuzzy_test.py:20-21 | alpha_cut(0.5) of B1 is [1, 1.5] |
| Oracles.AlphaCutB2 | FuzzyEngine/Fuzzy_test.py:22 | alpha_cut(0.5) of B2 is [1, 1.5] |
| Oracles.ComplementB1 | FuzzyEngine/Fuzzy_test.py:24-25 | ~B1 has degrees [0, 0.25, 0.7, 0.85, 1] |
| Oracles.ComplementB2 | FuzzyEngine/Fuzzy_test.py:26 | ~B2 has degrees [0, 0.4, 0.8, 0.9, 1] |
| Oracles.UnionExample | FuzzyEngine/Fuzzy_test.py:28-29 | the union of B1 and B2 has degrees [1, 0.75, 0.3, 0.15, 0] |
| Oracles.IntersectExample | FuzzyEngine/Fuzzy_test.py:31-32 | B1 & B2 has degrees [1, 0.6, 0.2, 0.1, 0] |
| Oracles.CartesianProductExample | FuzzyEngine/Fuzzy_test.py:35-42 | the product of [0.3, 0.7, 1] and [0.4, 0.9] is [[0.3, 0.3], [0.4, 0.7], [0.4, 0.9]] |
| Oracles.MaxOfTwo | FuzzyEngine/Fuzzy.py:207 | max() of two values is the larger |
| Oracles.MaxMinCellOfTwo | FuzzyEngine/Fuzzy.py:207 | a max-min cell over a two-value middle domain |
| Oracles.MaxProductCellOfTwo | FuzzyEngine/Fuzzy.py:219 | a max-product cell over a two-value middle domain |
| Oracles.MaxMinExample | FuzzyEngine/Fuzzy_test.py:44-58 | max_min(R, S) is [[0.6, 0.5, 0.3], [0.8, 0.4, 0.7]] |
| Oracles.MaxProductExample | FuzzyEngine/Fuzzy_test.py:44-59 | max_product(R, S) is [[0.6, 0.3, 0.21], [0.72, 0.36, 0.63]] |

## Left out

- Plotting (`view`) and `__str__`: matplotlib output and string formatting.
- The demonstration data at the end of `FuzzyEngine/Fuzzy.py` (lines 245-266): three `make_set` calls per variable over `range(0, 11)` and plotting. Each call is an instance of `MakeSet`, as `Oracles.MakeSetPoor` shows for one of them.
- The script `FuzzyEngine/Example_temp.py`: it does not run as written. It passes four arguments to `FuzzyRelation` (lines 40 and 44) against three parameters (`FuzzyEngine/Fuzzy.py:191`), multiplies a set by a relation (lines 62-68) and calls `extend` without an output variable (line 70).
- `FuzzyRelation.__inv__`: it refers to an undefined name and is not the hook Python's `~` calls.
- Floating point: degrees are exact reals. The test's `np.allclose` tolerance and any rounding are not modelled.
- Duplicate domain values: where a set is built, the model requires distinct domain values. Python's dictionary would silently merge them.
- Membership functions are total Dafny functions `real -> real`. A Python function that raises or returns a non-number is not modelled.
- mean_max's second parameter is unused by the source and is dropped.
- Defuzzify.LevelCount: the count of maximisers is a real (the sum of an indicator), not Python's integer counter. The method keeps a `nat` counter equal to it.
- An empty matrix is a list of no rows, so it carries no column count. The shape check on a relation from an empty source domain always passes, as numpy's would for a `(0, n)` array.
- Points where the code departs from what its own surroundings suggest; the model follows the code:
  - `FuzzySet.extend` takes the minimum over preimages (`FuzzyEngine/Fuzzy.py:122`), where Zadeh's extension principle takes the maximum.
  - Output values are visited in the order of the supplied variable (`FuzzyEngine/Fuzzy.py:120-122`).
  - `FuzzySet` defines no `__mul__`, although `FuzzyEngine/Example_temp.py:62` multiplies a set by a relation; no such operator is modelled.
  - `FuzzyRelation` takes no name (`FuzzyEngine/Fuzzy.py:191`), although `FuzzyEngine/Example_temp.py:40` passes one; relations carry no name.
- Defuzzify.Centroid: the `Err(DivisionByZero)` outcome is Python's behaviour when the domain values are plain numbers. Over a numpy domain of at least two values, such as the `np.unique` array `LinguisticVariable.extend` builds (`FuzzyEngine/Fuzzy.py:45-47`), `dx` is a numpy float and a zero `sum2` gives nan or inf with a warning instead of raising. A one-value domain still raises. numpy's floating-point division is not modelled.

## Findings

| source | as written | input that shows it | evidently intended | confidence | as-written member | corrected member |
|---|---|---|---|---|---|---|
| FuzzyEngine/Fuzzy.py:235 | `self.tgt == that.tgt & self.src == that.src` evaluates `that.tgt & self.src` first, which raises TypeError | any two relations, e.g. R & R | element-wise min when source and target are identical | not executed | RelationOps.RelationAndAsWritten | RelationOps.RelationIntersect |
| FuzzyEngine/Fuzzy.py:241 | the same precedence error in relation union (`__or__`) | any two relations, e.g. R with itself | element-wise max when source and target are identical | not executed | RelationOps.RelationOrAsWritten | RelationOps.RelationUnion |
| FuzzyEngine/Fuzzy.py:157-168 | `prev` is set on the first key and never advanced, so each step is measured from the first value | domain [0, 1, 2], degrees [1, 1, 1]: mass 3 and centroid 5/3 | steps from the previous value: mass 2 (the width) and centroid 3/2 | not executed | Defuzzify.CentroidAnchorCounterexample | Defuzzify.CentroidIntendedWithinDomain |
| FuzzyEngine/Fuzzy.py:174-185 | `max_sum` starts at None, so a zero degree before any positive one evaluates `None + key` | domain [0, 1], degrees [0, 1] | the running sum starts at 0: the result is 1 | not executed | Defuzzify.MeanMaxNoneCounterexample | Defuzzify.MeanMaxIntendedExtends |

