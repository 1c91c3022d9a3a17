/** Shared vocabulary of the fuzzy engine: the failures the Python code raises,
    a Result type standing for "returns or raises", and the min/max reductions
    that every operator is built from. */
module Common {

  /** The ways an operation of the engine fails. Each one names the Python
      exception (or failed assertion) it stands for. */
  datatype Error =
    | LengthMismatch       // assertion: degree list and domain differ in length
    | EmptyMax             // ValueError: max() of an empty list
    | AboveOne             // assertion: the largest degree exceeds 1
    | VariableMismatch     // assertion: operands are not over the identical variable
    | RowCountMismatch     // assertion: matrix rows differ from the source domain size
    | ColumnCountMismatch  // assertion: matrix columns differ from the target domain size
    | MissingPreimage      // KeyError: an output value that no domain value maps to
    | UnboundOutValues     // UnboundLocalError: a local read before it is assigned
    | DivisionByZero       // ZeroDivisionError
    | NoneOperand          // TypeError: arithmetic with None
    | UnsupportedOperand   // TypeError: `&` between two linguistic variables

  datatype Result<T> = Ok(value: T) | Err(error: Error)

  datatype Option<T> = None | Some(value: T)

  /** Python's two-argument min and max on reals. */
  function Min(a: real, b: real): (m: real)
    ensures m <= a && m <= b && (m == a || m == b)
  {
    if b < a then b else a
  }

  function Max(a: real, b: real): (m: real)
    ensures a <= m && b <= m && (m == a || m == b)
  {
    if b > a then b else a
  }

  /** Python's max() of a non-empty list: an element that bounds all others. */
  function MaxOf(s: seq<real>): (m: real)
    requires |s| > 0
    ensures forall k :: 0 <= k < |s| ==> s[k] <= m
    ensures exists k :: 0 <= k < |s| && s[k] == m
  {
    if |s| == 1 then s[0]
    else
      var rest := MaxOf(s[1..]);
      assert forall k :: 1 <= k < |s| ==> s[k] == s[1..][k - 1];
      Max(s[0], rest)
  }

  /** Python's min() of a non-empty list: an element bounded by all others. */
  function MinOf(s: seq<real>): (m: real)
    requires |s| > 0
    ensures forall k :: 0 <= k < |s| ==> m <= s[k]
    ensures exists k :: 0 <= k < |s| && s[k] == m
  {
    if |s| == 1 then s[0]
    else
      var rest := MinOf(s[1..]);
      assert forall k :: 1 <= k < |s| ==> s[k] == s[1..][k - 1];
      Min(s[0], rest)
  }

  /** A value that bounds a list and occurs in it is its maximum. */
  lemma MaxOfUnique(s: seq<real>, m: real, k: nat)
    requires |s| > 0 && k < |s| && s[k] == m
    requires forall j :: 0 <= j < |s| ==> s[j] <= m
    ensures MaxOf(s) == m
  {
  }

  /** The sign facts about products that the proofs need. */
  lemma MulNonNegative(a: real, b: real)
    requires 0.0 <= a && 0.0 <= b
    ensures 0.0 <= a * b
  {
  }

  lemma MulPositive(a: real, b: real)
    requires 0.0 < a && 0.0 < b
    ensures 0.0 < a * b
  {
  }

  predicate Distinct(s: seq<real>)
  {
    forall i, j :: 0 <= i < j < |s| ==> s[i] != s[j]
  }

  predicate StrictlyIncreasing(s: seq<real>)
  {
    forall i, j :: 0 <= i < j < |s| ==> s[i] < s[j]
  }

  /** A matrix given as its list of rows has `rows` rows of `cols` entries each. */
  predicate Shaped(m: seq<seq<real>>, rows: nat, cols: nat)
  {
    |m| == rows && forall i :: 0 <= i < |m| ==> |m[i]| == cols
  }

  /** Every entry of a matrix is a degree in [0, 1]. */
  predicate InUnitInterval(m: seq<seq<real>>)
  {
    forall i, j :: 0 <= i < |m| && 0 <= j < |m[i]| ==> 0.0 <= m[i][j] <= 1.0
  }

  /** The rows of a two-dimensional array. */
  function Rows(a: array2<real>): (m: seq<seq<real>>)
    reads a
    ensures Shaped(m, a.Length0, a.Length1)
    ensures forall i, j :: 0 <= i < a.Length0 && 0 <= j < a.Length1 ==> m[i][j] == a[i, j]
  {
    seq(a.Length0, i requires 0 <= i < a.Length0 reads a =>
      seq(a.Length1, j requires 0 <= j < a.Length1 reads a => a[i, j]))
  }
}
