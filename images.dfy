/** Shared vocabulary of the edge-detection stages: 2-D grids as values,
    snapshots of 2-D arrays, finite sums over index ranges, and the
    error outcome of the stages that can raise. */
module Images {

  /** The failures the stages raise (all of them are Python `ValueError`s). */
  datatype Error =
    | EvenKernelSize     // gaussian_kernel called with an even size
    | EmptyAxisPadding   // np.pad asked to extend an empty axis in a non-constant mode
    | EmptyReduction     // img.max() on an array with no elements

  datatype Result<T> = Ok(value: T) | Err(error: Error)

  /** A row-major 2-D grid of samples: the value held by a numpy 2-D array. */
  type Grid<T> = seq<seq<T>>

  /** Number of columns; a grid without rows has none. */
  function Width<T>(g: Grid<T>): nat {
    if |g| == 0 then 0 else |g[0]|
  }

  /** Every row has the same length, as in a numpy 2-D array. */
  ghost predicate Rect<T>(g: Grid<T>) {
    forall i :: 0 <= i < |g| ==> |g[i]| == Width(g)
  }

  /** The grid held by a 2-D array at this moment. */
  function Snapshot<T>(a: array2<T>): (g: Grid<T>)
    reads a
    ensures |g| == a.Length0 && Rect(g)
    ensures a.Length0 > 0 ==> Width(g) == a.Length1
    ensures forall i, j :: 0 <= i < a.Length0 && 0 <= j < a.Length1 ==> g[i][j] == a[i, j]
  {
    seq(a.Length0, i requires 0 <= i < a.Length0 reads a =>
      seq(a.Length1, j requires 0 <= j < a.Length1 reads a => a[i, j]))
  }

  /** The sample at (i, j), and 0 outside the grid; it keeps the summands below total. */
  function At(g: Grid<real>, i: int, j: int): real {
    if 0 <= i < |g| && 0 <= j < |g[i]| then g[i][j] else 0.0
  }

  /** f(0) + f(1) + ... + f(n - 1). */
  function Sum(n: nat, f: nat -> real): real {
    if n == 0 then 0.0 else Sum(n - 1, f) + f(n - 1)
  }

  /** The sum of row i of a grid. */
  function RowSum(g: Grid<real>, i: int): real {
    Sum(Width(g), j => At(g, i, j))
  }

  /** The sum of all samples of a grid (numpy's `a.sum()`). */
  function GridSum(g: Grid<real>): real {
    Sum(|g|, i => RowSum(g, i))
  }

  /** Sums of pointwise-equal summands are equal. */
  lemma {:induction false} SumCongruent(n: nat, f: nat -> real, g: nat -> real)
    requires forall k :: 0 <= k < n ==> f(k) == g(k)
    ensures Sum(n, f) == Sum(n, g)
  {
    if n > 0 {
      SumCongruent(n - 1, f, g);
    }
  }

  /** Splitting off the first summand: f(0) + (f(1) + ... + f(n - 1)). */
  lemma {:induction false} SumFirst(n: nat, f: nat -> real, g: nat -> real)
    requires n > 0
    requires forall k :: 0 <= k < n - 1 ==> g(k) == f(k + 1)
    ensures Sum(n, f) == f(0) + Sum(n - 1, g)
  {
    if n > 1 {
      SumFirst(n - 1, f, g);
    }
  }

  /** Summing in the opposite order gives the same sum. */
  lemma {:induction false} SumReversed(n: nat, f: nat -> real, g: nat -> real)
    requires forall k :: 0 <= k < n ==> g(k) == f(n - 1 - k)
    ensures Sum(n, g) == Sum(n, f)
  {
    if n > 0 {
      var h: nat -> real := (k: nat) => f(k + 1);
      SumFirst(n, f, h);
      SumReversed(n - 1, h, g);
    }
  }

  /** h(k) == a * f(k) + b * g(k) for every k < n. */
  ghost predicate LinearOn(n: nat, f: nat -> real, g: nat -> real, h: nat -> real, a: real, b: real) {
    forall k :: 0 <= k < n ==> h(k) == a * f(k) + b * g(k)
  }

  /** Summation is linear: a sum of a * f + b * g splits into two sums. */
  lemma {:induction false} SumLinear(n: nat, f: nat -> real, g: nat -> real, h: nat -> real, a: real, b: real)
    requires LinearOn(n, f, g, h, a, b)
    ensures Sum(n, h) == a * Sum(n, f) + b * Sum(n, g)
  {
    if n > 0 {
      SumLinear(n - 1, f, g, h, a, b);
      calc {
        Sum(n, h);
        Sum(n - 1, h) + h(n - 1);
        (a * Sum(n - 1, f) + b * Sum(n - 1, g)) + (a * f(n - 1) + b * g(n - 1));
        a * (Sum(n - 1, f) + f(n - 1)) + b * (Sum(n - 1, g) + g(n - 1));
      }
    }
  }

  /** Dividing every summand by c divides the sum by c. */
  lemma {:induction false} SumDivided(n: nat, f: nat -> real, h: nat -> real, c: real)
    requires c != 0.0
    requires forall k :: 0 <= k < n ==> h(k) == f(k) / c
    ensures Sum(n, h) == Sum(n, f) / c
  {
    if n > 0 {
      SumDivided(n - 1, f, h, c);
      assert (Sum(n - 1, f) + f(n - 1)) / c == Sum(n - 1, f) / c + f(n - 1) / c;
    }
  }

  /** A non-empty sum of positive summands is positive. */
  lemma {:induction false} SumPositive(n: nat, f: nat -> real)
    requires n > 0
    requires forall k :: 0 <= k < n ==> f(k) > 0.0
    ensures Sum(n, f) > 0.0
  {
    if n > 1 {
      SumPositive(n - 1, f);
    }
  }
}
