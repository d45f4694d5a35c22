/** The normalised Gaussian kernel `gaussian_kernel(size, sigma)` of
    test/convolution_tester.py. The exponential is a parameter: any
    function that is positive everywhere, as exp is. */
module KernelGen {
  import opened Images

  /** Squared distance x² + y² of cell (i, j) from the centre (c, c). */
  function SqDist(i: int, j: int, c: int): nat {
    SquareNonNegative(i - c);
    SquareNonNegative(j - c);
    (i - c) * (i - c) + (j - c) * (j - c)
  }

  lemma SquareNonNegative(x: int)
    ensures x * x >= 0
  {
  }

  /** Side of the grid `np.mgrid[-r:r+1, -r:r+1]`: 2r + 1, and empty when r < 0. */
  function Side(r: int): nat {
    if r >= 0 then 2 * r + 1 else 0
  }

  /** exp(-(x² + y²) / (2σ²)) for the cell (i, j) of a grid centred on (r, r). */
  function Weight(i: int, j: int, r: int, sigma: real, exp: real -> real): real
    requires sigma != 0.0
  {
    exp(-(SqDist(i, j, r) as real) / (2.0 * sigma * sigma))
  }

  /** The weights over the offsets x, y in [-r, r], before normalisation. */
  function Weights(r: int, sigma: real, exp: real -> real): (g: Grid<real>)
    requires sigma != 0.0
    ensures |g| == Side(r) && Rect(g) && Width(g) == Side(r)
    ensures forall i, j :: 0 <= i < Side(r) && 0 <= j < Side(r) ==> g[i][j] == Weight(i, j, r, sigma, exp)
  {
    seq(Side(r), i => seq(Side(r), j => Weight(i, j, r, sigma, exp)))
  }

  /** The weights are a positive square grid, so their sum is positive. */
  lemma WeightsSumPositive(r: int, sigma: real, exp: real -> real)
    requires sigma != 0.0
    requires forall t :: exp(t) > 0.0
    ensures Side(r) > 0 ==> GridSum(Weights(r, sigma, exp)) > 0.0
  {
    var g := Weights(r, sigma, exp);
    var n := Side(r);
    if n > 0 {
      forall i: nat | i < n ensures RowSum(g, i) > 0.0 {
        SumPositive(n, j => At(g, i, j));
      }
      SumPositive(n, i => RowSum(g, i));
    }
  }

  /** gaussian_kernel: an even size raises; otherwise the (2r+1)×(2r+1) grid
      (r = size // 2) of weights divided by their sum. A negative odd size
      gives the empty grid, since the offset range is then empty. */
  function GaussianKernel(size: int, sigma: real, exp: real -> real): (k: Result<Grid<real>>)
    requires sigma != 0.0
    requires forall t :: exp(t) > 0.0
    ensures k.Err? <==> size % 2 == 0
    ensures k.Err? ==> k.error == EvenKernelSize
    ensures k.Ok? ==> |k.value| == (if size > 0 then size else 0) && Rect(k.value)
    ensures k.Ok? && size > 0 ==> Width(k.value) == size
  {
    if size % 2 == 0 then
      Err(EvenKernelSize)
    else
      var r := size / 2;
      var g := Weights(r, sigma, exp);
      var total := GridSum(g);
      var n := Side(r);
      WeightsSumPositive(r, sigma, exp);
      assert n > 0 ==> total > 0.0;
      Ok(seq(n, i requires 0 <= i < n => seq(n, j requires 0 <= j < n => Weight(i, j, r, sigma, exp) / total)))
  }

  /** After `g /= g.sum()` the kernel entries sum to exactly 1. */
  lemma {:induction false} KernelNormalised(size: int, sigma: real, exp: real -> real)
    requires sigma != 0.0
    requires forall t :: exp(t) > 0.0
    requires size % 2 == 1 && size > 0
    ensures GaussianKernel(size, sigma, exp).Ok?
    ensures GridSum(GaussianKernel(size, sigma, exp).value) == 1.0
  {
    var g := Weights(size / 2, sigma, exp);
    var total := GridSum(g);
    WeightsSumPositive(size / 2, sigma, exp);
    var k := GaussianKernel(size, sigma, exp).value;
    forall i: nat | i < size ensures RowSum(k, i) == RowSum(g, i) / total {
      KernelRow(size, sigma, exp, i);
    }
    SumDivided(size, i => RowSum(g, i), i => RowSum(k, i), total);
    DividedBySelf(total);
  }

  /** Each kernel row sums to the matching weight row over the total weight. */
  lemma KernelRow(size: int, sigma: real, exp: real -> real, i: nat)
    requires sigma != 0.0
    requires forall t :: exp(t) > 0.0
    requires size % 2 == 1 && i < size
    ensures GaussianKernel(size, sigma, exp).Ok?
    ensures GridSum(Weights(size / 2, sigma, exp)) > 0.0
    ensures RowSum(GaussianKernel(size, sigma, exp).value, i)
         == RowSum(Weights(size / 2, sigma, exp), i) / GridSum(Weights(size / 2, sigma, exp))
  {
    var g := Weights(size / 2, sigma, exp);
    var total := GridSum(g);
    WeightsSumPositive(size / 2, sigma, exp);
    var k := GaussianKernel(size, sigma, exp).value;
    forall j: nat | j < size ensures At(k, i, j) == At(g, i, j) / total {
      KernelEntry(size, sigma, exp, i, j);
    }
    SumDivided(size, j => At(g, i, j), j => At(k, i, j), total);
  }

  lemma DividedBySelf(x: real)
    requires x != 0.0
    ensures x / x == 1.0
  {
  }

  /** Entry (i, j) of the kernel is its weight divided by the sum of the weights. */
  lemma KernelEntry(size: int, sigma: real, exp: real -> real, i: int, j: int)
    requires sigma != 0.0
    requires forall t :: exp(t) > 0.0
    requires size % 2 == 1 && 0 <= i < size && 0 <= j < size
    ensures GaussianKernel(size, sigma, exp).Ok?
    ensures GridSum(Weights(size / 2, sigma, exp)) > 0.0
    ensures GaussianKernel(size, sigma, exp).value[i][j]
         == Weight(i, j, size / 2, sigma, exp) / GridSum(Weights(size / 2, sigma, exp))
  {
    WeightsSumPositive(size / 2, sigma, exp);
  }

  /** Every entry is positive, and the kernel is unchanged by a row flip,
      a column flip and a transpose, because each weight depends on x² + y² only. */
  lemma KernelSymmetric(size: int, sigma: real, exp: real -> real, i: int, j: int)
    requires sigma != 0.0
    requires forall t :: exp(t) > 0.0
    requires size % 2 == 1 && 0 <= i < size && 0 <= j < size
    ensures GaussianKernel(size, sigma, exp).Ok?
    ensures var k := GaussianKernel(size, sigma, exp).value;
      && k[i][j] > 0.0
      && k[i][j] == k[size - 1 - i][j]
      && k[i][j] == k[i][size - 1 - j]
      && k[i][j] == k[j][i]
  {
    KernelEntryPositive(size, sigma, exp, i, j);
    MirroredDistance(size, i, j);
    EqualDistanceEntries(size, sigma, exp, i, j, size - 1 - i, j);
    EqualDistanceEntries(size, sigma, exp, i, j, i, size - 1 - j);
    EqualDistanceEntries(size, sigma, exp, i, j, j, i);
  }

  /** Mirroring a row or a column, or swapping the two, keeps the distance from the centre. */
  lemma MirroredDistance(size: int, i: int, j: int)
    requires size % 2 == 1
    ensures SqDist(size - 1 - i, j, size / 2) == SqDist(i, j, size / 2)
    ensures SqDist(i, size - 1 - j, size / 2) == SqDist(i, j, size / 2)
    ensures SqDist(j, i, size / 2) == SqDist(i, j, size / 2)
  {
    var r := size / 2;
    assert size - 1 - i - r == -(i - r);
    assert size - 1 - j - r == -(j - r);
  }

  /** Every kernel entry is positive. */
  lemma KernelEntryPositive(size: int, sigma: real, exp: real -> real, i: int, j: int)
    requires sigma != 0.0
    requires forall t :: exp(t) > 0.0
    requires size % 2 == 1 && 0 <= i < size && 0 <= j < size
    ensures GaussianKernel(size, sigma, exp).Ok?
    ensures GaussianKernel(size, sigma, exp).value[i][j] > 0.0
  {
    KernelEntry(size, sigma, exp, i, j);
    PositiveQuotient(Weight(i, j, size / 2, sigma, exp), GridSum(Weights(size / 2, sigma, exp)));
  }

  /** Cells at the same distance from the centre hold the same entry. */
  lemma EqualDistanceEntries(size: int, sigma: real, exp: real -> real, i: int, j: int, i': int, j': int)
    requires sigma != 0.0
    requires forall t :: exp(t) > 0.0
    requires size % 2 == 1 && 0 <= i < size && 0 <= j < size && 0 <= i' < size && 0 <= j' < size
    requires SqDist(i', j', size / 2) == SqDist(i, j, size / 2)
    ensures GaussianKernel(size, sigma, exp).Ok?
    ensures GaussianKernel(size, sigma, exp).value[i][j] == GaussianKernel(size, sigma, exp).value[i'][j']
  {
    KernelEntry(size, sigma, exp, i, j);
    KernelEntry(size, sigma, exp, i', j');
  }

  lemma PositiveQuotient(x: real, y: real)
    requires x > 0.0 && y > 0.0
    ensures x / y > 0.0
  {
  }
}
