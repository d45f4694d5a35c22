/** `convolve_custom(input_array, kernel, mode, cval)` of
    test/convolution_tester.py: the kernel is flipped by 180°, the input is
    padded by `np.pad` with kernel_height // 2 rows and kernel_width // 2
    columns on each side, and every output cell is the sum of the
    element-wise product of its window of the padded input with the flipped
    kernel. */
module ConvolutionEngine {
  import opened Images

  /** The `np.pad` modes the function is called with. */
  datatype PadMode = Constant | Reflect | Edge | Wrap

  /** Integer division facts: x == k * m + q with 0 <= q < m fixes x % m and x / m. */
  lemma ModUnique(x: int, m: int, k: int, q: int)
    requires m > 0 && 0 <= q < m && x == k * m + q
    ensures x % m == q && x / m == k
  {
    var d := x / m - k;
    assert m * d == q - x % m;
    MultipleBounds(m, d);
  }

  /** A non-zero multiple of m is at least m away from 0. */
  lemma MultipleBounds(m: int, d: int)
    requires m > 0
    ensures d >= 1 ==> m * d >= m
    ensures d <= -1 ==> m * d <= -m
  {
  }

  /** x % m == x for 0 <= x < m. */
  lemma ModSmall(x: int, m: int)
    requires m > 0
    ensures 0 <= x < m ==> x % m == x
  {
    if 0 <= x < m {
      ModUnique(x, m, 0, x);
    }
  }

  /** The index of the sample of an axis of length n that `np.pad` copies to
      position u of that axis (u < 0 or u >= n lies in the padding), for the
      modes that copy samples. `reflect` mirrors about the edge samples
      without repeating them (-1 reads 1), with period 2(n - 1); numpy
      extends a singleton axis in `reflect` mode as `edge` does. */
  function SourceIndex(mode: PadMode, u: int, n: nat): (s: int)
    requires n > 0 && mode != Constant
    ensures 0 <= s < n
    ensures 0 <= u < n ==> s == u
  {
    match mode
    case Edge => if u < 0 then 0 else if u >= n then n - 1 else u
    case Wrap =>
      ModSmall(u, n);
      u % n
    case Reflect =>
      if n == 1 then 0
      else
        var q := u % (2 * (n - 1));
        ModSmall(u, 2 * (n - 1));
        if q < n then q else 2 * (n - 1) - q
  }

  /** The value `np.pad` puts at position (u, v) of the padded array, in the
      coordinates of the input (so the input occupies 0 <= u < H, 0 <= v < W).
      `constant` fills with cval; an empty axis is never read here, since
      np.pad refuses to extend it in the other modes. */
  function Extended(X: Grid<real>, mode: PadMode, cval: real, u: int, v: int): (r: real)
    ensures Rect(X) && 0 <= u < |X| && 0 <= v < Width(X) ==> r == X[u][v]
    ensures mode == Constant && !(0 <= u < |X| && 0 <= v < Width(X)) ==> r == cval
  {
    if mode == Constant then
      if 0 <= u < |X| && 0 <= v < Width(X) then At(X, u, v) else cval
    else if |X| == 0 || Width(X) == 0 then 0.0
    else At(X, SourceIndex(mode, u, |X|), SourceIndex(mode, v, Width(X)))
  }

  /** np.pad(X, ((ph, ph), (pw, pw)), mode, constant_values = cval). */
  function Pad(X: Grid<real>, ph: nat, pw: nat, mode: PadMode, cval: real): (P: Grid<real>)
    ensures |P| == |X| + 2 * ph && Rect(P)
    ensures |P| > 0 ==> Width(P) == Width(X) + 2 * pw
  {
    var row := (u: int) => seq(Width(X) + 2 * pw, v => Extended(X, mode, cval, u - ph, v - pw));
    var P := seq(|X| + 2 * ph, u => row(u));
    assert forall u | 0 <= u < |P| :: |P[u]| == Width(X) + 2 * pw;
    P
  }

  /** np.pad raises on an empty axis that a non-constant mode must extend. */
  predicate PadRaises(mode: PadMode, height: nat, width: nat, ph: nat, pw: nat) {
    mode != Constant && ((height == 0 && ph > 0) || (width == 0 && pw > 0))
  }

  /** np.flipud(np.fliplr(K)): the kernel rotated by 180°. */
  function Flip(K: Grid<real>): (F: Grid<real>)
    ensures |F| == |K| && Rect(F) && Width(F) == Width(K)
  {
    var F := seq(|K|, a => seq(Width(K), b => At(K, |K| - 1 - a, Width(K) - 1 - b)));
    assert forall a | 0 <= a < |F| :: |F[a]| == Width(K);
    F
  }

  /** Rotating a rectangular kernel by 180° twice gives it back. */
  lemma FlipTwice(K: Grid<real>)
    requires Rect(K)
    ensures Flip(Flip(K)) == K
  {
    var F, FF := Flip(K), Flip(Flip(K));
    forall a | 0 <= a < |K| ensures FF[a] == K[a] {
      forall b | 0 <= b < Width(K) ensures FF[a][b] == K[a][b] {
        var a', b' := |K| - 1 - a, Width(K) - 1 - b;
        assert FF[a][b] == At(F, a', b') == F[a'][b'];
        assert F[a'][b'] == At(K, |K| - 1 - a', Width(K) - 1 - b') == K[a][b];
      }
    }
  }

  /** The products P[i + a][j + b] * F[a][b] of row a of the window, as a function of b. */
  function WindowTerms(P: Grid<real>, F: Grid<real>, i: int, j: int, a: int): nat -> real {
    b => At(P, i + a, j + b) * At(F, a, b)
  }

  /** Row a of np.sum(P[i:i+kh, j:j+kw] * F). */
  function WindowRow(P: Grid<real>, F: Grid<real>, i: int, j: int, a: int): real {
    Sum(Width(F), WindowTerms(P, F, i, j, a))
  }

  /** np.sum(P[i:i+kh, j:j+kw] * F): the window of P at (i, j) times F, summed. */
  function WindowSum(P: Grid<real>, F: Grid<real>, i: int, j: int): real {
    Sum(|F|, a => WindowRow(P, F, i, j, a))
  }

  /** The padded input as a signal on all of Z × Z. */
  function Padded(X: Grid<real>, mode: PadMode, cval: real): (int, int) -> real {
    (u, v) => Extended(X, mode, cval, u, v)
  }

  /** One summand of the reference definition: the signal E at offset
      (a - kh // 2, b - kw // 2) from (i, j) times the kernel read backwards. */
  function Term(E: (int, int) -> real, K: Grid<real>, i: int, j: int, a: int, b: int): real {
    E(i + a - |K| / 2, j + b - Width(K) / 2) * At(K, |K| - 1 - a, Width(K) - 1 - b)
  }

  /** The summands of kernel row a, as a function of the column b. */
  function RowTerms(E: (int, int) -> real, K: Grid<real>, i: int, j: int, a: int): nat -> real {
    b => Term(E, K, i, j, a, b)
  }

  function Row(E: (int, int) -> real, K: Grid<real>, i: int, j: int, a: int): real {
    Sum(Width(K), RowTerms(E, K, i, j, a))
  }

  /** The row sums, as a function of the kernel row a. */
  function Rows(E: (int, int) -> real, K: Grid<real>, i: int, j: int): nat -> real {
    a => Row(E, K, i, j, a)
  }

  /** True convolution of the signal E with K at (i, j), the kernel centred
      at (kh // 2, kw // 2): the sum over a < kh, b < kw of
      E(i + a - kh//2, j + b - kw//2) * K[kh - 1 - a][kw - 1 - b]. */
  function Convolve(E: (int, int) -> real, K: Grid<real>, i: int, j: int): real {
    Sum(|K|, Rows(E, K, i, j))
  }

  /** The padded array has (H + 2ph) × (W + 2pw) cells, holds the input in
      its interior, and in `constant` mode holds cval in every other cell. */
  lemma PadShape(X: Grid<real>, ph: nat, pw: nat, mode: PadMode, cval: real)
    requires Rect(X) && |X| > 0
    ensures var P := Pad(X, ph, pw, mode, cval);
      && |P| == |X| + 2 * ph && Rect(P) && Width(P) == Width(X) + 2 * pw
      && (forall u, v :: 0 <= u < |X| && 0 <= v < Width(X) ==> P[u + ph][v + pw] == X[u][v])
      && (mode == Constant ==>
            forall u, v :: 0 <= u < |P| && 0 <= v < Width(P) && !(ph <= u < ph + |X| && pw <= v < pw + Width(X))
              ==> P[u][v] == cval)
  {
    var P := Pad(X, ph, pw, mode, cval);
    assert |P[0]| == Width(X) + 2 * pw;
    forall u, v | 0 <= u < |X| && 0 <= v < Width(X) ensures P[u + ph][v + pw] == X[u][v] {
      assert P[u + ph][v + pw] == Extended(X, mode, cval, u, v);
    }
    if mode == Constant {
      forall u, v | 0 <= u < |P| && 0 <= v < Width(P) && !(ph <= u < ph + |X| && pw <= v < pw + Width(X))
        ensures P[u][v] == cval
      {
        assert P[u][v] == Extended(X, mode, cval, u - ph, v - pw);
      }
    }
  }

  /** What each mode copies into the first and last t padding positions of an
      axis of length n: `reflect` skips the edge sample (position -t reads t,
      position n - 1 + t reads n - 1 - t, while t <= n - 1), `edge` repeats it,
      `wrap` reads the opposite end. */
  lemma PadBorder(n: nat, t: int)
    requires 1 <= t < n
    ensures SourceIndex(Reflect, -t, n) == t && SourceIndex(Reflect, n - 1 + t, n) == n - 1 - t
    ensures SourceIndex(Edge, -t, n) == 0 && SourceIndex(Edge, n - 1 + t, n) == n - 1
    ensures SourceIndex(Wrap, -t, n) == n - t && SourceIndex(Wrap, n - 1 + t, n) == t - 1
  {
    var p := 2 * (n - 1);
    ModUnique(-t, p, -1, p - t);
    if t < n - 1 {
      ModUnique(n - 1 + t, p, 0, n - 1 + t);
    } else {
      ModUnique(n - 1 + t, p, 1, 0);
    }
    ModUnique(-t, n, -1, n - t);
    ModUnique(n - 1 + t, n, 1, t - 1);
  }

  /** The window sum over the padded input with the flipped kernel is the
      reference convolution. */
  lemma WindowSumIsConv(X: Grid<real>, K: Grid<real>, mode: PadMode, cval: real, ph: nat, pw: nat, i: nat, j: nat)
    requires Rect(X) && Rect(K) && i < |X| && j < Width(X)
    requires ph == |K| / 2 && (|K| > 0 ==> pw == Width(K) / 2)
    ensures WindowSum(Pad(X, ph, pw, mode, cval), Flip(K), i, j) == Convolve(Padded(X, mode, cval), K, i, j)
  {
    var P := Pad(X, ph, pw, mode, cval);
    var F := Flip(K);
    forall a | 0 <= a < |K| ensures WindowRow(P, F, i, j, a) == Row(Padded(X, mode, cval), K, i, j, a) {
      WindowRowIsConvRow(X, K, mode, cval, ph, pw, i, j, a);
    }
    SumCongruent(|K|, a => WindowRow(P, F, i, j, a), Rows(Padded(X, mode, cval), K, i, j));
  }

  lemma WindowRowIsConvRow(X: Grid<real>, K: Grid<real>, mode: PadMode, cval: real, ph: nat, pw: nat, i: nat, j: nat, a: nat)
    requires Rect(X) && Rect(K) && i < |X| && j < Width(X) && a < |K|
    requires ph == |K| / 2 && pw == Width(K) / 2
    ensures WindowRow(Pad(X, ph, pw, mode, cval), Flip(K), i, j, a) == Row(Padded(X, mode, cval), K, i, j, a)
  {
    var P := Pad(X, ph, pw, mode, cval);
    var F := Flip(K);
    assert |F| == |K| && Width(F) == Width(K);
    forall b | 0 <= b < Width(K)
      ensures WindowTerms(P, F, i, j, a)(b) == RowTerms(Padded(X, mode, cval), K, i, j, a)(b)
    {
      WindowTermIsConvTerm(X, K, mode, cval, ph, pw, i, j, a, b);
    }
    SumCongruent(Width(K), WindowTerms(P, F, i, j, a), RowTerms(Padded(X, mode, cval), K, i, j, a));
  }

  lemma WindowTermIsConvTerm(X: Grid<real>, K: Grid<real>, mode: PadMode, cval: real, ph: nat, pw: nat,
                             i: nat, j: nat, a: nat, b: nat)
    requires Rect(X) && Rect(K) && i < |X| && j < Width(X) && a < |K| && b < Width(K)
    requires ph == |K| / 2 && pw == Width(K) / 2
    ensures WindowTerms(Pad(X, ph, pw, mode, cval), Flip(K), i, j, a)(b) == RowTerms(Padded(X, mode, cval), K, i, j, a)(b)
  {
    PadAt(X, ph, pw, mode, cval, i + a, j + b);
    FlipAt(K, a, b);
    TermFromFactors(Pad(X, ph, pw, mode, cval), Flip(K), Padded(X, mode, cval), K, i, j, a, b);
  }

  /** The window product equals the convolution summand once both factors do. */
  lemma TermFromFactors(P: Grid<real>, F: Grid<real>, E: (int, int) -> real, K: Grid<real>, i: int, j: int, a: int, b: nat)
    requires At(P, i + a, j + b) == E(i + a - |K| / 2, j + b - Width(K) / 2)
    requires At(F, a, b) == At(K, |K| - 1 - a, Width(K) - 1 - b)
    ensures WindowTerms(P, F, i, j, a)(b) == RowTerms(E, K, i, j, a)(b)
  {
    ProductEqual(At(P, i + a, j + b), At(F, a, b), E(i + a - |K| / 2, j + b - Width(K) / 2), At(K, |K| - 1 - a, Width(K) - 1 - b));
  }

  /** Inside its bounds, the padded array holds the extended input. */
  lemma PadAt(X: Grid<real>, ph: nat, pw: nat, mode: PadMode, cval: real, u: int, v: int)
    requires 0 <= u < |X| + 2 * ph && 0 <= v < Width(X) + 2 * pw
    ensures At(Pad(X, ph, pw, mode, cval), u, v) == Padded(X, mode, cval)(u - ph, v - pw)
  {
  }

  /** The flipped kernel reads the kernel backwards. */
  lemma FlipAt(K: Grid<real>, a: int, b: int)
    requires 0 <= a < |K| && 0 <= b < Width(K)
    ensures At(Flip(K), a, b) == At(K, |K| - 1 - a, Width(K) - 1 - b)
  {
  }

  lemma ProductEqual(x: real, y: real, x': real, y': real)
    requires x == x' && y == y'
    ensures x * y == x' * y'
  {
  }

  /** convolve_custom: a fresh float array of the input's shape whose cell
      (i, j) is the reference convolution at (i, j); np.pad's refusal to
      extend an empty axis surfaces as an error. */
  method ConvolveCustom(input: array2<real>, kernel: array2<real>, mode: PadMode, cval: real)
    returns (res: Result<array2<real>>)
    ensures res.Err? <==> PadRaises(mode, input.Length0, input.Length1, kernel.Length0 / 2, kernel.Length1 / 2)
    ensures res.Err? ==> res.error == EmptyAxisPadding
    ensures res.Ok? ==> fresh(res.value)
    ensures res.Ok? ==> res.value.Length0 == input.Length0 && res.value.Length1 == input.Length1
    ensures res.Ok? ==> forall i, j :: 0 <= i < input.Length0 && 0 <= j < input.Length1 ==>
      res.value[i, j] == Convolve(Padded(Snapshot(input), mode, cval), Snapshot(kernel), i, j)
  {
    var kernelFlipped := Flip(Snapshot(kernel));
    var height, width := input.Length0, input.Length1;
    var padHeight, padWidth := kernel.Length0 / 2, kernel.Length1 / 2;
    if PadRaises(mode, height, width, padHeight, padWidth) {
      return Err(EmptyAxisPadding);
    }
    var paddedInput := Pad(Snapshot(input), padHeight, padWidth, mode, cval);
    var convolved := new real[height, width]((_, _) => 0.0);
    var i := 0;
    while i < height
      invariant 0 <= i <= height
      invariant forall i', j' :: 0 <= i' < i && 0 <= j' < width ==>
        convolved[i', j'] == WindowSum(paddedInput, kernelFlipped, i', j')
    {
      var j := 0;
      while j < width
        invariant 0 <= j <= width
        invariant forall i', j' :: 0 <= i' < i && 0 <= j' < width ==>
          convolved[i', j'] == WindowSum(paddedInput, kernelFlipped, i', j')
        invariant forall j' :: 0 <= j' < j ==> convolved[i, j'] == WindowSum(paddedInput, kernelFlipped, i, j')
      {
        convolved[i, j] := WindowSum(paddedInput, kernelFlipped, i, j);
        j := j + 1;
      }
      i := i + 1;
    }
    forall i, j | 0 <= i < height && 0 <= j < width
      ensures convolved[i, j] == Convolve(Padded(Snapshot(input), mode, cval), Snapshot(kernel), i, j)
    {
      WindowSumIsConv(Snapshot(input), Snapshot(kernel), mode, cval, padHeight, padWidth, i, j);
    }
    return Ok(convolved);
  }

  /** Two grids of the same height and width. */
  ghost predicate SameShape(X: Grid<real>, Y: Grid<real>) {
    Rect(X) && Rect(Y) && |X| == |Y| && Width(X) == Width(Y)
  }

  /** a·X + b·Y, cell by cell. */
  function Combine(alpha: real, X: Grid<real>, beta: real, Y: Grid<real>): Grid<real> {
    seq(|X|, u => seq(Width(X), v => alpha * At(X, u, v) + beta * At(Y, u, v)))
  }

  /** Convolution is linear in the input: conv(a·X + b·Y) == a·conv(X) + b·conv(Y),
      in every mode that copies samples, and in `constant` mode when cval is 0
      (a non-zero fill makes it affine instead). */
  lemma ConvolutionLinear(X: Grid<real>, Y: Grid<real>, K: Grid<real>, mode: PadMode, cval: real,
                          alpha: real, beta: real, i: int, j: int)
    requires SameShape(X, Y) && (mode == Constant ==> cval == 0.0)
    ensures Convolve(Padded(Combine(alpha, X, beta, Y), mode, cval), K, i, j)
         == alpha * Convolve(Padded(X, mode, cval), K, i, j) + beta * Convolve(Padded(Y, mode, cval), K, i, j)
  {
    PaddedLinear(X, Y, mode, cval, alpha, beta);
    ConvolvePaddedLinear(X, Y, K, mode, cval, alpha, beta, i, j);
  }

  /** ConvolveLinear for the padded inputs. */
  lemma ConvolvePaddedLinear(X: Grid<real>, Y: Grid<real>, K: Grid<real>, mode: PadMode, cval: real,
                             alpha: real, beta: real, i: int, j: int)
    requires Mixed(Padded(X, mode, cval), Padded(Y, mode, cval), Padded(Combine(alpha, X, beta, Y), mode, cval), alpha, beta)
    ensures Convolve(Padded(Combine(alpha, X, beta, Y), mode, cval), K, i, j)
         == alpha * Convolve(Padded(X, mode, cval), K, i, j) + beta * Convolve(Padded(Y, mode, cval), K, i, j)
  {
    ConvolveLinear(Padded(X, mode, cval), Padded(Y, mode, cval), Padded(Combine(alpha, X, beta, Y), mode, cval), K, alpha, beta, i, j);
  }

  /** Ez is the linear combination alpha·Ex + beta·Ey of two signals. */
  ghost predicate Mixed(Ex: (int, int) -> real, Ey: (int, int) -> real, Ez: (int, int) -> real, alpha: real, beta: real) {
    forall u, v :: Ez(u, v) == alpha * Ex(u, v) + beta * Ey(u, v)
  }

  /** Convolution is linear in the signal. */
  lemma ConvolveLinear(Ex: (int, int) -> real, Ey: (int, int) -> real, Ez: (int, int) -> real, K: Grid<real>,
                       alpha: real, beta: real, i: int, j: int)
    requires Mixed(Ex, Ey, Ez, alpha, beta)
    ensures Convolve(Ez, K, i, j) == alpha * Convolve(Ex, K, i, j) + beta * Convolve(Ey, K, i, j)
  {
    RowsLinear(Ex, Ey, Ez, K, alpha, beta, i, j);
    RowsSumLinear(Ex, Ey, Ez, K, alpha, beta, i, j);
  }

  /** Sums the row relation of RowsLinear up to the whole convolution. */
  lemma RowsSumLinear(Ex: (int, int) -> real, Ey: (int, int) -> real, Ez: (int, int) -> real, K: Grid<real>,
                      alpha: real, beta: real, i: int, j: int)
    requires LinearOn(|K|, Rows(Ex, K, i, j), Rows(Ey, K, i, j), Rows(Ez, K, i, j), alpha, beta)
    ensures Convolve(Ez, K, i, j) == alpha * Convolve(Ex, K, i, j) + beta * Convolve(Ey, K, i, j)
  {
    SumLinear(|K|, Rows(Ex, K, i, j), Rows(Ey, K, i, j), Rows(Ez, K, i, j), alpha, beta);
  }

  lemma RowsLinear(Ex: (int, int) -> real, Ey: (int, int) -> real, Ez: (int, int) -> real, K: Grid<real>,
                   alpha: real, beta: real, i: int, j: int)
    requires Mixed(Ex, Ey, Ez, alpha, beta)
    ensures LinearOn(|K|, Rows(Ex, K, i, j), Rows(Ey, K, i, j), Rows(Ez, K, i, j), alpha, beta)
  {
    forall a: nat | a < |K| ensures Rows(Ez, K, i, j)(a) == alpha * Rows(Ex, K, i, j)(a) + beta * Rows(Ey, K, i, j)(a) {
      RowLinear(Ex, Ey, Ez, K, alpha, beta, i, j, a);
    }
  }

  /** Each kernel row of the sum is linear in the signal. */
  lemma RowLinear(Ex: (int, int) -> real, Ey: (int, int) -> real, Ez: (int, int) -> real, K: Grid<real>,
                  alpha: real, beta: real, i: int, j: int, a: nat)
    requires Mixed(Ex, Ey, Ez, alpha, beta)
    ensures Rows(Ez, K, i, j)(a) == alpha * Rows(Ex, K, i, j)(a) + beta * Rows(Ey, K, i, j)(a)
  {
    TermsLinear(Ex, Ey, Ez, K, alpha, beta, i, j, a);
    TermsSumLinear(Ex, Ey, Ez, K, alpha, beta, i, j, a);
  }

  /** Sums the summand relation of TermsLinear up to the row. */
  lemma TermsSumLinear(Ex: (int, int) -> real, Ey: (int, int) -> real, Ez: (int, int) -> real, K: Grid<real>,
                       alpha: real, beta: real, i: int, j: int, a: nat)
    requires LinearOn(Width(K), RowTerms(Ex, K, i, j, a), RowTerms(Ey, K, i, j, a), RowTerms(Ez, K, i, j, a), alpha, beta)
    ensures Rows(Ez, K, i, j)(a) == alpha * Rows(Ex, K, i, j)(a) + beta * Rows(Ey, K, i, j)(a)
  {
    SumLinear(Width(K), RowTerms(Ex, K, i, j, a), RowTerms(Ey, K, i, j, a), RowTerms(Ez, K, i, j, a), alpha, beta);
  }

  lemma TermsLinear(Ex: (int, int) -> real, Ey: (int, int) -> real, Ez: (int, int) -> real, K: Grid<real>,
                    alpha: real, beta: real, i: int, j: int, a: nat)
    requires Mixed(Ex, Ey, Ez, alpha, beta)
    ensures LinearOn(Width(K), RowTerms(Ex, K, i, j, a), RowTerms(Ey, K, i, j, a), RowTerms(Ez, K, i, j, a), alpha, beta)
  {
    forall b: nat | b < Width(K)
      ensures RowTerms(Ez, K, i, j, a)(b) == alpha * RowTerms(Ex, K, i, j, a)(b) + beta * RowTerms(Ey, K, i, j, a)(b)
    {
      TermLinear(Ex, Ey, Ez, K, alpha, beta, i, j, a, b);
    }
  }

  /** Each summand is linear in the signal. */
  lemma TermLinear(Ex: (int, int) -> real, Ey: (int, int) -> real, Ez: (int, int) -> real, K: Grid<real>,
                   alpha: real, beta: real, i: int, j: int, a: int, b: nat)
    requires Mixed(Ex, Ey, Ez, alpha, beta)
    ensures RowTerms(Ez, K, i, j, a)(b) == alpha * RowTerms(Ex, K, i, j, a)(b) + beta * RowTerms(Ey, K, i, j, a)(b)
  {
    var u, v := i + a - |K| / 2, j + b - Width(K) / 2;
    var k := At(K, |K| - 1 - a, Width(K) - 1 - b);
    Distribute(alpha, Ex(u, v), beta, Ey(u, v), Ez(u, v), k);
    Regroup(RowTerms(Ex, K, i, j, a)(b), RowTerms(Ey, K, i, j, a)(b), RowTerms(Ez, K, i, j, a)(b),
      Ex(u, v) * k, Ey(u, v) * k, Ez(u, v) * k, alpha, beta);
  }

  lemma Distribute(alpha: real, x: real, beta: real, y: real, z: real, k: real)
    requires z == alpha * x + beta * y
    ensures z * k == alpha * (x * k) + beta * (y * k)
  {
  }

  /** Replaces the three values of a linear relation by equal ones. */
  lemma Regroup(x: real, y: real, z: real, x': real, y': real, z': real, alpha: real, beta: real)
    requires x == x' && y == y' && z == z'
    requires z' == alpha * x' + beta * y'
    ensures z == alpha * x + beta * y
  {
  }

  /** Padding commutes with linear combination. */
  lemma PaddedLinear(X: Grid<real>, Y: Grid<real>, mode: PadMode, cval: real, alpha: real, beta: real)
    requires SameShape(X, Y) && (mode == Constant ==> cval == 0.0)
    ensures Mixed(Padded(X, mode, cval), Padded(Y, mode, cval), Padded(Combine(alpha, X, beta, Y), mode, cval), alpha, beta)
  {
    forall u, v
      ensures Padded(Combine(alpha, X, beta, Y), mode, cval)(u, v)
           == alpha * Padded(X, mode, cval)(u, v) + beta * Padded(Y, mode, cval)(u, v)
    {
      ExtendedLinear(X, Y, mode, cval, alpha, beta, u, v);
    }
  }

  /** The padded value of a·X + b·Y is a·(padded X) + b·(padded Y). */
  lemma ExtendedLinear(X: Grid<real>, Y: Grid<real>, mode: PadMode, cval: real, alpha: real, beta: real, u: int, v: int)
    requires SameShape(X, Y) && (mode == Constant ==> cval == 0.0)
    ensures Padded(Combine(alpha, X, beta, Y), mode, cval)(u, v)
         == alpha * Padded(X, mode, cval)(u, v) + beta * Padded(Y, mode, cval)(u, v)
  {
    ExtendedCombination(X, Y, mode, cval, alpha, beta, u, v);
    CombinationPadded(X, Y, Combine(alpha, X, beta, Y), mode, cval, alpha, beta, u, v);
  }

  /** Reads an ExtendedCombination-shaped relation through the padded signals. */
  lemma CombinationPadded(X: Grid<real>, Y: Grid<real>, Z: Grid<real>, mode: PadMode, cval: real,
                          alpha: real, beta: real, u: int, v: int)
    requires Extended(Z, mode, cval, u, v) == alpha * Extended(X, mode, cval, u, v) + beta * Extended(Y, mode, cval, u, v)
    ensures Padded(Z, mode, cval)(u, v) == alpha * Padded(X, mode, cval)(u, v) + beta * Padded(Y, mode, cval)(u, v)
  {
  }

  /** ExtendedLinear on Extended itself, by mode. */
  lemma ExtendedCombination(X: Grid<real>, Y: Grid<real>, mode: PadMode, cval: real, alpha: real, beta: real, u: int, v: int)
    requires SameShape(X, Y) && (mode == Constant ==> cval == 0.0)
    ensures Extended(Combine(alpha, X, beta, Y), mode, cval, u, v)
         == alpha * Extended(X, mode, cval, u, v) + beta * Extended(Y, mode, cval, u, v)
  {
    if mode == Constant {
      FillLinear(X, Y, mode, cval, alpha, beta, u, v);
    } else {
      CopyLinear(X, Y, mode, cval, alpha, beta, u, v);
    }
  }

  /** ExtendedLinear in `constant` mode with a zero fill. */
  lemma FillLinear(X: Grid<real>, Y: Grid<real>, mode: PadMode, cval: real, alpha: real, beta: real, u: int, v: int)
    requires SameShape(X, Y) && mode == Constant && cval == 0.0
    ensures Extended(Combine(alpha, X, beta, Y), mode, cval, u, v)
         == alpha * Extended(X, mode, cval, u, v) + beta * Extended(Y, mode, cval, u, v)
  {
    var Z := Combine(alpha, X, beta, Y);
    assert |Z| == |X| && Width(Z) == Width(X);
    if 0 <= u < |X| && 0 <= v < Width(X) {
      CombineAt(alpha, X, beta, Y, u, v);
    } else {
      ZeroCombination(alpha, beta);
    }
  }

  /** ExtendedLinear in the modes that copy samples. */
  lemma CopyLinear(X: Grid<real>, Y: Grid<real>, mode: PadMode, cval: real, alpha: real, beta: real, u: int, v: int)
    requires SameShape(X, Y) && mode != Constant
    ensures Extended(Combine(alpha, X, beta, Y), mode, cval, u, v)
         == alpha * Extended(X, mode, cval, u, v) + beta * Extended(Y, mode, cval, u, v)
  {
    var Z := Combine(alpha, X, beta, Y);
    assert |Z| == |X| && Width(Z) == Width(X);
    if |X| > 0 && Width(X) > 0 {
      CombineAt(alpha, X, beta, Y, SourceIndex(mode, u, |X|), SourceIndex(mode, v, Width(X)));
    } else {
      ZeroCombination(alpha, beta);
    }
  }

  /** Inside the grid, a cell of a·X + b·Y is a·X[u][v] + b·Y[u][v]. */
  lemma CombineAt(alpha: real, X: Grid<real>, beta: real, Y: Grid<real>, u: int, v: int)
    requires SameShape(X, Y) && 0 <= u < |X| && 0 <= v < Width(X)
    ensures At(Combine(alpha, X, beta, Y), u, v) == alpha * At(X, u, v) + beta * At(Y, u, v)
  {
  }

  lemma ZeroCombination(alpha: real, beta: real)
    ensures alpha * 0.0 + beta * 0.0 == 0.0
  {
  }

  // Mirror symmetry

  /** Every mode that copies samples treats the two ends of an axis alike:
      position n - 1 - u copies the mirror image of the sample position u copies. */
  lemma MirrorIndex(mode: PadMode, u: int, n: nat)
    requires n > 0 && mode != Constant
    ensures SourceIndex(mode, n - 1 - u, n) == n - 1 - SourceIndex(mode, u, n)
  {
    match mode
    case Edge =>
    case Wrap =>
      ModUnique(u, n, u / n, u % n);
      ModUnique(n - 1 - u, n, -(u / n), n - 1 - u % n);
    case Reflect =>
      if n > 1 {
        var p := 2 * (n - 1);
        var q := u % p;
        ModUnique(u, p, u / p, q);
        if q < n {
          ModUnique(n - 1 - u, p, -(u / p), n - 1 - q);
        } else {
          ModUnique(n - 1 - u, p, -(u / p) - 1, p + n - 1 - q);
        }
      }
  }

  /** X with its rows in reverse order (np.flipud). */
  function RowsReversed(X: Grid<real>): Grid<real> {
    seq(|X|, u requires 0 <= u < |X| => X[|X| - 1 - u])
  }

  /** X with each row in reverse order (np.fliplr). */
  function ColsReversed(X: Grid<real>): Grid<real> {
    seq(|X|, u requires 0 <= u < |X| => seq(|X[u]|, v requires 0 <= v < |X[u]| => X[u][|X[u]| - 1 - v]))
  }

  /** X reads the same with its rows in reverse order. */
  ghost predicate RowMirrored(X: Grid<real>) {
    Rect(X) && RowsReversed(X) == X
  }

  /** X reads the same with its columns in reverse order. */
  ghost predicate ColMirrored(X: Grid<real>) {
    Rect(X) && ColsReversed(X) == X
  }

  /** The cell-wise reading of RowMirrored. */
  lemma RowMirroredAt(X: Grid<real>, u: int, v: int)
    requires RowMirrored(X) && 0 <= u < |X| && 0 <= v < Width(X)
    ensures X[|X| - 1 - u][v] == X[u][v]
  {
    assert RowsReversed(X)[u] == X[u];
  }

  /** The cell-wise reading of ColMirrored. */
  lemma ColMirroredAt(X: Grid<real>, u: int, v: int)
    requires ColMirrored(X) && 0 <= u < |X| && 0 <= v < Width(X)
    ensures X[u][Width(X) - 1 - v] == X[u][v]
  {
    assert ColsReversed(X)[u][v] == X[u][v];
  }

  /** Padding a row-mirrored input gives a row-mirrored signal, in every mode. */
  lemma ExtendedRowMirror(X: Grid<real>, mode: PadMode, cval: real, u: int, u': int, v: int)
    requires RowMirrored(X) && u + u' == |X| - 1
    ensures Extended(X, mode, cval, u', v) == Extended(X, mode, cval, u, v)
  {
    if mode == Constant {
      if 0 <= u < |X| && 0 <= v < Width(X) {
        RowMirroredAt(X, u, v);
      }
    } else if |X| > 0 && Width(X) > 0 {
      MirrorIndex(mode, u, |X|);
      RowMirroredAt(X, SourceIndex(mode, u, |X|), SourceIndex(mode, v, Width(X)));
    }
  }

  /** Padding a column-mirrored input gives a column-mirrored signal, in every mode. */
  lemma ExtendedColMirror(X: Grid<real>, mode: PadMode, cval: real, u: int, v: int, v': int)
    requires ColMirrored(X) && v + v' == Width(X) - 1
    ensures Extended(X, mode, cval, u, v') == Extended(X, mode, cval, u, v)
  {
    if mode == Constant {
      if 0 <= u < |X| && 0 <= v < Width(X) {
        ColMirroredAt(X, u, v);
      }
    } else if |X| > 0 && Width(X) > 0 {
      MirrorIndex(mode, v, Width(X));
      ColMirroredAt(X, SourceIndex(mode, u, |X|), SourceIndex(mode, v, Width(X)));
    }
  }

  /** The signal E reads the same at rows u and h - 1 - u. */
  ghost predicate SignalRowMirrored(E: (int, int) -> real, h: int) {
    forall u, u', v :: u + u' == h - 1 ==> E(u', v) == E(u, v)
  }

  /** The signal E reads the same at columns v and w - 1 - v. */
  ghost predicate SignalColMirrored(E: (int, int) -> real, w: int) {
    forall u, v, v' :: v + v' == w - 1 ==> E(u, v') == E(u, v)
  }

  /** Padding a row-mirrored input gives a row-mirrored signal, in every mode. */
  lemma PaddedRowMirror(X: Grid<real>, mode: PadMode, cval: real)
    requires RowMirrored(X)
    ensures SignalRowMirrored(Padded(X, mode, cval), |X|)
  {
    forall u, u', v | u + u' == |X| - 1 ensures Padded(X, mode, cval)(u', v) == Padded(X, mode, cval)(u, v) {
      ExtendedRowMirror(X, mode, cval, u, u', v);
    }
  }

  /** Padding a column-mirrored input gives a column-mirrored signal, in every mode. */
  lemma PaddedColMirror(X: Grid<real>, mode: PadMode, cval: real)
    requires ColMirrored(X)
    ensures SignalColMirrored(Padded(X, mode, cval), Width(X))
  {
    forall u, v, v' | v + v' == Width(X) - 1 ensures Padded(X, mode, cval)(u, v') == Padded(X, mode, cval)(u, v) {
      ExtendedColMirror(X, mode, cval, u, v, v');
    }
  }

  /** A row-mirrored input convolved with a row-mirrored kernel of odd height
      gives a row-mirrored output: output row i' = H - 1 - i equals output row i. */
  lemma ConvolveRowMirror(X: Grid<real>, K: Grid<real>, mode: PadMode, cval: real, i: int, i': int, j: int)
    requires RowMirrored(X) && RowMirrored(K) && |K| % 2 == 1 && i + i' == |X| - 1
    ensures Convolve(Padded(X, mode, cval), K, i', j) == Convolve(Padded(X, mode, cval), K, i, j)
  {
    PaddedRowMirror(X, mode, cval);
    SignalRowMirror(Padded(X, mode, cval), K, |X|, i, j);
  }

  /** A column-mirrored input convolved with a column-mirrored kernel of odd
      width gives a column-mirrored output: column j' = W - 1 - j equals column j. */
  lemma ConvolveColMirror(X: Grid<real>, K: Grid<real>, mode: PadMode, cval: real, i: int, j: int, j': int)
    requires ColMirrored(X) && ColMirrored(K) && Width(K) % 2 == 1 && j + j' == Width(X) - 1
    ensures Convolve(Padded(X, mode, cval), K, i, j') == Convolve(Padded(X, mode, cval), K, i, j)
  {
    PaddedColMirror(X, mode, cval);
    SignalColMirror(Padded(X, mode, cval), K, Width(X), i, j);
  }

  /** ConvolveRowMirror for any row-mirrored signal. */
  lemma SignalRowMirror(E: (int, int) -> real, K: Grid<real>, h: int, i: int, j: int)
    requires SignalRowMirrored(E, h) && RowMirrored(K) && |K| % 2 == 1
    ensures Convolve(E, K, h - 1 - i, j) == Convolve(E, K, i, j)
  {
    var i' := h - 1 - i;
    forall a | 0 <= a < |K| ensures Row(E, K, i', j, a) == Row(E, K, i, j, |K| - 1 - a) {
      RowMirrorRow(E, K, h, i, j, a);
    }
    SumReversed(|K|, Rows(E, K, i, j), Rows(E, K, i', j));
  }

  /** Kernel row a at output row h - 1 - i sums like kernel row kh - 1 - a at row i. */
  lemma RowMirrorRow(E: (int, int) -> real, K: Grid<real>, h: int, i: int, j: int, a: int)
    requires SignalRowMirrored(E, h) && RowMirrored(K) && |K| % 2 == 1 && 0 <= a < |K|
    ensures Row(E, K, h - 1 - i, j, a) == Row(E, K, i, j, |K| - 1 - a)
  {
    var i' := h - 1 - i;
    forall b | 0 <= b < Width(K) ensures Term(E, K, i', j, a, b) == Term(E, K, i, j, |K| - 1 - a, b) {
      RowMirrorTerm(E, K, h, i, j, a, b);
    }
    SumCongruent(Width(K), RowTerms(E, K, i', j, a), RowTerms(E, K, i, j, |K| - 1 - a));
  }

  /** Summand (a, b) at row h - 1 - i is summand (kh - 1 - a, b) at row i. */
  lemma RowMirrorTerm(E: (int, int) -> real, K: Grid<real>, h: int, i: int, j: int, a: int, b: int)
    requires SignalRowMirrored(E, h) && RowMirrored(K) && |K| % 2 == 1
    requires 0 <= a < |K| && 0 <= b < Width(K)
    ensures Term(E, K, h - 1 - i, j, a, b) == Term(E, K, i, j, |K| - 1 - a, b)
  {
    var c, a' := |K| / 2, |K| - 1 - a;
    assert |K| == 2 * c + 1;
    var v := j + b - Width(K) / 2;
    assert E(h - 1 - i + a - c, v) == E(i + a' - c, v);
    RowMirroredAt(K, a, Width(K) - 1 - b);
    TermsEqual(E, K, h - 1 - i, j, a, b, i, j, a', b);
  }

  /** ConvolveColMirror for any column-mirrored signal. */
  lemma SignalColMirror(E: (int, int) -> real, K: Grid<real>, w: int, i: int, j: int)
    requires SignalColMirrored(E, w) && ColMirrored(K) && Width(K) % 2 == 1
    ensures Convolve(E, K, i, w - 1 - j) == Convolve(E, K, i, j)
  {
    var j' := w - 1 - j;
    forall a | 0 <= a < |K| ensures Row(E, K, i, j', a) == Row(E, K, i, j, a) {
      ColMirrorRow(E, K, w, i, j, a);
    }
    SumCongruent(|K|, Rows(E, K, i, j'), Rows(E, K, i, j));
  }

  /** Each kernel row sums alike at output columns w - 1 - j and j, in reverse order. */
  lemma ColMirrorRow(E: (int, int) -> real, K: Grid<real>, w: int, i: int, j: int, a: int)
    requires SignalColMirrored(E, w) && ColMirrored(K) && Width(K) % 2 == 1 && 0 <= a < |K|
    ensures Row(E, K, i, w - 1 - j, a) == Row(E, K, i, j, a)
  {
    var j' := w - 1 - j;
    forall b | 0 <= b < Width(K) ensures Term(E, K, i, j', a, b) == Term(E, K, i, j, a, Width(K) - 1 - b) {
      ColMirrorTerm(E, K, w, i, j, a, b);
    }
    SumReversed(Width(K), RowTerms(E, K, i, j, a), RowTerms(E, K, i, j', a));
  }

  /** Summand (a, b) at column w - 1 - j is summand (a, kw - 1 - b) at column j. */
  lemma ColMirrorTerm(E: (int, int) -> real, K: Grid<real>, w: int, i: int, j: int, a: int, b: int)
    requires SignalColMirrored(E, w) && ColMirrored(K) && Width(K) % 2 == 1
    requires 0 <= a < |K| && 0 <= b < Width(K)
    ensures Term(E, K, i, w - 1 - j, a, b) == Term(E, K, i, j, a, Width(K) - 1 - b)
  {
    var d, b' := Width(K) / 2, Width(K) - 1 - b;
    assert Width(K) == 2 * d + 1;
    var u := i + a - |K| / 2;
    assert E(u, w - 1 - j + b - d) == E(u, j + b' - d);
    ColMirroredAt(K, |K| - 1 - a, b);
    TermsEqual(E, K, i, w - 1 - j, a, b, i, j, a, b');
  }

  /** Two summands are equal when their signal samples and their kernel weights are. */
  lemma TermsEqual(E: (int, int) -> real, K: Grid<real>, i: int, j: int, a: int, b: int, i': int, j': int, a': int, b': int)
    requires E(i + a - |K| / 2, j + b - Width(K) / 2) == E(i' + a' - |K| / 2, j' + b' - Width(K) / 2)
    requires At(K, |K| - 1 - a, Width(K) - 1 - b) == At(K, |K| - 1 - a', Width(K) - 1 - b')
    ensures Term(E, K, i, j, a, b) == Term(E, K, i', j', a', b')
  {
  }

  // The script's reflect example

  /** The 5 × 5 test image of the script. */
  function TestImage(): Grid<real> {
    [[10.0, 10.0, 10.0, 10.0, 10.0],
     [10.0, 50.0, 50.0, 50.0, 10.0],
     [10.0, 50.0, 100.0, 50.0, 10.0],
     [10.0, 50.0, 50.0, 50.0, 10.0],
     [10.0, 10.0, 10.0, 10.0, 10.0]]
  }

  /** The 3 × 3 Gaussian kernel the script prints, to eight decimals. */
  function PrintedKernel(): Grid<real> {
    [[0.07511361, 0.1238414, 0.07511361],
     [0.1238414, 0.20417996, 0.1238414],
     [0.07511361, 0.1238414, 0.07511361]]
  }

  /** What the reflect pad of the test image reads up to one step outside
      its top and left edges: position -1 mirrors position 1. */
  lemma ReflectSample(u: int, v: int)
    requires -1 <= u <= 4 && -1 <= v <= 4
    ensures Padded(TestImage(), Reflect, 0.0)(u, v) == TestImage()[if u < 0 then -u else u][if v < 0 then -v else v]
  {
    PadBorder(5, 1);
  }

  /** The three-term sum written out. */
  lemma SumOfThree(f: nat -> real)
    ensures Sum(3, f) == f(0) + f(1) + f(2)
  {
    assert Sum(1, f) == f(0);
    assert Sum(2, f) == f(0) + f(1);
  }

  /** In reflect mode the corner of the output is the printed 22.01817727 (to
      within 1e-6): the padding row and column above and left of the corner
      mirror row and column 1, so the four diagonal neighbours read 50. */
  lemma ReflectCorner()
    ensures Convolve(Padded(TestImage(), Reflect, 0.0), PrintedKernel(), 0, 0) == 22.0181776
    ensures 22.01817727 - 0.000001 < Convolve(Padded(TestImage(), Reflect, 0.0), PrintedKernel(), 0, 0) < 22.01817727 + 0.000001
  {
    var E, K := Padded(TestImage(), Reflect, 0.0), PrintedKernel();
    PadBorder(5, 1);
    assert E(-1, -1) == 50.0 && E(-1, 0) == 10.0 && E(-1, 1) == 50.0;
    assert E(0, -1) == 10.0 && E(0, 0) == 10.0 && E(0, 1) == 10.0;
    assert E(1, -1) == 50.0 && E(1, 0) == 10.0 && E(1, 1) == 50.0;
    CellSum(E, K, 0, 0);
  }

  /** An edge-repeating pad would give 13.0045444 instead: only the diagonal
      neighbour inside the image reads 50. */
  lemma EdgeCorner()
    ensures Convolve(Padded(TestImage(), Edge, 0.0), PrintedKernel(), 0, 0) == 13.0045444
  {
    var E, K := Padded(TestImage(), Edge, 0.0), PrintedKernel();
    assert E(-1, -1) == 10.0 && E(-1, 0) == 10.0 && E(-1, 1) == 10.0;
    assert E(0, -1) == 10.0 && E(0, 0) == 10.0 && E(0, 1) == 10.0;
    assert E(1, -1) == 10.0 && E(1, 0) == 10.0 && E(1, 1) == 50.0;
    CellSum(E, K, 0, 0);
  }

  /** The convolution at (i, j) with the printed kernel, written out term by term. */
  lemma CellSum(E: (int, int) -> real, K: Grid<real>, i: int, j: int)
    requires K == PrintedKernel()
    ensures Convolve(E, K, i, j)
         == E(i - 1, j - 1) * 0.07511361 + E(i - 1, j) * 0.1238414 + E(i - 1, j + 1) * 0.07511361
          + E(i, j - 1) * 0.1238414 + E(i, j) * 0.20417996 + E(i, j + 1) * 0.1238414
          + E(i + 1, j - 1) * 0.07511361 + E(i + 1, j) * 0.1238414 + E(i + 1, j + 1) * 0.07511361
  {
    SumOfThree(RowTerms(E, K, i, j, 0));
    SumOfThree(RowTerms(E, K, i, j, 1));
    SumOfThree(RowTerms(E, K, i, j, 2));
    SumOfThree(Rows(E, K, i, j));
  }

  /** The test image and the printed kernel read the same upside down… */
  lemma ExampleRowMirrored(X: Grid<real>, K: Grid<real>)
    requires X == TestImage() && K == PrintedKernel()
    ensures RowMirrored(X) && |X| == 5
    ensures RowMirrored(K) && |K| == 3
  {
    assert RowsReversed(X)[0] == X[0] && RowsReversed(X)[1] == X[1] && RowsReversed(X)[3] == X[3] && RowsReversed(X)[4] == X[4];
    assert RowsReversed(K)[0] == K[0] && RowsReversed(K)[2] == K[2];
  }

  /** …and left to right. */
  lemma ExampleColMirrored(X: Grid<real>, K: Grid<real>)
    requires X == TestImage() && K == PrintedKernel()
    ensures ColMirrored(X) && Width(X) == 5
    ensures ColMirrored(K) && Width(K) == 3
  {
    assert ColsReversed(X)[0] == X[0] && ColsReversed(X)[1] == X[1] && ColsReversed(X)[2] == X[2];
    assert ColsReversed(X)[3] == X[3] && ColsReversed(X)[4] == X[4];
    assert ColsReversed(K)[0] == K[0] && ColsReversed(K)[1] == K[1] && ColsReversed(K)[2] == K[2];
  }

  /** Cell (0, 1) of the reflect-mode output. */
  lemma ReflectCell01()
    ensures Convolve(Padded(TestImage(), Reflect, 0.0), PrintedKernel(), 0, 1) == 25.9164008
  {
    var E, K := Padded(TestImage(), Reflect, 0.0), PrintedKernel();
    ReflectSample(-1, 0);
    ReflectSample(-1, 1);
    ReflectSample(-1, 2);
    ReflectSample(0, 0);
    ReflectSample(0, 1);
    ReflectSample(0, 2);
    ReflectSample(1, 0);
    ReflectSample(1, 1);
    ReflectSample(1, 2);
    CellSum(E, K, 0, 1);
  }

  /** Cell (0, 2) of the reflect-mode output. */
  lemma ReflectCell02()
    ensures Convolve(Padded(TestImage(), Reflect, 0.0), PrintedKernel(), 0, 2) == 31.9254896
  {
    var E, K := Padded(TestImage(), Reflect, 0.0), PrintedKernel();
    ReflectSample(-1, 1);
    ReflectSample(-1, 2);
    ReflectSample(-1, 3);
    ReflectSample(0, 1);
    ReflectSample(0, 2);
    ReflectSample(0, 3);
    ReflectSample(1, 1);
    ReflectSample(1, 2);
    ReflectSample(1, 3);
    CellSum(E, K, 0, 2);
  }

  /** Cell (1, 0) of the reflect-mode output. */
  lemma ReflectCell10()
    ensures Convolve(Padded(TestImage(), Reflect, 0.0), PrintedKernel(), 1, 0) == 25.9164008
  {
    var E, K := Padded(TestImage(), Reflect, 0.0), PrintedKernel();
    ReflectSample(0, -1);
    ReflectSample(0, 0);
    ReflectSample(0, 1);
    ReflectSample(1, -1);
    ReflectSample(1, 0);
    ReflectSample(1, 1);
    ReflectSample(2, -1);
    ReflectSample(2, 0);
    ReflectSample(2, 1);
    CellSum(E, K, 1, 0);
  }

  /** Cell (1, 1) of the reflect-mode output. */
  lemma ReflectCell11()
    ensures Convolve(Padded(TestImage(), Reflect, 0.0), PrintedKernel(), 1, 1) == 34.8347353
  {
    var E, K := Padded(TestImage(), Reflect, 0.0), PrintedKernel();
    ReflectSample(0, 0);
    ReflectSample(0, 1);
    ReflectSample(0, 2);
    ReflectSample(1, 0);
    ReflectSample(1, 1);
    ReflectSample(1, 2);
    ReflectSample(2, 0);
    ReflectSample(2, 1);
    ReflectSample(2, 2);
    CellSum(E, K, 1, 1);
  }

  /** Cell (1, 2) of the reflect-mode output. */
  lemma ReflectCell12()
    ensures Convolve(Padded(TestImage(), Reflect, 0.0), PrintedKernel(), 1, 2) == 45.2293252
  {
    var E, K := Padded(TestImage(), Reflect, 0.0), PrintedKernel();
    ReflectSample(0, 1);
    ReflectSample(0, 2);
    ReflectSample(0, 3);
    ReflectSample(1, 1);
    ReflectSample(1, 2);
    ReflectSample(1, 3);
    ReflectSample(2, 1);
    ReflectSample(2, 2);
    ReflectSample(2, 3);
    CellSum(E, K, 1, 2);
  }

  /** Cell (2, 0) of the reflect-mode output. */
  lemma ReflectCell20()
    ensures Convolve(Padded(TestImage(), Reflect, 0.0), PrintedKernel(), 2, 0) == 31.9254896
  {
    var E, K := Padded(TestImage(), Reflect, 0.0), PrintedKernel();
    ReflectSample(1, -1);
    ReflectSample(1, 0);
    ReflectSample(1, 1);
    ReflectSample(2, -1);
    ReflectSample(2, 0);
    ReflectSample(2, 1);
    ReflectSample(3, -1);
    ReflectSample(3, 0);
    ReflectSample(3, 1);
    CellSum(E, K, 2, 0);
  }

  /** Cell (2, 1) of the reflect-mode output. */
  lemma ReflectCell21()
    ensures Convolve(Padded(TestImage(), Reflect, 0.0), PrintedKernel(), 2, 1) == 45.2293252
  {
    var E, K := Padded(TestImage(), Reflect, 0.0), PrintedKernel();
    ReflectSample(1, 0);
    ReflectSample(1, 1);
    ReflectSample(1, 2);
    ReflectSample(2, 0);
    ReflectSample(2, 1);
    ReflectSample(2, 2);
    ReflectSample(3, 0);
    ReflectSample(3, 1);
    ReflectSample(3, 2);
    CellSum(E, K, 2, 1);
  }

  /** Cell (2, 2) of the reflect-mode output. */
  lemma ReflectCell22()
    ensures Convolve(Padded(TestImage(), Reflect, 0.0), PrintedKernel(), 2, 2) == 60.208998
  {
    var E, K := Padded(TestImage(), Reflect, 0.0), PrintedKernel();
    ReflectSample(1, 1);
    ReflectSample(1, 2);
    ReflectSample(1, 3);
    ReflectSample(2, 1);
    ReflectSample(2, 2);
    ReflectSample(2, 3);
    ReflectSample(3, 1);
    ReflectSample(3, 2);
    ReflectSample(3, 3);
    CellSum(E, K, 2, 2);
  }

  /** The output the script prints for the test image, to eight decimals. */
  function PrintedOutput(): Grid<real> {
    [[22.01817727, 25.91640089, 31.92548952, 25.91640089, 22.01817727],
     [25.91640089, 34.83473519, 45.2293254, 34.83473519, 25.91640089],
     [31.92548952, 45.2293254, 60.20899778, 45.2293254, 31.92548952],
     [25.91640089, 34.83473519, 45.2293254, 34.83473519, 25.91640089],
     [22.01817727, 25.91640089, 31.92548952, 25.91640089, 22.01817727]]
  }

  /** The upper-left 3 × 3 block of the reflect-mode output lies within 1e-6
      of the printed values. */
  lemma ReflectQuadrant(i: int, j: int)
    requires 0 <= i <= 2 && 0 <= j <= 2
    ensures PrintedOutput()[i][j] - 0.000001 < Convolve(Padded(TestImage(), Reflect, 0.0), PrintedKernel(), i, j)
                                            < PrintedOutput()[i][j] + 0.000001
  {
    if i == 0 && j == 0 { ReflectCorner(); }
    else if i == 0 && j == 1 { ReflectCell01(); }
    else if i == 0 && j == 2 { ReflectCell02(); }
    else if i == 1 && j == 0 { ReflectCell10(); }
    else if i == 1 && j == 1 { ReflectCell11(); }
    else if i == 1 && j == 2 { ReflectCell12(); }
    else if i == 2 && j == 0 { ReflectCell20(); }
    else if i == 2 && j == 1 { ReflectCell21(); }
    else { ReflectCell22(); }
  }

  /** So the example's output is symmetric, in every padding mode: each of its
      cells equals one in the top-left quadrant, rows and columns 0 to 2. */
  lemma Folded(X: Grid<real>, K: Grid<real>, mode: PadMode, i: int, j: int)
    requires X == TestImage() && K == PrintedKernel()
    ensures var i', j' := if i <= 2 then i else 4 - i, if j <= 2 then j else 4 - j;
      Convolve(Padded(X, mode, 0.0), K, i, j) == Convolve(Padded(X, mode, 0.0), K, i', j')
  {
    var i', j' := if i <= 2 then i else 4 - i, if j <= 2 then j else 4 - j;
    ExampleRowMirrored(X, K);
    ExampleColMirrored(X, K);
    if i > 2 {
      ConvolveRowMirror(X, K, mode, 0.0, i', i, j);
    }
    if j > 2 {
      ConvolveColMirror(X, K, mode, 0.0, i', j', j);
    }
  }

  /** The printed output is symmetric in the same way. */
  lemma PrintedFolded(i: int, j: int)
    requires 0 <= i < 5 && 0 <= j < 5
    ensures var i', j' := if i <= 2 then i else 4 - i, if j <= 2 then j else 4 - j;
      PrintedOutput()[i][j] == PrintedOutput()[i'][j']
  {
  }

  /** Every cell of the reflect-mode output lies within 1e-6 of the printed one. */
  lemma ReflectOutput()
    ensures forall i, j :: 0 <= i < 5 && 0 <= j < 5 ==>
      PrintedOutput()[i][j] - 0.000001 < Convolve(Padded(TestImage(), Reflect, 0.0), PrintedKernel(), i, j)
                                       < PrintedOutput()[i][j] + 0.000001
  {
    var E, K := Padded(TestImage(), Reflect, 0.0), PrintedKernel();
    forall i, j | 0 <= i < 5 && 0 <= j < 5
      ensures PrintedOutput()[i][j] - 0.000001 < Convolve(E, K, i, j) < PrintedOutput()[i][j] + 0.000001
    {
      var i', j' := if i <= 2 then i else 4 - i, if j <= 2 then j else 4 - j;
      Folded(TestImage(), K, Reflect, i, j);
      PrintedFolded(i, j);
      ReflectQuadrant(i', j');
    }
  }
}
