/** `threshold(img, highThreshold, lowThreshold, weak_pixel, strong_pixel)` of
    test/test_threshold.py: sorts magnitudes into 0, weak and strong by two
    thresholds derived from the largest magnitude. */
module DoubleThreshold {
  import opened Images

  function Max(x: real, y: real): real {
    if x >= y then x else y
  }

  /** The largest element of a non-empty row. */
  function RowMax(s: seq<real>): (m: real)
    requires |s| > 0
    ensures forall k :: 0 <= k < |s| ==> s[k] <= m
    ensures exists k :: 0 <= k < |s| && s[k] == m
  {
    if |s| == 1 then s[0]
    else
      var m' := RowMax(s[..|s| - 1]);
      assert forall k :: 0 <= k < |s| - 1 ==> s[..|s| - 1][k] == s[k];
      Max(m', s[|s| - 1])
  }

  /** `img.max()`: the largest sample of a grid with at least one sample. */
  function GridMax(g: Grid<real>): (m: real)
    requires |g| > 0 && Rect(g) && Width(g) > 0
    ensures forall i, j :: 0 <= i < |g| && 0 <= j < Width(g) ==> g[i][j] <= m
    ensures exists i, j :: 0 <= i < |g| && 0 <= j < Width(g) && g[i][j] == m
  {
    if |g| == 1 then RowMax(g[0])
    else
      var front := g[..|g| - 1];
      assert forall i :: 0 <= i < |g| - 1 ==> front[i] == g[i];
      var m', last := GridMax(front), RowMax(g[|g| - 1]);
      Max(m', last)
  }

  /** A value above every sample and equal to one of them is the maximum. */
  lemma MaxIs(g: Grid<real>, m: real, i0: int, j0: int)
    requires |g| > 0 && Rect(g) && Width(g) > 0
    requires forall i, j :: 0 <= i < |g| && 0 <= j < Width(g) ==> g[i][j] <= m
    requires 0 <= i0 < |g| && 0 <= j0 < Width(g) && g[i0][j0] == m
    ensures GridMax(g) == m
  {
  }

  /** The high threshold is a fraction of the maximum; the low one a fraction of the high one. */
  function HighThreshold(maxValue: real, highRatio: real): real {
    maxValue * highRatio
  }

  function LowThreshold(high: real, lowRatio: real): real {
    high * lowRatio
  }

  /** `res[strong_i, strong_j] = strong_pixel`: the first masked write at one cell. */
  function AfterStrong(v: real, high: real, strong: int, before: int): int {
    if v >= high then strong else before
  }

  /** `res[weak_i, weak_j] = weak_pixel`: the second masked write at one cell. */
  function AfterWeak(v: real, low: real, high: real, weak: int, before: int): int {
    if v <= high && v >= low then weak else before
  }

  /** A cell of the zero-allocated result after both writes, in source order. */
  function Classify(v: real, low: real, high: real, weak: int, strong: int): (c: int)
    ensures c == 0 || c == weak || c == strong
  {
    AfterWeak(v, low, high, weak, AfterStrong(v, high, strong, 0))
  }

  /** The result grid for given thresholds. */
  function Classified(g: Grid<real>, low: real, high: real, weak: int, strong: int): (r: Grid<int>)
    ensures |r| == |g| && Rect(r) && Width(r) == Width(g)
    ensures forall x, y :: 0 <= x < |r| && 0 <= y < Width(r) ==> r[x][y] == 0 || r[x][y] == weak || r[x][y] == strong
  {
    seq(|g|, i => seq(Width(g), j => Classify(At(g, i, j), low, high, weak, strong)))
  }

  /** The outcome of the whole function: img.max() raises on an empty array. */
  function ThresholdSpec(g: Grid<real>, highRatio: real, lowRatio: real, weak: int, strong: int): (r: Result<Grid<int>>)
    requires Rect(g)
    ensures r.Err? <==> |g| == 0 || Width(g) == 0
    ensures r.Err? ==> r.error == EmptyReduction
    ensures r.Ok? ==> |r.value| == |g| && Rect(r.value) && Width(r.value) == Width(g)
    ensures r.Ok? ==> forall x, y :: 0 <= x < |g| && 0 <= y < Width(g) ==>
      r.value[x][y] == 0 || r.value[x][y] == weak || r.value[x][y] == strong
  {
    if |g| == 0 || Width(g) == 0 then Err(EmptyReduction)
    else
      var high := HighThreshold(GridMax(g), highRatio);
      Ok(Classified(g, LowThreshold(high, lowRatio), high, weak, strong))
  }

  method Threshold(img: array2<real>, highRatio: real, lowRatio: real, weak: int, strong: int)
    returns (res: Result<array2<int>>)
    ensures res.Err? <==> ThresholdSpec(Snapshot(img), highRatio, lowRatio, weak, strong).Err?
    ensures res.Err? ==> res.error == EmptyReduction
    ensures res.Ok? ==>
      fresh(res.value) && Ok(Snapshot(res.value)) == ThresholdSpec(Snapshot(img), highRatio, lowRatio, weak, strong)
  {
    var M, N := img.Length0, img.Length1;
    if M == 0 || N == 0 {
      return Err(EmptyReduction);
    }
    ghost var g := Snapshot(img);
    var high := HighThreshold(GridMax(Snapshot(img)), highRatio);
    var low := LowThreshold(high, lowRatio);
    var r := new int[M, N]((_, _) => 0);
    WriteStrong(img, r, high, strong);
    WriteWeak(img, r, low, high, weak);
    assert Snapshot(img) == g;
    ghost var want := Classified(g, low, high, weak, strong);
    forall x, y | 0 <= x < M && 0 <= y < N ensures Snapshot(r)[x][y] == want[x][y] {
      assert At(g, x, y) == img[x, y];
    }
    forall x | 0 <= x < M ensures Snapshot(r)[x] == want[x] {
    }
    assert Snapshot(r) == want;
    return Ok(r);
  }

  /** Sets strong at every cell whose magnitude is at least high; leaves the rest. */
  method WriteStrong(img: array2<real>, r: array2<int>, high: real, strong: int)
    requires r.Length0 == img.Length0 && r.Length1 == img.Length1
    modifies r
    ensures forall x, y :: 0 <= x < r.Length0 && 0 <= y < r.Length1 ==>
      r[x, y] == AfterStrong(img[x, y], high, strong, old(r[x, y]))
  {
    var x := 0;
    while x < r.Length0
      invariant 0 <= x <= r.Length0
      invariant forall u, v :: 0 <= u < r.Length0 && 0 <= v < r.Length1 ==>
        r[u, v] == if u < x then AfterStrong(img[u, v], high, strong, old(r[u, v])) else old(r[u, v])
    {
      var y := 0;
      while y < r.Length1
        invariant 0 <= y <= r.Length1
        invariant forall u, v :: 0 <= u < r.Length0 && 0 <= v < r.Length1 ==>
          r[u, v] == if u < x || (u == x && v < y) then AfterStrong(img[u, v], high, strong, old(r[u, v])) else old(r[u, v])
      {
        if img[x, y] >= high {
          r[x, y] := strong;
        }
        y := y + 1;
      }
      x := x + 1;
    }
  }

  /** Sets weak at every cell whose magnitude lies in [low, high]; leaves the rest. */
  method WriteWeak(img: array2<real>, r: array2<int>, low: real, high: real, weak: int)
    requires r.Length0 == img.Length0 && r.Length1 == img.Length1
    modifies r
    ensures forall x, y :: 0 <= x < r.Length0 && 0 <= y < r.Length1 ==>
      r[x, y] == AfterWeak(img[x, y], low, high, weak, old(r[x, y]))
  {
    var x := 0;
    while x < r.Length0
      invariant 0 <= x <= r.Length0
      invariant forall u, v :: 0 <= u < r.Length0 && 0 <= v < r.Length1 ==>
        r[u, v] == if u < x then AfterWeak(img[u, v], low, high, weak, old(r[u, v])) else old(r[u, v])
    {
      var y := 0;
      while y < r.Length1
        invariant 0 <= y <= r.Length1
        invariant forall u, v :: 0 <= u < r.Length0 && 0 <= v < r.Length1 ==>
          r[u, v] == if u < x || (u == x && v < y) then AfterWeak(img[u, v], low, high, weak, old(r[u, v])) else old(r[u, v])
      {
        if img[x, y] <= high && img[x, y] >= low {
          r[x, y] := weak;
        }
        y := y + 1;
      }
      x := x + 1;
    }
  }

  // Properties of the specification

  /** [low, high] (high included, since the weak write comes second) gives weak,
      above high gives strong, and below both thresholds gives 0; with distinct
      codes, weak appears exactly on [low, high]. */
  lemma ClassifyCases(v: real, low: real, high: real, weak: int, strong: int)
    ensures low <= v <= high ==> Classify(v, low, high, weak, strong) == weak
    ensures v > high ==> Classify(v, low, high, weak, strong) == strong
    ensures v < low && v < high ==> Classify(v, low, high, weak, strong) == 0
    ensures weak != 0 && weak != strong ==> (Classify(v, low, high, weak, strong) == weak <==> low <= v <= high)
  {
  }

  /** For a non-negative maximum and fractions in (0, 1]: 0 <= low <= high <= max. */
  lemma ThresholdsOrdered(maxValue: real, highRatio: real, lowRatio: real)
    requires maxValue >= 0.0
    requires 0.0 < highRatio <= 1.0 && 0.0 < lowRatio <= 1.0
    ensures var high := HighThreshold(maxValue, highRatio);
      0.0 <= LowThreshold(high, lowRatio) <= high <= maxValue
  {
    HighBelowMax(maxValue, highRatio);
    LowBelowHigh(HighThreshold(maxValue, highRatio), lowRatio);
  }

  lemma HighBelowMax(maxValue: real, highRatio: real)
    requires maxValue >= 0.0 && 0.0 <= highRatio <= 1.0
    ensures 0.0 <= HighThreshold(maxValue, highRatio) <= maxValue
  {
    ScaledDown(maxValue, highRatio);
  }

  lemma LowBelowHigh(high: real, lowRatio: real)
    requires high >= 0.0 && 0.0 <= lowRatio <= 1.0
    ensures 0.0 <= LowThreshold(high, lowRatio) <= high
  {
    ScaledDown(high, lowRatio);
  }

  /** Scaling a non-negative value by a fraction in [0, 1] keeps it in [0, value]. */
  lemma ScaledDown(x: real, f: real)
    requires x >= 0.0 && 0.0 <= f <= 1.0
    ensures 0.0 <= x * f <= x
  {
    assert x * (1.0 - f) >= 0.0;
  }

  /** With such thresholds, a magnitude below low becomes 0. */
  lemma BelowLowIsZero(maxValue: real, highRatio: real, lowRatio: real, v: real, weak: int, strong: int)
    requires maxValue >= 0.0
    requires 0.0 < highRatio <= 1.0 && 0.0 < lowRatio <= 1.0
    requires v < LowThreshold(HighThreshold(maxValue, highRatio), lowRatio)
    ensures var high := HighThreshold(maxValue, highRatio);
      Classify(v, LowThreshold(high, lowRatio), high, weak, strong) == 0
  {
    ThresholdsOrdered(maxValue, highRatio, lowRatio);
  }

  /** The script's example image. */
  function ExampleImage(): Grid<real> {
    [[0.0, 0.0, 0.0, 0.0, 0.0],
     [0.0, 100.0, 100.0, 100.0, 0.0],
     [0.0, 100.0, 255.0, 100.0, 0.0],
     [0.0, 100.0, 100.0, 100.0, 0.0],
     [0.0, 0.0, 0.0, 0.0, 0.0]]
  }

  /** The example result grid. */
  function ExampleResult(): Grid<int> {
    [[0, 0, 0, 0, 0],
     [0, 255, 255, 255, 0],
     [0, 255, 255, 255, 0],
     [0, 255, 255, 255, 0],
     [0, 0, 0, 0, 0]]
  }

  /** With the default fractions 0.3 and 0.1 (high 76.5, low 7.65), the 100s
      and the 255 become strong and the zeros stay 0. */
  lemma ExampleThreshold()
    ensures ThresholdSpec(ExampleImage(), 0.3, 0.1, 75, 255) == Ok(ExampleResult())
  {
    ExampleMax();
    assert HighThreshold(255.0, 0.3) == 76.5;
    assert LowThreshold(76.5, 0.1) == 7.65;
    ExampleClassified();
  }

  lemma ExampleMax()
    ensures GridMax(ExampleImage()) == 255.0
  {
    MaxIs(ExampleImage(), 255.0, 2, 2);
  }

  lemma ExampleClassified()
    ensures Classified(ExampleImage(), 7.65, 76.5, 75, 255) == ExampleResult()
  {
    var g, want := ExampleImage(), ExampleResult();
    var r := Classified(g, 7.65, 76.5, 75, 255);
    forall i, j | 0 <= i < 5 && 0 <= j < 5 ensures r[i][j] == want[i][j] {
      assert At(g, i, j) == 0.0 || At(g, i, j) >= 100.0;
    }
    forall i | 0 <= i < 5 ensures r[i] == want[i] {
    }
  }
}
