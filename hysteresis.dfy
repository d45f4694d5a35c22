/** `hysteresis(img)` of test/test_hysterisis.py: one row-major pass over the
    interior cells that, in place, promotes a weak cell (75) with a strong (255)
    neighbour to strong and sets every other weak cell to 0. Cells visited
    earlier are seen in their updated state. */
module HysteresisLinker {
  import opened Images

  const Weak: int := 75
  const Strong: int := 255

  /** (i, j) is an interior cell of a rectangular grid: all eight neighbours exist. */
  ghost predicate Interior(g: Grid<int>, i: int, j: int) {
    Rect(g) && 1 <= i < |g| - 1 && 1 <= j < Width(g) - 1
  }

  /** One of the eight neighbours of (i, j) holds Strong. */
  predicate StrongNeighbour(g: Grid<int>, i: int, j: int)
    requires Interior(g, i, j)
  {
    g[i + 1][j - 1] == Strong || g[i + 1][j] == Strong || g[i + 1][j + 1] == Strong ||
    g[i][j - 1] == Strong || g[i][j + 1] == Strong ||
    g[i - 1][j - 1] == Strong || g[i - 1][j] == Strong || g[i - 1][j + 1] == Strong
  }

  /** The grid after the visit of (i, j): a weak cell becomes Strong or 0. */
  function Visit(g: Grid<int>, i: int, j: int): (h: Grid<int>)
    requires Interior(g, i, j)
    ensures |h| == |g| && Rect(h) && Width(h) == Width(g)
  {
    if g[i][j] == Weak then
      g[i := g[i][j := if StrongNeighbour(g, i, j) then Strong else 0]]
    else
      g
  }

  /** Row i after the visits of columns 1 .. j - 1. */
  function RowPass(g: Grid<int>, i: int, j: int): (h: Grid<int>)
    requires Rect(g) && 1 <= i < |g| - 1 && (j <= 1 || j < Width(g))
    ensures |h| == |g| && Rect(h) && Width(h) == Width(g)
    decreases j
  {
    if j <= 1 then g else Visit(RowPass(g, i, j - 1), i, j - 1)
  }

  /** The grid after the passes over rows 1 .. i - 1. */
  function Sweep(g: Grid<int>, i: int): (h: Grid<int>)
    requires Rect(g) && (i <= 1 || i < |g|)
    ensures |h| == |g| && Rect(h) && Width(h) == Width(g)
    decreases i
  {
    if i <= 1 then g else RowPass(Sweep(g, i - 1), i - 1, Width(g) - 1)
  }

  /** The grid `hysteresis` leaves behind: every interior row swept, in order. */
  function HysteresisSpec(g: Grid<int>): (h: Grid<int>)
    requires Rect(g)
    ensures |h| == |g| && Rect(h) && Width(h) == Width(g)
  {
    Sweep(g, |g| - 1)
  }

  /** The pass itself, on the array, in place; it returns its argument. */
  method Hysteresis(img: array2<int>) returns (res: array2<int>)
    modifies img
    ensures res == img
    ensures Snapshot(img) == HysteresisSpec(old(Snapshot(img)))
  {
    ghost var g := Snapshot(img);
    var i := 1;
    while i < img.Length0 - 1
      invariant 1 <= i && (i == 1 || i < img.Length0)
      invariant Snapshot(img) == Sweep(g, i)
    {
      SweepRow(img, i);
      i := i + 1;
    }
    return img;
  }

  /** The inner loop: visits columns 1 .. N - 2 of row i. */
  method SweepRow(img: array2<int>, i: int)
    requires 1 <= i < img.Length0 - 1
    modifies img
    ensures Snapshot(img) == RowPass(old(Snapshot(img)), i, img.Length1 - 1)
  {
    ghost var g := Snapshot(img);
    var j := 1;
    while j < img.Length1 - 1
      invariant 1 <= j && (j == 1 || j < img.Length1)
      invariant Snapshot(img) == RowPass(g, i, j)
    {
      VisitCell(img, i, j);
      j := j + 1;
    }
  }

  /** The body of the inner loop at (i, j). */
  method VisitCell(img: array2<int>, i: int, j: int)
    requires 1 <= i < img.Length0 - 1 && 1 <= j < img.Length1 - 1
    modifies img
    ensures Snapshot(img) == Visit(old(Snapshot(img)), i, j)
  {
    ghost var g := Snapshot(img);
    if img[i, j] == Weak {
      if img[i + 1, j - 1] == Strong || img[i + 1, j] == Strong || img[i + 1, j + 1] == Strong ||
         img[i, j - 1] == Strong || img[i, j + 1] == Strong ||
         img[i - 1, j - 1] == Strong || img[i - 1, j] == Strong || img[i - 1, j + 1] == Strong
      {
        assert StrongNeighbour(g, i, j);
        img[i, j] := Strong;
      } else {
        assert !StrongNeighbour(g, i, j);
        img[i, j] := 0;
      }
      ghost var h := Visit(g, i, j);
      forall x | 0 <= x < img.Length0 ensures Snapshot(img)[x] == h[x] {
        assert forall y :: 0 <= y < img.Length1 ==> Snapshot(img)[x][y] == h[x][y];
      }
    }
  }

  // Properties of the specification

  /** h comes from g by settling interior weak cells: every cell keeps its value
      or is an interior cell that was weak and is now 0 or Strong. */
  ghost predicate Settles(g: Grid<int>, h: Grid<int>) {
    && |h| == |g| && Rect(g) && Rect(h) && Width(h) == Width(g)
    && forall x, y :: 0 <= x < |g| && 0 <= y < Width(g) ==>
         h[x][y] == g[x][y]
         || (g[x][y] == Weak && (h[x][y] == 0 || h[x][y] == Strong)
             && 1 <= x < |g| - 1 && 1 <= y < Width(g) - 1)
  }

  lemma SettlesTransitive(a: Grid<int>, b: Grid<int>, c: Grid<int>)
    requires Settles(a, b) && Settles(b, c)
    ensures Settles(a, c)
  {
  }

  lemma VisitSettles(g: Grid<int>, i: int, j: int)
    requires Interior(g, i, j)
    ensures Settles(g, Visit(g, i, j))
  {
  }

  lemma {:induction false} RowPassSettles(g: Grid<int>, i: int, j: int)
    requires Rect(g) && 1 <= i < |g| - 1 && (j <= 1 || j < Width(g))
    ensures Settles(g, RowPass(g, i, j))
    decreases j
  {
    if j > 1 {
      var h := RowPass(g, i, j - 1);
      RowPassSettles(g, i, j - 1);
      VisitSettles(h, i, j - 1);
      SettlesTransitive(g, h, Visit(h, i, j - 1));
    }
  }

  lemma {:induction false} SweepSettles(g: Grid<int>, i: int)
    requires Rect(g) && (i <= 1 || i < |g|)
    ensures Settles(g, Sweep(g, i))
    decreases i
  {
    if i > 1 {
      var h := Sweep(g, i - 1);
      SweepSettles(g, i - 1);
      RowPassSettles(h, i - 1, Width(g) - 1);
      SettlesTransitive(g, h, RowPass(h, i - 1, Width(g) - 1));
    }
  }

  /** Row 0, row M - 1, column 0 and column N - 1 are never changed; only cells
      that were weak change, each to 0 or Strong; so every Strong cell stays Strong. */
  lemma HysteresisSettles(g: Grid<int>)
    requires Rect(g)
    ensures var h := HysteresisSpec(g);
      && (forall y :: 0 <= y < Width(g) && |g| > 0 ==> h[0][y] == g[0][y] && h[|g| - 1][y] == g[|g| - 1][y])
      && (forall x :: 0 <= x < |g| && Width(g) > 0 ==> h[x][0] == g[x][0] && h[x][Width(g) - 1] == g[x][Width(g) - 1])
      && (forall x, y :: 0 <= x < |g| && 0 <= y < Width(g) && g[x][y] != Weak ==> h[x][y] == g[x][y])
      && (forall x, y :: 0 <= x < |g| && 0 <= y < Width(g) && h[x][y] != g[x][y] ==> h[x][y] == 0 || h[x][y] == Strong)
  {
    SweepSettles(g, |g| - 1);
  }

  /** The positions of the strong cells. */
  function StrongCells(g: Grid<int>): (s: set<(int, int)>)
    ensures forall x, y :: (x, y) in s <==> 0 <= x < |g| && 0 <= y < |g[x]| && g[x][y] == Strong
  {
    set x, y | 0 <= x < |g| && 0 <= y < |g[x]| && g[x][y] == Strong :: (x, y)
  }

  /** The strong cells after the pass include those before, so their number does not drop. */
  lemma StrongCellsKept(g: Grid<int>)
    requires Rect(g)
    ensures StrongCells(g) <= StrongCells(HysteresisSpec(g))
    ensures |StrongCells(g)| <= |StrongCells(HysteresisSpec(g))|
  {
    SweepSettles(g, |g| - 1);
    SubsetSmaller(StrongCells(g), StrongCells(HysteresisSpec(g)));
  }

  lemma {:induction false} SubsetSmaller<T>(a: set<T>, b: set<T>)
    requires a <= b
    ensures |a| <= |b|
  {
    if a != {} {
      var e :| e in a;
      SubsetSmaller(a - {e}, b - {e});
    }
  }

  /** No interior cell before (i, j) in row-major order is weak. */
  ghost predicate SettledBefore(h: Grid<int>, i: int, j: int) {
    Rect(h) && forall x, y :: 1 <= x < |h| - 1 && 1 <= y < Width(h) - 1 && (x < i || (x == i && y < j)) ==> h[x][y] != Weak
  }

  /** A visit leaves (i, j) not weak and every other cell as it was. */
  lemma VisitOnlyHere(g: Grid<int>, i: int, j: int)
    requires Interior(g, i, j)
    ensures Visit(g, i, j)[i][j] != Weak
    ensures forall x, y :: 0 <= x < |g| && 0 <= y < Width(g) && (x, y) != (i, j) ==> Visit(g, i, j)[x][y] == g[x][y]
  {
  }

  lemma {:induction false} RowPassSettled(g: Grid<int>, i: int, j: int)
    requires Rect(g) && 1 <= i < |g| - 1 && (j <= 1 || j < Width(g))
    requires SettledBefore(g, i, 1)
    ensures SettledBefore(RowPass(g, i, j), i, j)
    decreases j
  {
    if j > 1 {
      var h := RowPass(g, i, j - 1);
      RowPassSettled(g, i, j - 1);
      VisitOnlyHere(h, i, j - 1);
    }
  }

  lemma {:induction false} SweepSettled(g: Grid<int>, i: int)
    requires Rect(g) && (i <= 1 || i < |g|)
    ensures SettledBefore(Sweep(g, i), i, 1)
    decreases i
  {
    if i > 1 {
      var h := Sweep(g, i - 1);
      SweepSettled(g, i - 1);
      RowPassSettled(h, i - 1, Width(g) - 1);
    }
  }

  /** After the pass no interior cell is weak. */
  lemma NoWeakLeft(g: Grid<int>)
    requires Rect(g)
    ensures forall x, y :: 1 <= x < |g| - 1 && 1 <= y < Width(g) - 1 ==> HysteresisSpec(g)[x][y] != Weak
  {
    SweepSettled(g, |g| - 1);
  }

  /** A row without interior weak cells is left as it is, and so is a grid. */
  lemma {:induction false} RowPassFixed(g: Grid<int>, i: int, j: int)
    requires Rect(g) && 1 <= i < |g| - 1 && (j <= 1 || j < Width(g))
    requires forall y :: 1 <= y < Width(g) - 1 ==> g[i][y] != Weak
    ensures RowPass(g, i, j) == g
    decreases j
  {
    if j > 1 {
      RowPassFixed(g, i, j - 1);
    }
  }

  lemma {:induction false} SweepFixed(g: Grid<int>, i: int)
    requires Rect(g) && (i <= 1 || i < |g|)
    requires SettledBefore(g, |g|, 0)
    ensures Sweep(g, i) == g
    decreases i
  {
    if i > 1 {
      SweepFixed(g, i - 1);
      RowPassFixed(g, i - 1, Width(g) - 1);
    }
  }

  /** Running the pass again on its own result changes nothing. */
  lemma HysteresisIdempotent(g: Grid<int>)
    requires Rect(g)
    ensures HysteresisSpec(HysteresisSpec(g)) == HysteresisSpec(g)
  {
    var h := HysteresisSpec(g);
    NoWeakLeft(g);
    SweepFixed(h, |h| - 1);
  }

  // The linking rule

  /** A row pass changes only the cells of row i that it has visited. */
  lemma {:induction false} RowPassUntouched(g: Grid<int>, i: int, j: int)
    requires Rect(g) && 1 <= i < |g| - 1 && (j <= 1 || j < Width(g))
    ensures forall x, y :: 0 <= x < |g| && 0 <= y < Width(g) && !(x == i && 1 <= y < j) ==> RowPass(g, i, j)[x][y] == g[x][y]
    decreases j
  {
    if j > 1 {
      RowPassUntouched(g, i, j - 1);
      VisitOnlyHere(RowPass(g, i, j - 1), i, j - 1);
    }
  }

  /** The rows from i on are not yet touched by the sweep over the rows before i. */
  lemma {:induction false} SweepUntouched(g: Grid<int>, i: int)
    requires Rect(g) && (i <= 1 || i < |g|)
    ensures forall x, y :: 0 <= x < |g| && i <= x && 0 <= y < Width(g) ==> Sweep(g, i)[x][y] == g[x][y]
    decreases i
  {
    if i > 1 {
      SweepUntouched(g, i - 1);
      RowPassUntouched(Sweep(g, i - 1), i - 1, Width(g) - 1);
    }
  }

  /** Continuing a row pass from column j to column k only settles weak cells. */
  lemma {:induction false} RowPassLater(g: Grid<int>, i: int, j: int, k: int)
    requires Rect(g) && 1 <= i < |g| - 1 && j <= k && (k <= 1 || k < Width(g))
    ensures Settles(RowPass(g, i, j), RowPass(g, i, k))
    decreases k - j
  {
    if k > j && k > 1 {
      var h := RowPass(g, i, k - 1);
      RowPassLater(g, i, j, k - 1);
      VisitSettles(h, i, k - 1);
      SettlesTransitive(RowPass(g, i, j), h, RowPass(g, i, k));
    }
  }

  /** Continuing the sweep from row i to row k only settles weak cells. */
  lemma {:induction false} SweepLater(g: Grid<int>, i: int, k: int)
    requires Rect(g) && i <= k && (k <= 1 || k < |g|)
    ensures Settles(Sweep(g, i), Sweep(g, k))
    decreases k - i
  {
    if k > i && k > 1 {
      var h := Sweep(g, k - 1);
      SweepLater(g, i, k - 1);
      RowPassSettles(h, k - 1, Width(g) - 1);
      SettlesTransitive(Sweep(g, i), h, Sweep(g, k));
    }
  }

  /** The grid at the moment the pass visits (x, y). */
  function Before(g: Grid<int>, x: int, y: int): (b: Grid<int>)
    requires Interior(g, x, y)
    ensures Interior(b, x, y) && |b| == |g| && Width(b) == Width(g)
  {
    RowPass(Sweep(g, x), x, y)
  }

  /** At its visit, (x, y) still holds its input value, and every cell that
      was not weak in the input still holds its input value. */
  lemma BeforeSettles(g: Grid<int>, x: int, y: int)
    requires Interior(g, x, y)
    ensures Before(g, x, y)[x][y] == g[x][y]
    ensures Settles(g, Before(g, x, y))
  {
    var s := Sweep(g, x);
    SweepUntouched(g, x);
    RowPassUntouched(s, x, y);
    SweepSettles(g, x);
    RowPassSettles(s, x, y);
    SettlesTransitive(g, s, Before(g, x, y));
  }

  /** The visit of (x, y) decides its final value: no later visit changes it. */
  lemma Decided(g: Grid<int>, x: int, y: int)
    requires Interior(g, x, y)
    ensures HysteresisSpec(g)[x][y] == Visit(Before(g, x, y), x, y)[x][y]
  {
    var s := Sweep(g, x);
    var a := Visit(Before(g, x, y), x, y);
    assert a == RowPass(s, x, y + 1);
    VisitOnlyHere(Before(g, x, y), x, y);
    RowPassLater(s, x, y + 1, Width(g) - 1);
    assert RowPass(s, x, Width(g) - 1) == Sweep(g, x + 1);
    SweepLater(g, x + 1, |g| - 1);
    SettlesTransitive(a, Sweep(g, x + 1), HysteresisSpec(g));
  }

  /** A weak interior cell with a strong neighbour in the input ends strong:
      the neighbour is still strong when the cell is visited. */
  lemma PromotedNextToStrong(g: Grid<int>, x: int, y: int)
    requires Interior(g, x, y) && g[x][y] == Weak && StrongNeighbour(g, x, y)
    ensures HysteresisSpec(g)[x][y] == Strong
  {
    Decided(g, x, y);
    BeforeSettles(g, x, y);
    var b := Before(g, x, y);
    assert StrongNeighbour(b, x, y) by {
      if g[x + 1][y - 1] == Strong { assert b[x + 1][y - 1] == Strong; }
      else if g[x + 1][y] == Strong { assert b[x + 1][y] == Strong; }
      else if g[x + 1][y + 1] == Strong { assert b[x + 1][y + 1] == Strong; }
      else if g[x][y - 1] == Strong { assert b[x][y - 1] == Strong; }
      else if g[x][y + 1] == Strong { assert b[x][y + 1] == Strong; }
      else if g[x - 1][y - 1] == Strong { assert b[x - 1][y - 1] == Strong; }
      else if g[x - 1][y] == Strong { assert b[x - 1][y] == Strong; }
      else { assert b[x - 1][y + 1] == Strong; }
    }
  }

  /** None of the eight neighbours of (x, y) is weak. */
  ghost predicate NoWeakNeighbour(g: Grid<int>, x: int, y: int)
    requires Interior(g, x, y)
  {
    g[x + 1][y - 1] != Weak && g[x + 1][y] != Weak && g[x + 1][y + 1] != Weak &&
    g[x][y - 1] != Weak && g[x][y + 1] != Weak &&
    g[x - 1][y - 1] != Weak && g[x - 1][y] != Weak && g[x - 1][y + 1] != Weak
  }

  /** A weak interior cell whose neighbours are all settled in the input ends
      strong exactly when one of them is strong, and 0 otherwise. */
  lemma LoneWeakCell(g: Grid<int>, x: int, y: int)
    requires Interior(g, x, y) && g[x][y] == Weak && NoWeakNeighbour(g, x, y)
    ensures HysteresisSpec(g)[x][y] == if StrongNeighbour(g, x, y) then Strong else 0
  {
    Decided(g, x, y);
    BeforeSettles(g, x, y);
    var b := Before(g, x, y);
    assert b[x + 1][y - 1] == g[x + 1][y - 1] && b[x + 1][y] == g[x + 1][y] && b[x + 1][y + 1] == g[x + 1][y + 1];
    assert b[x][y - 1] == g[x][y - 1] && b[x][y + 1] == g[x][y + 1];
    assert b[x - 1][y - 1] == g[x - 1][y - 1] && b[x - 1][y] == g[x - 1][y] && b[x - 1][y + 1] == g[x - 1][y + 1];
  }

  /** The script's sample: strong at (1, 1), weak at (2, 1). */
  function SampleImage(): Grid<int> {
    [[0, 0, 0, 0, 0],
     [0, 255, 0, 0, 0],
     [0, 75, 0, 0, 0],
     [0, 0, 0, 0, 0],
     [0, 0, 0, 0, 0]]
  }

  /** The weak cell next to the strong one becomes strong. */
  lemma SampleHysteresis()
    ensures HysteresisSpec(SampleImage())
         == [[0, 0, 0, 0, 0],
             [0, 255, 0, 0, 0],
             [0, 255, 0, 0, 0],
             [0, 0, 0, 0, 0],
             [0, 0, 0, 0, 0]]
  {
    var g := SampleImage();
    var g' := g[2 := [0, 255, 0, 0, 0]];
    RowPassFixed(g, 1, 4);
    assert Sweep(g, 2) == g;
    assert StrongNeighbour(g, 2, 1);
    assert g[2][1 := 255] == g'[2];
    assert Visit(g, 2, 1) == g';
    assert RowPass(g, 2, 4) == g';
    RowPassFixed(g', 3, 4);
  }

  /** Weak at (1, 1) and (2, 1), strong at (3, 1). */
  function ChainImage(): Grid<int> {
    [[0, 0, 0, 0, 0],
     [0, 75, 0, 0, 0],
     [0, 75, 0, 0, 0],
     [0, 255, 0, 0, 0],
     [0, 0, 0, 0, 0]]
  }

  /** The outcome depends on the visiting order: (1, 1) is visited while its
      only marked neighbour (2, 1) is still weak and becomes 0, although (2, 1)
      is promoted right after. */
  lemma ChainHysteresis()
    ensures HysteresisSpec(ChainImage())
         == [[0, 0, 0, 0, 0],
             [0, 0, 0, 0, 0],
             [0, 255, 0, 0, 0],
             [0, 255, 0, 0, 0],
             [0, 0, 0, 0, 0]]
  {
    var g := ChainImage();
    var g1 := g[1 := [0, 0, 0, 0, 0]];
    var g2 := g1[2 := [0, 255, 0, 0, 0]];
    assert !StrongNeighbour(g, 1, 1);
    assert g[1][1 := 0] == g1[1];
    assert Visit(g, 1, 1) == g1;
    assert RowPass(g, 1, 4) == g1;
    assert StrongNeighbour(g1, 2, 1);
    assert g1[2][1 := 255] == g2[2];
    assert Visit(g1, 2, 1) == g2;
    assert RowPass(g1, 2, 4) == g2;
    RowPassFixed(g2, 3, 4);
  }
}
