/** `non_max_suppression(img, D)` of test/test_max_suppresion.py: thins
    edges by keeping a gradient magnitude only where it is at least as large
    as its two neighbours across the edge. Angles are taken in degrees. */
module Suppressor {
  import opened Images

  /** `angle[angle < 0] += 180`: a negative direction is turned half a circle. */
  function WrapAngle(d: real): real {
    if d < 0.0 then d + 180.0 else d
  }

  /** The wrapped angle array computed from D. */
  function Wrapped(D: Grid<real>): (g: Grid<real>)
    ensures |g| == |D| && Rect(g) && Width(g) == Width(D)
  {
    seq(|D|, x => seq(Width(D), y => WrapAngle(At(D, x, y))))
  }

  /** The direction classes of the gradient, by half-open angle ranges in
      degrees; an angle outside [0, 180] falls in none of them. */
  datatype Sector = Horizontal | Diagonal45 | Vertical | Diagonal135 | Outside

  function SectorOf(a: real): Sector {
    if (0.0 <= a < 22.5) || (157.5 <= a <= 180.0) then Horizontal
    else if 22.5 <= a < 67.5 then Diagonal45
    else if 67.5 <= a < 112.5 then Vertical
    else if 112.5 <= a < 157.5 then Diagonal135
    else Outside
  }

  /** Row and column offset of the first neighbour q; the second, r, is opposite. */
  function Offset(s: Sector): (int, int)
    requires s != Outside
  {
    match s
    case Horizontal => (0, 1)
    case Diagonal45 => (1, -1)
    case Vertical => (1, 0)
    case Diagonal135 => (-1, -1)
  }

  /** The magnitudes q and r compared against; 255 for both when the angle is in no sector. */
  function Neighbours(mag: Grid<real>, s: Sector, i: int, j: int): (real, real) {
    if s == Outside then (255.0, 255.0)
    else
      var (di, dj) := Offset(s);
      (At(mag, i + di, j + dj), At(mag, i - di, j - dj))
  }

  /** The int32 cast of a float: truncation toward zero. */
  function Trunc(x: real): int {
    if x >= 0.0 then x.Floor else -((-x).Floor)
  }

  /** Z[i, j]: 0 on the border (the loops never visit it) and where angle[i, j]
      raises IndexError (the handler leaves the cell as allocated); otherwise the
      truncated magnitude if it is >= both neighbours, else 0. */
  function NmsAt(mag: Grid<real>, ang: Grid<real>, i: int, j: int): (z: int)
    ensures z == 0 || z == Trunc(At(mag, i, j))
    ensures !(1 <= i < |mag| - 1 && 1 <= j < Width(mag) - 1) ==> z == 0
  {
    if !(1 <= i < |mag| - 1 && 1 <= j < Width(mag) - 1) then 0
    else if !(i < |ang| && j < Width(ang)) then 0
    else
      var m := At(mag, i, j);
      var (q, r) := Neighbours(mag, SectorOf(At(ang, i, j)), i, j);
      if m >= q && m >= r then Trunc(m) else 0
  }

  /** Cells the loops skip, or whose angle raises IndexError, stay 0. */
  lemma Unvisited(mag: Grid<real>, ang: Grid<real>, i: int, j: int)
    requires !(1 <= i < |mag| - 1 && 1 <= j < Width(mag) - 1) || !(i < |ang| && j < Width(ang))
    ensures NmsAt(mag, ang, i, j) == 0
  {
  }

  /** The array Z returned for magnitudes mag and wrapped angles ang. */
  function Suppressed(mag: Grid<real>, ang: Grid<real>): (z: Grid<int>)
    ensures |z| == |mag| && Rect(z) && Width(z) == Width(mag)
  {
    seq(|mag|, i => seq(Width(mag), j => NmsAt(mag, ang, i, j)))
  }

  method NonMaxSuppression(img: array2<real>, D: array2<real>) returns (Z: array2<int>)
    ensures fresh(Z)
    ensures Snapshot(Z) == Suppressed(Snapshot(img), Wrapped(Snapshot(D)))
  {
    var M, N := img.Length0, img.Length1;
    Z := new int[M, N]((_, _) => 0);
    var angle := WrapAngles(D);
    ghost var mag := Snapshot(img);
    ghost var ang := Snapshot(angle);
    var i := 1;
    while i < M - 1
      invariant 1 <= i && (i <= M - 1 || i == 1)
      invariant Snapshot(img) == mag && Snapshot(angle) == ang
      invariant forall u, v :: 0 <= u < M && 0 <= v < N ==>
        Z[u, v] == if u < i then NmsAt(mag, ang, u, v) else 0
    {
      SuppressRow(img, angle, Z, i);
      i := i + 1;
    }
    forall u | 0 <= u < M ensures Snapshot(Z)[u] == Suppressed(mag, ang)[u] {
      assert |Snapshot(Z)[u]| == N == |Suppressed(mag, ang)[u]|;
    }
  }

  /** One pass of the inner loop: row i of Z, written left to right. */
  method SuppressRow(img: array2<real>, angle: array2<real>, Z: array2<int>, i: int)
    requires Z.Length0 == img.Length0 && Z.Length1 == img.Length1
    requires 1 <= i < img.Length0 - 1
    requires forall v :: 0 <= v < Z.Length1 ==> Z[i, v] == 0
    modifies Z
    ensures forall v :: 0 <= v < Z.Length1 ==> Z[i, v] == NmsAt(Snapshot(img), Snapshot(angle), i, v)
    ensures forall u, v :: 0 <= u < Z.Length0 && 0 <= v < Z.Length1 && u != i ==> Z[u, v] == old(Z[u, v])
  {
    ghost var mag := Snapshot(img);
    ghost var ang := Snapshot(angle);
    var N := img.Length1;
    var j := 1;
    while j < N - 1
      invariant 1 <= j && (j <= N - 1 || j == 1)
      invariant Snapshot(img) == mag && Snapshot(angle) == ang
      invariant forall v :: 1 <= v < j ==> Z[i, v] == NmsAt(mag, ang, i, v)
      invariant forall v :: 0 <= v < N && !(1 <= v < j) ==> Z[i, v] == 0
      invariant forall u, v :: 0 <= u < Z.Length0 && 0 <= v < N && u != i ==> Z[u, v] == old(Z[u, v])
    {
      SuppressCell(img, angle, Z, i, j, mag, ang);
      j := j + 1;
    }
    forall v | 0 <= v < N && !(1 <= v < j) ensures NmsAt(mag, ang, i, v) == 0 {
      Unvisited(mag, ang, i, v);
    }
  }

  /** One pass of the inner loop: the cell (i, j) gets its value, an angle
      outside D (the caught IndexError) leaves it 0. */
  method SuppressCell(img: array2<real>, angle: array2<real>, Z: array2<int>, i: int, j: int,
                      ghost mag: Grid<real>, ghost ang: Grid<real>)
    requires Z.Length0 == img.Length0 && Z.Length1 == img.Length1
    requires 1 <= i < img.Length0 - 1 && 1 <= j < img.Length1 - 1
    requires Snapshot(img) == mag && Snapshot(angle) == ang
    requires Z[i, j] == 0
    modifies Z
    ensures Z[i, j] == NmsAt(mag, ang, i, j)
    ensures forall u, v :: 0 <= u < Z.Length0 && 0 <= v < Z.Length1 && (u != i || v != j) ==> Z[u, v] == old(Z[u, v])
  {
    if i < angle.Length0 && j < angle.Length1 {
      Z[i, j] := SuppressAt(img, angle, i, j);
    } else {
      Unvisited(mag, ang, i, j);
    }
  }

  /** `angle = D` (in degrees) on a fresh array, then `angle[angle < 0] += 180`. */
  method WrapAngles(D: array2<real>) returns (angle: array2<real>)
    ensures fresh(angle)
    ensures Snapshot(angle) == Wrapped(Snapshot(D))
  {
    angle := new real[D.Length0, D.Length1]((x, y) requires 0 <= x < D.Length0 && 0 <= y < D.Length1 reads D => D[x, y]);
    var x := 0;
    while x < angle.Length0
      invariant 0 <= x <= angle.Length0
      invariant forall u, v :: 0 <= u < angle.Length0 && 0 <= v < angle.Length1 ==>
        angle[u, v] == if u < x then WrapAngle(D[u, v]) else D[u, v]
    {
      var y := 0;
      while y < angle.Length1
        invariant 0 <= y <= angle.Length1
        invariant forall u, v :: 0 <= u < angle.Length0 && 0 <= v < angle.Length1 ==>
          angle[u, v] == if u < x || (u == x && v < y) then WrapAngle(D[u, v]) else D[u, v]
      {
        if angle[x, y] < 0.0 {
          angle[x, y] := angle[x, y] + 180.0;
        }
        y := y + 1;
      }
      x := x + 1;
    }
    forall u | 0 <= u < angle.Length0 ensures Snapshot(angle)[u] == Wrapped(Snapshot(D))[u] {
      assert |Snapshot(angle)[u]| == angle.Length1 == |Wrapped(Snapshot(D))[u]|;
    }
  }

  /** The body of the loop for an interior cell (i, j) whose angle exists. */
  method SuppressAt(img: array2<real>, angle: array2<real>, i: int, j: int) returns (z: int)
    requires 1 <= i < img.Length0 - 1 && 1 <= j < img.Length1 - 1
    requires i < angle.Length0 && j < angle.Length1
    ensures z == NmsAt(Snapshot(img), Snapshot(angle), i, j)
  {
    ghost var mag := Snapshot(img);
    var a := angle[i, j];
    assert a == At(Snapshot(angle), i, j);
    var q, r := 255.0, 255.0;
    if (0.0 <= a < 22.5) || (157.5 <= a <= 180.0) {
      q, r := img[i, j + 1], img[i, j - 1];
      assert q == At(mag, i, j + 1) && r == At(mag, i, j - 1);
    } else if 22.5 <= a < 67.5 {
      q, r := img[i + 1, j - 1], img[i - 1, j + 1];
      assert q == At(mag, i + 1, j - 1) && r == At(mag, i - 1, j + 1);
    } else if 67.5 <= a < 112.5 {
      q, r := img[i + 1, j], img[i - 1, j];
      assert q == At(mag, i + 1, j) && r == At(mag, i - 1, j);
    } else if 112.5 <= a < 157.5 {
      q, r := img[i - 1, j - 1], img[i + 1, j + 1];
      assert q == At(mag, i - 1, j - 1) && r == At(mag, i + 1, j + 1);
    }
    assert (q, r) == Neighbours(mag, SectorOf(a), i, j);
    assert img[i, j] == At(mag, i, j);
    if img[i, j] >= q && img[i, j] >= r {
      z := Trunc(img[i, j]);
    } else {
      z := 0;
    }
  }

  // Properties of the specification

  /** The sectors cover exactly the angles in [0, 180]. */
  lemma SectorsCover(a: real)
    ensures SectorOf(a) == Outside <==> a < 0.0 || a > 180.0
  {
  }

  /** A direction in [-180, 180] (what arctan2 yields) wraps into [0, 180],
      so it always selects a pair of neighbours. */
  lemma WrapAngleRange(d: real)
    requires -180.0 <= d <= 180.0
    ensures 0.0 <= WrapAngle(d) <= 180.0
    ensures SectorOf(WrapAngle(d)) != Outside
  {
    SectorsCover(WrapAngle(d));
  }

  /** Truncation toward zero: the result lies between 0 and x, less than 1 away from x. */
  lemma TruncBounds(x: real)
    ensures x >= 0.0 ==> 0 <= Trunc(x) && Trunc(x) as real <= x < Trunc(x) as real + 1.0
    ensures x < 0.0 ==> Trunc(x) <= 0 && Trunc(x) as real - 1.0 < x <= Trunc(x) as real
  {
  }

  /** Truncation is monotone on non-negative values and leaves whole numbers unchanged. */
  lemma TruncMonotone(x: real, y: real)
    requires 0.0 <= x <= y
    ensures Trunc(x) <= Trunc(y)
  {
  }

  lemma TruncWhole(n: int)
    ensures Trunc(n as real) == n
  {
  }

  /** For a non-negative magnitude m the output lies in [0, m]. */
  lemma NotAboveMagnitude(mag: Grid<real>, ang: Grid<real>, i: int, j: int)
    requires At(mag, i, j) >= 0.0
    ensures 0 <= NmsAt(mag, ang, i, j) && NmsAt(mag, ang, i, j) as real <= At(mag, i, j)
  {
    TruncBounds(At(mag, i, j));
  }

  /** The neighbour pair and the comparison for each angle range, with the
      offsets written out: a visited pixel survives iff it is at least as
      large as both neighbours (ties survive), and an angle outside every
      range compares against 255 twice. */
  lemma SectorChoice(mag: Grid<real>, ang: Grid<real>, i: int, j: int)
    requires 1 <= i < |mag| - 1 && 1 <= j < Width(mag) - 1 && i < |ang| && j < Width(ang)
    ensures var a, m, z := At(ang, i, j), At(mag, i, j), NmsAt(mag, ang, i, j);
      && ((0.0 <= a < 22.5 || 157.5 <= a <= 180.0) ==>
            z == if m >= At(mag, i, j + 1) && m >= At(mag, i, j - 1) then Trunc(m) else 0)
      && (22.5 <= a < 67.5 ==>
            z == if m >= At(mag, i + 1, j - 1) && m >= At(mag, i - 1, j + 1) then Trunc(m) else 0)
      && (67.5 <= a < 112.5 ==>
            z == if m >= At(mag, i + 1, j) && m >= At(mag, i - 1, j) then Trunc(m) else 0)
      && (112.5 <= a < 157.5 ==>
            z == if m >= At(mag, i - 1, j - 1) && m >= At(mag, i + 1, j + 1) then Trunc(m) else 0)
      && ((a < 0.0 || a > 180.0) ==> z == if m >= 255.0 then Trunc(m) else 0)
  {
  }

  /** (di, dj) leads from a cell to one of its eight neighbours. */
  ghost predicate UnitStep(di: int, dj: int) {
    -1 <= di <= 1 && -1 <= dj <= 1 && (di, dj) != (0, 0)
  }

  /** In every sector, q and r are the two neighbours of (i, j) that lie
      opposite each other: one step away along the same line, on both sides. */
  lemma NeighboursOpposite(mag: Grid<real>, s: Sector, i: int, j: int)
    requires s != Outside
    ensures exists di, dj :: UnitStep(di, dj) && Neighbours(mag, s, i, j) == (At(mag, i + di, j + dj), At(mag, i - di, j - dj))
  {
    var (di, dj) := Offset(s);
    assert UnitStep(di, dj);
  }

  /** The grid of an int array read back as magnitudes. */
  function AsReal(z: Grid<int>): (g: Grid<real>)
    ensures |g| == |z| && Width(g) == Width(z)
  {
    seq(|z|, i => seq(Width(z), j => if 0 <= i < |z| && 0 <= j < |z[i]| then z[i][j] as real else 0.0))
  }

  ghost predicate NonNegative(mag: Grid<real>) {
    forall i, j :: 0 <= i < |mag| && 0 <= j < |mag[i]| ==> mag[i][j] >= 0.0
  }

  /** Suppressing an already suppressed array of non-negative magnitudes, with
      the same angles, changes nothing. */
  lemma SuppressIdempotent(mag: Grid<real>, ang: Grid<real>)
    requires Rect(mag) && NonNegative(mag)
    ensures Suppressed(AsReal(Suppressed(mag, ang)), ang) == Suppressed(mag, ang)
  {
    var z := Suppressed(mag, ang);
    var z2 := Suppressed(AsReal(z), ang);
    forall i | 0 <= i < |mag| ensures z2[i] == z[i] {
      forall j | 0 <= j < Width(mag) ensures z2[i][j] == z[i][j] {
        IdempotentAt(mag, ang, i, j);
      }
    }
  }

  lemma IdempotentAt(mag: Grid<real>, ang: Grid<real>, i: int, j: int)
    requires Rect(mag) && NonNegative(mag)
    requires 0 <= i < |mag| && 0 <= j < Width(mag)
    ensures NmsAt(AsReal(Suppressed(mag, ang)), ang, i, j) == NmsAt(mag, ang, i, j)
  {
    var R := AsReal(Suppressed(mag, ang));
    forall x, y | 0 <= x < |mag| && 0 <= y < Width(mag)
      ensures At(R, x, y) == NmsAt(mag, ang, x, y) as real
    {
    }
    forall x, y | 0 <= x < |mag| && 0 <= y < Width(mag)
      ensures At(R, x, y) == 0.0 || At(R, x, y) == Trunc(At(mag, x, y)) as real
    {
      var z := NmsAt(mag, ang, x, y);
    }
    CellStable(mag, R, ang, i, j);
  }

  /** Values read back from the output: each is 0 or the truncated magnitude. */
  ghost predicate ReadBack(R: Grid<real>, mag: Grid<real>) {
    forall x, y :: 0 <= x < |mag| && 0 <= y < Width(mag) ==> At(R, x, y) == 0.0 || At(R, x, y) == Trunc(At(mag, x, y)) as real
  }

  /** A cell keeps its output when the array it is compared in holds outputs. */
  lemma CellStable(mag: Grid<real>, R: Grid<real>, ang: Grid<real>, i: int, j: int)
    requires Rect(mag) && NonNegative(mag)
    requires |R| == |mag| && Width(R) == Width(mag) && ReadBack(R, mag)
    requires 0 <= i < |mag| && 0 <= j < Width(mag)
    requires At(R, i, j) == NmsAt(mag, ang, i, j) as real
    ensures NmsAt(R, ang, i, j) == NmsAt(mag, ang, i, j)
  {
    if 1 <= i < |mag| - 1 && 1 <= j < Width(mag) - 1 && i < |ang| && j < Width(ang) {
      var m := At(mag, i, j);
      var t := NmsAt(mag, ang, i, j);
      var s := SectorOf(At(ang, i, j));
      NotAboveMagnitude(mag, ang, i, j);
      var (q, r) := Neighbours(mag, s, i, j);
      var (q', r') := Neighbours(R, s, i, j);
      if m >= q && m >= r {
        assert t == Trunc(m);
        if s == Outside {
          TruncMonotone(255.0, m);
          TruncWhole(255);
        } else {
          var (di, dj) := Offset(s);
          NeighbourBelow(mag, R, i + di, j + dj, m);
          NeighbourBelow(mag, R, i - di, j - dj, m);
        }
        TruncWhole(t);
      } else {
        assert t == 0;
      }
    } else {
      Unvisited(R, ang, i, j);
      Unvisited(mag, ang, i, j);
    }
  }

  /** A neighbour no larger than m reads back no larger than m's truncation. */
  lemma NeighbourBelow(mag: Grid<real>, R: Grid<real>, x: int, y: int, m: real)
    requires Rect(mag) && NonNegative(mag) && ReadBack(R, mag)
    requires 0 <= x < |mag| && 0 <= y < Width(mag)
    requires At(mag, x, y) <= m
    ensures At(R, x, y) <= Trunc(m) as real
  {
    TruncMonotone(0.0, m);
    TruncMonotone(At(mag, x, y), m);
  }

  /** The magnitudes and the angles (pi/4 radians read as 45 degrees) of the script's example. */
  function ExampleMagnitudes(): Grid<real> {
    [[0.0, 0.0, 0.0, 0.0, 0.0],
     [0.0, 100.0, 100.0, 100.0, 0.0],
     [0.0, 100.0, 255.0, 100.0, 0.0],
     [0.0, 100.0, 100.0, 100.0, 0.0],
     [0.0, 0.0, 0.0, 0.0, 0.0]]
  }

  function ExampleAngles(): Grid<real> {
    [[0.0, 0.0, 0.0, 0.0, 0.0],
     [0.0, 45.0, 45.0, 0.0, 0.0],
     [0.0, 45.0, 0.0, 45.0, 0.0],
     [0.0, 45.0, 45.0, 0.0, 0.0],
     [0.0, 0.0, 0.0, 0.0, 0.0]]
  }

  /** On the example, the 255 peak and the ridge survive; (3, 1), whose 45-degree
      neighbour (2, 2) holds 255, is suppressed, and the border stays 0. */
  lemma ExampleSuppression()
    ensures Suppressed(ExampleMagnitudes(), Wrapped(ExampleAngles())) == ExampleOutput()
  {
    var mag, ang := ExampleMagnitudes(), Wrapped(ExampleAngles());
    var z, want := Suppressed(mag, ang), ExampleOutput();
    TruncWhole(100);
    TruncWhole(255);
    forall i, j | 0 <= i < 5 && 0 <= j < 5 ensures z[i][j] == want[i][j] {
      if 1 <= i < 4 && 1 <= j < 4 {
        assert At(ang, i, j) == At(ExampleAngles(), i, j);
      } else {
        Unvisited(mag, ang, i, j);
      }
    }
    forall i | 0 <= i < 5 ensures z[i] == want[i] {
    }
  }

  function ExampleOutput(): Grid<int> {
    [[0, 0, 0, 0, 0],
     [0, 100, 100, 100, 0],
     [0, 100, 255, 100, 0],
     [0, 0, 100, 100, 0],
     [0, 0, 0, 0, 0]]
  }
}
