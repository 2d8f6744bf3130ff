/** The angle correction of the ET parsers: bilinear interpolation over a grid stored row by
    row, 120 degrees of azimuth by 25 degrees of elevation, in exact arithmetic. The
    azimuth and the elevation table are looked up by the same code. */
module AdjustGrid {

  /** A C++ conversion to `int` drops the fraction, towards zero. */
  function Truncate(x: real): int {
    if x >= 0.0 then x.Floor else -((-x).Floor)
  }

  /** An axis of the grid: the field of view in degrees and the spacing of the lines. */
  datatype Axis = Axis(fov: real, step: real) {
    predicate Valid() { fov > 0.0 && step > 0.0 }

    function Lines(): int
      requires Valid()
    {
      Truncate(fov / step + 1.0)
    }

    /** The cell an angle falls into. */
    function Index(angle: real): int
      requires Valid()
    {
      Truncate((angle + fov / 2.0) / step)
    }

    /** The weight of the cell's lower line. */
    function Weight(angle: real): real
      requires Valid()
    {
      ((Index(angle) + 1) as real * step - angle - fov / 2.0) / step
    }

    predicate Inside(angle: real)
      requires Valid()
    {
      0 <= Index(angle) < Lines() - 1
    }
  }

  /** The axes of a correction file, whose intervals are counted in half degrees. */
  function AzimuthAxis(interval: nat): Axis { Axis(120.0, interval as real * 0.5) }
  function ElevationAxis(interval: nat): Axis { Axis(25.0, interval as real * 0.5) }

  /** The table covers the grid. */
  predicate Covers(table: seq<int>, x: Axis, y: Axis) {
    x.Valid() && y.Valid() && x.Lines() * y.Lines() <= |table|
  }

  /** The table entry at column `i` and row `j`. */
  function At(table: seq<int>, x: Axis, y: Axis, i: int, j: int): real
    requires Covers(table, x, y) && 0 <= i < x.Lines() && 0 <= j < y.Lines()
  {
    CellInside(i, j, x.Lines(), y.Lines());
    table[i + j * x.Lines()] as real
  }

  lemma CellInside(i: int, j: int, columns: int, rows: int)
    requires 0 <= i < columns && 0 <= j < rows
    ensures 0 <= i + j * columns < columns * rows
  {
    assert rows * columns == (j + 1) * columns + (rows - 1 - j) * columns;
    assert (j + 1) * columns == j * columns + columns;
    assert (rows - 1 - j) * columns >= 0 && j * columns >= 0;
  }

  /** The corners of a cell: left and right on its lower line, left and right on its upper line */
  datatype Cell = Cell(p: real, q: real, r: real, s: real)

  function CellAt(table: seq<int>, x: Axis, y: Axis, i: int, j: int): Cell
    requires Covers(table, x, y) && 0 <= i < x.Lines() - 1 && 0 <= j < y.Lines() - 1
  {
    Cell(At(table, x, y, i, j), At(table, x, y, i + 1, j), At(table, x, y, i, j + 1), At(table, x, y, i + 1, j + 1))
  }

  function Product(x: real, y: real): real { x * y }

  /** Interpolation between two values, the weight being that of the first. */
  function Mix(c: real, p: real, q: real): real {
    Product(c, p) + Product(1.0 - c, q)
  }

  /** Interpolation in one cell, the weights being those of its lower lines. */
  function Blend(cell: Cell, c1: real, c2: real): real {
    Mix(c2, Mix(c1, cell.p, cell.q), Mix(c1, cell.r, cell.s))
  }

  /** `getAziAdjustV2` and `getEleAdjustV2`; nothing is corrected outside the grid. Being
      well defined, it reads only entries of the grid. */
  function Adjust(table: seq<int>, x: Axis, y: Axis, division: nat, azimuth: real, elevation: real): real
    requires Covers(table, x, y) && division > 0
  {
    var i, j := x.Index(azimuth), y.Index(elevation);
    if i >= x.Lines() - 1 || j >= y.Lines() - 1 then 0.0
    else if i < 0 || j < 0 then 0.0
    else Blend(CellAt(table, x, y, i, j), x.Weight(azimuth), y.Weight(elevation)) / division as real
  }

  // ---------------------------------------------------------------- weights

  /** How far into the field of view an angle lies, in steps. */
  function Steps(a: Axis, angle: real): real
    requires a.Valid()
  {
    (angle + a.fov / 2.0) / a.step
  }

  lemma WeightInSteps(a: Axis, angle: real)
    requires a.Valid()
    ensures a.Weight(angle) == (a.Index(angle) + 1) as real - Steps(a, angle)
  {
    var k := (a.Index(angle) + 1) as real;
    Scale(Steps(a, angle), a.step, angle + a.fov / 2.0);
    assert k * a.step - angle - a.fov / 2.0 == (k - Steps(a, angle)) * a.step;
    Scale(k - Steps(a, angle), a.step, (k - Steps(a, angle)) * a.step);
  }

  lemma Scale(q: real, step: real, product: real)
    requires step > 0.0
    ensures q == product / step <==> q * step == product
  {
  }

  lemma ProductSign(q: real, step: real)
    requires step > 0.0
    ensures q >= 0.0 <==> q * step >= 0.0
  {
  }

  /** The weight is a proper one exactly from the lower edge of the field of view on. Just
      below it the conversion to `int` still gives cell 0, and the weight exceeds 1. */
  lemma WeightProper(a: Axis, angle: real)
    requires a.Valid() && a.Inside(angle)
    ensures 0.0 <= a.Weight(angle) <= 1.0 <==> angle >= -(a.fov / 2.0)
    ensures angle < -(a.fov / 2.0) ==> a.Index(angle) == 0 && a.Weight(angle) > 1.0
  {
    WeightInSteps(a, angle);
    var s := Steps(a, angle);
    Scale(s, a.step, angle + a.fov / 2.0);
    ProductSign(s, a.step);
  }

  // ---------------------------------------------------------------- the grid in degrees

  /** The last grid line that fits the field of view */
  function LastLine(a: Axis): real
    requires a.Valid()
  {
    (a.Lines() - 1) as real * a.step - a.fov / 2.0
  }

  lemma Positive(q: real, step: real)
    requires step > 0.0
    ensures q > 0.0 <==> q * step > 0.0
  {
  }

  lemma StepsBelow(a: Axis, angle: real, k: real)
    requires a.Valid()
    ensures Steps(a, angle) < k <==> angle < k * a.step - a.fov / 2.0
    ensures k < Steps(a, angle) <==> k * a.step - a.fov / 2.0 < angle
  {
    var s := Steps(a, angle);
    Scale(s, a.step, angle + a.fov / 2.0);
    assert (k - s) * a.step == k * a.step - (angle + a.fov / 2.0);
    assert (s - k) * a.step == angle + a.fov / 2.0 - k * a.step;
    Positive(k - s, a.step);
    Positive(s - k, a.step);
  }

  lemma IndexBetween(s: real, n: int)
    ensures 0 <= Truncate(s) < n <==> n > 0 && -1.0 < s < n as real
  {
  }

  /** The grid reaches from a step below the field of view, that angle left out, to its last line, which
      is left out too; there nothing is corrected any more. */
  lemma InsideExactly(a: Axis, angle: real)
    requires a.Valid()
    ensures a.Inside(angle) <==> a.Lines() > 1 && -(a.fov / 2.0) - a.step < angle < LastLine(a)
  {
    IndexBetween(Steps(a, angle), a.Lines() - 1);
    StepsBelow(a, angle, -1.0);
    StepsBelow(a, angle, (a.Lines() - 1) as real);
  }

  lemma Fraction(q: real, d: real, m: real)
    requires d > 0.0 && q * d == m && 0.0 <= m < d
    ensures 0.0 <= q < 1.0
  {
  }

  lemma QuotientFloor(p: real, d: real, n: int, m: real)
    requires d > 0.0 && p == n as real * d + m && 0.0 <= m < d
    ensures (p / d + 1.0).Floor == n + 1
  {
    Scale(p / d, d, p);
    assert (p / d - n as real) * d == m;
    Fraction(p / d - n as real, d, m);
  }

  lemma AsReals(halves: nat, interval: nat)
    requires interval > 0
    ensures halves as real * 0.5
            == (halves / interval) as real * (interval as real * 0.5) + (halves % interval) as real * 0.5
  {
    var n, m := halves / interval, halves % interval;
    assert halves == n * interval + m;
    assert (n * interval) as real == n as real * interval as real;
  }

  /** The lines of an axis, all counted in half degrees: the last lies short of the end of the field of
      view by what the interval leaves over. */
  lemma LinesInHalfDegrees(a: Axis, halves: nat, interval: nat)
    requires halves > 0 && interval > 0 && a == Axis(halves as real * 0.5, interval as real * 0.5)
    ensures a.Valid() && a.Lines() == halves / interval + 1
    ensures LastLine(a) == a.fov / 2.0 - (halves % interval) as real * 0.5
  {
    AsReals(halves, interval);
    QuotientFloor(a.fov, a.step, halves / interval, (halves % interval) as real * 0.5);
    AtLeastOne(a.fov, a.step);
  }

  lemma AtLeastOne(p: real, d: real)
    requires p > 0.0 && d > 0.0
    ensures p / d + 1.0 >= 0.0
  {
    Scale(p / d, d, p);
    Positive(p / d, d);
  }

  /** In degrees, for the grids of correction files: they end at 60 degrees of azimuth and 12.5 of
      elevation exactly when the interval divides the field of view. */
  lemma InsideInDegrees(h: nat, v: nat, angle: real)
    requires h > 0 && v > 0
    ensures AzimuthAxis(h).Inside(angle)
            <==> h <= 240 && -60.0 - h as real * 0.5 < angle < 60.0 - (240 % h) as real * 0.5
    ensures ElevationAxis(v).Inside(angle)
            <==> v <= 50 && -12.5 - v as real * 0.5 < angle < 12.5 - (50 % v) as real * 0.5
  {
    LinesInHalfDegrees(AzimuthAxis(h), 240, h);
    LinesInHalfDegrees(ElevationAxis(v), 50, v);
    InsideExactly(AzimuthAxis(h), angle);
    InsideExactly(ElevationAxis(v), angle);
    TwoLines(240, h);
    TwoLines(50, v);
  }

  lemma TwoLines(halves: nat, interval: nat)
    requires interval > 0
    ensures halves / interval >= 1 <==> interval <= halves
  {
  }

  // ---------------------------------------------------------------- the corrected value

  function Min(p: real, q: real): real { if p < q then p else q }
  function Max(p: real, q: real): real { if p < q then q else p }

  /** The smallest and the largest corner of a cell. */
  function Least(cell: Cell): real {
    Min(Min(cell.p, cell.q), Min(cell.r, cell.s))
  }

  function Greatest(cell: Cell): real {
    Max(Max(cell.p, cell.q), Max(cell.r, cell.s))
  }

  /** The correction stays between the corners of its cell. */
  predicate Bounded(table: seq<int>, x: Axis, y: Axis, division: nat, azimuth: real, elevation: real)
    requires Covers(table, x, y) && division > 0 && x.Inside(azimuth) && y.Inside(elevation)
  {
    var cell := CellAt(table, x, y, x.Index(azimuth), y.Index(elevation));
    Least(cell) / division as real
    <= Adjust(table, x, y, division, azimuth, elevation)
    <= Greatest(cell) / division as real
  }

  lemma NonNegative(x: real, y: real)
    requires x >= 0.0 && y >= 0.0
    ensures Product(x, y) >= 0.0
  {
  }

  lemma Parts(c: real, x: real)
    ensures Product(c, x) + Product(1.0 - c, x) == x
  {
  }

  lemma Part(c: real, x: real)
    requires 0.0 <= c <= 1.0 && x >= 0.0
    ensures 0.0 <= Product(c, x) <= x
  {
    NonNegative(c, x);
    NonNegative(1.0 - c, x);
    Parts(c, x);
  }

  lemma Difference(c: real, p: real, q: real)
    ensures Mix(c, p, q) == q + Product(c, p - q)
    ensures Mix(c, p, q) == p + Product(1.0 - c, q - p)
  {
  }

  /** Interpolation stays between its ends. */
  lemma Lerp(c: real, p: real, q: real, lo: real, hi: real)
    requires 0.0 <= c <= 1.0 && lo <= p <= hi && lo <= q <= hi
    ensures lo <= Mix(c, p, q) <= hi
  {
    Difference(c, p, q);
    if q <= p {
      Part(c, p - q);
    } else {
      Part(1.0 - c, q - p);
    }
  }

  lemma DivideMonotone(p: real, q: real, d: real)
    requires d > 0.0 && p <= q
    ensures p / d <= q / d
  {
    Scale(p / d, d, p);
    Scale(q / d, d, q);
    assert (q / d - p / d) * d == q - p;
    ProductSign(q / d - p / d, d);
  }

  lemma BlendBounded(cell: Cell, c1: real, c2: real)
    requires 0.0 <= c1 <= 1.0 && 0.0 <= c2 <= 1.0
    ensures Least(cell) <= Blend(cell, c1, c2) <= Greatest(cell)
  {
    var lo, hi := Least(cell), Greatest(cell);
    Lerp(c1, cell.p, cell.q, lo, hi);
    Lerp(c1, cell.r, cell.s, lo, hi);
    Lerp(c2, Mix(c1, cell.p, cell.q), Mix(c1, cell.r, cell.s), lo, hi);
  }

  lemma BetweenCorners(table: seq<int>, x: Axis, y: Axis, division: nat, azimuth: real, elevation: real)
    requires Covers(table, x, y) && division > 0 && x.Inside(azimuth) && y.Inside(elevation)
    requires azimuth >= -(x.fov / 2.0) && elevation >= -(y.fov / 2.0)
    ensures Bounded(table, x, y, division, azimuth, elevation)
  {
    WeightProper(x, azimuth);
    WeightProper(y, elevation);
    var cell := CellAt(table, x, y, x.Index(azimuth), y.Index(elevation));
    var b := Blend(cell, x.Weight(azimuth), y.Weight(elevation));
    BlendBounded(cell, x.Weight(azimuth), y.Weight(elevation));
    DivideMonotone(Least(cell), b, division as real);
    DivideMonotone(b, Greatest(cell), division as real);
  }

  /** A table that is 1 along its second column, or along its second row, and 0 elsewhere. */
  function ColumnTable(x: Axis, y: Axis): (t: seq<int>)
    requires x.Valid() && y.Valid() && x.Lines() > 0 && y.Lines() >= 0
    ensures Covers(t, x, y)
  {
    seq(x.Lines() * y.Lines(), k => if k % x.Lines() == 1 then 1 else 0)
  }

  function RowTable(x: Axis, y: Axis): (t: seq<int>)
    requires x.Valid() && y.Valid() && x.Lines() > 0 && y.Lines() >= 0
    ensures Covers(t, x, y)
  {
    seq(x.Lines() * y.Lines(), k => if k / x.Lines() == 1 then 1 else 0)
  }

  lemma SmallMultiple(k: int, n: int)
    requires -n < k * n < n
    ensures k == 0
  {
  }

  lemma Position(i: int, j: int, columns: int)
    requires 0 <= i < columns && 0 <= j
    ensures (i + j * columns) % columns == i && (i + j * columns) / columns == j
  {
    var q := (i + j * columns) / columns;
    var r := (i + j * columns) % columns;
    assert i + j * columns == q * columns + r;
    assert (j - q) * columns == j * columns - q * columns;
    SmallMultiple(j - q, columns);
  }

  lemma TableEntries(x: Axis, y: Axis, i: int, j: int)
    requires x.Valid() && y.Valid() && 0 <= i < x.Lines() && 0 <= j < y.Lines()
    ensures At(ColumnTable(x, y), x, y, i, j) == if i == 1 then 1.0 else 0.0
    ensures At(RowTable(x, y), x, y, i, j) == if j == 1 then 1.0 else 0.0
  {
    CellInside(i, j, x.Lines(), y.Lines());
    Position(i, j, x.Lines());
  }

  lemma DivideNegative(p: real, d: real)
    requires p < 0.0 && d > 0.0
    ensures p / d < 0.0
  {
    Scale(p / d, d, p);
    ProductSign(p / d, d);
  }

  /** In a cell that is 0 on the left and 1 on the right, or 0 below and 1 above, a weight over 1
      leads below 0. */
  lemma Extrapolated(c1: real, c2: real, division: nat)
    requires division > 0
    ensures var cell := Cell(0.0, 1.0, 0.0, 1.0);
            c1 > 1.0 ==> Least(cell) / division as real > Blend(cell, c1, c2) / division as real
    ensures var cell := Cell(0.0, 0.0, 1.0, 1.0);
            c2 > 1.0 ==> Least(cell) / division as real > Blend(cell, c1, c2) / division as real
  {
    Difference(c1, 0.0, 1.0);
    Difference(c2, 0.0, 1.0);
    Difference(c1, 0.0, 0.0);
    Difference(c1, 1.0, 1.0);
    Difference(c2, 1.0 - c1, 1.0 - c1);
    if c1 > 1.0 {
      DivideNegative(1.0 - c1, division as real);
    }
    if c2 > 1.0 {
      DivideNegative(1.0 - c2, division as real);
    }
  }

  /** Below the field of view some table is extrapolated out of its cell: in azimuth ... */
  lemma LeftOfGrid(x: Axis, y: Axis, division: nat, azimuth: real, elevation: real)
    requires x.Valid() && y.Valid() && division > 0 && x.Inside(azimuth) && y.Inside(elevation)
    requires azimuth < -(x.fov / 2.0)
    ensures !Bounded(ColumnTable(x, y), x, y, division, azimuth, elevation)
  {
    WeightProper(x, azimuth);
    var j := y.Index(elevation);
    TableEntries(x, y, 0, j);
    TableEntries(x, y, 1, j);
    TableEntries(x, y, 0, j + 1);
    TableEntries(x, y, 1, j + 1);
    assert CellAt(ColumnTable(x, y), x, y, 0, j) == Cell(0.0, 1.0, 0.0, 1.0);
    Extrapolated(x.Weight(azimuth), y.Weight(elevation), division);
  }

  /** ... and in elevation. */
  lemma BelowGrid(x: Axis, y: Axis, division: nat, azimuth: real, elevation: real)
    requires x.Valid() && y.Valid() && division > 0 && x.Inside(azimuth) && y.Inside(elevation)
    requires elevation < -(y.fov / 2.0)
    ensures !Bounded(RowTable(x, y), x, y, division, azimuth, elevation)
  {
    WeightProper(y, elevation);
    var i := x.Index(azimuth);
    TableEntries(x, y, i, 0);
    TableEntries(x, y, i + 1, 0);
    TableEntries(x, y, i, 1);
    TableEntries(x, y, i + 1, 1);
    assert CellAt(RowTable(x, y), x, y, i, 0) == Cell(0.0, 0.0, 1.0, 1.0);
    Extrapolated(x.Weight(azimuth), y.Weight(elevation), division);
  }

  /** Inside the grid, the correction is bounded by its cell for every table exactly when
      neither angle lies below the field of view. */
  lemma BoundedExactly(x: Axis, y: Axis, division: nat, azimuth: real, elevation: real)
    requires x.Valid() && y.Valid() && division > 0 && x.Inside(azimuth) && y.Inside(elevation)
    ensures (forall table :: Covers(table, x, y) ==> Bounded(table, x, y, division, azimuth, elevation))
            <==> azimuth >= -(x.fov / 2.0) && elevation >= -(y.fov / 2.0)
  {
    if azimuth >= -(x.fov / 2.0) && elevation >= -(y.fov / 2.0) {
      forall table | Covers(table, x, y)
        ensures Bounded(table, x, y, division, azimuth, elevation)
      {
        BetweenCorners(table, x, y, division, azimuth, elevation);
      }
    } else if azimuth < -(x.fov / 2.0) {
      LeftOfGrid(x, y, division, azimuth, elevation);
    } else {
      BelowGrid(x, y, division, azimuth, elevation);
    }
  }

  /** The same in degrees, for the grids of correction files. */
  lemma BoundedInDegrees(h: nat, v: nat, division: nat, azimuth: real, elevation: real)
    requires h > 0 && v > 0 && division > 0
    requires AzimuthAxis(h).Inside(azimuth) && ElevationAxis(v).Inside(elevation)
    ensures (forall table :: Covers(table, AzimuthAxis(h), ElevationAxis(v))
                             ==> Bounded(table, AzimuthAxis(h), ElevationAxis(v), division, azimuth, elevation))
            <==> azimuth >= -60.0 && elevation >= -12.5
  {
    BoundedExactly(AzimuthAxis(h), ElevationAxis(v), division, azimuth, elevation);
  }

  // ---------------------------------------------------------------- outside the grid and on it

  /** Outside the grid nothing is corrected. */
  lemma NothingOutside(table: seq<int>, x: Axis, y: Axis, division: nat, azimuth: real, elevation: real)
    requires Covers(table, x, y) && division > 0 && (!x.Inside(azimuth) || !y.Inside(elevation))
    ensures Adjust(table, x, y, division, azimuth, elevation) == 0.0
  {
  }

  lemma CornerBlend(cell: Cell)
    ensures Blend(cell, 1.0, 1.0) == cell.p
  {
  }

  /** On a grid point inside the grid the correction is the entry of that point. */
  lemma OnGridPoint(table: seq<int>, x: Axis, y: Axis, division: nat, i: nat, j: nat)
    requires Covers(table, x, y) && division > 0 && i < x.Lines() - 1 && j < y.Lines() - 1
    ensures Adjust(table, x, y, division, i as real * x.step - x.fov / 2.0, j as real * y.step - y.fov / 2.0)
            == At(table, x, y, i, j) / division as real
  {
    OnGridLine(x, i, i as real * x.step - x.fov / 2.0);
    OnGridLine(y, j, j as real * y.step - y.fov / 2.0);
    CornerBlend(CellAt(table, x, y, i, j));
  }

  // ---------------------------------------------------------------- from cell to cell

  /** An angle on a grid line takes the upper cell, with full weight on that line. */
  lemma OnGridLine(a: Axis, k: nat, angle: real)
    requires a.Valid() && angle == k as real * a.step - a.fov / 2.0
    ensures a.Index(angle) == k && a.Weight(angle) == 1.0
  {
    Scale(k as real, a.step, angle + a.fov / 2.0);
    WeightInSteps(a, angle);
  }

  /** The weight of a cell's lower line, for any angle. */
  function WeightIn(a: Axis, k: int, angle: real): real
    requires a.Valid()
  {
    (k + 1) as real - Steps(a, angle)
  }

  /** The formula of one cell, for any angles. */
  function InCell(table: seq<int>, x: Axis, y: Axis, i: int, j: int, azimuth: real, elevation: real): real
    requires Covers(table, x, y) && 0 <= i < x.Lines() - 1 && 0 <= j < y.Lines() - 1
  {
    Blend(CellAt(table, x, y, i, j), WeightIn(x, i, azimuth), WeightIn(y, j, elevation))
  }

  lemma AdjustInCell(table: seq<int>, x: Axis, y: Axis, division: nat, azimuth: real, elevation: real)
    requires Covers(table, x, y) && division > 0 && x.Inside(azimuth) && y.Inside(elevation)
    ensures Adjust(table, x, y, division, azimuth, elevation)
            == InCell(table, x, y, x.Index(azimuth), y.Index(elevation), azimuth, elevation) / division as real
  {
    WeightInSteps(x, azimuth);
    WeightInSteps(y, elevation);
  }

  /** Cells that share an edge agree on it. */
  lemma EdgesMeet(table: seq<int>, x: Axis, y: Axis, i: int, j: int, c: real)
    requires Covers(table, x, y) && 0 <= i < x.Lines() - 1 && 0 <= j < y.Lines() - 1
    ensures i + 1 < x.Lines() - 1 ==>
              Blend(CellAt(table, x, y, i, j), 0.0, c) == Blend(CellAt(table, x, y, i + 1, j), 1.0, c)
    ensures j + 1 < y.Lines() - 1 ==>
              Blend(CellAt(table, x, y, i, j), c, 0.0) == Blend(CellAt(table, x, y, i, j + 1), c, 1.0)
  {
  }

  /** The angle lies on the lower line of its cell. */
  predicate OnLine(a: Axis, angle: real)
    requires a.Valid()
  {
    angle == a.Index(angle) as real * a.step - a.fov / 2.0
  }

  lemma OnLineSteps(a: Axis, angle: real)
    requires a.Valid() && OnLine(a, angle)
    ensures Steps(a, angle) == a.Index(angle) as real
  {
    Scale(a.Index(angle) as real, a.step, angle + a.fov / 2.0);
  }

  /** On the line between two cells the correction is the one by the formula of either. */
  lemma SharedEdges(table: seq<int>, x: Axis, y: Axis, division: nat, azimuth: real, elevation: real)
    requires Covers(table, x, y) && division > 0 && x.Inside(azimuth) && y.Inside(elevation)
    ensures var i, j := x.Index(azimuth), y.Index(elevation);
            && (i > 0 && OnLine(x, azimuth) ==>
                  Adjust(table, x, y, division, azimuth, elevation)
                  == InCell(table, x, y, i - 1, j, azimuth, elevation) / division as real)
            && (j > 0 && OnLine(y, elevation) ==>
                  Adjust(table, x, y, division, azimuth, elevation)
                  == InCell(table, x, y, i, j - 1, azimuth, elevation) / division as real)
  {
    var i, j := x.Index(azimuth), y.Index(elevation);
    AdjustInCell(table, x, y, division, azimuth, elevation);
    if i > 0 && OnLine(x, azimuth) {
      OnLineSteps(x, azimuth);
      EdgesMeet(table, x, y, i - 1, j, WeightIn(y, j, elevation));
    }
    if j > 0 && OnLine(y, elevation) {
      OnLineSteps(y, elevation);
      EdgesMeet(table, x, y, i, j - 1, WeightIn(x, i, azimuth));
    }
  }

  // ---------------------------------------------------------------- how fast the correction changes

  predicate Near(p: real, q: real, g: real) { -g <= p - q <= g }

  /** Interpolation between the two values around `s`. */
  function Along(knots: seq<real>, s: real): real
    requires 0 <= s.Floor < |knots| - 1
  {
    Mix((s.Floor + 1) as real - s, knots[s.Floor], knots[s.Floor + 1])
  }

  predicate GentleAt(knots: seq<real>, i: int, g: real)
    requires 0 <= i < |knots| - 1
  {
    Near(knots[i], knots[i + 1], g)
  }

  /** Neighbouring values differ by no more than `g`. */
  predicate Gentle(knots: seq<real>, g: real) {
    forall i :: 0 <= i < |knots| - 1 ==> GentleAt(knots, i, g)
  }

  lemma NearScaled(d: real, v: real, g: real)
    requires d >= 0.0 && -g <= v <= g
    ensures -Product(d, g) <= Product(d, v) <= Product(d, g)
  {
    NonNegative(d, g - v);
    NonNegative(d, g + v);
  }

  lemma ProductsAdd(c: real, d: real, g: real)
    ensures Product(c, g) + Product(d, g) == Product(c + d, g)
  {
  }

  /** From a point to the knots on its two sides */
  lemma ToKnots(knots: seq<real>, s: real, g: real)
    requires 0 <= s.Floor < |knots| - 1 && Gentle(knots, g)
    ensures Near(Along(knots, s), knots[s.Floor], Product(s - s.Floor as real, g))
    ensures Near(Along(knots, s), knots[s.Floor + 1], Product((s.Floor + 1) as real - s, g))
  {
    var i := s.Floor;
    var c := (i + 1) as real - s;
    assert GentleAt(knots, i, g);
    Difference(c, knots[i], knots[i + 1]);
    NearScaled(c, knots[i] - knots[i + 1], g);
    NearScaled(1.0 - c, knots[i + 1] - knots[i], g);
  }

  lemma {:induction false} KnotToKnot(knots: seq<real>, i: int, k: int, g: real)
    requires 0 <= i <= k < |knots| && Gentle(knots, g)
    ensures Near(knots[i], knots[k], Product((k - i) as real, g))
    decreases k - i
  {
    if i < k {
      KnotToKnot(knots, i + 1, k, g);
      assert GentleAt(knots, i, g);
      ProductsAdd((k - i - 1) as real, 1.0, g);
    }
  }

  lemma InOneCell(knots: seq<real>, s: real, t: real, g: real)
    requires 0 <= s.Floor == t.Floor < |knots| - 1 && s <= t && Gentle(knots, g)
    ensures Near(Along(knots, s), Along(knots, t), Product(t - s, g))
  {
    var p, q := knots[s.Floor], knots[s.Floor + 1];
    assert GentleAt(knots, s.Floor, g);
    Difference((s.Floor + 1) as real - s, p, q);
    Difference((s.Floor + 1) as real - t, p, q);
    NearScaled(t - s, p - q, g);
    assert Product((s.Floor + 1) as real - s, p - q) == Product((s.Floor + 1) as real - t, p - q) + Product(t - s, p - q);
  }

  /** However many knots lie between, the value changes by no more than `g` for a step. */
  lemma Gradual(knots: seq<real>, s: real, t: real, g: real)
    requires 0 <= s.Floor && s <= t && t.Floor < |knots| - 1 && Gentle(knots, g)
    ensures Near(Along(knots, s), Along(knots, t), Product(t - s, g))
  {
    var i, k := s.Floor, t.Floor;
    if i == k {
      InOneCell(knots, s, t, g);
    } else {
      ToKnots(knots, s, g);
      KnotToKnot(knots, i + 1, k, g);
      ToKnots(knots, t, g);
      ProductsAdd((i + 1) as real - s, (k - i - 1) as real, g);
      ProductsAdd(k as real - s, t - k as real, g);
    }
  }

  /** The correction along the azimuth, at the weight `c` between rows `j` and `j + 1` */
  function Columns(table: seq<int>, x: Axis, y: Axis, j: int, c: real): (r: seq<real>)
    requires Covers(table, x, y) && 0 <= j < y.Lines() - 1 && x.Lines() >= 0
    ensures |r| == x.Lines()
  {
    seq(x.Lines(), i requires 0 <= i < x.Lines() => Mix(c, At(table, x, y, i, j), At(table, x, y, i, j + 1)))
  }

  /** The correction along the elevation, at the weight `c` between columns `i` and `i + 1` */
  function Rows(table: seq<int>, x: Axis, y: Axis, i: int, c: real): (r: seq<real>)
    requires Covers(table, x, y) && 0 <= i < x.Lines() - 1 && y.Lines() >= 0
    ensures |r| == y.Lines()
  {
    seq(y.Lines(), j requires 0 <= j < y.Lines() => Mix(c, At(table, x, y, i, j), At(table, x, y, i + 1, j)))
  }

  lemma Distribute(c: real, p: real, q: real)
    ensures Product(c, p + q) == Product(c, p) + Product(c, q)
  {
  }

  lemma Commute(c: real, d: real, p: real)
    ensures Product(c, Product(d, p)) == Product(d, Product(c, p))
  {
  }

  lemma MixSplit(c: real, d: real, p: real, q: real, r: real, s: real)
    ensures Mix(c, Mix(d, p, q), Mix(d, r, s))
            == Product(c, Product(d, p)) + Product(c, Product(1.0 - d, q))
               + Product(1.0 - c, Product(d, r)) + Product(1.0 - c, Product(1.0 - d, s))
  {
    Distribute(c, Product(d, p), Product(1.0 - d, q));
    Distribute(1.0 - c, Product(d, r), Product(1.0 - d, s));
  }

  lemma MixSwap(c1: real, c2: real, p: real, q: real, r: real, s: real)
    ensures Mix(c2, Mix(c1, p, q), Mix(c1, r, s)) == Mix(c1, Mix(c2, p, r), Mix(c2, q, s))
  {
    MixSplit(c2, c1, p, q, r, s);
    MixSplit(c1, c2, p, r, q, s);
    Commute(c1, c2, p);
    Commute(1.0 - c1, c2, q);
    Commute(c1, 1.0 - c2, r);
    Commute(1.0 - c1, 1.0 - c2, s);
  }

  /** Inside the grid and not below the field of view; there an angle's cell is where its steps lie. */
  predicate Seen(a: Axis, angle: real)
    requires a.Valid()
  {
    a.Inside(angle) && angle >= -(a.fov / 2.0)
  }

  lemma SeenInSteps(a: Axis, angle: real)
    requires a.Valid() && Seen(a, angle)
    ensures 0.0 <= Steps(a, angle) && Steps(a, angle).Floor == a.Index(angle)
  {
    Scale(Steps(a, angle), a.step, angle + a.fov / 2.0);
    ProductSign(Steps(a, angle), a.step);
  }

  /** The corrected value, before the division */
  function Value(table: seq<int>, x: Axis, y: Axis, azimuth: real, elevation: real): real
    requires Covers(table, x, y) && x.Inside(azimuth) && y.Inside(elevation)
  {
    Blend(CellAt(table, x, y, x.Index(azimuth), y.Index(elevation)), x.Weight(azimuth), y.Weight(elevation))
  }

  lemma ValueAlongColumns(table: seq<int>, x: Axis, y: Axis, azimuth: real, elevation: real)
    requires Covers(table, x, y) && Seen(x, azimuth) && y.Inside(elevation)
    ensures var s := Steps(x, azimuth);
            && 0 <= s.Floor < x.Lines() - 1
            && Value(table, x, y, azimuth, elevation)
               == Along(Columns(table, x, y, y.Index(elevation), y.Weight(elevation)), s)
  {
    SeenInSteps(x, azimuth);
    WeightInSteps(x, azimuth);
    var cell := CellAt(table, x, y, x.Index(azimuth), y.Index(elevation));
    MixSwap(x.Weight(azimuth), y.Weight(elevation), cell.p, cell.q, cell.r, cell.s);
  }

  lemma ValueAlongRows(table: seq<int>, x: Axis, y: Axis, azimuth: real, elevation: real)
    requires Covers(table, x, y) && x.Inside(azimuth) && Seen(y, elevation)
    ensures var t := Steps(y, elevation);
            && 0 <= t.Floor < y.Lines() - 1
            && Value(table, x, y, azimuth, elevation)
               == Along(Rows(table, x, y, x.Index(azimuth), x.Weight(azimuth)), t)
  {
    SeenInSteps(y, elevation);
    WeightInSteps(y, elevation);
  }

  predicate NearAt(table: seq<int>, x: Axis, y: Axis, i: int, j: int, g: real)
    requires Covers(table, x, y) && 0 <= i < x.Lines() && 0 <= j < y.Lines()
  {
    && (i + 1 < x.Lines() ==> Near(At(table, x, y, i, j), At(table, x, y, i + 1, j), g))
    && (j + 1 < y.Lines() ==> Near(At(table, x, y, i, j), At(table, x, y, i, j + 1), g))
  }

  /** Neighbouring entries differ by no more than `g`. */
  predicate GentleTable(table: seq<int>, x: Axis, y: Axis, g: real)
    requires Covers(table, x, y)
  {
    forall i, j :: 0 <= i < x.Lines() && 0 <= j < y.Lines() ==> NearAt(table, x, y, i, j, g)
  }

  lemma MixNear(c: real, p: real, q: real, r: real, s: real, g: real)
    requires 0.0 <= c <= 1.0 && Near(p, r, g) && Near(q, s, g)
    ensures Near(Mix(c, p, q), Mix(c, r, s), g)
  {
    Lerp(c, p - r, q - s, -g, g);
    assert Mix(c, p, q) - Mix(c, r, s) == Mix(c, p - r, q - s);
  }

  lemma ColumnsGentle(table: seq<int>, x: Axis, y: Axis, j: int, c: real, g: real)
    requires Covers(table, x, y) && 0 <= j < y.Lines() - 1 && x.Lines() >= 0
    requires GentleTable(table, x, y, g) && 0.0 <= c <= 1.0
    ensures Gentle(Columns(table, x, y, j, c), g)
  {
    forall i | 0 <= i < x.Lines() - 1
      ensures GentleAt(Columns(table, x, y, j, c), i, g)
    {
      assert NearAt(table, x, y, i, j, g) && NearAt(table, x, y, i, j + 1, g);
      MixNear(c, At(table, x, y, i, j), At(table, x, y, i, j + 1),
              At(table, x, y, i + 1, j), At(table, x, y, i + 1, j + 1), g);
    }
  }

  lemma RowsGentle(table: seq<int>, x: Axis, y: Axis, i: int, c: real, g: real)
    requires Covers(table, x, y) && 0 <= i < x.Lines() - 1 && y.Lines() >= 0
    requires GentleTable(table, x, y, g) && 0.0 <= c <= 1.0
    ensures Gentle(Rows(table, x, y, i, c), g)
  {
    forall j | 0 <= j < y.Lines() - 1
      ensures GentleAt(Rows(table, x, y, i, c), j, g)
    {
      assert NearAt(table, x, y, i, j, g) && NearAt(table, x, y, i + 1, j, g);
      MixNear(c, At(table, x, y, i, j), At(table, x, y, i + 1, j),
              At(table, x, y, i, j + 1), At(table, x, y, i + 1, j + 1), g);
    }
  }

  function Distance(s: real, t: real): real { if s < t then t - s else s - t }

  lemma AzimuthGradual(table: seq<int>, x: Axis, y: Axis, a: real, b: real, elevation: real, g: real)
    requires Covers(table, x, y) && Seen(x, a) && Seen(x, b) && Seen(y, elevation) && GentleTable(table, x, y, g)
    ensures Near(Value(table, x, y, a, elevation), Value(table, x, y, b, elevation),
                 Product(Distance(Steps(x, a), Steps(x, b)), g))
  {
    WeightProper(y, elevation);
    ValueAlongColumns(table, x, y, a, elevation);
    ValueAlongColumns(table, x, y, b, elevation);
    ColumnsGentle(table, x, y, y.Index(elevation), y.Weight(elevation), g);
    var knots := Columns(table, x, y, y.Index(elevation), y.Weight(elevation));
    if Steps(x, a) < Steps(x, b) {
      Gradual(knots, Steps(x, a), Steps(x, b), g);
    } else {
      Gradual(knots, Steps(x, b), Steps(x, a), g);
    }
  }

  lemma ElevationGradual(table: seq<int>, x: Axis, y: Axis, azimuth: real, a: real, b: real, g: real)
    requires Covers(table, x, y) && Seen(x, azimuth) && Seen(y, a) && Seen(y, b) && GentleTable(table, x, y, g)
    ensures Near(Value(table, x, y, azimuth, a), Value(table, x, y, azimuth, b),
                 Product(Distance(Steps(y, a), Steps(y, b)), g))
  {
    WeightProper(x, azimuth);
    ValueAlongRows(table, x, y, azimuth, a);
    ValueAlongRows(table, x, y, azimuth, b);
    RowsGentle(table, x, y, x.Index(azimuth), x.Weight(azimuth), g);
    var knots := Rows(table, x, y, x.Index(azimuth), x.Weight(azimuth));
    if Steps(y, a) < Steps(y, b) {
      Gradual(knots, Steps(y, a), Steps(y, b), g);
    } else {
      Gradual(knots, Steps(y, b), Steps(y, a), g);
    }
  }

  lemma NearDivided(p: real, q: real, g: real, d: real)
    requires Near(p, q, g) && d > 0.0
    ensures Near(p / d, q / d, g / d)
  {
    DivideMonotone(p - q, g, d);
    DivideMonotone(-g, p - q, d);
  }

  /** Inside the grid and not below the field of view the correction nowhere jumps: from any pair of
      angles to any other it changes by no more than the largest difference of neighbouring entries for
      every step of the grid moved, however many cells lie between. */
  lemma ChangesGradually(table: seq<int>, x: Axis, y: Axis, division: nat,
                         azimuth: real, elevation: real, azimuth': real, elevation': real, g: real)
    requires Covers(table, x, y) && division > 0 && GentleTable(table, x, y, g)
    requires Seen(x, azimuth) && Seen(x, azimuth') && Seen(y, elevation) && Seen(y, elevation')
    ensures var moved := Distance(Steps(x, azimuth), Steps(x, azimuth'))
                         + Distance(Steps(y, elevation), Steps(y, elevation'));
            Near(Adjust(table, x, y, division, azimuth, elevation),
                 Adjust(table, x, y, division, azimuth', elevation'), Product(moved, g) / division as real)
  {
    var u := Distance(Steps(x, azimuth), Steps(x, azimuth'));
    var v := Distance(Steps(y, elevation), Steps(y, elevation'));
    AzimuthGradual(table, x, y, azimuth, azimuth', elevation, g);
    ElevationGradual(table, x, y, azimuth', elevation, elevation', g);
    ProductsAdd(u, v, g);
    NearDivided(Value(table, x, y, azimuth, elevation), Value(table, x, y, azimuth', elevation'),
                Product(u + v, g), division as real);
  }
}
