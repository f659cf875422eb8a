/** Cells and grids shared by the three life-like engines: the cell characters,
    grid shapes, population counts and the wrapped 3x3 neighbour walk. */
module Cells {

  /** A grid is a list of rows of cell characters, as the engines store it. */
  type Grid = seq<seq<char>>

  const DEAD: char := '\U{25A1}'
  const ALIVE: char := '\U{25A3}'
  const CANCER: char := '\U{25A9}'

  /** The largest neighbour count a life-like cell can see. */
  const NUM_MAX_NEIGHBORS: nat := 8

  /** The number of iterations of `range(n)`: none for a negative `n`. */
  function Dim(n: int): nat
  {
    if n < 0 then 0 else n
  }

  /** `g` has the rows and columns the nested `range` loops visit. */
  predicate Shaped(g: Grid, rows: int, cols: int)
  {
    |g| == Dim(rows) && forall i :: 0 <= i < |g| ==> |g[i]| == Dim(cols)
  }

  /** Every row of `g` is as long as the first. */
  predicate Rect(g: Grid)
  {
    forall i :: 0 <= i < |g| ==> |g[i]| == |g[0]|
  }

  function Width(g: Grid): nat
  {
    if |g| == 0 then 0 else |g[0]|
  }

  lemma ShapedIsRect(g: Grid, rows: int, cols: int)
    requires Shaped(g, rows, cols)
    ensures Rect(g) && (|g| > 0 ==> Width(g) == Dim(cols))
  {
  }

  /** One all-DEAD row of a fresh grid. */
  function DeadRow(cols: int): (r: seq<char>)
    ensures |r| == Dim(cols) && forall j :: 0 <= j < |r| ==> r[j] == DEAD
  {
    seq(Dim(cols), _ => DEAD)
  }

  /** A fresh all-DEAD grid, as `create_grid` builds it. */
  function CreateGrid(rows: int, cols: int): (g: Grid)
    ensures Shaped(g, rows, cols)
    ensures forall i :: 0 <= i < |g| ==> g[i] == DeadRow(cols)
    ensures forall i, j :: 0 <= i < |g| && 0 <= j < |g[i]| ==> g[i][j] == DEAD
  {
    seq(Dim(rows), _ => DeadRow(cols))
  }

  // ---------------------------------------------------------------------
  // Counting cells of one kind
  // ---------------------------------------------------------------------

  function Is(c: char, t: char): nat
  {
    if c == t then 1 else 0
  }

  /** The number of cells equal to `t` in one row. */
  function RowCount(s: seq<char>, t: char): nat
  {
    if |s| == 0 then 0 else RowCount(s[..|s| - 1], t) + Is(s[|s| - 1], t)
  }

  /** The number of cells equal to `t` in a grid: a full scan. */
  function CountIn(g: Grid, t: char): nat
  {
    if |g| == 0 then 0 else CountIn(g[..|g| - 1], t) + RowCount(g[|g| - 1], t)
  }

  /** The population of a grid: its ALIVE cells. */
  function AliveCount(g: Grid): nat
  {
    CountIn(g, ALIVE)
  }

  lemma RowCountSnoc(s: seq<char>, j: nat, t: char)
    requires j < |s|
    ensures RowCount(s[..j + 1], t) == RowCount(s[..j], t) + Is(s[j], t)
  {
    assert s[..j + 1][..j] == s[..j];
  }

  lemma CountInSnoc(g: Grid, i: nat, t: char)
    requires i < |g|
    ensures CountIn(g[..i + 1], t) == CountIn(g[..i], t) + RowCount(g[i], t)
  {
    assert g[..i + 1][..i] == g[..i];
  }

  /** Overwriting one cell changes a row's count by the difference of the two cells. */
  lemma {:induction false} RowCountUpdate(s: seq<char>, j: nat, c: char, t: char)
    requires j < |s|
    ensures RowCount(s[j := c], t) == RowCount(s, t) - Is(s[j], t) + Is(c, t)
  {
    var n := |s| - 1;
    if j < n {
      assert s[j := c][..n] == s[..n][j := c];
      RowCountUpdate(s[..n], j, c, t);
    } else {
      assert s[j := c][..n] == s[..n];
    }
  }

  /** Overwriting one cell changes a grid's count by the difference of the two cells. */
  lemma {:induction false} CountInUpdate(g: Grid, i: nat, j: nat, c: char, t: char)
    requires i < |g| && j < |g[i]|
    ensures CountIn(g[i := g[i][j := c]], t) == CountIn(g, t) - Is(g[i][j], t) + Is(c, t)
  {
    var n := |g| - 1;
    var h := g[i := g[i][j := c]];
    if i < n {
      assert h[..n] == g[..n][i := g[i][j := c]];
      CountInUpdate(g[..n], i, j, c, t);
    } else {
      assert h[..n] == g[..n];
      RowCountUpdate(g[i], j, c, t);
    }
  }

  /** Replacing a whole row changes a grid's count by the difference of the two rows. */
  lemma {:induction false} CountInRowUpdate(g: Grid, i: nat, r: seq<char>, t: char)
    requires i < |g|
    ensures CountIn(g[i := r], t) == CountIn(g, t) - RowCount(g[i], t) + RowCount(r, t)
  {
    var n := |g| - 1;
    var h := g[i := r];
    if i < n {
      assert h[..n] == g[..n][i := r];
      CountInRowUpdate(g[..n], i, r, t);
    } else {
      assert h[..n] == g[..n];
    }
  }

  lemma {:induction false} RowCountNone(s: seq<char>, t: char)
    requires forall k :: 0 <= k < |s| ==> s[k] != t
    ensures RowCount(s, t) == 0
  {
    if |s| > 0 {
      RowCountNone(s[..|s| - 1], t);
    }
  }

  /** A grid with no cell equal to `t` counts zero of them. */
  lemma {:induction false} CountInNone(g: Grid, t: char)
    requires forall i, j :: 0 <= i < |g| && 0 <= j < |g[i]| ==> g[i][j] != t
    ensures CountIn(g, t) == 0
  {
    if |g| > 0 {
      CountInNone(g[..|g| - 1], t);
      RowCountNone(g[|g| - 1], t);
    }
  }

  /** One step of filling a fresh grid row by row: row `i`, still all DEAD,
      becomes `row`; the rows after it stay DEAD and the ALIVE count grows by
      the row's. */
  lemma StoreRow(next: Grid, i: nat, row: seq<char>, rows: int, cols: int)
    requires Shaped(next, rows, cols) && i < |next| && |row| == Dim(cols)
    requires forall a :: i <= a < |next| ==> next[a] == DeadRow(cols)
    ensures Shaped(next[i := row], rows, cols)
    ensures forall a :: 0 <= a < |next| && a != i ==> next[i := row][a] == next[a]
    ensures AliveCount(next[i := row]) == AliveCount(next) + RowCount(row, ALIVE)
  {
    RowCountNone(DeadRow(cols), ALIVE);
    CountInRowUpdate(next, i, row, ALIVE);
  }

  /** A freshly created grid holds no live cell. */
  lemma CreateGridEmpty(rows: int, cols: int)
    ensures AliveCount(CreateGrid(rows, cols)) == 0
  {
    CountInNone(CreateGrid(rows, cols), ALIVE);
  }

  // ---------------------------------------------------------------------
  // The wrapped 3x3 neighbour walk
  // ---------------------------------------------------------------------

  /** The index list `[i-1, i, i+1]` taken modulo `n`, as the engines build it;
      Python's `%` and Dafny's agree for a positive modulus. */
  function Around(i: int, n: int): (r: seq<int>)
    requires 0 <= i < n
    ensures |r| == 3 && r[1] == i
    ensures forall k :: 0 <= k < 3 ==> 0 <= r[k] < n
  {
    [(i - 1) % n, i, (i + 1) % n]
  }

  predicate Columns(g: Grid, cs: seq<int>)
  {
    forall k :: 0 <= k < |cs| ==> 0 <= cs[k] < Width(g)
  }

  /** Cells `(ix, cs[k])` other than `(i, j)` that equal `t`. */
  function WalkRow(g: Grid, i: int, j: int, ix: int, cs: seq<int>, t: char): nat
    requires Rect(g) && 0 <= ix < |g| && Columns(g, cs)
  {
    if |cs| == 0 then 0
    else
      WalkRow(g, i, j, ix, cs[..|cs| - 1], t) + Hit(g, i, j, ix, cs[|cs| - 1], t)
  }

  /** Cells of `rs x cs` other than `(i, j)` that equal `t`. */
  function Walk(g: Grid, i: int, j: int, rs: seq<int>, cs: seq<int>, t: char): nat
    requires Rect(g) && Columns(g, cs)
    requires forall k :: 0 <= k < |rs| ==> 0 <= rs[k] < |g|
  {
    if |rs| == 0 then 0
    else Walk(g, i, j, rs[..|rs| - 1], cs, t) + WalkRow(g, i, j, rs[|rs| - 1], cs, t)
  }

  /** What the engines' inner double loop counts for cell `(i, j)`. */
  function NeighborCount(g: Grid, i: int, j: int, t: char): nat
    requires Rect(g) && 0 <= i < |g| && 0 <= j < Width(g)
  {
    Walk(g, i, j, Around(i, |g|), Around(j, Width(g)), t)
  }

  /** One visited position: 1 when `(ix, jx)` is not the centre and holds `t`. */
  function Hit(g: Grid, i: int, j: int, ix: int, jx: int, t: char): nat
    requires 0 <= ix < |g| && 0 <= jx < |g[ix]|
  {
    if (ix, jx) != (i, j) && g[ix][jx] == t then 1 else 0
  }

  lemma WalkRow3(g: Grid, i: int, j: int, ix: int, cs: seq<int>, t: char)
    requires Rect(g) && 0 <= ix < |g| && Columns(g, cs) && |cs| == 3
    ensures WalkRow(g, i, j, ix, cs, t)
         == Hit(g, i, j, ix, cs[0], t) + Hit(g, i, j, ix, cs[1], t) + Hit(g, i, j, ix, cs[2], t)
  {
    var c2, c1 := cs[..2], cs[..1];
    assert c2[..1] == c1 && c1[..0] == [];
    assert WalkRow(g, i, j, ix, c1, t) == Hit(g, i, j, ix, cs[0], t);
    assert WalkRow(g, i, j, ix, c2, t) == WalkRow(g, i, j, ix, c1, t) + Hit(g, i, j, ix, cs[1], t);
  }

  /** The walk over a three-by-three index list, written out as nine visits. */
  lemma Walk3(g: Grid, i: int, j: int, rs: seq<int>, cs: seq<int>, t: char)
    requires Rect(g) && Columns(g, cs) && |rs| == 3 && |cs| == 3
    requires forall k :: 0 <= k < 3 ==> 0 <= rs[k] < |g|
    ensures Walk(g, i, j, rs, cs, t)
         == WalkRow(g, i, j, rs[0], cs, t) + WalkRow(g, i, j, rs[1], cs, t) + WalkRow(g, i, j, rs[2], cs, t)
  {
    var r2, r1 := rs[..2], rs[..1];
    assert r2[..1] == r1 && r1[..0] == [];
    assert Walk(g, i, j, r1, cs, t) == WalkRow(g, i, j, rs[0], cs, t);
    assert Walk(g, i, j, r2, cs, t) == Walk(g, i, j, r1, cs, t) + WalkRow(g, i, j, rs[1], cs, t);
  }

  /** Every neighbour count lies in [0, NUM_MAX_NEIGHBORS]: the walk visits nine
      positions and always skips the middle one. */
  lemma NeighborCountBound(g: Grid, i: int, j: int, t: char)
    requires Rect(g) && 0 <= i < |g| && 0 <= j < Width(g)
    ensures NeighborCount(g, i, j, t) <= NUM_MAX_NEIGHBORS
  {
    var rs, cs := Around(i, |g|), Around(j, Width(g));
    Walk3(g, i, j, rs, cs, t);
    WalkRow3(g, i, j, rs[0], cs, t);
    WalkRow3(g, i, j, rs[1], cs, t);
    WalkRow3(g, i, j, rs[2], cs, t);
  }

  // ---------------------------------------------------------------------
  // The Moore neighbourhood as an independent reference
  // ---------------------------------------------------------------------

  lemma WrapPrev(i: int, n: int)
    requires 0 <= i < n
    ensures (i - 1) % n == if i == 0 then n - 1 else i - 1
  {
    if i == 0 {
      assert (-1) % n == n - 1 by { assert -1 == (-1) * n + (n - 1); }
    }
  }

  lemma WrapNext(i: int, n: int)
    requires 0 <= i < n
    ensures (i + 1) % n == if i == n - 1 then 0 else i + 1
  {
  }

  /** The eight wrapped Moore neighbours of `(i, j)`, row by row. */
  function MoorePositions(rows: nat, cols: nat, i: int, j: int): (ps: seq<(int, int)>)
    requires rows > 0 && cols > 0
    ensures |ps| == 8
  {
    var up, down := (i - 1) % rows, (i + 1) % rows;
    var left, right := (j - 1) % cols, (j + 1) % cols;
    [(up, left), (up, j), (up, right), (i, left), (i, right), (down, left), (down, j), (down, right)]
  }

  function CountAt(g: Grid, ps: seq<(int, int)>, t: char): nat
    requires Rect(g)
    requires forall k :: 0 <= k < |ps| ==> 0 <= ps[k].0 < |g| && 0 <= ps[k].1 < |g[ps[k].0]|
  {
    if |ps| == 0 then 0 else CountAt(g, ps[..|ps| - 1], t) + Is(g[ps[|ps| - 1].0][ps[|ps| - 1].1], t)
  }

  /** The number of cells equal to `t` among the eight Moore positions. */
  function MooreCount(g: Grid, i: int, j: int, t: char): nat
    requires Rect(g) && 0 <= i < |g| && 0 <= j < Width(g)
  {
    var ps := MoorePositions(|g|, Width(g), i, j);
    WrapPrev(i, |g|); WrapNext(i, |g|); WrapPrev(j, Width(g)); WrapNext(j, Width(g));
    CountAt(g, ps, t)
  }

  /** On a grid of at least 3x3 the eight Moore positions are eight distinct
      cells, none of them `(i, j)` itself. */
  lemma MooreDistinct(rows: nat, cols: nat, i: int, j: int)
    requires 3 <= rows && 3 <= cols && 0 <= i < rows && 0 <= j < cols
    ensures forall a, b :: 0 <= a < b < 8 ==> MoorePositions(rows, cols, i, j)[a] != MoorePositions(rows, cols, i, j)[b]
    ensures forall a :: 0 <= a < 8 ==> MoorePositions(rows, cols, i, j)[a] != (i, j)
  {
    WrapPrev(i, rows); WrapNext(i, rows); WrapPrev(j, cols); WrapNext(j, cols);
  }

  lemma CountAt8(g: Grid, ps: seq<(int, int)>, t: char)
    requires Rect(g) && |ps| == 8
    requires forall k :: 0 <= k < |ps| ==> 0 <= ps[k].0 < |g| && 0 <= ps[k].1 < |g[ps[k].0]|
    ensures CountAt(g, ps, t)
         == Is(g[ps[0].0][ps[0].1], t) + Is(g[ps[1].0][ps[1].1], t) + Is(g[ps[2].0][ps[2].1], t)
          + Is(g[ps[3].0][ps[3].1], t) + Is(g[ps[4].0][ps[4].1], t) + Is(g[ps[5].0][ps[5].1], t)
          + Is(g[ps[6].0][ps[6].1], t) + Is(g[ps[7].0][ps[7].1], t)
  {
    assert ps[..2][..1] == ps[..1];
    assert ps[..3][..2] == ps[..2];
    assert ps[..4][..3] == ps[..3];
    assert ps[..5][..4] == ps[..4];
    assert ps[..6][..5] == ps[..5];
    assert ps[..7][..6] == ps[..6];
    assert ps[..8][..7] == ps[..7];
    assert ps[..1][..0] == [] && ps[..8] == ps;
    assert CountAt(g, ps[..1], t) == CountAt(g, ps[..0], t) + Is(g[ps[0].0][ps[0].1], t);
    assert CountAt(g, ps[..2], t) == CountAt(g, ps[..1], t) + Is(g[ps[1].0][ps[1].1], t);
    assert CountAt(g, ps[..3], t) == CountAt(g, ps[..2], t) + Is(g[ps[2].0][ps[2].1], t);
    assert CountAt(g, ps[..4], t) == CountAt(g, ps[..3], t) + Is(g[ps[3].0][ps[3].1], t);
    assert CountAt(g, ps[..5], t) == CountAt(g, ps[..4], t) + Is(g[ps[4].0][ps[4].1], t);
    assert CountAt(g, ps[..6], t) == CountAt(g, ps[..5], t) + Is(g[ps[5].0][ps[5].1], t);
    assert CountAt(g, ps[..7], t) == CountAt(g, ps[..6], t) + Is(g[ps[6].0][ps[6].1], t);
    assert CountAt(g, ps[..8], t) == CountAt(g, ps[..7], t) + Is(g[ps[7].0][ps[7].1], t);
  }

  /** With at least two rows and two columns the walk counts exactly the eight
      Moore neighbours. */
  lemma WalkIsMoore(g: Grid, i: int, j: int, t: char)
    requires Rect(g) && 2 <= |g| && 2 <= Width(g) && 0 <= i < |g| && 0 <= j < Width(g)
    ensures NeighborCount(g, i, j, t) == MooreCount(g, i, j, t)
  {
    var rows, cols := |g|, Width(g);
    WrapPrev(i, rows); WrapNext(i, rows); WrapPrev(j, cols); WrapNext(j, cols);
    var rs, cs := Around(i, rows), Around(j, cols);
    var up, down, left, right := rs[0], rs[2], cs[0], cs[2];
    assert up != i && down != i && left != j && right != j;
    Walk3(g, i, j, rs, cs, t);
    WalkRow3(g, i, j, up, cs, t);
    assert WalkRow(g, i, j, up, cs, t) == Is(g[up][left], t) + Is(g[up][j], t) + Is(g[up][right], t);
    WalkRow3(g, i, j, i, cs, t);
    assert WalkRow(g, i, j, i, cs, t) == Is(g[i][left], t) + Is(g[i][right], t);
    WalkRow3(g, i, j, down, cs, t);
    assert WalkRow(g, i, j, down, cs, t) == Is(g[down][left], t) + Is(g[down][j], t) + Is(g[down][right], t);
    CountAt8(g, MoorePositions(rows, cols, i, j), t);
  }

  /** The corner `(0, 0)` sees the opposite corner `(rows-1, cols-1)`. */
  lemma CornerWraps(g: Grid, t: char)
    requires Rect(g) && 2 <= |g| && 2 <= Width(g)
    ensures NeighborCount(g, 0, 0, t) >= Is(g[|g| - 1][Width(g) - 1], t)
  {
    WalkIsMoore(g, 0, 0, t);
    WrapPrev(0, |g|); WrapPrev(0, Width(g));
    CountAt8(g, MoorePositions(|g|, Width(g), 0, 0), t);
  }

  /** On a single-row grid every wrapped row index is the cell's own row, so the
      walk skips the whole middle column and counts the left and right
      neighbours three times each. */
  lemma SingleRowTriples(g: Grid, j: int, t: char)
    requires Rect(g) && |g| == 1 && 2 <= Width(g) && 0 <= j < Width(g)
    ensures NeighborCount(g, 0, j, t)
         == 3 * (Is(g[0][(j - 1) % Width(g)], t) + Is(g[0][(j + 1) % Width(g)], t))
  {
    var cols := Width(g);
    WrapPrev(j, cols); WrapNext(j, cols);
    var rs, cs := Around(0, 1), Around(j, cols);
    assert rs == [0, 0, 0];
    Walk3(g, 0, j, rs, cs, t);
    WalkRow3(g, 0, j, 0, cs, t);
  }

  // ---------------------------------------------------------------------
  // The walk as the engines run it
  // ---------------------------------------------------------------------

  /** The double loop over `[i-1, i, i+1] x [j-1, j, j+1]` that counts ALIVE
      neighbours in the two-state engines. */
  method CountAlive(g: Grid, i: int, j: int) returns (n: nat)
    requires Rect(g) && 0 <= i < |g| && 0 <= j < Width(g)
    ensures n == NeighborCount(g, i, j, ALIVE)
    ensures n <= NUM_MAX_NEIGHBORS
  {
    var rs, cs := Around(i, |g|), Around(j, Width(g));
    n := 0;
    for a := 0 to 3
      invariant n == Walk(g, i, j, rs[..a], cs, ALIVE)
    {
      for b := 0 to 3
        invariant n == Walk(g, i, j, rs[..a], cs, ALIVE) + WalkRow(g, i, j, rs[a], cs[..b], ALIVE)
      {
        assert cs[..b + 1][..b] == cs[..b];
        if (rs[a], cs[b]) != (i, j) && g[rs[a]][cs[b]] == ALIVE {
          n := n + 1;
        }
      }
      assert cs[..3] == cs;
      assert rs[..a + 1][..a] == rs[..a];
    }
    assert rs[..3] == rs;
    NeighborCountBound(g, i, j, ALIVE);
  }

  /** The cancer engine's double loop: one pass counts ALIVE and, failing that,
      CANCER neighbours. */
  method CountAliveAndCancer(g: Grid, i: int, j: int) returns (alive: nat, cancer: nat)
    requires Rect(g) && 0 <= i < |g| && 0 <= j < Width(g)
    ensures alive == NeighborCount(g, i, j, ALIVE)
    ensures cancer == NeighborCount(g, i, j, CANCER)
    ensures alive + cancer <= NUM_MAX_NEIGHBORS
  {
    var rs, cs := Around(i, |g|), Around(j, Width(g));
    alive, cancer := 0, 0;
    for a := 0 to 3
      invariant alive == Walk(g, i, j, rs[..a], cs, ALIVE)
      invariant cancer == Walk(g, i, j, rs[..a], cs, CANCER)
    {
      for b := 0 to 3
        invariant alive == Walk(g, i, j, rs[..a], cs, ALIVE) + WalkRow(g, i, j, rs[a], cs[..b], ALIVE)
        invariant cancer == Walk(g, i, j, rs[..a], cs, CANCER) + WalkRow(g, i, j, rs[a], cs[..b], CANCER)
      {
        assert cs[..b + 1][..b] == cs[..b];
        if (rs[a], cs[b]) != (i, j) {
          if g[rs[a]][cs[b]] == ALIVE {
            alive := alive + 1;
          } else if g[rs[a]][cs[b]] == CANCER {
            cancer := cancer + 1;
          }
        }
      }
      assert cs[..3] == cs;
      assert rs[..a + 1][..a] == rs[..a];
    }
    assert rs[..3] == rs;
    WalkTwoKinds(g, i, j, rs, cs);
  }

  /** ALIVE and CANCER are different characters, so no position is counted twice. */
  lemma WalkTwoKinds(g: Grid, i: int, j: int, rs: seq<int>, cs: seq<int>)
    requires Rect(g) && 0 <= i < |g| && 0 <= j < Width(g)
    requires rs == Around(i, |g|) && cs == Around(j, Width(g))
    ensures Walk(g, i, j, rs, cs, ALIVE) + Walk(g, i, j, rs, cs, CANCER) <= NUM_MAX_NEIGHBORS
  {
    Walk3(g, i, j, rs, cs, ALIVE);
    Walk3(g, i, j, rs, cs, CANCER);
    forall k | 0 <= k < 3
      ensures WalkRow(g, i, j, rs[k], cs, ALIVE) + WalkRow(g, i, j, rs[k], cs, CANCER)
           <= if k == 1 then 2 else 3
    {
      WalkRow3(g, i, j, rs[k], cs, ALIVE);
      WalkRow3(g, i, j, rs[k], cs, CANCER);
    }
  }
}
