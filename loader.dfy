/** The grid loader shared by the three `reset` methods, over the list of
    lines `readlines()` returns (each line still ends with its newline). */
module Loader {
  import opened Wrappers
  import opened Cells
  import opened Text

  /** `int(lines[0][:-1])` and `int(lines[1][:-1])`: the declared rows and columns. */
  function Header(lines: seq<string>): (r: Result<(int, int)>)
    ensures r.Ok? <==> |lines| >= 2 && ParseInt(DropLast(lines[0])).Ok? && ParseInt(DropLast(lines[1])).Ok?
    ensures r.Ok? ==> r.value == (ParseInt(DropLast(lines[0])).value, ParseInt(DropLast(lines[1])).value)
    ensures r.Err? && |lines| < 2 && (|lines| == 0 || ParseInt(DropLast(lines[0])).Ok?) ==> r.error == IndexError
    ensures |lines| >= 1 && ParseInt(DropLast(lines[0])).Err? ==> r == Err(ValueError)
    ensures |lines| >= 2 && ParseInt(DropLast(lines[0])).Ok? && ParseInt(DropLast(lines[1])).Err? ==> r == Err(ValueError)
  {
    if |lines| == 0 then Err(IndexError)
    else
      var rows :- ParseInt(DropLast(lines[0]));
      if |lines| == 1 then Err(IndexError)
      else
        var cols :- ParseInt(DropLast(lines[1]));
        Ok((rows, cols))
  }

  /** Every cell the double loop reads exists; `body` is `lines[2:]`, so
      `body[i]` is the source's `lines[i + 2]`. The loop reads a line only from
      inside the column loop, so with no columns no line is read. */
  predicate CellsPresent(body: seq<string>, rows: int, cols: int)
  {
    Dim(cols) == 0 || (|body| >= Dim(rows) && forall i :: 0 <= i < Dim(rows) ==> |body[i]| >= Dim(cols))
  }

  /** The cell stored for input character `c`: every non-DEAD character verbatim
      (lifelike.py), or ALIVE for ALIVE and DEAD for anything else
      (cellular_automatons.py, conway.py). */
  function LoadedCell(c: char, verbatim: bool): (r: char)
    ensures verbatim ==> r == c
    ensures !verbatim ==> (r == ALIVE <==> c == ALIVE) && (r == ALIVE || r == DEAD)
  {
    if verbatim then c else if c == ALIVE then ALIVE else DEAD
  }

  /** The grid the double loop builds from the cell lines. */
  function LoadedGrid(body: seq<string>, rows: int, cols: int, verbatim: bool): (g: Grid)
    requires CellsPresent(body, rows, cols)
    ensures Shaped(g, rows, cols)
  {
    seq(Dim(rows), i requires 0 <= i < Dim(rows) =>
      seq(Dim(cols), j requires 0 <= j < Dim(cols) => LoadedCell(body[i][j], verbatim)))
  }

  /** The nested loop of `reset`: start from an all-DEAD grid, store each
      loaded cell, and add one to the population for each ALIVE character.
      An `IndexError` on a missing line or character ends it. */
  method LoadCells(body: seq<string>, rows: int, cols: int, verbatim: bool) returns (r: Result<(Grid, int)>)
    ensures r.Ok? <==> CellsPresent(body, rows, cols)
    ensures r.Err? ==> r.error == IndexError
    ensures r.Ok? ==> r.value.0 == LoadedGrid(body, rows, cols, verbatim)
    ensures r.Ok? ==> r.value.1 == AliveCount(r.value.0)
  {
    var R, C := Dim(rows), Dim(cols);
    var grid := CreateGrid(rows, cols);
    var population := 0;
    CreateGridEmpty(rows, cols);
    for i := 0 to R
      invariant Shaped(grid, rows, cols)
      invariant population == AliveCount(grid)
      invariant C > 0 ==> |body| >= i && forall a :: 0 <= a < i ==> |body[a]| >= C
      invariant forall a, b :: 0 <= a < i && 0 <= b < C ==> grid[a][b] == LoadedCell(body[a][b], verbatim)
      invariant forall a, b :: i <= a < R && 0 <= b < C ==> grid[a][b] == DEAD
    {
      for j := 0 to C
        invariant Shaped(grid, rows, cols)
        invariant population == AliveCount(grid)
        invariant j > 0 ==> |body| > i && |body[i]| >= j
        invariant C > 0 ==> |body| >= i && forall a :: 0 <= a < i ==> |body[a]| >= C
        invariant forall a, b :: 0 <= a < i && 0 <= b < C ==> grid[a][b] == LoadedCell(body[a][b], verbatim)
        invariant forall b :: 0 <= b < j ==> grid[i][b] == LoadedCell(body[i][b], verbatim)
        invariant forall b :: j <= b < C ==> grid[i][b] == DEAD
        invariant forall a, b :: i < a < R && 0 <= b < C ==> grid[a][b] == DEAD
      {
        if i >= |body| || j >= |body[i]| {
          return Err(IndexError);
        }
        var stored := LoadedCell(body[i][j], verbatim);
        if stored != DEAD {
          CountInUpdate(grid, i, j, stored, ALIVE);
          grid := grid[i := grid[i][j := stored]];
          if stored == ALIVE {
            population := population + 1;
          }
        }
      }
    }
    ghost var want := LoadedGrid(body, rows, cols, verbatim);
    assert forall a :: 0 <= a < R ==> grid[a] == want[a];
    r := Ok((grid, population));
  }

  /** Only ALIVE characters load as ALIVE, under either loading policy, so the
      population `reset` counts is the ALIVE count of the input cells. */
  lemma {:induction false} LoadedAlive(body: seq<string>, rows: int, cols: int, verbatim: bool, i: int, j: int)
    requires CellsPresent(body, rows, cols) && 0 <= i < Dim(rows) && 0 <= j < Dim(cols)
    ensures LoadedGrid(body, rows, cols, verbatim)[i][j] == ALIVE <==> body[i][j] == ALIVE
    ensures !verbatim ==> LoadedGrid(body, rows, cols, verbatim)[i][j] in {ALIVE, DEAD}
  {
  }
}
