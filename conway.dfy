/** conway.py: the original Game of Life, with the B3/S23 rule written inline
    and its own `keep_running` flag in place of the automaton states. */
module Conway {
  import opened Wrappers
  import opened Cells
  import opened Loader
  import opened LifeRules

  /** Birth on three neighbours, survival on two or three. */
  const B3S23 := Rules([3], [2, 3])

  /** The inline rule of `apply_rules`: an ALIVE cell with fewer than two or
      more than three neighbours dies (-1), a DEAD cell with exactly three is
      born (+1), every other cell stays as it is. */
  function ConwayStep(cell: char, n: int): (t: Transition)
    ensures t.next == ALIVE <==> (cell == ALIVE && 2 <= n <= 3) || (cell == DEAD && n == 3)
    ensures t.next == DEAD <==> (cell == ALIVE && (n < 2 || n > 3)) || (cell == DEAD && n != 3)
    ensures t.next != cell ==> cell == DEAD || cell == ALIVE
    ensures t.delta == Is(t.next, ALIVE) - Is(cell, ALIVE)
  {
    if cell == ALIVE && (n < 2 || n > 3) then Transition(DEAD, -1)
    else if cell == DEAD && n == 3 then Transition(ALIVE, 1)
    else Transition(cell, 0)
  }

  /** The inline rule is the standard life-like rule with `newborn = [3]` and
      `keepalive = [2, 3]`. */
  lemma ConwayIsB3S23(cell: char, n: int)
    ensures ConwayStep(cell, n) == StandardStep(B3S23, cell, n)
  {
    assert n in B3S23.born <==> n == 3;
    assert n in B3S23.survive <==> n == 2 || n == 3;
  }

  class Game {
    var numRows: int
    var numCols: int
    var grid: Grid
    var generation: int
    var population: int
    var keepRunning: bool

    /** The grid has the declared shape and holds only DEAD and ALIVE cells. */
    predicate Valid()
      reads this
    {
      Shaped(grid, numRows, numCols) && TwoState(grid)
    }

    /** `__init__`: `keep_running` starts true. */
    constructor ()
      ensures Valid() && keepRunning && grid == []
    {
      numRows, numCols, grid := 0, 0, [];
      generation, population := 1, 0;
      keepRunning := true;
    }

    /** `reset`: the two header numbers first (an error there changes nothing
        else), then an all-DEAD grid, generation 1, population 0, and one ALIVE
        cell per ALIVE character. `keep_running` is left as it was. */
    method Reset(lines: seq<string>) returns (r: Outcome)
      modifies this
      ensures keepRunning == old(keepRunning)
      ensures r.Pass? <==> Header(lines).Ok? && CellsPresent(lines[2..], Header(lines).value.0, Header(lines).value.1)
      ensures Header(lines).Err? ==>
                r == Fail(Header(lines).error) &&
                grid == old(grid) && generation == old(generation) && population == old(population)
      ensures Header(lines).Ok? ==> generation == 1 && (numRows, numCols) == Header(lines).value
      ensures r.Fail? && Header(lines).Ok? ==> r.error == IndexError
      ensures r.Fail? ==> grid == old(grid)
      ensures r.Pass? ==> grid == LoadedGrid(lines[2..], numRows, numCols, false)
      ensures r.Pass? ==> Valid() && population == AliveCount(grid)
    {
      var header := Header(lines);
      if header.Err? {
        return Fail(header.error);
      }
      numRows, numCols := header.value.0, header.value.1;
      generation, population := 1, 0;
      var loaded := LoadCells(lines[2..], numRows, numCols, false);
      if loaded.Err? {
        return Fail(loaded.error);
      }
      grid, population := loaded.value.0, loaded.value.1;
      r := Pass;
    }

    /** The rule chain for one cell of `apply_rules`, with the population moved. */
    method StepCell(cell: char, n: int) returns (next: char)
      modifies this`population
      ensures next == ConwayStep(cell, n).next
      ensures population == old(population) + ConwayStep(cell, n).delta
    {
      next := cell;
      if cell == ALIVE && (n < 2 || n > 3) {
        next := DEAD;
        population := population - 1;
      } else if cell == DEAD && n == 3 {
        next := ALIVE;
        population := population + 1;
      }
    }

    /** The column loop of `apply_rules` over row `i`. */
    method StepRow(i: int, next: Grid) returns (after: Grid)
      requires Valid() && 0 <= i < |grid| && Shaped(next, numRows, numCols)
      modifies this`population
      ensures after == next[i := NextRow(grid, B3S23, i)]
      ensures population - old(population) == RowCount(NextRow(grid, B3S23, i), ALIVE) - RowCount(grid[i], ALIVE)
    {
      var C := Dim(numCols);
      ShapedIsRect(grid, numRows, numCols);
      ghost var want := NextRow(grid, B3S23, i);
      after := next;
      for j := 0 to C
        invariant Shaped(after, numRows, numCols) && after == next[i := after[i]]
        invariant forall b :: 0 <= b < j ==> after[i][b] == want[b]
        invariant forall b :: j <= b < C ==> after[i][b] == next[i][b]
        invariant population - old(population) == RowCount(want[..j], ALIVE) - RowCount(grid[i][..j], ALIVE)
      {
        var cell := grid[i][j];
        var n := CountAlive(grid, i, j);
        ConwayIsB3S23(cell, n);
        var nextCell := StepCell(cell, n);
        RowCountSnoc(want, j, ALIVE);
        RowCountSnoc(grid[i], j, ALIVE);
        after := after[i := after[i][j := nextCell]];
      }
      assert after[i] == want;
      assert want[..C] == want && grid[i][..C] == grid[i];
    }

    /** The row loop of `apply_rules`, filling `grid_next_stage`. */
    method NextCells() returns (next: Grid)
      requires Valid()
      modifies this`population
      ensures next == NextGrid(grid, B3S23)
      ensures population - old(population) == AliveCount(next) - AliveCount(grid)
    {
      var R := Dim(numRows);
      ghost var g := grid;
      ShapedIsRect(g, numRows, numCols);
      next := CreateGrid(numRows, numCols);
      CreateGridEmpty(numRows, numCols);
      for i := 0 to R
        invariant grid == g && Shaped(next, numRows, numCols)
        invariant forall a :: 0 <= a < i ==> next[a] == NextRow(g, B3S23, a)
        invariant forall a :: i <= a < R ==> next[a] == DeadRow(numCols)
        invariant population - old(population) == AliveCount(next) - CountIn(g[..i], ALIVE)
      {
        StoreRow(next, i, NextRow(g, B3S23, i), numRows, numCols);
        CountInSnoc(g, i, ALIVE);
        next := StepRow(i, next);
      }
      assert g[..R] == g;
      NextGridOfRows(g, B3S23, next);
    }

    /** `apply_rules`: the B3/S23 generation from the old grid only;
        `keep_running` drops to false when it equals the old grid. */
    method ApplyRules()
      requires Valid()
      modifies this`grid, this`keepRunning, this`population
      ensures Valid()
      ensures grid == NextGrid(old(grid), B3S23)
      ensures keepRunning == (old(keepRunning) && grid != old(grid))
      ensures population - old(population) == AliveCount(grid) - AliveCount(old(grid))
      ensures old(population) == AliveCount(old(grid)) ==> population == AliveCount(grid)
    {
      ShapedIsRect(grid, numRows, numCols);
      NextGridTwoState(grid, B3S23);
      var next := NextCells();
      if next == grid {
        keepRunning := false;
      }
      grid := next;
    }

    /** One pass of `run`'s loop: `apply_rules`, then the next generation
        number. `trace` lists the grids of the `n` generations so far. */
    method Advance(ghost trace: seq<Grid>, ghost n: nat) returns (ghost next: seq<Grid>)
      requires Valid() && keepRunning
      requires Ran(trace, B3S23, n, false) && trace[n] == grid
      modifies this`grid, this`keepRunning, this`population, this`generation
      ensures Valid() && generation == old(generation) + 1
      ensures next == trace + [grid] && Ran(next, B3S23, n + 1, !keepRunning)
      ensures old(population) == AliveCount(old(grid)) ==> population == AliveCount(grid)
    {
      ApplyRules();
      RanStep(trace, B3S23, n, grid, !keepRunning);
      next := trace + [grid];
      generation := generation + 1;
    }

    /** `run`: `apply_rules` and one more generation per pass while
        `keep_running` holds; `fuel` bounds the passes modelled. */
    method Run(fuel: nat) returns (steps: nat)
      requires Valid()
      modifies this
      ensures Valid() && numRows == old(numRows) && numCols == old(numCols)
      ensures steps <= fuel && generation == old(generation) + steps
      ensures !old(keepRunning) ==> steps == 0 && grid == old(grid)
      ensures grid == Iterate(old(grid), B3S23, steps)
      ensures old(keepRunning) && !keepRunning ==>
                steps > 0 && Moving(old(grid), B3S23, steps - 1) && grid == Iterate(old(grid), B3S23, steps - 1)
      ensures keepRunning ==> steps == fuel && Moving(old(grid), B3S23, steps)
      ensures old(population) == AliveCount(old(grid)) ==> population == AliveCount(grid)
    {
      ghost var counted := population == AliveCount(grid);
      if !keepRunning {
        assert Iterate(grid, B3S23, 0) == grid;
        return 0;
      }
      ghost var trace := [grid];
      steps := 0;
      while keepRunning && steps < fuel
        invariant Valid() && numRows == old(numRows) && numCols == old(numCols)
        invariant steps <= fuel && generation == old(generation) + steps
        invariant Ran(trace, B3S23, steps, !keepRunning) && trace[0] == old(grid) && trace[steps] == grid
        invariant counted ==> population == AliveCount(grid)
      {
        trace := Advance(trace, steps);
        steps := steps + 1;
      }
      RanOutcome(trace, B3S23, steps, !keepRunning);
    }
  }
}
