/** cellular_automatons.py: the stand-alone life-like automaton with its rule
    lists given directly, its own run loop, and a snapshot writer. */
module CellularAutomatons {
  import opened Wrappers
  import opened Cells
  import opened Text
  import opened Loader
  import opened RuleCodec
  import opened LifeRules
  import opened Automata

  class LifeLike {
    /** `rules["newborn"]` and `rules["keepalive"]`, as `born` and `survive`. */
    var rules: Rules
    var numRows: int
    var numCols: int
    var grid: Grid
    var state: RunState
    var generation: int
    var population: int

    /** The grid has the declared shape and, as this loader leaves it, only
        DEAD and ALIVE cells. */
    predicate Valid()
      reads this
    {
      Shaped(grid, numRows, numCols) && TwoState(grid)
    }

    constructor (newborn: seq<int>, keepalive: seq<int>)
      ensures rules == Rules(newborn, keepalive) && Valid() && grid == []
    {
      rules := Rules(newborn, keepalive);
      numRows, numCols, grid := 0, 0, [];
      state, generation, population := READY, 1, 0;
    }

    /** `automaton_name`: `b<newborn>s<keepalive>`. */
    function AutomatonName(): (name: string)
      reads this
      ensures |name| == 2 + |WriteRule(rules.born)| + |WriteRule(rules.survive)| && name[0] == 'b'
    {
      RuleCodec.AutomatonName(rules.born, rules.survive)
    }

    /** For nonempty single-digit rule lists the two digit runs of the name
        read back as the two lists. */
    lemma AutomatonNameRuns()
      requires |rules.born| > 0 && Digits(rules.born) && |rules.survive| > 0 && Digits(rules.survive)
      ensures |DigitRuns(AutomatonName())| == 2
      ensures ReadRule(DigitRuns(AutomatonName())[0]) == Ok(rules.born)
      ensures ReadRule(DigitRuns(AutomatonName())[1]) == Ok(rules.survive)
    {
      WriteRuleDigits(rules.born);
      WriteRuleDigits(rules.survive);
      DigitRunsOfName('b', WriteRule(rules.born), 's', WriteRule(rules.survive));
      ReadWriteRule(rules.born);
      ReadWriteRule(rules.survive);
    }

    /** `reset`: READY, generation 1, population 0, then the grid from the
        lines with only ALIVE characters kept. */
    method Reset(lines: seq<string>) returns (r: Outcome)
      modifies this
      ensures rules == old(rules) && state == READY && generation == 1
      ensures r.Pass? <==> Header(lines).Ok? && CellsPresent(lines[2..], Header(lines).value.0, Header(lines).value.1)
      ensures Header(lines).Err? ==> r == Fail(Header(lines).error) && population == 0
      ensures r.Fail? ==> grid == old(grid)
      ensures r.Fail? && Header(lines).Ok? ==> r.error == IndexError
      ensures r.Pass? ==> (numRows, numCols) == Header(lines).value
      ensures r.Pass? ==> grid == LoadedGrid(lines[2..], numRows, numCols, false)
      ensures r.Pass? ==> Valid() && population == AliveCount(grid)
    {
      state, generation, population := READY, 1, 0;
      var header := Header(lines);
      if header.Err? {
        return Fail(header.error);
      }
      numRows, numCols := header.value.0, header.value.1;
      var loaded := LoadCells(lines[2..], numRows, numCols, false);
      if loaded.Err? {
        return Fail(loaded.error);
      }
      grid, population := loaded.value.0, loaded.value.1;
      r := Pass;
    }

    /** `write_grid`'s text: the generation, the population, then the rows. */
    function WriteGrid(): string
      reads this
    {
      Snapshot(generation, population, grid)
    }

    /** The text `write_grid` writes reads back line by line into the two
        numbers and the grid. */
    lemma WriteGridLines()
      requires Valid() && |grid| > 0
      ensures var lines := Split(WriteGrid(), '\n');
              |lines| == |grid| + 2 && lines[2..] == grid && |lines[0]| >= 5 && |lines[1]| >= 5 &&
              lines[0][..5] == "gen: " && ParseInt(lines[0][5..]) == Ok(generation) &&
              lines[1][..5] == "pop: " && ParseInt(lines[1][5..]) == Ok(population)
    {
      SnapshotLines(generation, population, grid);
      IntRoundTrip(generation);
      IntRoundTrip(population);
      var lines := Split(WriteGrid(), '\n');
      assert lines[0] == "gen: " + IntToString(generation) && lines[0][5..] == IntToString(generation);
      assert lines[1] == "pop: " + IntToString(population) && lines[1][5..] == IntToString(population);
    }

    /** `apply_rules`: the standard transition with `newborn` and `keepalive`. */
    method ApplyRules(cell: char, n: int) returns (next: char)
      modifies this`population
      ensures next == StandardStep(rules, cell, n).next
      ensures population == old(population) + StandardStep(rules, cell, n).delta
    {
      next := cell;
      if cell == DEAD && n in rules.born {
        next := ALIVE;
        population := population + 1;
      } else if cell == ALIVE && n !in rules.survive {
        next := DEAD;
        population := population - 1;
      }
    }

    /** The column loop of `process` over row `i`. */
    method ProcessRow(i: int, next: Grid) returns (after: Grid)
      requires Valid() && 0 <= i < |grid| && Shaped(next, numRows, numCols)
      modifies this`population
      ensures after == next[i := NextRow(grid, rules, i)]
      ensures population - old(population) == RowCount(NextRow(grid, rules, i), ALIVE) - RowCount(grid[i], ALIVE)
    {
      var C := Dim(numCols);
      ShapedIsRect(grid, numRows, numCols);
      ghost var want := NextRow(grid, rules, i);
      after := next;
      for j := 0 to C
        invariant Shaped(after, numRows, numCols) && after == next[i := after[i]]
        invariant forall b :: 0 <= b < j ==> after[i][b] == want[b]
        invariant forall b :: j <= b < C ==> after[i][b] == next[i][b]
        invariant population - old(population) == RowCount(want[..j], ALIVE) - RowCount(grid[i][..j], ALIVE)
      {
        var cell := grid[i][j];
        var n := CountAlive(grid, i, j);
        var nextCell := ApplyRules(cell, n);
        RowCountSnoc(want, j, ALIVE);
        RowCountSnoc(grid[i], j, ALIVE);
        after := after[i := after[i][j := nextCell]];
      }
      assert after[i] == want;
      assert want[..C] == want && grid[i][..C] == grid[i];
    }

    /** The row loop of `process`. */
    method NextCells() returns (next: Grid)
      requires Valid()
      modifies this`population
      ensures next == NextGrid(grid, rules)
      ensures population - old(population) == AliveCount(next) - AliveCount(grid)
    {
      var R := Dim(numRows);
      ghost var g := grid;
      ShapedIsRect(g, numRows, numCols);
      next := CreateGrid(numRows, numCols);
      CreateGridEmpty(numRows, numCols);
      for i := 0 to R
        invariant grid == g && Shaped(next, numRows, numCols)
        invariant forall a :: 0 <= a < i ==> next[a] == NextRow(g, rules, a)
        invariant forall a :: i <= a < R ==> next[a] == DeadRow(numCols)
        invariant population - old(population) == AliveCount(next) - CountIn(g[..i], ALIVE)
      {
        StoreRow(next, i, NextRow(g, rules, i), numRows, numCols);
        CountInSnoc(g, i, ALIVE);
        next := ProcessRow(i, next);
      }
      assert g[..R] == g;
      NextGridOfRows(g, rules, next);
    }

    /** `process`: the next generation from the old grid only, FINISHED when
        it equals the old grid. */
    method Process()
      requires Valid()
      modifies this`grid, this`state, this`population
      ensures Valid()
      ensures grid == NextGrid(old(grid), rules)
      ensures state == if grid == old(grid) then FINISHED else old(state)
      ensures population - old(population) == AliveCount(grid) - AliveCount(old(grid))
      ensures old(population) == AliveCount(old(grid)) ==> population == AliveCount(grid)
    {
      ShapedIsRect(grid, numRows, numCols);
      NextGridTwoState(grid, rules);
      var next := NextCells();
      if next == grid {
        state := FINISHED;
      }
      grid := next;
    }

    /** One pass of `run`'s loop: `process`, then the next generation number.
        `trace` lists the grids of the `n` generations so far. */
    method Advance(ghost trace: seq<Grid>, ghost n: nat) returns (ghost next: seq<Grid>)
      requires Valid() && state == RUNNING
      requires Ran(trace, rules, n, false) && trace[n] == grid
      modifies this`grid, this`state, this`population, this`generation
      ensures Valid() && generation == old(generation) + 1
      ensures state == RUNNING || state == FINISHED
      ensures next == trace + [grid] && Ran(next, rules, n + 1, state == FINISHED)
      ensures old(population) == AliveCount(old(grid)) ==> population == AliveCount(grid)
    {
      ghost var g0 := grid;
      Process();
      assert state == FINISHED <==> grid == g0;
      RanStep(trace, rules, n, grid, state == FINISHED);
      next := trace + [grid];
      generation := generation + 1;
    }

    /** `run`: RUNNING, then `process` and one more generation per pass until
        a pass finishes; `fuel` bounds the passes modelled. */
    method Run(fuel: nat) returns (steps: nat)
      requires Valid()
      modifies this
      ensures Valid() && rules == old(rules) && numRows == old(numRows) && numCols == old(numCols)
      ensures steps <= fuel && generation == old(generation) + steps
      ensures grid == Iterate(old(grid), rules, steps)
      ensures state == FINISHED ==>
                steps > 0 && Moving(old(grid), rules, steps - 1) && grid == Iterate(old(grid), rules, steps - 1)
      ensures state != FINISHED ==> state == RUNNING && steps == fuel && Moving(old(grid), rules, steps)
      ensures old(population) == AliveCount(old(grid)) ==> population == AliveCount(grid)
    {
      ghost var counted := population == AliveCount(grid);
      ghost var trace := [grid];
      state := RUNNING;
      steps := 0;
      while state == RUNNING && steps < fuel
        invariant Valid() && rules == old(rules) && numRows == old(numRows) && numCols == old(numCols)
        invariant steps <= fuel && generation == old(generation) + steps
        invariant state == RUNNING || state == FINISHED
        invariant Ran(trace, rules, steps, state == FINISHED) && trace[0] == old(grid) && trace[steps] == grid
        invariant counted ==> population == AliveCount(grid)
      {
        trace := Advance(trace, steps);
        steps := steps + 1;
      }
      RanOutcome(trace, rules, steps, state == FINISHED);
    }
  }
}
