/** lifelike.py: a life-like automaton whose rules come from its name, and the
    cancer variant with a third cell state and random draws. The fields the
    original inherits from CellularAutomaton and Automaton (state, iteration,
    population) are fields of these classes. */
module Lifelike {
  import opened Wrappers
  import opened Cells
  import opened Text
  import opened Loader
  import opened RuleCodec
  import opened LifeRules
  import opened Automata

  /** `__init__`'s rule parsing: the first two runs of digits of the name are
      the birth and survival digit lists; fewer than two runs is an `IndexError`. */
  function ParseRules(name: string): (r: Result<Rules>)
    ensures r.Ok? <==> |DigitRuns(name)| >= 2
    ensures r.Err? ==> r.error == IndexError
    ensures r.Ok? ==> |r.value.born| == |DigitRuns(name)[0]| && |r.value.survive| == |DigitRuns(name)[1]|
    ensures r.Ok? ==> forall k :: 0 <= k < |r.value.born| ==> r.value.born[k] == DigitValue(DigitRuns(name)[0][k])
    ensures r.Ok? ==> forall k :: 0 <= k < |r.value.survive| ==> r.value.survive[k] == DigitValue(DigitRuns(name)[1][k])
  {
    var runs := DigitRuns(name);
    if |runs| < 2 then Err(IndexError)
    else Ok(Rules(ReadRule(runs[0]).value, ReadRule(runs[1]).value))
  }

  /** For a name matching `^(b|B)[0-9]+(s|S)[0-9]+$`, `born` holds the digits
      after b/B and `survive` the digits after s/S, one value per character. */
  lemma ParseMatchingName(p: char, x: string, q: char, y: string)
    requires p in {'b', 'B'} && q in {'s', 'S'}
    requires |x| > 0 && AllDigits(x) && |y| > 0 && AllDigits(y)
    ensures ParseRules([p] + x + [q] + y).Ok?
    ensures var rules := ParseRules([p] + x + [q] + y).value;
            |rules.born| == |x| && (forall k :: 0 <= k < |x| ==> rules.born[k] == DigitValue(x[k])) &&
            |rules.survive| == |y| && (forall k :: 0 <= k < |y| ==> rules.survive[k] == DigitValue(y[k]))
  {
    DigitRunsOfName(p, x, q, y);
  }

  /** The name cellular_automatons.py writes for a rule parses back to that rule. */
  lemma ParseWrittenName(newborn: seq<int>, keepalive: seq<int>)
    requires |newborn| > 0 && Digits(newborn) && |keepalive| > 0 && Digits(keepalive)
    ensures ParseRules(AutomatonName(newborn, keepalive)) == Ok(Rules(newborn, keepalive))
  {
    var x, y := WriteRule(newborn), WriteRule(keepalive);
    WriteRuleDigits(newborn);
    WriteRuleDigits(keepalive);
    assert AutomatonName(newborn, keepalive) == ['b'] + x + ['s'] + y;
    DigitRunsOfName('b', x, 's', y);
    ReadWriteRule(newborn);
    ReadWriteRule(keepalive);
  }

  /** The cancer constructor: the rules as above, then `growth_rate` must lie
      in [1, 8]. */
  function ParseCancer(name: string, growthRate: int): (r: Result<(Rules, int)>)
    ensures r.Ok? <==> ParseRules(name).Ok? && 1 <= growthRate <= NUM_MAX_NEIGHBORS
    ensures r.Err? && ParseRules(name).Ok? ==> r.error == GrowthRateOutOfRange
    ensures r.Ok? ==> r.value == (ParseRules(name).value, growthRate)
  {
    var rules :- ParseRules(name);
    if growthRate < 1 || growthRate > 8 then Err(GrowthRateOutOfRange) else Ok((rules, growthRate))
  }

  class LifeLike {
    var rules: Rules
    var numRows: int
    var numCols: int
    var grid: Grid
    var population: int
    var state: RunState
    var iteration: int

    predicate Valid()
      reads this
    {
      Shaped(grid, numRows, numCols)
    }

    /** The population matches a full scan of the grid. */
    ghost predicate Consistent()
      reads this
    {
      Valid() && population == AliveCount(grid)
    }

    constructor (rules: Rules)
      ensures this.rules == rules && Valid() && grid == []
    {
      this.rules := rules;
      numRows, numCols, grid := 0, 0, [];
      population, state, iteration := 0, READY, 1;
    }

    /** `reset`: READY, iteration 1, population 0, then the grid from the lines,
        every non-DEAD character stored as it is and each ALIVE one counted. */
    method Reset(lines: seq<string>) returns (r: Outcome)
      modifies this
      ensures rules == old(rules) && state == READY && iteration == 1
      ensures r.Pass? <==> Header(lines).Ok? && CellsPresent(lines[2..], Header(lines).value.0, Header(lines).value.1)
      ensures Header(lines).Err? ==> r == Fail(Header(lines).error) && population == 0
      ensures r.Fail? ==> grid == old(grid)
      ensures r.Fail? && Header(lines).Ok? ==> r.error == IndexError
      ensures r.Pass? ==> (numRows, numCols) == Header(lines).value
      ensures r.Pass? ==> grid == LoadedGrid(lines[2..], numRows, numCols, true)
      ensures r.Pass? ==> Consistent()
    {
      state, iteration, population := READY, 1, 0;
      var header := Header(lines);
      if header.Err? {
        return Fail(header.error);
      }
      numRows, numCols := header.value.0, header.value.1;
      var loaded := LoadCells(lines[2..], numRows, numCols, true);
      if loaded.Err? {
        return Fail(loaded.error);
      }
      grid, population := loaded.value.0, loaded.value.1;
      r := Pass;
    }

    /** `apply_rules`: the standard transition, with the population moved by
        its delta. */
    method ApplyRules(cell: char, n: int) returns (next: char)
      modifies this`population
      ensures next == StandardStep(rules, cell, n).next
      ensures population == old(population) + StandardStep(rules, cell, n).delta
    {
      next := cell;
      if cell == DEAD && n in rules.born {
        next := ALIVE;
        population := population + 1;
      } else if cell == ALIVE && n !in rules.survive {
        next := DEAD;
        population := population - 1;
      }
    }

    /** One pass of `process`'s column loop over row `i`: each cell from the
        old grid's cell and neighbour count, stored into the fresh grid. */
    method ProcessRow(i: int, next: Grid) returns (after: Grid)
      requires Valid() && 0 <= i < |grid| && Shaped(next, numRows, numCols)
      modifies this`population
      ensures after == next[i := NextRow(grid, rules, i)]
      ensures population - old(population) == RowCount(NextRow(grid, rules, i), ALIVE) - RowCount(grid[i], ALIVE)
    {
      var C := Dim(numCols);
      ShapedIsRect(grid, numRows, numCols);
      ghost var want := NextRow(grid, rules, i);
      after := next;
      for j := 0 to C
        invariant Shaped(after, numRows, numCols) && after == next[i := after[i]]
        invariant forall b :: 0 <= b < j ==> after[i][b] == want[b]
        invariant forall b :: j <= b < C ==> after[i][b] == next[i][b]
        invariant population - old(population) == RowCount(want[..j], ALIVE) - RowCount(grid[i][..j], ALIVE)
      {
        var cell := grid[i][j];
        var n := CountAlive(grid, i, j);
        var nextCell := ApplyRules(cell, n);
        RowCountSnoc(want, j, ALIVE);
        RowCountSnoc(grid[i], j, ALIVE);
        after := after[i := after[i][j := nextCell]];
      }
      assert after[i] == want;
      assert want[..C] == want && grid[i][..C] == grid[i];
    }

    /** The row loop of `process`: the fresh grid, and the population moved by
        every row's changes. */
    method NextCells() returns (next: Grid)
      requires Valid()
      modifies this`population
      ensures next == NextGrid(grid, rules)
      ensures population - old(population) == AliveCount(next) - AliveCount(grid)
    {
      var R := Dim(numRows);
      ghost var g := grid;
      ShapedIsRect(g, numRows, numCols);
      next := CreateGrid(numRows, numCols);
      CreateGridEmpty(numRows, numCols);
      for i := 0 to R
        invariant grid == g && Shaped(next, numRows, numCols)
        invariant forall a :: 0 <= a < i ==> next[a] == NextRow(g, rules, a)
        invariant forall a :: i <= a < R ==> next[a] == DeadRow(numCols)
        invariant population - old(population) == AliveCount(next) - CountIn(g[..i], ALIVE)
      {
        StoreRow(next, i, NextRow(g, rules, i), numRows, numCols);
        CountInSnoc(g, i, ALIVE);
        next := ProcessRow(i, next);
      }
      assert g[..R] == g;
      NextGridOfRows(g, rules, next);
    }

    /** `process`: a fresh grid filled cell by cell from the old grid only,
        FINISHED when it equals the old grid, then swapped in. */
    method Process()
      requires Valid()
      modifies this`grid, this`state, this`population
      ensures Valid()
      ensures grid == NextGrid(old(grid), rules)
      ensures state == if grid == old(grid) then FINISHED else old(state)
      ensures population - old(population) == AliveCount(grid) - AliveCount(old(grid))
      ensures old(population) == AliveCount(old(grid)) ==> population == AliveCount(grid)
    {
      ShapedIsRect(grid, numRows, numCols);
      var next := NextCells();
      if next == grid {
        state := FINISHED;
      }
      grid := next;
    }

    /** `write_grid`: the rows joined with newlines. */
    function Screen(): string
      reads this
    {
      Render(grid)
    }

    /** When no cell holds a newline the screen splits back into the grid,
        one line of `num_cols` characters per row. */
    lemma ScreenLines()
      requires Valid() && |grid| > 0 && NoNewline(grid)
      ensures Split(Screen(), '\n') == grid
      ensures forall i :: 0 <= i < |grid| ==> |Split(Screen(), '\n')[i]| == Dim(numCols)
    {
      RenderLines(grid, numRows, numCols);
    }

    /** One pass of the inherited `run`'s loop: `process`, then the next
        iteration number. `trace` lists the grids of the `n` iterations so far. */
    method Advance(ghost trace: seq<Grid>, ghost n: nat) returns (ghost next: seq<Grid>)
      requires Valid() && state == RUNNING
      requires Ran(trace, rules, n, false) && trace[n] == grid
      modifies this`grid, this`state, this`population, this`iteration
      ensures Valid() && iteration == old(iteration) + 1
      ensures state == RUNNING || state == FINISHED
      ensures next == trace + [grid] && Ran(next, rules, n + 1, state == FINISHED)
      ensures old(population) == AliveCount(old(grid)) ==> population == AliveCount(grid)
    {
      ghost var g0 := grid;
      Process();
      assert state == FINISHED <==> grid == g0;
      RanStep(trace, rules, n, grid, state == FINISHED);
      next := trace + [grid];
      iteration := iteration + 1;
    }

    /** The inherited `run`: RUNNING, then `process` and one more iteration
        per pass until a pass finishes; `fuel` bounds the passes modelled. */
    method Run(fuel: nat) returns (steps: nat)
      requires Valid()
      modifies this
      ensures Valid() && rules == old(rules) && numRows == old(numRows) && numCols == old(numCols)
      ensures steps <= fuel && iteration == old(iteration) + steps
      ensures grid == Iterate(old(grid), rules, steps)
      ensures state == FINISHED ==>
                steps > 0 && Moving(old(grid), rules, steps - 1) && grid == Iterate(old(grid), rules, steps - 1)
      ensures state != FINISHED ==> state == RUNNING && steps == fuel && Moving(old(grid), rules, steps)
      ensures old(population) == AliveCount(old(grid)) ==> population == AliveCount(grid)
    {
      ghost var counted := population == AliveCount(grid);
      ghost var trace := [grid];
      state := RUNNING;
      steps := 0;
      while state == RUNNING && steps < fuel
        invariant Valid() && rules == old(rules) && numRows == old(numRows) && numCols == old(numCols)
        invariant steps <= fuel && iteration == old(iteration) + steps
        invariant state == RUNNING || state == FINISHED
        invariant Ran(trace, rules, steps, state == FINISHED) && trace[0] == old(grid) && trace[steps] == grid
        invariant counted ==> population == AliveCount(grid)
      {
        trace := Advance(trace, steps);
        steps := steps + 1;
      }
      RanOutcome(trace, rules, steps, state == FINISHED);
    }
  }

  class LifeLikeCancer {
    var rules: Rules
    var growthRate: int
    var numRows: int
    var numCols: int
    var grid: Grid
    var population: int
    var state: RunState
    var iteration: int

    predicate Valid()
      reads this
    {
      Shaped(grid, numRows, numCols) && 1 <= growthRate <= NUM_MAX_NEIGHBORS
    }

    /** The population matches the ALIVE cells of a full scan; CANCER cells are
        shown on the grid but not counted. */
    ghost predicate Consistent()
      reads this
    {
      Valid() && population == AliveCount(grid)
    }

    /** Built from what `ParseCancer` accepted. */
    constructor (config: (Rules, int))
      requires 1 <= config.1 <= NUM_MAX_NEIGHBORS
      ensures rules == config.0 && growthRate == config.1 && Valid() && grid == []
    {
      rules, growthRate := config.0, config.1;
      numRows, numCols, grid := 0, 0, [];
      population, state, iteration := 0, READY, 1;
    }

    /** `reset`, inherited from LifeLike. */
    method Reset(lines: seq<string>) returns (r: Outcome)
      requires 1 <= growthRate <= NUM_MAX_NEIGHBORS
      modifies this
      ensures rules == old(rules) && growthRate == old(growthRate) && state == READY && iteration == 1
      ensures r.Pass? <==> Header(lines).Ok? && CellsPresent(lines[2..], Header(lines).value.0, Header(lines).value.1)
      ensures Header(lines).Err? ==> r == Fail(Header(lines).error) && population == 0
      ensures r.Fail? ==> grid == old(grid)
      ensures r.Fail? && Header(lines).Ok? ==> r.error == IndexError
      ensures r.Pass? ==> (numRows, numCols) == Header(lines).value
      ensures r.Pass? ==> grid == LoadedGrid(lines[2..], numRows, numCols, true)
      ensures r.Pass? ==> Consistent()
    {
      state, iteration, population := READY, 1, 0;
      var header := Header(lines);
      if header.Err? {
        return Fail(header.error);
      }
      numRows, numCols := header.value.0, header.value.1;
      var loaded := LoadCells(lines[2..], numRows, numCols, true);
      if loaded.Err? {
        return Fail(loaded.error);
      }
      grid, population := loaded.value.0, loaded.value.1;
      r := Pass;
    }

    /** The cancer `apply_rules`, with the cell's draws as inputs. */
    method ApplyRules(cell: char, alive: int, cancer: int, d: Draw) returns (next: char)
      modifies this`population
      ensures next == CancerStep(rules, growthRate, cell, alive, cancer, d).next
      ensures population == old(population) + CancerStep(rules, growthRate, cell, alive, cancer, d).delta
    {
      next := cell;
      if cell == DEAD && cancer > 0 && alive > 0 && d.spread < Max(cancer, growthRate) {
        next := CANCER;
      } else if cell == DEAD && alive in rules.born {
        next := ALIVE;
        population := population + 1;
      } else if cell == ALIVE && d.mutate {
        next := CANCER;
        population := population - 1;
      } else if cell == ALIVE && alive !in rules.survive {
        next := DEAD;
        population := population - 1;
      } else if cell == CANCER && alive == 0 {
        next := DEAD;
      }
    }

    /** One pass of the cancer `process`'s column loop over row `i`. */
    method ProcessRow(i: int, next: Grid, draws: seq<seq<Draw>>) returns (after: Grid)
      requires Valid() && DrawsFit(grid, draws) && 0 <= i < |grid| && Shaped(next, numRows, numCols)
      modifies this`population
      ensures after == next[i := CancerNextRow(grid, rules, growthRate, draws, i)]
      ensures population - old(population)
           == RowCount(CancerNextRow(grid, rules, growthRate, draws, i), ALIVE) - RowCount(grid[i], ALIVE)
    {
      var C := Dim(numCols);
      ShapedIsRect(grid, numRows, numCols);
      ghost var want := CancerNextRow(grid, rules, growthRate, draws, i);
      after := next;
      for j := 0 to C
        invariant Shaped(after, numRows, numCols) && after == next[i := after[i]]
        invariant forall b :: 0 <= b < j ==> after[i][b] == want[b]
        invariant forall b :: j <= b < C ==> after[i][b] == next[i][b]
        invariant population - old(population) == RowCount(want[..j], ALIVE) - RowCount(grid[i][..j], ALIVE)
      {
        var cell := grid[i][j];
        var alive, cancer := CountAliveAndCancer(grid, i, j);
        var nextCell := ApplyRules(cell, alive, cancer, draws[i][j]);
        RowCountSnoc(want, j, ALIVE);
        RowCountSnoc(grid[i], j, ALIVE);
        after := after[i := after[i][j := nextCell]];
      }
      assert after[i] == want;
      assert want[..C] == want && grid[i][..C] == grid[i];
    }

    /** The row loop of the cancer `process`. */
    method NextCells(draws: seq<seq<Draw>>) returns (next: Grid)
      requires Valid() && DrawsFit(grid, draws)
      modifies this`population
      ensures next == CancerNextGrid(grid, rules, growthRate, draws)
      ensures population - old(population) == AliveCount(next) - AliveCount(grid)
    {
      var R := Dim(numRows);
      ghost var g := grid;
      ShapedIsRect(g, numRows, numCols);
      next := CreateGrid(numRows, numCols);
      CreateGridEmpty(numRows, numCols);
      for i := 0 to R
        invariant grid == g && Shaped(next, numRows, numCols)
        invariant forall a :: 0 <= a < i ==> next[a] == CancerNextRow(g, rules, growthRate, draws, a)
        invariant forall a :: i <= a < R ==> next[a] == DeadRow(numCols)
        invariant population - old(population) == AliveCount(next) - CountIn(g[..i], ALIVE)
      {
        StoreRow(next, i, CancerNextRow(g, rules, growthRate, draws, i), numRows, numCols);
        CountInSnoc(g, i, ALIVE);
        next := ProcessRow(i, next, draws);
      }
      assert g[..R] == g;
      CancerNextGridOfRows(g, rules, growthRate, draws, next);
    }

    /** The cancer `process`: as the standard one, and FINISHED also when the
        population after the step is 0. */
    method Process(draws: seq<seq<Draw>>)
      requires Valid() && DrawsFit(grid, draws)
      modifies this
      ensures Valid() && rules == old(rules) && growthRate == old(growthRate)
      ensures numRows == old(numRows) && numCols == old(numCols) && iteration == old(iteration)
      ensures grid == CancerNextGrid(old(grid), rules, growthRate, draws)
      ensures state == if grid == old(grid) || population == 0 then FINISHED else old(state)
      ensures population - old(population) == AliveCount(grid) - AliveCount(old(grid))
      ensures old(population) == AliveCount(old(grid)) ==> population == AliveCount(grid)
      ensures old(population) == AliveCount(old(grid)) && AliveCount(grid) == 0 ==> state == FINISHED
    {
      var next := NextCells(draws);
      if next == grid || population == 0 {
        state := FINISHED;
      }
      grid := next;
    }
  }
}
