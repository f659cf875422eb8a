/** The birth/survival rules of the life-like engines, per cell and per grid:
    the standard rule of `apply_rules`, the cancer rule chain, and the next
    generation they build from the old grid alone. */
module LifeRules {
  import opened Cells

  /** The neighbour counts that give birth to a DEAD cell and that keep an
      ALIVE cell alive, as the lists `read_rule` produced. */
  datatype Rules = Rules(born: seq<int>, survive: seq<int>)

  /** The next state of a cell and the change it makes to `population`. */
  datatype Transition = Transition(next: char, delta: int)

  /** The standard rule: DEAD with a count in `born` becomes ALIVE (+1), ALIVE
      with a count not in `survive` becomes DEAD (-1), anything else stays. */
  function StandardStep(rules: Rules, cell: char, n: int): (t: Transition)
    ensures t.next == ALIVE <==> (cell == DEAD && n in rules.born) || (cell == ALIVE && n in rules.survive)
    ensures t.next == DEAD <==> (cell == DEAD && n !in rules.born) || (cell == ALIVE && n !in rules.survive)
    ensures t.next != cell ==> cell == DEAD || cell == ALIVE
    ensures t.delta == Is(t.next, ALIVE) - Is(cell, ALIVE)
  {
    if cell == DEAD && n in rules.born then Transition(ALIVE, 1)
    else if cell == ALIVE && n !in rules.survive then Transition(DEAD, -1)
    else Transition(cell, 0)
  }

  /** The two random draws one cancer cell update may make:
      `random.randint(0, 8)` and `random.random() < mutation_chance`. */
  datatype Draw = Draw(spread: int, mutate: bool)

  function Max(a: int, b: int): int
  {
    if a >= b then a else b
  }

  /** The cancer rule chain, first match wins; CANCER cells are not part of
      `population`, so only moves into or out of ALIVE change it. */
  function CancerStep(rules: Rules, growthRate: int, cell: char, alive: int, cancer: int, d: Draw): (t: Transition)
    ensures t.next == CANCER <==>
              (cell == DEAD && cancer > 0 && alive > 0 && d.spread < Max(cancer, growthRate))
              || (cell == ALIVE && d.mutate)
              || (cell == CANCER && alive != 0)
    ensures t.next == ALIVE <==>
              (cell == DEAD && !(cancer > 0 && alive > 0 && d.spread < Max(cancer, growthRate)) && alive in rules.born)
              || (cell == ALIVE && !d.mutate && alive in rules.survive)
    ensures t.next == DEAD <==>
              (cell == DEAD && !(cancer > 0 && alive > 0 && d.spread < Max(cancer, growthRate)) && alive !in rules.born)
              || (cell == ALIVE && !d.mutate && alive !in rules.survive)
              || (cell == CANCER && alive == 0)
    ensures t.next != cell ==> cell == DEAD || cell == ALIVE || cell == CANCER
    ensures t.delta == Is(t.next, ALIVE) - Is(cell, ALIVE)
  {
    if cell == DEAD && cancer > 0 && alive > 0 && d.spread < Max(cancer, growthRate) then Transition(CANCER, 0)
    else if cell == DEAD && alive in rules.born then Transition(ALIVE, 1)
    else if cell == ALIVE && d.mutate then Transition(CANCER, -1)
    else if cell == ALIVE && alive !in rules.survive then Transition(DEAD, -1)
    else if cell == CANCER && alive == 0 then Transition(DEAD, 0)
    else Transition(cell, 0)
  }

  /** With no CANCER neighbour and no mutation the cancer chain is the standard
      rule, for every cell that is not itself CANCER. */
  lemma CancerStepReduces(rules: Rules, growthRate: int, cell: char, alive: int, d: Draw)
    requires cell != CANCER && !d.mutate
    ensures CancerStep(rules, growthRate, cell, alive, 0, d) == StandardStep(rules, cell, alive)
  {
  }

  // ---------------------------------------------------------------------
  // One synchronous generation
  // ---------------------------------------------------------------------

  /** The grid `process` builds: every cell from the OLD grid's cell and
      neighbour count, the shape unchanged. */
  function NextGrid(g: Grid, rules: Rules): (h: Grid)
    requires Rect(g)
    ensures |h| == |g| && forall i :: 0 <= i < |g| ==> |h[i]| == |g[i]|
    ensures Rect(h) && Width(h) == Width(g)
  {
    seq(|g|, i requires 0 <= i < |g| => NextRow(g, rules, i))
  }

  /** Row `i` of the next generation. */
  function NextRow(g: Grid, rules: Rules, i: int): (r: seq<char>)
    requires Rect(g) && 0 <= i < |g|
    ensures |r| == |g[i]|
  {
    seq(|g[i]|, j requires 0 <= j < |g[i]| => StandardStep(rules, g[i][j], NeighborCount(g, i, j, ALIVE)).next)
  }

  /** A grid whose every row is the next generation's row is the next generation. */
  lemma NextGridOfRows(g: Grid, rules: Rules, h: Grid)
    requires Rect(g) && |h| == |g| && forall i :: 0 <= i < |g| ==> h[i] == NextRow(g, rules, i)
    ensures h == NextGrid(g, rules)
  {
  }

  /** One draw per cell, each spread draw in `[0, 8]` as `randint(0, 8)` gives. */
  predicate DrawsFit(g: Grid, draws: seq<seq<Draw>>)
  {
    |draws| == |g| &&
    forall i :: 0 <= i < |g| ==>
      (|draws[i]| == |g[i]| && forall j :: 0 <= j < |g[i]| ==> 0 <= draws[i][j].spread <= NUM_MAX_NEIGHBORS)
  }

  /** The grid the cancer `process` builds, given the draws of every cell. */
  function CancerNextGrid(g: Grid, rules: Rules, growthRate: int, draws: seq<seq<Draw>>): (h: Grid)
    requires Rect(g) && DrawsFit(g, draws)
    ensures |h| == |g| && forall i :: 0 <= i < |g| ==> |h[i]| == |g[i]|
  {
    seq(|g|, i requires 0 <= i < |g| => CancerNextRow(g, rules, growthRate, draws, i))
  }

  /** Row `i` of the next cancer generation. */
  function CancerNextRow(g: Grid, rules: Rules, growthRate: int, draws: seq<seq<Draw>>, i: int): (r: seq<char>)
    requires Rect(g) && DrawsFit(g, draws) && 0 <= i < |g|
    ensures |r| == |g[i]|
  {
    seq(|g[i]|, j requires 0 <= j < |g[i]| =>
      CancerStep(rules, growthRate, g[i][j], NeighborCount(g, i, j, ALIVE),
                 NeighborCount(g, i, j, CANCER), draws[i][j]).next)
  }

  lemma CancerNextGridOfRows(g: Grid, rules: Rules, growthRate: int, draws: seq<seq<Draw>>, h: Grid)
    requires Rect(g) && DrawsFit(g, draws) && |h| == |g|
    requires forall i :: 0 <= i < |g| ==> h[i] == CancerNextRow(g, rules, growthRate, draws, i)
    ensures h == CancerNextGrid(g, rules, growthRate, draws)
  {
  }

  predicate NoCell(g: Grid, t: char)
  {
    forall i, j :: 0 <= i < |g| && 0 <= j < |g[i]| ==> g[i][j] != t
  }

  /** A kind of cell that is absent is never counted as a neighbour. */
  lemma NeighborCountNone(g: Grid, i: int, j: int, t: char)
    requires Rect(g) && 0 <= i < |g| && 0 <= j < Width(g) && NoCell(g, t)
    ensures NeighborCount(g, i, j, t) == 0
  {
    var rs, cs := Around(i, |g|), Around(j, Width(g));
    Walk3(g, i, j, rs, cs, t);
    WalkRow3(g, i, j, rs[0], cs, t);
    WalkRow3(g, i, j, rs[1], cs, t);
    WalkRow3(g, i, j, rs[2], cs, t);
  }

  /** With no CANCER cell on the grid and every mutation draw false, a cancer
      generation is the standard generation, and it holds no CANCER cell. */
  lemma CancerMatchesStandard(g: Grid, rules: Rules, growthRate: int, draws: seq<seq<Draw>>)
    requires Rect(g) && DrawsFit(g, draws) && NoCell(g, CANCER)
    requires forall i, j :: 0 <= i < |g| && 0 <= j < |g[i]| ==> !draws[i][j].mutate
    ensures CancerNextGrid(g, rules, growthRate, draws) == NextGrid(g, rules)
    ensures NoCell(NextGrid(g, rules), CANCER)
  {
    var c, s := CancerNextGrid(g, rules, growthRate, draws), NextGrid(g, rules);
    forall i | 0 <= i < |g| ensures c[i] == s[i] {
      forall j | 0 <= j < |g[i]| ensures c[i][j] == s[i][j] {
        NeighborCountNone(g, i, j, CANCER);
        CancerStepReduces(rules, growthRate, g[i][j], NeighborCount(g, i, j, ALIVE), draws[i][j]);
      }
    }
  }

  /** The grid after `k` generations. */
  function Iterate(g: Grid, rules: Rules, k: nat): (h: Grid)
    requires Rect(g)
    ensures Rect(h) && |h| == |g| && Width(h) == Width(g)
  {
    if k == 0 then g else NextGrid(Iterate(g, rules, k - 1), rules)
  }

  /** Generations `0 .. n-1` each differ from their successor: no fixed point
      was reached before generation `n`. */
  ghost predicate Moving(g: Grid, rules: Rules, n: nat)
    requires Rect(g)
  {
    forall k :: 0 <= k < n ==> NextGrid(Iterate(g, rules, k), rules) != Iterate(g, rules, k)
  }

  /** Consecutive generations: each grid is the step of the one before. */
  ghost predicate Trace(gens: seq<Grid>, rules: Rules)
  {
    (forall k :: 0 <= k < |gens| ==> Rect(gens[k])) &&
    forall k :: 0 <= k < |gens| - 1 ==> Rect(gens[k]) && gens[k + 1] == NextGrid(gens[k], rules)
  }

  /** No two consecutive grids of the list are equal. */
  ghost predicate Moves(gens: seq<Grid>)
  {
    forall k :: 0 <= k < |gens| - 1 ==> gens[k + 1] != gens[k]
  }

  lemma TraceSnoc(gens: seq<Grid>, g: Grid, rules: Rules)
    requires |gens| > 0 && Trace(gens, rules) && g == NextGrid(gens[|gens| - 1], rules)
    ensures Trace(gens + [g], rules)
  {
  }

  lemma MovesSnoc(gens: seq<Grid>, g: Grid)
    requires |gens| > 0 && Moves(gens) && g != gens[|gens| - 1]
    ensures Moves(gens + [g])
  {
  }

  /** A trace lists the iterates of its first grid, and a trace that moved at
      every step witnesses `Moving`. */
  lemma {:induction false} TraceIterate(gens: seq<Grid>, rules: Rules)
    requires |gens| > 0 && Trace(gens, rules)
    ensures forall k :: 0 <= k < |gens| ==> gens[k] == Iterate(gens[0], rules, k)
    ensures Moves(gens) ==> Moving(gens[0], rules, |gens| - 1)
  {
    if |gens| > 1 {
      var front := gens[..|gens| - 1];
      assert Trace(front, rules);
      TraceIterate(front, rules);
      var n := |gens| - 1;
      assert gens[n] == NextGrid(gens[n - 1], rules);
      if Moves(gens) {
        assert Moves(front);
      }
    }
  }

  /** The grids of a run of `n` passes: each the step of the one before, no
      two consecutive ones equal except, once the run has `stopped`, the last
      two. */
  ghost predicate Ran(trace: seq<Grid>, rules: Rules, n: nat, stopped: bool)
  {
    |trace| == n + 1 && Trace(trace, rules) &&
    (!stopped ==> Moves(trace)) &&
    (stopped ==> n > 0 && Moves(trace[..n]) && trace[n] == trace[n - 1])
  }

  /** One more pass of a run that had not stopped; it stops exactly when the
      grid did not change. */
  lemma RanStep(trace: seq<Grid>, rules: Rules, n: nat, g: Grid, stopped: bool)
    requires Ran(trace, rules, n, false) && Rect(trace[n]) && g == NextGrid(trace[n], rules)
    requires stopped <==> g == trace[n]
    ensures Ran(trace + [g], rules, n + 1, stopped)
  {
    TraceSnoc(trace, g, rules);
    if stopped {
      assert (trace + [g])[..n + 1] == trace;
    } else {
      MovesSnoc(trace, g);
    }
  }

  /** What a run's grids say about the start: the last one is the `n`-th
      iterate; a stopped run moved at every pass but the last, which left the
      grid as it was; a run that did not stop moved at every pass. */
  lemma RanOutcome(trace: seq<Grid>, rules: Rules, n: nat, stopped: bool)
    requires Ran(trace, rules, n, stopped)
    ensures Rect(trace[0]) && trace[n] == Iterate(trace[0], rules, n)
    ensures stopped ==> n > 0 && Moving(trace[0], rules, n - 1) && trace[n] == Iterate(trace[0], rules, n - 1)
    ensures !stopped ==> Moving(trace[0], rules, n)
  {
    TraceIterate(trace, rules);
    if stopped {
      TraceIterate(trace[..n], rules);
    }
  }

  /** Every cell is DEAD or ALIVE, as the two-state loaders leave it. */
  predicate TwoState(g: Grid)
  {
    forall i, j :: 0 <= i < |g| && 0 <= j < |g[i]| ==> g[i][j] == DEAD || g[i][j] == ALIVE
  }

  /** The standard rule never makes a cell other than DEAD or ALIVE. */
  lemma NextGridTwoState(g: Grid, rules: Rules)
    requires Rect(g) && TwoState(g)
    ensures TwoState(NextGrid(g, rules))
  {
  }

  /** A grid that maps to itself stays put for ever: ending the run on an
      unchanged grid loses no later generation. */
  lemma {:induction false} StableForEver(g: Grid, rules: Rules, k: nat)
    requires Rect(g) && NextGrid(g, rules) == g
    ensures Iterate(g, rules, k) == g
  {
    if k > 0 {
      StableForEver(g, rules, k - 1);
    }
  }

  /** An all-DEAD grid is unchanged by a step exactly when 0 is not a birth
      count (a rule such as `b0...` fills it at once). */
  lemma DeadGridStep(g: Grid, rules: Rules)
    requires Rect(g) && |g| > 0 && Width(g) > 0 && NoCell(g, ALIVE)
    requires forall i, j :: 0 <= i < |g| && 0 <= j < |g[i]| ==> g[i][j] == DEAD
    ensures NextGrid(g, rules) == g <==> 0 !in rules.born
  {
    var h := NextGrid(g, rules);
    NeighborCountNone(g, 0, 0, ALIVE);
    if 0 !in rules.born {
      forall i | 0 <= i < |g| ensures h[i] == g[i] {
        forall j | 0 <= j < |g[i]| ensures h[i][j] == g[i][j] {
          NeighborCountNone(g, i, j, ALIVE);
        }
      }
    } else {
      assert h[0][0] == ALIVE;
    }
  }
}
