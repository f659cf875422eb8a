# Life-like cellular automata, modelled in Dafny

This project models the generation-stepping engine of the game-of-life
repository: three near-duplicate engines (`src/lifelike.py`,
`src/cellular_automatons.py`, `conway.py`) and the run-state machine of
`src/automata.py`. Each engine loads a grid from text lines, steps it one
synchronous generation at a time on a torus, keeps a running `population`
count, renders the grid as text, and stops when a generation leaves the grid
unchanged.

Modules, following the program's structure:

- `Wrappers` (`wrappers.dfy`): `Result`, `Outcome` and the exceptions the code
  raises (`IndexError`, `ValueError`, the growth-rate exception).
- `Cells` (`cells.dfy`): cells as their characters (DEAD `U+25A1`, ALIVE
  `U+25A3`, CANCER `U+25A9`), the grid as `seq<seq<char>>`, `create_grid`,
  ALIVE counts, the wrapped 3x3 neighbour walk exactly as the engines run it,
  and the eight-cell Moore neighbourhood as an independent reference.
- `Text` (`text.dfy`): `int()`, `str()`, `'\n'.join` and its inverse split,
  the rendered grid and the `gen:`/`pop:` snapshot.
- `Loader` (`loader.dfy`): the `reset` parse shared by the three engines.
- `RuleCodec` (`rulecodec.dfy`): `read_rule`, `write_rule`, the
  `b<digits>s<digits>` name and the digit runs `re.findall(r"\d+", ...)` finds.
- `LifeRules` (`liferules.dfy`): the standard and cancer cell rules, the next
  generation as a function of the old grid, iterates and run traces.
- `Automata` (`automata.dfy`), `Lifelike` (`lifelike.dfy`),
  `CellularAutomatons` (`cellularautomatons.dfy`) and `Conway`
  (`conway.dfy`), one per Python file: the engines as classes. Their fields are the
  attributes the Python code updates in place. `process`/`apply_rules` are
  methods with the original nested loops, and each is proved equal to the
  next generation that `LifeRules` defines.

Behaviour of the code that the model keeps, and that a reader might not
expect:

- `src/lifelike.py` stores every non-DEAD input character verbatim, but
  counts only ALIVE ones. The other two loaders store ALIVE for ALIVE and
  DEAD for everything else.
- CANCER cells are never part of `population`. The cancer `process` finishes
  when the population after the step is 0, even while CANCER cells remain.
- The neighbour walk visits the nine index pairs of
  `[i-1, i, i+1] x [j-1, j, j+1]` modulo the grid size. It skips only the pair
  equal to `(i, j)`.
  - On a grid with at least 2 rows and 2 columns, this is the count over the
    eight Moore positions.
  - With 2 rows, the other row is counted twice.
  - With 1 row, the left and right neighbours are counted three times each.
- A rule born on 0 (`b0...`) fills an all-DEAD grid in one step.
  Otherwise an all-DEAD grid is a fixed point.
- `write_rule` writes a value of 10 or more as several digits, and
  `read_rule` then reads it back as several values.
- `Game.reset` in `conway.py` does not set `keep_running` back to true.
  After a finished run, a later `run` does nothing.
- A run ends only on a grid equal to its predecessor. Cycles of period 2 or
  more never end it.

Inputs the code gets from the outside world are parameters of the model:

- the lines `readlines()` returns;
- the random draws of the cancer rule, one `Draw(spread, mutate)` per cell:
  `spread` is `random.randint(0, 8)`, which includes 8, and `mutate` is
  `random.random() < mutation_chance`;
- the process outcomes that `src/automata.py` leaves to subclasses.

## Model

| member | source | states |
|---|---|---|
| Cells.CreateGrid | src/lifelike.py:74-77 | a `num_rows` x `num_cols` grid (a negative size gives no rows or columns, as `range` does) of DEAD cells, every row the same all-DEAD row |
| Cells.Around | src/lifelike.py:90-93 | the three wrapped indices `[i-1, i, i+1] mod n`, each in `[0, n)`, the middle one `i` itself |
| Cells.NeighborCountBound | src/lifelike.py:37 | every neighbour count lies in `[0, NUM_MAX_NEIGHBORS]` = `[0, 8]` |
| Cells.MooreDistinct | src/lifelike.py:90-93 | on a grid of at least 3x3 the eight wrapped Moore positions are distinct and none is `(i, j)` |
| Cells.WalkIsMoore | src/lifelike.py:90-100 | with at least 2 rows and 2 columns the walk's count equals the count over the eight wrapped Moore positions |
| Cells.CornerWraps | src/lifelike.py:90-100 | cell `(0, 0)` counts the opposite corner `(rows-1, cols-1)` as a neighbour |
| Cells.SingleRowTriples | src/lifelike.py:90-100 | on a one-row grid the walk counts the left and right neighbours three times each and nothing else |
| Cells.CountAlive | src/lifelike.py:96-100 | the double loop over the 3x3 index lists returns the walk's ALIVE count, at most 8 |
| Cells.CountAliveAndCancer | src/lifelike.py:158-166 | the cancer double loop returns the walk's ALIVE count and CANCER count, summing to at most 8 |
| Cells.CreateGridEmpty | src/lifelike.py:74-77 | a fresh grid holds no ALIVE cell |
| Text.NatToStringDigits | src/cellular_automatons.py:97-98 | `str(n)` of a natural number is a nonempty digit string whose decimal value is `n` |
| Text.IntRoundTrip | src/cellular_automatons.py:97-98 | `int(str(n)) == n` for every integer |
| Text.IntToString | src/cellular_automatons.py:97-98 | `str(n)` is nonempty, starts with `-` exactly when `n` is negative, and is otherwise decimal digits |
| Text.ParseInt | src/lifelike.py:60-61 | `int(s)`: a failure is a `ValueError`, a success needs some text besides white space, and a plain digit string gives its decimal value |
| Text.SplitJoin | src/lifelike.py:79-81 | splitting a `'\n'`-join of newline-free parts at `'\n'` gives back the parts |
| Text.RenderLines | src/lifelike.py:79-81 | the rendered grid has one line per row, each of exactly `num_cols` characters, and no trailing newline |
| Text.SnapshotLines | src/cellular_automatons.py:97-100 | the snapshot's lines are `gen: G`, `pop: P`, then the grid's rows |
| Loader.Header | src/lifelike.py:60-61 | `int(lines[0][:-1])`, `int(lines[1][:-1])`: Ok exactly when both lines exist and parse; a missing line is an `IndexError`, a present line that does not parse a `ValueError`, checked in Python's order |
| Loader.LoadedCell | src/lifelike.py:66-70 | verbatim loading stores the character; the two-state loaders store ALIVE exactly for ALIVE and DEAD otherwise |
| Loader.LoadCells | src/lifelike.py:62-70 | the fill loop succeeds exactly when every cell it reads exists (else `IndexError`), builds the loaded grid, and counts its ALIVE cells |
| Loader.LoadedGrid | src/lifelike.py:62-70 | the loaded grid has exactly `num_rows` rows of `num_cols` cells (none for a negative size) |
| Loader.LoadedAlive | src/lifelike.py:64-70 | a loaded cell is ALIVE exactly when its input character is ALIVE, under either loading policy |
| RuleCodec.ReadRule | src/lifelike.py:17 | Ok exactly for a digit string (else `ValueError`), one value per character, each the digit's value |
| RuleCodec.WriteRule | src/cellular_automatons.py:19 | at least one character per value, and only digits when no value is negative, so `read_rule` accepts the result |
| RuleCodec.WriteRuleDigits | src/cellular_automatons.py:19 | for values 0..9, `write_rule` writes one digit per value, each reading back as that value |
| RuleCodec.WriteReadRule | src/cellular_automatons.py:18-19 | `write_rule(read_rule(s)) == s` for every digit string |
| RuleCodec.ReadWriteRule | src/cellular_automatons.py:18-19 | `read_rule(write_rule(l)) == l` for every list of values 0..9 |
| RuleCodec.ReadWriteMultiDigit | src/cellular_automatons.py:18-19 | `read_rule(write_rule([10])) == [1, 0]`: the round trip fails above 9 |
| RuleCodec.LeadingDigits | src/lifelike.py:44 | the length of the maximal digit prefix of a string |
| RuleCodec.DigitRuns | src/lifelike.py:44 | every run `re.findall(r"\d+", ...)` returns is a nonempty digit string |
| RuleCodec.DigitRunsOfName | src/lifelike.py:13 | a name of the form `b`/`B`, digits, `s`/`S`, digits (the automaton name pattern) has exactly its two digit strings as runs |
| LifeRules.StandardStep | src/lifelike.py:110-120 | ALIVE next exactly for DEAD with count in `born` or ALIVE with count in `survive`; DEAD next exactly for DEAD with count not in `born` or ALIVE with count not in `survive`; only DEAD/ALIVE cells change; the population delta is the change in ALIVE-ness |
| LifeRules.CancerStep | src/lifelike.py:176-193 | the first-match chain: exactly when the next cell is CANCER, when it is ALIVE and when it is DEAD (unborn DEAD, dying unmutated ALIVE, starving CANCER); only the three states change; the delta counts ALIVE only |
| LifeRules.CancerStepReduces | src/lifelike.py:179-190 | with no CANCER neighbour and no mutation, a non-CANCER cell follows the standard rule |
| LifeRules.NextGrid | src/lifelike.py:83-108 | the next generation has the old grid's shape, each cell computed from the old grid only |
| LifeRules.NextRow | src/lifelike.py:87-103 | row `i` of the next generation is as long as the old row `i` |
| LifeRules.CancerNextGrid | src/lifelike.py:145-174 | the cancer generation has the old grid's shape, each cell from the old grid and that cell's draws |
| LifeRules.CancerNextRow | src/lifelike.py:149-169 | row `i` of the cancer generation is as long as the old row `i` |
| LifeRules.NeighborCountNone | src/lifelike.py:96-100 | a kind of cell absent from the grid is never counted as a neighbour |
| LifeRules.CancerMatchesStandard | src/lifelike.py:176-193 | with no CANCER cell and no mutation draw, the cancer generation is the standard one and holds no CANCER cell |
| LifeRules.Iterate | src/automata.py:39-41 | the `k`-th generation keeps the grid's shape |
| LifeRules.NextGridTwoState | src/cellular_automatons.py:129-139 | the standard rule keeps a DEAD/ALIVE-only grid DEAD/ALIVE-only |
| LifeRules.StableForEver | src/lifelike.py:105-106 | a grid equal to its successor equals every later generation, so stopping there loses nothing |
| LifeRules.DeadGridStep | src/lifelike.py:113-115 | an all-DEAD grid is a fixed point exactly when 0 is not a birth count |
| LifeRules.TraceIterate | src/automata.py:39-41 | the grids a run passes through are the iterates of its first grid, and a run that changed at every step witnesses `Moving` |
| LifeRules.RanStep | src/automata.py:39-41 | one more pass extends the run's trace, and the run stops exactly when the grid did not change |
| LifeRules.RanOutcome | src/automata.py:39-41 | after `n` passes the grid is the `n`-th iterate; a stopped run changed at every pass but the last, which repeated the grid |
| Automata.FirstFinish | src/automata.py:39-41 | the index of the first `process` call that finishes; no call before it does |
| Automata.Automaton.constructor | src/automata.py:25-31 | a new automaton is READY with iteration 1 |
| Automata.Automaton.Reset | src/automata.py:47-49 | state READY, iteration 1 |
| Automata.Automaton.Finish | src/automata.py:51-52 | state FINISHED |
| Automata.Automaton.Run | src/automata.py:33-45 | `process` runs through the first finishing call and no further; iteration grows by exactly one per call; the state ends FINISHED exactly when some call finished |
| Automata.CellularAutomaton.constructor | src/automata.py:65-66 | a new cellular automaton wraps a fresh READY automaton at iteration 1, with population 0 |
| Automata.CellularAutomaton.Reset | src/automata.py:72-74 | READY, iteration and generation 1, population 0 |
| Lifelike.ParseRules | src/lifelike.py:44-48 | Ok exactly when the name has two digit runs (else `IndexError`); `born` and `survive` hold one value per character of the first and second run, each that digit's value |
| Lifelike.ParseMatchingName | src/lifelike.py:44-48 | for a name matching the automaton pattern, `born` is the digits after b/B and `survive` the digits after s/S, one value per character |
| Lifelike.ParseWrittenName | src/lifelike.py:44-48 | the name `cellular_automatons.py` writes for single-digit rule lists parses back to those lists |
| Lifelike.ParseCancer | src/lifelike.py:133-139 | the cancer constructor accepts exactly a parsable name with `growth_rate` in `[1, 8]` |
| Lifelike.LifeLike.constructor | src/lifelike.py:40-48 | the rules are the given parsed ones, and the grid is empty until `reset` |
| Lifelike.LifeLike.Reset | src/lifelike.py:54-72 | READY, iteration 1, population 0; success exactly when the header parses and every cell exists; the verbatim-loaded grid with population equal to its ALIVE count |
| Lifelike.LifeLike.ApplyRules | src/lifelike.py:110-120 | the standard transition, with the population moved by its delta |
| Lifelike.LifeLike.ProcessRow | src/lifelike.py:87-103 | the column loop stores row `i` of the next generation into the fresh grid and moves the population by that row's ALIVE change |
| Lifelike.LifeLike.NextCells | src/lifelike.py:84-103 | the row loops build exactly the next generation and move the population by the change in ALIVE count |
| Lifelike.LifeLike.Process | src/lifelike.py:83-108 | the grid becomes the next generation of the old grid; FINISHED exactly when it is unchanged; population stays equal to the ALIVE count |
| Lifelike.LifeLike.ScreenLines | src/lifelike.py:79-81 | the screen text splits back into the grid, one line of `num_cols` characters per row |
| Lifelike.LifeLike.Advance | src/automata.py:39-41 | one pass: `process` and one more iteration, extending the run's trace; FINISHED exactly when the grid did not change |
| Lifelike.LifeLike.Run | src/automata.py:33-45 | after `steps` passes the grid is the `steps`-th generation; a FINISHED run changed at every pass but the last; iteration grows by `steps`; population stays consistent |
| Lifelike.LifeLikeCancer.constructor | src/lifelike.py:133-139 | built from an accepted rule and growth rate in `[1, 8]` |
| Lifelike.LifeLikeCancer.Reset | src/lifelike.py:54-72 | as `LifeLike.Reset`, from any state, with the rules and growth rate kept |
| Lifelike.LifeLikeCancer.ApplyRules | src/lifelike.py:176-193 | the cancer rule chain for the given counts and draws, with the population moved by its delta |
| Lifelike.LifeLikeCancer.ProcessRow | src/lifelike.py:149-169 | the column loop stores row `i` of the cancer generation and moves the population by that row's ALIVE change |
| Lifelike.LifeLikeCancer.NextCells | src/lifelike.py:146-169 | the row loops build exactly the cancer generation and move the population by the change in ALIVE count |
| Lifelike.LifeLikeCancer.Process | src/lifelike.py:145-174 | the grid becomes the cancer generation; FINISHED when it is unchanged or the population is 0, so a consistent step that kills every ALIVE cell finishes |
| CellularAutomatons.LifeLike.constructor | src/cellular_automatons.py:47-54 | the rules are the given `newborn` and `keepalive` lists |
| CellularAutomatons.LifeLike.AutomatonName | src/cellular_automatons.py:60-64 | `b`, the written `newborn` list, `s` and the written `keepalive` list: two characters more than the two written lists |
| CellularAutomatons.LifeLike.AutomatonNameRuns | src/cellular_automatons.py:60-64 | for nonempty single-digit lists the name has exactly two digit runs, which `read_rule` reads back as `newborn` and `keepalive` |
| CellularAutomatons.LifeLike.Reset | src/cellular_automatons.py:67-88 | READY, generation 1; success exactly when the header parses and every cell exists; the two-state loaded grid with population equal to its ALIVE count |
| CellularAutomatons.LifeLike.WriteGridLines | src/cellular_automatons.py:93-100 | the output splits into `gen: G`, `pop: P` and the grid's rows, and the two numbers parse back to the generation and population |
| CellularAutomatons.LifeLike.ApplyRules | src/cellular_automatons.py:129-139 | the standard transition with `newborn` and `keepalive`, with the population moved by its delta |
| CellularAutomatons.LifeLike.ProcessRow | src/cellular_automatons.py:106-122 | the column loop stores row `i` of the next generation and moves the population by that row's ALIVE change |
| CellularAutomatons.LifeLike.NextCells | src/cellular_automatons.py:103-122 | the row loops build exactly the next generation and move the population by the change in ALIVE count |
| CellularAutomatons.LifeLike.Process | src/cellular_automatons.py:102-127 | the grid becomes the next generation, still DEAD/ALIVE-only; FINISHED exactly when it is unchanged; population stays consistent |
| CellularAutomatons.LifeLike.Advance | src/cellular_automatons.py:146-147 | one pass: `process` and one more generation, extending the run's trace |
| CellularAutomatons.LifeLike.Run | src/cellular_automatons.py:141-151 | RUNNING first; after `steps` passes the grid is the `steps`-th generation and generation grew by `steps`; a FINISHED run stopped on the first unchanged grid |
| Conway.ConwayStep | conway.py:92-98 | ALIVE next exactly for ALIVE with 2 or 3 neighbours or DEAD with exactly 3; DEAD next exactly in the complementary cases; the population delta is the change in ALIVE-ness |
| Conway.ConwayIsB3S23 | conway.py:92-98 | the inline rule is the standard rule with `newborn = [3]` and `keepalive = [2, 3]` |
| Conway.Game.constructor | conway.py:22-30 | `keep_running` starts true |
| Conway.Game.Reset | conway.py:32-50 | a header error changes nothing else; otherwise generation 1, and on success the two-state loaded grid with population equal to its ALIVE count; `keep_running` untouched |
| Conway.Game.StepCell | conway.py:92-98 | the inline rule for one cell, with the population moved by its delta |
| Conway.Game.StepRow | conway.py:76-99 | the column loop stores row `i` of the B3/S23 generation and moves the population by that row's ALIVE change |
| Conway.Game.NextCells | conway.py:73-99 | the row loops build exactly the B3/S23 generation and move the population by the change in ALIVE count |
| Conway.Game.ApplyRules | conway.py:72-104 | the grid becomes the B3/S23 generation of the old grid; `keep_running` drops exactly when it is unchanged; population stays consistent |
| Conway.Game.Advance | conway.py:56-57 | one pass: `apply_rules` and one more generation, extending the run's trace |
| Conway.Game.Run | conway.py:52-61 | nothing happens when `keep_running` is already false; otherwise after `steps` passes the grid is the `steps`-th B3/S23 generation, generation grew by `steps`, and a stopped run stopped on the first unchanged grid |

## Left out

- `src/main.py`: argument parsing, dynamic class loading and printing.
- File and directory I/O (`open`, `readlines`, `file.write`, `os.makedirs`), `PROJECT_ROOT_PATH` and the output paths. The model takes the lines `readlines()` returns, and produces the text `write_grid` writes.
- The `write_output` and `write_grid` calls at each pass of the run loops: they are file output.
- `time.sleep` pacing in every run loop.
- The Python random number generator and the float `mutation_chance`. Each cell's two draws are an input `Draw(spread, mutate)`, with `spread` in `[0, 8]`.
- The broken constructor wiring, none of which can run as written:
  - `LifeLike.__init__` passes `(class_path, automaton_name)` where `CellularAutomaton` expects `(automaton_name, output_prefix)`.
  - `output_path` reads a parent property that does not exist.
  - `class_path` is never set.
  - `LifeLikeB3S23` calls its parent constructor with missing arguments.
  - The `__main__` block of `src/lifelike.py` builds `LifeLike` with the wrong number of arguments.
  - The model's `Lifelike.LifeLike` constructor takes the parsed rules (see `Lifelike.ParseRules`), and the cancer constructor takes what `Lifelike.ParseCancer` accepted.
- Inheritance is flattened. The `Lifelike` classes carry the `state`, `iteration` and `population` fields they inherit in Python from `CellularAutomaton` and `Automaton`. `cellular_automatons.LifeLike` derives from `object` and sets `state`, `generation` and `population` itself, and the model's `CellularAutomatons.LifeLike` has the same fields. The `Automata` classes model the base-class methods on their own.
- The cancer class has no `write_grid` of its own: it inherits `LifeLike`'s, and `Lifelike.LifeLike.ScreenLines` with `Text.RenderLines` covers it, CANCER cells rendered as they are.
- The cancer class has no `Run` of its own. Its inherited `run` is `Automata.Automaton.Run`, where each `process` outcome is an input.
- The constructors do not call `reset`. In `src/cellular_automatons.py` and `conway.py`, `__init__` ends by calling `reset`, which reads the input file. In the model, `Reset` is a separate call on the lines. The constructors of `src/lifelike.py` do not call `reset` at all.
- Automata.Automaton.constructor sets `state` and `iteration`, which Python's `Automaton.__init__` leaves unset until `reset`.
- Automata.CellularAutomaton.constructor sets `population` to 0, which Python's `CellularAutomaton.__init__` leaves unset until `reset`. Reading an unset attribute in Python raises `AttributeError`, and the model has no such state.
- Lifelike.LifeLike.constructor, Lifelike.LifeLikeCancer.constructor: these set `state` READY, `iteration` 1, `population` 0, an empty grid and zero `num_rows`/`num_cols`. Python's `__init__` leaves all of these unset until `reset`, so an early read raises `AttributeError` there; the model does not capture that error.
- Partial state after a failed `reset`. If the second header line fails to parse, Python has already set `num_rows`. If a cell is missing, Python leaves a partly filled grid and a partial population. The model reports the same error but leaves the grid as it was. On an `IndexError` from a missing cell the model's `Conway.Game.Reset` does not state the population.
- Loader.Header: `int()` is modelled as surrounding white space, an optional sign and ASCII digits. Only ASCII white space is stripped, while Python's `int()` also strips characters such as `\u00a0` and `\x1c`. Underscore separators and non-ASCII digits are not modelled, and neither are non-ASCII digits in `re.findall(r"\d+", ...)` (RuleCodec.DigitRuns).
- Lifelike.ParseCancer: `growth_rate` is taken as an integer. Python's `int(growth_rate)` would also raise `ValueError` on a string that is not a number, and truncate a float.
- Automata.Automaton.Run: Python's `while` loop calls `process` until one call finishes, possibly never. The model takes the outcomes of the calls as a finite list `finishes` and runs at most `|finishes|` passes; when no call in the list finishes, it stops RUNNING after the last one.
- Lifelike.LifeLike.Run, CellularAutomatons.LifeLike.Run, Conway.Game.Run: these loops need not terminate, and Dafny loops must. Each takes a `fuel` bound on the number of passes, and its contract covers runs that stop within it.
- Lifelike.LifeLike.ScreenLines, CellularAutomatons.LifeLike.WriteGridLines: the split-back property assumes no cell holds a newline character. The verbatim loader of `src/lifelike.py` does store one when a row line is one cell short of `num_cols`, since the line's own newline is then read as the last cell.
- Cycle detection beyond period 1: the code compares each grid only with its predecessor, and so does the model (see `LifeRules.StableForEver`).
