/** The run state machine of automata.py: READY, RUNNING, FINISHED, an
    iteration counter, and the loop that calls `process` until it finishes. */
module Automata {

  datatype RunState = READY | RUNNING | FINISHED

  /** The index of the first `process` call that calls `finish`, or `|finishes|`. */
  function FirstFinish(finishes: seq<bool>): (k: nat)
    ensures k <= |finishes|
    ensures forall m :: 0 <= m < k ==> !finishes[m]
    ensures k < |finishes| ==> finishes[k]
  {
    if |finishes| == 0 then 0 else if finishes[0] then 0 else 1 + FirstFinish(finishes[1..])
  }

  /** An automaton. `process` is supplied by subclasses; here the outcome of its
      k-th call, whether it called `finish`, is the input `finishes[k]`. */
  class Automaton {
    var state: RunState
    var iteration: int

    constructor ()
      ensures state == READY && iteration == 1
    {
      state, iteration := READY, 1;
    }

    method Reset()
      modifies this
      ensures state == READY && iteration == 1
    {
      state := READY;
      iteration := 1;
    }

    method Finish()
      modifies this`state
      ensures state == FINISHED
    {
      state := FINISHED;
    }

    /** `run`: RUNNING before the first `process`; each pass calls `process`
        once and adds one to `iteration`; the pass whose `process` finishes is
        the last. `finishes` bounds the number of passes modelled. */
    method Run(finishes: seq<bool>) returns (calls: nat)
      modifies this
      ensures calls == if FirstFinish(finishes) < |finishes| then FirstFinish(finishes) + 1 else |finishes|
      ensures iteration == old(iteration) + calls
      ensures state == if FirstFinish(finishes) < |finishes| then FINISHED else RUNNING
    {
      state := RUNNING;
      calls := 0;
      while state == RUNNING && calls < |finishes|
        invariant calls <= |finishes|
        invariant iteration == old(iteration) + calls
        invariant state == RUNNING ==> calls <= FirstFinish(finishes)
        invariant state != RUNNING ==> state == FINISHED && calls == FirstFinish(finishes) + 1
      {
        if finishes[calls] {
          Finish();
        }
        iteration := iteration + 1;
        calls := calls + 1;
      }
    }
  }

  /** A cellular automaton: an automaton with a population. */
  class CellularAutomaton {
    const base: Automaton
    var population: int

    constructor ()
      ensures fresh(base) && base.state == READY && base.iteration == 1 && population == 0
    {
      base := new Automaton();
      population := 0;
    }

    /** The generation is the automaton's iteration, read through. */
    function Generation(): int
      reads this, base
    {
      base.iteration
    }

    method Reset()
      modifies this, base
      ensures base.state == READY && base.iteration == 1 && population == 0
      ensures Generation() == 1
    {
      base.Reset();
      population := 0;
    }
  }
}
