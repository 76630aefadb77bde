/** The playback cursor that both visualisers keep over a finished trace:
    the current position, whether the timer-driven playback is running, and
    the buttons that move the position. The two components share this code
    word for word; only the type of step differs, so it is one generic class. */
module Playback {

  class Player<S> {
    var steps: seq<S>
    var currentStep: int
    var isPlaying: bool

    /** The cursor is a valid index of the trace, or 0 while there is none. */
    ghost predicate Valid()
      reads this
    {
      0 <= currentStep && (currentStep < |steps| || currentStep == 0)
    }

    /** The component's initial state: no trace, position 0, paused. */
    constructor ()
      ensures Valid() && steps == [] && currentStep == 0 && !isPlaying
    {
      steps := [];
      currentStep := 0;
      isPlaying := false;
    }

    /** getCurrentStep: the step under the cursor, or the `ready` step the
        component shows (its input, unsorted) where the trace has none. Under
        Valid() the fallback appears exactly while no trace is loaded. */
    function CurrentStep(ready: S): (st: S)
      reads this
      ensures Valid() && steps != [] ==> st == steps[currentStep] && st in steps
      ensures steps == [] ==> st == ready
    {
      if 0 <= currentStep < |steps| then steps[currentStep] else ready
    }

    /** Installing a freshly generated trace rewinds the cursor but leaves the
        playing flag as it was. */
    method Load(trace: seq<S>)
      modifies this
      ensures Valid() && steps == trace && currentStep == 0 && isPlaying == old(isPlaying)
    {
      steps := trace;
      currentStep := 0;
    }

    method Play()
      requires Valid()
      modifies this
      ensures Valid() && isPlaying
      ensures steps == old(steps) && currentStep == old(currentStep)
    {
      isPlaying := true;
    }

    method Pause()
      requires Valid()
      modifies this
      ensures Valid() && !isPlaying
      ensures steps == old(steps) && currentStep == old(currentStep)
    {
      isPlaying := false;
    }

    /** Back to the first step, paused. */
    method Reset()
      requires Valid()
      modifies this
      ensures Valid() && currentStep == 0 && !isPlaying && steps == old(steps)
    {
      currentStep := 0;
      isPlaying := false;
    }

    /** Advances only while the cursor is before the last step. */
    method NextStep()
      requires Valid()
      modifies this
      ensures Valid() && steps == old(steps) && isPlaying == old(isPlaying)
      ensures old(currentStep) < |steps| - 1 ==> currentStep == old(currentStep) + 1
      ensures old(currentStep) >= |steps| - 1 ==> currentStep == old(currentStep)
    {
      if currentStep < |steps| - 1 {
        currentStep := currentStep + 1;
      }
    }

    /** Moves back only while the cursor is after the first step. */
    method PrevStep()
      requires Valid()
      modifies this
      ensures Valid() && steps == old(steps) && isPlaying == old(isPlaying)
      ensures old(currentStep) > 0 ==> currentStep == old(currentStep) - 1
      ensures old(currentStep) == 0 ==> currentStep == 0
    {
      if currentStep > 0 {
        currentStep := currentStep - 1;
      }
    }

    /** One firing of the playback timer, as a discrete transition: while
        playing before the last step it advances; once playing at or past the
        last step it stops and reports completion. */
    method Tick() returns (completed: bool)
      requires Valid()
      modifies this
      ensures Valid() && steps == old(steps)
      ensures old(isPlaying) && old(currentStep) < |steps| - 1 ==> currentStep == old(currentStep) + 1 && isPlaying
      ensures !(old(isPlaying) && old(currentStep) < |steps| - 1) ==> currentStep == old(currentStep)
      ensures !(old(isPlaying) && old(currentStep) < |steps| - 1) ==> isPlaying == false
      ensures completed <==> old(isPlaying) && old(currentStep) >= |steps| - 1
    {
      completed := false;
      if isPlaying && currentStep < |steps| - 1 {
        currentStep := currentStep + 1;
      } else if currentStep >= |steps| - 1 && isPlaying {
        isPlaying := false;
        completed := true;
      }
    }
  }
}
