/** The legacy sequence interpreter (agitation_interpreter.hpp and
 *  agitation_interpreter.cpp): a flat array of loaded movements walked by
 *  an index, one execute per tick.
 *
 *  The source keeps the movement pool and the loaded-pointer array in
 *  static storage shared by every interpreter state; here both are objects
 *  the caller passes in. */
module AgitationInterpreter {
  import opened Wrappers
  import opened MotorControl
  import opened Movement
  import opened MovementFactory
  import opened AgitationSequence
  import opened MovementLoader
  import opened LoopMovement

  /** The depth of the (unused) loop stack. */
  const MAX_LOOP_DEPTH: nat := 3

  /** The iteration count that means "no iteration bound". */
  const LOOP_CONTINUOUS: U32 := 0

  /** A loop built with the "continuous" count does not run continuously:
   *  at the end of its first pass (and of every later one) it reports
   *  inactive and runs no child, whatever its duration bound. While that
   *  bound is not reached the loop is not complete afterwards either. */
  lemma ContinuousLoopEndsEveryPass(nodes: seq<Movement>, h: Handle)
    requires WellFormed(nodes) && h < |nodes|
    requires nodes[h].LoopMovement? && nodes[h].iterations == LOOP_CONTINUOUS
    requires nodes[h].currentIndex == |nodes[h].children|
    ensures !Step(nodes, h).active && Step(nodes, h).calls == []
    ensures !IsComplete(nodes[h]) ==> !IsComplete(Step(nodes, h).nodes[h])
  {
    if !LoopComplete(nodes[h]) {
      PassEndWithoutBound(nodes, h);
    }
  }

  /** The `time_remaining` a tick records for the movement it executed:
   *  the duration less one while the movement is not complete, in
   *  uint32_t arithmetic. An incomplete movement of duration 0 (a
   *  checkpoint, or a loop without a duration bound) wraps to the largest
   *  uint32_t. */
  function RecordedTimeRemaining(m: Movement): (r: U32)
    ensures IsComplete(m) ==> r == GetDuration(m)
    ensures !IsComplete(m) && GetDuration(m) > 0 ==> r == GetDuration(m) - 1
    ensures !IsComplete(m) && GetDuration(m) == 0 ==> r == 0xFFFF_FFFF
  {
    Sub32(GetDuration(m), if IsComplete(m) then 0 else 1)
  }

  /** A waiting checkpoint records the wrapped value on every tick. */
  lemma CheckpointTimeRemainingWraps(m: Movement)
    requires m.WaitUserMovement? && Inv(m) && !m.acknowledged
    ensures RecordedTimeRemaining(m) == 0xFFFF_FFFF
  {
  }

  /** AgitationInterpreterState. The loop stack and the two legacy motor
   *  callbacks are not modelled (nothing reads them). */
  class AgitationInterpreterState {
    /** The loaded movements (the static array the last init filled). */
    var currentSequence: array?<Option<Handle>>
    var sequenceLength: nat
    var currentIndex: nat
    /** The kind and recorded remaining time of the last movement ticked. */
    var currentMovement: Kind
    var timeRemaining: U32
    var motorController: MotorController?

    /** The state as zeroed storage: no sequence, index 0, the first kind,
     *  no motor. */
    constructor ()
      ensures currentSequence == null && sequenceLength == 0 && currentIndex == 0
      ensures currentMovement == CW && timeRemaining == 0 && motorController == null
    {
      currentSequence := null;
      sequenceLength := 0;
      currentIndex := 0;
      currentMovement := CW;
      timeRemaining := 0;
      motorController := null;
    }

    /** The index stays within the loaded sequence, a state without an
     *  array (the zeroed state) has an empty sequence, and every loaded
     *  movement is a live movement of the pool. */
    ghost predicate Valid(pool: MovementFactory)
      reads this, currentSequence, pool
    {
      && (currentSequence == null ==> sequenceLength == 0)
      && (currentSequence != null ==> sequenceLength <= currentSequence.Length)
      && currentIndex <= sequenceLength
      && WellFormed(pool.nodes)
      && (currentSequence != null ==>
            forall i :: 0 <= i < sequenceLength && currentSequence[i].Some? ==> currentSequence[i].value < |pool.nodes|)
    }

    /** agitation_interpreter_init: zero the state, load the recipe into the
     *  shared array through the shared pool, and start at index 0. */
    method Init(recipe: seq<RecipeNode>, pool: MovementFactory, loadedSequence: array<Option<Handle>>,
                motor: MotorController?)
      requires pool.Valid() && loadedSequence.Length == MAX_SEQUENCE_LENGTH
      modifies this, pool, loadedSequence
      ensures pool.Valid() && Valid(pool)
      ensures var r := LoadSequenceIn(old(pool.State()), recipe, Loadable(recipe));
              && pool.State() == r.0
              && sequenceLength == |r.1|
              && forall i :: 0 <= i < sequenceLength ==> loadedSequence[i] == Some(r.1[i])
      ensures forall i :: Loadable(recipe) <= i < loadedSequence.Length ==> loadedSequence[i] == old(loadedSequence[i])
      ensures currentSequence == loadedSequence && currentIndex == 0
      ensures currentMovement == CW && timeRemaining == 0 && motorController == motor
    {
      currentSequence := null;
      sequenceLength := 0;
      currentIndex := 0;
      currentMovement := CW;
      timeRemaining := 0;
      motorController := null;

      var loader := new MovementLoader(pool);
      var loadedLength := loader.LoadSequence(recipe, loadedSequence);

      currentSequence := loadedSequence;
      sequenceLength := loadedLength;
      currentIndex := 0;
      motorController := motor;
    }

    /** agitation_interpreter_tick: past the end, or on an empty slot,
     *  nothing happens and the result is false; this is also what the
     *  zeroed state (no array, length 0) does, motor or not. Otherwise the
     *  current movement is executed once on the motor, which must then be
     *  set, its kind and remaining time are recorded, the index moves on
     *  exactly when the movement reported inactive, and the result is
     *  true, also on the tick that moved on. */
    method Tick(pool: MovementFactory) returns (r: bool)
      requires Valid(pool)
      requires currentIndex < sequenceLength && currentSequence[currentIndex].Some? ==> motorController != null
      modifies this, pool`nodes, motorController
      ensures Valid(pool)
      ensures currentSequence == old(currentSequence) && sequenceLength == old(sequenceLength)
      ensures motorController == old(motorController)
      ensures old(currentIndex) >= sequenceLength || currentSequence[old(currentIndex)].None? ==>
                && !r && currentIndex == old(currentIndex) && pool.nodes == old(pool.nodes)
                && (motorController != null ==> motorController.log == old(motorController.log))
                && currentMovement == old(currentMovement) && timeRemaining == old(timeRemaining)
      ensures old(currentIndex) < sequenceLength && currentSequence[old(currentIndex)].Some? ==>
                var h := currentSequence[old(currentIndex)].value;
                var s := Step(old(pool.nodes), h);
                && r
                && pool.nodes == s.nodes
                && motorController.log == old(motorController.log) + s.calls
                && currentMovement == GetType(s.nodes[h])
                && timeRemaining == RecordedTimeRemaining(s.nodes[h])
                && currentIndex == if s.active then old(currentIndex) else old(currentIndex) + 1
    {
      if currentIndex >= sequenceLength {
        return false;
      }
      var current := currentSequence[currentIndex];
      if current.Some? {
        StepKeepsWellFormed(pool.nodes, current.value);
        var movementActive := LoopMovement.Execute(pool, current.value, motorController);
        var m := pool.nodes[current.value];
        currentMovement := GetType(m);
        timeRemaining := Sub32(GetDuration(m), if IsComplete(m) then 0 else 1);
        if !movementActive {
          currentIndex := currentIndex + 1;
        }
        return true;
      }
      return false;
    }

    /** agitation_interpreter_reset: init again with an empty recipe,
     *  keeping the motor. The pool and the shared array are left as they
     *  were, and every later tick returns false. */
    method Reset(pool: MovementFactory, loadedSequence: array<Option<Handle>>)
      requires pool.Valid() && loadedSequence.Length == MAX_SEQUENCE_LENGTH
      modifies this, pool, loadedSequence
      ensures pool.Valid() && Valid(pool)
      ensures pool.State() == old(pool.State()) && loadedSequence[..] == old(loadedSequence[..])
      ensures currentSequence == loadedSequence && sequenceLength == 0 && currentIndex == 0
      ensures currentMovement == CW && timeRemaining == 0 && motorController == old(motorController)
    {
      Init([], pool, loadedSequence, motorController);
      assert forall i :: 0 <= i < loadedSequence.Length ==> loadedSequence[i] == old(loadedSequence[i]);
    }
  }
}
