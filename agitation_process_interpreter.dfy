/** The process interpreter (agitation_process_interpreter.hpp and
 *  agitation_process_interpreter.cpp): a two-level state machine over the
 *  steps of a process and the movements loaded for the current step, with
 *  a checkpoint gate, confirm, skip and reset.
 *
 *  The functions on `Snapshot` say what each operation does to the
 *  interpreter's observable state; the class holds the imperative
 *  operations, each proved equal to its function. */
module AgitationProcessInterpreter {
  import opened Wrappers
  import opened MotorControl
  import opened Movement
  import opened MovementFactory
  import opened AgitationSequence
  import opened MovementLoader
  import opened LoopMovement

  /** AgitationProcessState. */
  datatype ProcessState = Idle | Running | Complete | Error

  /** The size of the buffer the next-step message is formatted into,
   *  terminating NUL included. */
  const MESSAGE_BUFFER_SIZE: nat := 32

  /** The interpreter's state as a value: the pool, the loaded-pointer
   *  array, the position in the loaded sequence and in the process, the
   *  process state and the target temperature. */
  datatype Snapshot = Snapshot(pool: Pool, slots: seq<Option<Handle>>, sequenceLength: nat,
                               movementIndex: nat, stepIndex: nat, state: ProcessState,
                               target: Temperature)

  /** The loaded-pointer array holding `hs` at the front and nothing else. */
  function Slots(hs: seq<Handle>): (r: seq<Option<Handle>>)
    requires |hs| <= MAX_SEQUENCE_LENGTH
    ensures |r| == MAX_SEQUENCE_LENGTH
    ensures forall i :: 0 <= i < |hs| ==> r[i] == Some(hs[i])
    ensures forall i :: |hs| <= i < MAX_SEQUENCE_LENGTH ==> r[i] == None
  {
    seq(MAX_SEQUENCE_LENGTH, i requires 0 <= i < MAX_SEQUENCE_LENGTH => if i < |hs| then Some(hs[i]) else None)
  }

  /** An array of MAX_SEQUENCE_LENGTH slots holding `hs` at the front and
   *  nothing after it is `Slots(hs)`. */
  lemma SlotsExact(a: seq<Option<Handle>>, hs: seq<Handle>)
    requires |a| == MAX_SEQUENCE_LENGTH && |hs| <= MAX_SEQUENCE_LENGTH
    requires forall i :: 0 <= i < |hs| ==> a[i] == Some(hs[i])
    requires forall i :: |hs| <= i < MAX_SEQUENCE_LENGTH ==> a[i] == None
    ensures a == Slots(hs)
  {
  }

  /** The pool is valid, the movement index is within the loaded sequence,
   *  and every loaded slot holds a live movement. */
  predicate SnapValid(s: Snapshot)
  {
    && PoolValid(s.pool)
    && |s.slots| == MAX_SEQUENCE_LENGTH
    && s.sequenceLength <= MAX_SEQUENCE_LENGTH
    && s.movementIndex <= s.sequenceLength
    && forall i :: 0 <= i < s.sequenceLength ==> s.slots[i].Some? && s.slots[i].value < |s.pool.nodes|
  }

  /** The step index names a step, or is 0. */
  predicate StepInRange(s: Snapshot, stepsLength: nat)
  {
    s.stepIndex == 0 || s.stepIndex < stepsLength
  }

  /** getCurrentMovement: the movement at the movement index, if the index
   *  is within the loaded sequence. */
  function CurrentHandle(s: Snapshot): (r: Option<Handle>)
    requires SnapValid(s)
    ensures r.Some? ==> r.value < |s.pool.nodes|
    ensures r.Some? <==> s.movementIndex < s.sequenceLength
  {
    if s.movementIndex >= s.sequenceLength then None else s.slots[s.movementIndex]
  }

  /** isWaitingForUser: the current movement is a checkpoint. */
  predicate WaitingForUser(s: Snapshot)
    requires SnapValid(s)
  {
    CurrentHandle(s).Some? && GetType(s.pool.nodes[CurrentHandle(s).value]) == WaitUser
  }

  /** A checkpoint is waited for exactly when the current movement is a
   *  WaitUser movement. */
  lemma WaitingForCheckpoint(s: Snapshot)
    requires SnapValid(s)
    ensures WaitingForUser(s) <==> CurrentHandle(s).Some? && s.pool.nodes[CurrentHandle(s).value].WaitUserMovement?
  {
    if CurrentHandle(s).Some? {
      assert Inv(s.pool.nodes[CurrentHandle(s).value]);
    }
  }

  /** advanceToNextMovement: within the loaded sequence, move one on and
   *  reset the movement moved to, if there is one; past it, nothing. */
  function AdvanceMovement(s: Snapshot): (r: Snapshot)
    requires SnapValid(s)
    ensures SnapValid(r)
    ensures r.slots == s.slots && r.sequenceLength == s.sequenceLength && r.stepIndex == s.stepIndex
    ensures r.state == s.state && r.target == s.target && r.pool.index == s.pool.index
    ensures s.movementIndex < s.sequenceLength ==> r.movementIndex == s.movementIndex + 1
    ensures s.movementIndex >= s.sequenceLength ==> r == s
  {
    if s.movementIndex < s.sequenceLength then
      var next := s.movementIndex + 1;
      if next < s.sequenceLength && s.slots[next].Some? then
        s.(movementIndex := next, pool := s.pool.(nodes := ResetTree(s.pool.nodes, s.slots[next].value)))
      else
        s.(movementIndex := next)
    else
      s
  }

  /** advanceToNextStep: only when a next step exists, move to it, go
   *  Idle and drop the loaded sequence. On the last step, nothing. */
  function AdvanceStep(s: Snapshot, stepsLength: nat): (r: Snapshot)
    requires SnapValid(s)
    ensures SnapValid(r)
    ensures s.stepIndex + 1 < stepsLength ==>
              r == s.(stepIndex := s.stepIndex + 1, state := Idle, sequenceLength := 0, movementIndex := 0)
    ensures s.stepIndex + 1 >= stepsLength ==> r == s
  {
    if !(s.stepIndex + 1 < stepsLength) then s
    else s.(stepIndex := s.stepIndex + 1, state := Idle, sequenceLength := 0, movementIndex := 0)
  }

  /** The step index never passes the last step. */
  lemma AdvanceStepStaysInRange(s: Snapshot, stepsLength: nat)
    requires SnapValid(s) && StepInRange(s, stepsLength)
    ensures StepInRange(AdvanceStep(s, stepsLength), stepsLength)
    ensures stepsLength > 0 ==> AdvanceStep(s, stepsLength).stepIndex <= stepsLength - 1
  {
  }

  /** initializeMovementSequence: clear the array, load the step's recipe
   *  into it, start at its first movement, and reset every loaded
   *  movement in order. If nothing loaded, the state becomes Error. */
  function InitializeSequence(s: Snapshot, step: StepStatic): (r: Snapshot)
    requires SnapValid(s)
    ensures SnapValid(r)
    ensures r.movementIndex == 0 && r.stepIndex == s.stepIndex && r.target == s.target
    ensures r.sequenceLength == 0 ==> r.state == Error
    ensures r.sequenceLength > 0 ==> r.state == s.state
    ensures s.pool.index <= r.pool.index && |s.pool.nodes| <= |r.pool.nodes| && r.pool.sizes == s.pool.sizes
  {
    var loaded := LoadSequenceIn(s.pool, step.sequence, Loadable(step.sequence));
    if |loaded.1| == 0 then
      s.(pool := loaded.0, slots := Slots([]), sequenceLength := 0, movementIndex := 0, state := Error)
    else
      var nodes := ResetSeq(loaded.0.nodes, loaded.1, |loaded.0.nodes|);
      s.(pool := loaded.0.(nodes := nodes), slots := Slots(loaded.1), sequenceLength := |loaded.1|, movementIndex := 0)
  }

  /** `InitializeSequence` field by field: the pool the load and the resets
   *  leave, the slots holding the loaded handles, and Error exactly when
   *  nothing loaded. */
  lemma InitializeSequenceIs(s: Snapshot, step: StepStatic, pool: Pool, slots: seq<Option<Handle>>, state: ProcessState)
    requires SnapValid(s)
    requires var loaded := LoadSequenceIn(s.pool, step.sequence, Loadable(step.sequence));
             && slots == Slots(loaded.1)
             && pool == (if |loaded.1| == 0 then loaded.0
                         else loaded.0.(nodes := ResetSeq(loaded.0.nodes, loaded.1, |loaded.0.nodes|)))
             && state == (if |loaded.1| == 0 then Error else s.state)
    ensures var loaded := LoadSequenceIn(s.pool, step.sequence, Loadable(step.sequence));
            InitializeSequence(s, step)
            == s.(pool := pool, slots := slots, sequenceLength := |loaded.1|, movementIndex := 0, state := state)
  {
  }

  /** What one tick did: the state afterwards, the returned flag and the
   *  motor commands. */
  datatype TickOutcome = TickOutcome(after: Snapshot, result: bool, calls: seq<MotorCall>)

  /** The execute of the current movement, if there is one. */
  function ExecuteCurrent(s: Snapshot): (o: TickOutcome)
    requires SnapValid(s)
    ensures SnapValid(o.after)
    ensures o.after.slots == s.slots && o.after.sequenceLength == s.sequenceLength
    ensures o.after.movementIndex == s.movementIndex && o.after.stepIndex == s.stepIndex
    ensures o.after.state == s.state && o.after.target == s.target
    ensures o.after.pool.index == s.pool.index && |o.after.pool.nodes| == |s.pool.nodes|
    ensures CurrentHandle(s).None? ==> o == TickOutcome(s, false, [])
  {
    match CurrentHandle(s)
    case None => TickOutcome(s, false, [])
    case Some(h) =>
      StepKeepsWellFormed(s.pool.nodes, h);
      var r := Step(s.pool.nodes, h);
      TickOutcome(s.(pool := s.pool.(nodes := r.nodes)), r.active, r.calls)
  }

  /** tick. Past the last step, or in Error, report false (and mark the
   *  process Complete unless it is in Error). Otherwise take the step's
   *  temperature as the target; when Idle or Complete, load the step and
   *  go Running (whatever the load did to the state). A current
   *  checkpoint holds the tick: true, nothing executed. Otherwise execute
   *  the current movement; when it reports inactive, move to the next
   *  movement; when no movement is active and the sequence is used up,
   *  move to the next step. The result is the movement's flag or'ed with
   *  "the step index names a step". */
  function TickSpec(s: Snapshot, process: ProcessStatic): (o: TickOutcome)
    requires SnapValid(s)
    ensures SnapValid(o.after)
  {
    if s.stepIndex >= |process.steps| || s.state == Error then
      TickOutcome(s.(state := if s.state == Error then Error else Complete), false, [])
    else
      RunCurrent(Prepare(s, process), |process.steps|)
  }

  /** The first half of a tick on an existing step: the step's
   *  temperature becomes the target and, when Idle or Complete, the step
   *  is loaded and the process goes Running. */
  function Prepare(s: Snapshot, process: ProcessStatic): (r: Snapshot)
    requires SnapValid(s) && s.stepIndex < |process.steps|
    ensures SnapValid(r) && r.stepIndex == s.stepIndex && r.target == process.steps[s.stepIndex].temperature
    ensures s.state != Error ==> r.state == Running
    ensures s.pool.index <= r.pool.index && |s.pool.nodes| <= |r.pool.nodes|
    ensures s.state == Running ==> r == s.(target := process.steps[s.stepIndex].temperature)
  {
    var step := process.steps[s.stepIndex];
    var s1 := s.(target := step.temperature);
    if s.state == Idle || s.state == Complete then InitializeSequence(s1, step).(state := Running)
    else assert s.state.Running? || s.state.Error?; s1
  }

  /** The second half: the checkpoint gate, the execute of the current
   *  movement and the moves to the next movement and the next step. */
  function RunCurrent(s: Snapshot, stepsLength: nat): (o: TickOutcome)
    requires SnapValid(s)
    ensures SnapValid(o.after)
  {
    if WaitingForUser(s) then
      TickOutcome(s, true, [])
    else
      var executed := ExecuteCurrent(s);
      var s3 := executed.after;
      var s4 := if CurrentHandle(s).Some? && !executed.result then AdvanceMovement(s3) else s3;
      var s5 := if !executed.result && s4.movementIndex >= s4.sequenceLength then AdvanceStep(s4, stepsLength) else s4;
      TickOutcome(s5, executed.result || s5.stepIndex < stepsLength, executed.calls)
  }

  /** What a tick guarantees about the process as a whole. The Error state
   *  never survives a tick that did not start in it: a load that yields
   *  nothing sets Error, and the same tick overwrites it with Running. A
   *  process with at least one step never gets a false result, so the
   *  tick never signals completion. The step index moves by at most one,
   *  only to an existing step, and a step change leaves the process Idle;
   *  otherwise it is Running. The pool only fills up. */
  lemma TickInvariants(s: Snapshot, process: ProcessStatic)
    requires SnapValid(s) && StepInRange(s, |process.steps|)
    ensures var o := TickSpec(s, process);
            && StepInRange(o.after, |process.steps|)
            && (s.state == Error ==> o == TickOutcome(s, false, []))
            && (s.state != Error ==> o.after.state != Error)
            && (s.state != Error ==> (o.result <==> |process.steps| > 0))
            && (|process.steps| == 0 ==> !o.result && (s.state != Error ==> o.after.state == Complete))
            && (|process.steps| > 0 && s.state != Error ==>
                  || (o.after.stepIndex == s.stepIndex && o.after.state == Running)
                  || (o.after.stepIndex == s.stepIndex + 1 < |process.steps| && o.after.state == Idle))
            && s.pool.index <= o.after.pool.index && |s.pool.nodes| <= |o.after.pool.nodes|
  {
    if s.stepIndex < |process.steps| && s.state != Error {
      RunningStepInvariants(Prepare(s, process), |process.steps|);
    }
  }

  /** The second half of a tick on a running step reports true, keeps the
   *  step Running or moves to the next step, Idle, and only grows the
   *  pool. */
  lemma RunningStepInvariants(p: Snapshot, stepsLength: nat)
    requires SnapValid(p) && p.state == Running && p.stepIndex < stepsLength
    ensures var o := RunCurrent(p, stepsLength);
            && o.result
            && ((o.after.stepIndex == p.stepIndex && o.after.state == Running)
                || (o.after.stepIndex == p.stepIndex + 1 < stepsLength && o.after.state == Idle))
            && p.pool.index <= o.after.pool.index && |p.pool.nodes| <= |o.after.pool.nodes|
  {
  }

  /** While the current movement is a checkpoint, a tick on a running
   *  step only updates the target temperature and reports true: nothing
   *  is executed and no index moves. */
  lemma CheckpointHoldsTick(s: Snapshot, process: ProcessStatic)
    requires SnapValid(s) && s.state == Running && s.stepIndex < |process.steps| && WaitingForUser(s)
    ensures TickSpec(s, process) == TickOutcome(s.(target := process.steps[s.stepIndex].temperature), true, [])
  {
  }

  /** Once the last step's sequence is used up, every tick reports true
   *  and changes nothing but the target temperature: the process never
   *  signals that it is done. */
  lemma LastStepNeverFinishes(s: Snapshot, process: ProcessStatic)
    requires SnapValid(s) && s.state == Running
    requires |process.steps| > 0 && s.stepIndex == |process.steps| - 1
    requires s.movementIndex >= s.sequenceLength
    ensures TickSpec(s, process) == TickOutcome(s.(target := process.steps[s.stepIndex].temperature), true, [])
  {
  }

  /** A running tick executes the current movement once; while it reports
   *  active nothing else moves, and when it reports inactive the next
   *  movement becomes current and is reset. */
  lemma RunningTickExecutesCurrent(s: Snapshot, process: ProcessStatic)
    requires SnapValid(s) && s.state == Running && s.stepIndex < |process.steps|
    requires CurrentHandle(s).Some? && !WaitingForUser(s)
    ensures var h := CurrentHandle(s).value;
            var step := Step(s.pool.nodes, h);
            var o := TickSpec(s, process);
            && o.calls == step.calls && o.result
            && (step.active ==> o.after == s.(target := process.steps[s.stepIndex].temperature,
                                              pool := s.pool.(nodes := step.nodes)))
            && (!step.active && s.movementIndex + 1 < s.sequenceLength ==>
                  o.after == s.(target := process.steps[s.stepIndex].temperature,
                                movementIndex := s.movementIndex + 1,
                                pool := s.pool.(nodes := ResetTree(step.nodes, s.slots[s.movementIndex + 1].value))))
  {
  }

  /** When the last movement of the sequence reports inactive, the same
   *  tick leaves the sequence. On any step but the last the process moves
   *  to the next step, goes Idle and drops the sequence; on the last step
   *  only the movement index moves past the end. Either way the tick
   *  reports true with the movement's motor commands. */
  lemma LastMovementEndsStep(s: Snapshot, process: ProcessStatic)
    requires SnapValid(s) && s.state == Running && s.stepIndex < |process.steps|
    requires CurrentHandle(s).Some? && !WaitingForUser(s) && s.movementIndex + 1 == s.sequenceLength
    requires !Step(s.pool.nodes, CurrentHandle(s).value).active
    ensures var step := Step(s.pool.nodes, CurrentHandle(s).value);
            var t := process.steps[s.stepIndex].temperature;
            var o := TickSpec(s, process);
            && o.calls == step.calls && o.result
            && (s.stepIndex + 1 < |process.steps| ==>
                  o.after == s.(target := t, pool := s.pool.(nodes := step.nodes), stepIndex := s.stepIndex + 1,
                                state := Idle, sequenceLength := 0, movementIndex := 0))
            && (s.stepIndex + 1 >= |process.steps| ==>
                  o.after == s.(target := t, pool := s.pool.(nodes := step.nodes), movementIndex := s.sequenceLength))
  {
    var p := Prepare(s, process);
    assert p == s.(target := process.steps[s.stepIndex].temperature);
    assert WaitingForUser(p) == WaitingForUser(s);
    assert CurrentHandle(p) == CurrentHandle(s);
  }

  /** A running tick on a step whose sequence is used up (or loaded
   *  nothing) executes nothing and, unless this is the last step, moves
   *  to the next step, Idle, with the sequence dropped, and reports
   *  true. */
  lemma UsedUpSequenceAdvancesStep(s: Snapshot, process: ProcessStatic)
    requires SnapValid(s) && s.state == Running && s.stepIndex + 1 < |process.steps|
    requires s.movementIndex >= s.sequenceLength
    ensures TickSpec(s, process)
            == TickOutcome(s.(target := process.steps[s.stepIndex].temperature, stepIndex := s.stepIndex + 1,
                              state := Idle, sequenceLength := 0, movementIndex := 0), true, [])
  {
    var p := Prepare(s, process);
    assert p == s.(target := process.steps[s.stepIndex].temperature);
    assert CurrentHandle(p).None?;
  }

  /** confirm: only while a checkpoint is current. On the last step it
   *  moves past the checkpoint; otherwise it moves to the next step and
   *  drops the rest of this step's sequence. */
  function ConfirmSpec(s: Snapshot, stepsLength: nat): (r: Snapshot)
    requires SnapValid(s)
    ensures SnapValid(r)
    ensures !WaitingForUser(s) ==> r == s
    ensures WaitingForUser(s) && s.stepIndex + 1 >= stepsLength ==>
              r.movementIndex == s.movementIndex + 1 && r.stepIndex == s.stepIndex && r.state == s.state
    ensures WaitingForUser(s) && s.stepIndex + 1 < stepsLength ==>
              r == s.(stepIndex := s.stepIndex + 1, state := Idle, sequenceLength := 0, movementIndex := 0)
  {
    if WaitingForUser(s) then
      if s.stepIndex + 1 >= stepsLength then AdvanceMovement(s) else AdvanceStep(s, stepsLength)
    else
      s
  }

  /** confirm never marks the checkpoint acknowledged; on the last step
   *  the checkpoint is simply left behind, and elsewhere it is dropped
   *  with its step. */
  lemma ConfirmLeavesCheckpointWaiting(s: Snapshot, stepsLength: nat)
    requires SnapValid(s) && WaitingForUser(s) && s.stepIndex + 1 < stepsLength
    ensures ConfirmSpec(s, stepsLength).pool == s.pool
  {
  }

  class AgitationProcessInterpreter {
    var process: Option<ProcessStatic>
    var currentStepIndex: nat
    var processState: ProcessState
    var currentTemperature: Temperature
    var targetTemperature: Temperature
    var motorController: MotorController?
    /** The pool (shared by every interpreter) and a loader bound to it. */
    const movementFactory: MovementFactory
    const movementLoader: MovementLoader
    const loadedSequence: array<Option<Handle>>
    var sequenceLength: nat
    var currentMovementIndex: nat
    var timeRemaining: U32

    function Snap(): Snapshot
      reads this, loadedSequence, movementFactory
    {
      Snapshot(movementFactory.State(), loadedSequence[..], sequenceLength, currentMovementIndex,
               currentStepIndex, processState, targetTemperature)
    }

    function StepsLength(): nat
      reads this
    {
      if process.Some? then |process.value.steps| else 0
    }

    /** The loader builds in this interpreter's pool, the pool is valid,
     *  and the snapshot is valid. */
    ghost predicate Consistent()
      reads this, loadedSequence, movementFactory
    {
      && loadedSequence.Length == MAX_SEQUENCE_LENGTH
      && movementLoader.factory == movementFactory
      && movementFactory.Valid()
      && SnapValid(Snap())
    }

    /** Consistent, and the step index names a step (or is 0). */
    ghost predicate Valid()
      reads this, loadedSequence, movementFactory
    {
      Consistent() && StepInRange(Snap(), StepsLength())
    }

    /** The constructor: no process, step 0, Idle, both temperatures at
     *  20 degrees, no motor, an empty loaded sequence. */
    constructor (factory: MovementFactory)
      requires factory.Valid()
      ensures Valid() && fresh(loadedSequence)
      ensures movementFactory == factory && process == None && motorController == null
      ensures currentStepIndex == 0 && processState == Idle && sequenceLength == 0 && currentMovementIndex == 0
      ensures currentTemperature == 20.0 && targetTemperature == 20.0 && timeRemaining == 0
      ensures forall i :: 0 <= i < loadedSequence.Length ==> loadedSequence[i] == None
    {
      process := None;
      currentStepIndex := 0;
      processState := Idle;
      currentTemperature := 20.0;
      targetTemperature := 20.0;
      motorController := null;
      movementFactory := factory;
      movementLoader := new MovementLoader(factory);
      loadedSequence := new Option<Handle>[MAX_SEQUENCE_LENGTH](_ => None);
      sequenceLength := 0;
      currentMovementIndex := 0;
      timeRemaining := 0;
    }

    /** init: bind the process and motor and start at step 0, Idle, with
     *  no loaded sequence and the process's temperature as the target. */
    method Init(process: ProcessStatic, motor: MotorController?)
      requires Consistent()
      modifies this
      ensures Valid()
      ensures this.process == Some(process) && motorController == motor
      ensures Snap() == old(Snap()).(stepIndex := 0, state := Idle, target := process.temperature,
                                     sequenceLength := 0, movementIndex := 0)
      ensures currentTemperature == 20.0
    {
      this.process := Some(process);
      motorController := motor;
      currentStepIndex := 0;
      processState := Idle;
      currentTemperature := 20.0;
      targetTemperature := process.temperature;
      sequenceLength := 0;
      currentMovementIndex := 0;
    }

    /** reset: init again with the same process and motor. */
    method Reset()
      requires Consistent() && process.Some?
      modifies this
      ensures Valid()
      ensures process == old(process) && motorController == old(motorController)
      ensures Snap() == old(Snap()).(stepIndex := 0, state := Idle, target := process.value.temperature,
                                     sequenceLength := 0, movementIndex := 0)
    {
      Init(process.value, motorController);
    }

    /** initializeMovementSequence. */
    method InitializeMovementSequence(step: StepStatic)
      requires Consistent()
      modifies this`sequenceLength, this`currentMovementIndex, this`processState, loadedSequence, movementFactory
      ensures Snap() == InitializeSequence(old(Snap()), step)
      ensures Consistent()
      ensures process == old(process) && motorController == old(motorController)
    {
      ghost var s := Snap();
      ghost var loaded := LoadSequenceIn(s.pool, step.sequence, Loadable(step.sequence));
      LoadStepSequence(step);
      ghost var s1 := Snap();
      if sequenceLength == 0 {
        processState := Error;
        InitializeSequenceIs(s, step, s1.pool, s1.slots, Error);
        return;
      }
      ResetLoadedMovements(loaded.1);
      assert Snap() == s1.(pool := s1.pool.(nodes := movementFactory.nodes));
      InitializeSequenceIs(s, step, Snap().pool, s1.slots, s.state);
    }

    /** The first half of initializeMovementSequence: clear the array, load
     *  the step's recipe into it and start at its first movement. */
    method LoadStepSequence(step: StepStatic)
      requires Consistent()
      modifies this`sequenceLength, this`currentMovementIndex, loadedSequence, movementFactory
      ensures Consistent()
      ensures var loaded := LoadSequenceIn(old(Snap()).pool, step.sequence, Loadable(step.sequence));
              Snap() == old(Snap()).(pool := loaded.0, slots := Slots(loaded.1), sequenceLength := |loaded.1|,
                                     movementIndex := 0)
    {
      ghost var loaded := LoadSequenceIn(movementFactory.State(), step.sequence, Loadable(step.sequence));
      ClearLoadedSequence();
      sequenceLength := movementLoader.LoadSequence(step.sequence, loadedSequence);
      SlotsExact(loadedSequence[..], loaded.1);
      currentMovementIndex := 0;
    }

    /** The memset of the loaded-pointer array. */
    method ClearLoadedSequence()
      modifies loadedSequence
      ensures forall i :: 0 <= i < loadedSequence.Length ==> loadedSequence[i] == None
    {
      forall i | 0 <= i < loadedSequence.Length {
        loadedSequence[i] := None;
      }
    }

    /** The reset loop of initializeMovementSequence: every loaded
     *  movement, in order. */
    method ResetLoadedMovements(ghost hs: seq<Handle>)
      requires movementFactory.Valid() && sequenceLength == |hs| <= loadedSequence.Length
      requires forall i :: 0 <= i < |hs| ==> loadedSequence[i] == Some(hs[i]) && hs[i] < |movementFactory.nodes|
      modifies movementFactory`nodes
      ensures movementFactory.Valid()
      ensures movementFactory.nodes == ResetSeq(old(movementFactory.nodes), hs, |old(movementFactory.nodes)|)
    {
      ghost var start := movementFactory.nodes;
      for i := 0 to sequenceLength
        invariant movementFactory.Valid()
        invariant movementFactory.nodes == ResetSeq(start, hs[..i], |start|)
      {
        assert hs[..i + 1][..i] == hs[..i];
        LoopMovement.Reset(movementFactory, loadedSequence[i].value);
      }
      assert hs[..sequenceLength] == hs;
    }

    /** advanceToNextMovement. */
    method AdvanceToNextMovement()
      requires Consistent()
      modifies this, movementFactory`nodes
      ensures Consistent()
      ensures Snap() == AdvanceMovement(old(Snap()))
      ensures process == old(process) && motorController == old(motorController)
    {
      if currentMovementIndex < sequenceLength {
        currentMovementIndex := currentMovementIndex + 1;
        if currentMovementIndex < sequenceLength && loadedSequence[currentMovementIndex].Some? {
          LoopMovement.Reset(movementFactory, loadedSequence[currentMovementIndex].value);
        }
      }
    }

    /** advanceToNextStep. The source's reset loop over the loaded
     *  movements runs after the sequence length is set to 0, so it runs
     *  over nothing; it is left out. */
    method AdvanceToNextStep()
      requires Consistent() && process.Some?
      modifies this
      ensures Consistent()
      ensures process == old(process) && motorController == old(motorController)
      ensures Snap() == AdvanceStep(old(Snap()), |process.value.steps|)
    {
      if !(currentStepIndex + 1 < |process.value.steps|) {
        return;
      }
      currentStepIndex := currentStepIndex + 1;
      processState := Idle;
      sequenceLength := 0;
      currentMovementIndex := 0;
    }

    /** skipToNextStep: the same as advanceToNextStep. */
    method SkipToNextStep()
      requires Consistent() && process.Some?
      modifies this
      ensures Consistent()
      ensures process == old(process) && motorController == old(motorController)
      ensures Snap() == AdvanceStep(old(Snap()), |process.value.steps|)
    {
      AdvanceToNextStep();
    }

    /** tick. */
    method Tick() returns (r: bool)
      requires Consistent() && process.Some? && motorController != null
      modifies this, loadedSequence, movementFactory, motorController
      ensures Consistent()
      ensures process == old(process) && motorController == old(motorController)
      ensures var o := TickSpec(old(Snap()), process.value);
              && Snap() == o.after && r == o.result
              && motorController.log == old(motorController.log) + o.calls
    {
      var steps := process.value.steps;
      if currentStepIndex >= |steps| || processState == Error {
        processState := if processState == Error then Error else Complete;
        return false;
      }
      var currentStep := steps[currentStepIndex];
      targetTemperature := currentStep.temperature;
      if processState == Idle || processState == Complete {
        InitializeMovementSequence(currentStep);
        processState := Running;
      }
      r := RunCurrentMovement();
    }

    /** The part of tick after the step is prepared. */
    method RunCurrentMovement() returns (r: bool)
      requires Consistent() && process.Some? && motorController != null
      modifies this, movementFactory`nodes, motorController
      ensures Consistent()
      ensures process == old(process) && motorController == old(motorController)
      ensures var o := RunCurrent(old(Snap()), |process.value.steps|);
              && Snap() == o.after && r == o.result
              && motorController.log == old(motorController.log) + o.calls
    {
      var movementActive := false;
      if currentMovementIndex < sequenceLength {
        var currentMovement := loadedSequence[currentMovementIndex];
        if currentMovement.Some? {
          if GetType(movementFactory.nodes[currentMovement.value]) == WaitUser {
            return true;
          }
          StepKeepsWellFormed(movementFactory.nodes, currentMovement.value);
          movementActive := LoopMovement.Execute(movementFactory, currentMovement.value, motorController);
          if !movementActive {
            AdvanceToNextMovement();
          }
        }
      }
      if !movementActive && currentMovementIndex >= sequenceLength {
        AdvanceToNextStep();
      }
      return movementActive || currentStepIndex < |process.value.steps|;
    }

    /** confirm. */
    method Confirm()
      requires Consistent() && process.Some?
      modifies this, movementFactory`nodes
      ensures Consistent()
      ensures process == old(process) && motorController == old(motorController)
      ensures Snap() == ConfirmSpec(old(Snap()), |process.value.steps|)
    {
      if IsWaitingForUser() {
        if currentStepIndex + 1 >= |process.value.steps| {
          AdvanceToNextMovement();
        } else {
          AdvanceToNextStep();
        }
      }
    }

    /** isWaitingForUser: the current movement is a checkpoint. */
    function IsWaitingForUser(): (r: bool)
      reads this, loadedSequence, movementFactory
      requires Consistent()
      ensures r <==> CurrentHandle(Snap()).Some?
                     && movementFactory.nodes[CurrentHandle(Snap()).value].WaitUserMovement?
      ensures r == WaitingForUser(Snap())
    {
      WaitingForCheckpoint(Snap());
      if currentMovementIndex < sequenceLength && loadedSequence[currentMovementIndex].Some? then
        GetType(movementFactory.nodes[loadedSequence[currentMovementIndex].value]) == WaitUser
      else
        false
    }

    /** getCurrentMovementDuration: 0 when there is no current movement. */
    function GetCurrentMovementDuration(): (r: U32)
      reads this, loadedSequence, movementFactory
      requires Consistent()
      ensures CurrentHandle(Snap()).None? ==> r == 0
      ensures CurrentHandle(Snap()).Some? ==> r == GetDuration(movementFactory.nodes[CurrentHandle(Snap()).value])
    {
      if currentMovementIndex < sequenceLength && loadedSequence[currentMovementIndex].Some? then
        GetDuration(movementFactory.nodes[loadedSequence[currentMovementIndex].value])
      else
        0
    }

    /** getCurrentMovementTimeElapsed: 0 when there is no current movement. */
    function GetCurrentMovementTimeElapsed(): (r: U32)
      reads this, loadedSequence, movementFactory
      requires Consistent()
      ensures CurrentHandle(Snap()).None? ==> r == 0
      ensures CurrentHandle(Snap()).Some? ==> r == TimeElapsed(movementFactory.nodes[CurrentHandle(Snap()).value])
    {
      if currentMovementIndex < sequenceLength && loadedSequence[currentMovementIndex].Some? then
        TimeElapsed(movementFactory.nodes[loadedSequence[currentMovementIndex].value])
      else
        0
    }

    /** getCurrentMovementTimeRemaining: 0 when there is no current
     *  movement, and never more than the current movement's duration. */
    function GetCurrentMovementTimeRemaining(): (r: U32)
      reads this, loadedSequence, movementFactory
      requires Consistent()
      ensures CurrentHandle(Snap()).None? ==> r == 0
      ensures CurrentHandle(Snap()).Some? ==> r == TimeRemaining(movementFactory.nodes[CurrentHandle(Snap()).value])
      ensures r <= GetCurrentMovementDuration()
    {
      if currentMovementIndex < sequenceLength && loadedSequence[currentMovementIndex].Some? then
        TimeRemaining(movementFactory.nodes[loadedSequence[currentMovementIndex].value])
      else
        0
    }

    /** getCurrentStep: the current step, if there is a process and the
     *  step index names one of its steps. */
    function GetCurrentStep(): (r: Option<StepStatic>)
      reads this
      ensures r.Some? <==> process.Some? && currentStepIndex < |process.value.steps|
      ensures r.Some? ==> r.value == process.value.steps[currentStepIndex]
    {
      if process.None? || currentStepIndex >= |process.value.steps| then None
      else Some(process.value.steps[currentStepIndex])
    }

    /** getCurrentMovement: the current movement, if the movement index is
     *  within the loaded sequence. */
    function GetCurrentMovement(): (r: Option<Handle>)
      reads this, loadedSequence, movementFactory
      requires Consistent()
      ensures r == CurrentHandle(Snap())
      ensures r.Some? ==> currentMovementIndex < sequenceLength && r.value < |movementFactory.nodes|
      ensures currentMovementIndex < sequenceLength ==> r.Some?
    {
      if currentMovementIndex >= sequenceLength then None else loadedSequence[currentMovementIndex]
    }

    /** getUserMessage: "Finish" on the last step, otherwise "Next: "
     *  and the next step's name, cut to what fits the 32-byte buffer
     *  (31 bytes and the terminating NUL). */
    function GetUserMessage(): (r: CString)
      reads this
      requires process.Some?
      ensures currentStepIndex + 1 >= |process.value.steps| ==> r == "Finish"
      ensures currentStepIndex + 1 < |process.value.steps| ==>
                var full := "Next: " + process.value.steps[currentStepIndex + 1].name;
                && |r| < MESSAGE_BUFFER_SIZE
                && r <= full
                && (r == full || |r| == MESSAGE_BUFFER_SIZE - 1)
    {
      if currentStepIndex + 1 >= |process.value.steps| then "Finish"
      else
        var full: CString := "Next: " + process.value.steps[currentStepIndex + 1].name;
        if |full| < MESSAGE_BUFFER_SIZE then full else full[..MESSAGE_BUFFER_SIZE - 1]
    }
  }
}
