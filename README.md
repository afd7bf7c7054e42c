# Agitation engine of the film-developer app, modelled in Dafny

The film developer turns a static recipe (a tree of clockwise, counter-clockwise,
pause, loop and wait-for-user nodes) into live movement objects. It places them in
a fixed byte pool and then drives them one tick at a time. This project models
that engine in five layers, one Dafny module per source file:

- **Movements** (`movement.dfy`, `motor_movement.dfy`, `pause_movement.dfy`,
  `wait_user_movement.dfy`, `loop_movement.dfy`):
  - each movement is a value of the datatype `Movement`;
  - the live movements sit in an arena, the sequence `MovementFactory.nodes`, and are
    addressed by handle;
  - a loop holds the handles of its children, and each child was created before
    the loop, so it has a smaller handle;
  - `execute`, `isComplete` and `reset` are pure functions (`Tick`, `Step`,
    `ResetTree`) and also imperative methods on the arena (`Execute`, `Reset`);
  - each method is proved equal to its function.
- **The pool** (`movement_factory.dfy`):
  - a class with the bump index and the arena;
  - the size of each movement class is a parameter;
  - every `create*` is proved equal to `CreateIn`;
  - the regions the allocator hands out are tracked, so they can be proved
    consecutive and disjoint.
- **The loader** (`movement_loader.dfy`): the recursive recipe compiler. It is a
  class whose `LoadSequence`/`LoadMovement` methods are proved equal to the
  functions `LoadSequenceIn`/`LoadMovementIn`.
- **The legacy interpreter** (`agitation_interpreter.dfy`): an index walking a
  flat array of loaded movements.
- **The process interpreter** (`agitation_process_interpreter.dfy`):
  - a two-level state machine, over the steps of a process and over the movements
    loaded for the current step, with a checkpoint gate, confirm, skip and reset;
  - each method is proved equal to a function on a `Snapshot` of the
    interpreter's state;
  - lemmas state what ticks and confirms do over whole processes.

The motor (`motor_controller.dfy`) is an abstract controller. It records every
command in a ghost log, so each contract can say which commands an operation
issued, in which order. The recipe and process types (`agitation_sequence.dfy`)
carry the fields that the loader and the process interpreter read.
`agitation_sequence.hpp` is not part of this model.

Where the code and its comments or names disagree, the model follows the code:

- A loop does not reset its children when a pass wraps. On a later pass, each
  finished child is consumed in one tick without a motor command
  (`LoopMovement.FinishedChildConsumed`).
- A loop with an iteration count of 0 reports inactive at the end of every pass,
  because the count check has no `iterations > 0` guard
  (`LoopMovement.PassEndWithoutBound`). So the legacy `LOOP_CONTINUOUS` count does
  not make a loop run on (`AgitationInterpreter.ContinuousLoopEndsEveryPass`).
- The Error state that an empty load sets is overwritten with Running in the same
  tick, so a tick never leaves a process in Error (`TickInvariants`).
- On a non-empty process, `tick` never returns false. `advanceToNextStep` stops at
  the last step, so the process never signals completion (`TickInvariants`,
  `LastStepNeverFinishes`).
- `confirm` never calls `acknowledgeUser`. On the last step it moves past the
  checkpoint; elsewhere it drops the checkpoint with its step
  (`ConfirmLeavesCheckpointWaiting`).
- `advanceToNextStep` sets the sequence length to 0 before its reset loop, so
  the loop runs over nothing.
- The pool is never reset by the interpreters, so pool use only grows from tick
  to tick (`TickInvariants`).

## Model

| member | source | states |
|---|---|---|
| MotorControl.MotorController.Clockwise | motor_controller.hpp:5 | a clockwise command is appended to the motor's log |
| MotorControl.MotorController.CounterClockwise | motor_controller.hpp:6 | a counter-clockwise command is appended to the motor's log |
| MotorControl.MotorController.Stop | motor_controller.hpp:7 | a stop command is appended to the motor's log |
| Movement.NewMotorMovement | movement/motor_movement.hpp:6-12 | a new spin has the given kind and duration, elapsed time 0, and is in its constructed state |
| Movement.NewPauseMovement | movement/pause_movement.hpp:6-8 | a new pause has kind Pause, the given duration and elapsed time 0 |
| Movement.NewWaitUserMovement | movement/wait_user_movement.hpp:6 | a new checkpoint has the default duration 0, elapsed time 0 and no acknowledgement |
| Movement.NewLoopMovement | movement/loop_movement.hpp:7-16 | a new loop has duration equal to its maximum duration, exactly the given children and iteration count, and all counters at 0 |
| Movement.GetType | movement/movement.hpp:20 | the kind is the one the movement was built with: a spin is CW or CCW, and each other kind names exactly its variant |
| Movement.TimeRemaining | movement/movement.hpp:24-26 | the remaining time never exceeds the duration, and never wraps below 0 |
| Movement.ElapsedPlusRemaining | movement/movement.hpp:21-26 | elapsed plus remaining is the duration while the elapsed time has not passed it, and the remaining time is 0 once it has |
| MotorMovement.Tick | movement/motor_movement.hpp:14-32 | active iff not complete; an active tick adds 1 to the elapsed time and issues exactly one command (clockwise for CW, counter-clockwise otherwise); an inactive tick changes nothing and issues none; the shape and `elapsed <= duration` are kept |
| MotorMovement.Reset | movement/motor_movement.hpp:38-40 | reset gives back the constructed movement: elapsed 0, kind and duration kept |
| MotorMovement.RunLength | movement/motor_movement.hpp:14-32 | after k ticks the elapsed time is min(e + k, d), and the commands are min(k, d - e) copies of the spin's command |
| MotorMovement.ActiveExactlyDuration | movement/motor_movement.hpp:14-36 | from reset, the k-th execute is active iff k < duration, issues one command iff k < duration, and the first k calls issue min(k, d) commands: a spin of d takes d + 1 ticks |
| MotorMovement.Execute | movement/motor_movement.hpp:14-32 | the imperative execute changes the pool, the result and the motor log exactly as `Tick` says |
| MotorMovement.ResetAt | movement/motor_movement.hpp:38-40 | the imperative reset replaces the movement by `Reset` of it, and nothing else |
| PauseMovement.Tick | movement/pause_movement.hpp:10-25 | when complete: no change, no command, inactive; otherwise one stop and elapsed + 1, and active iff the pause is still not complete afterwards |
| PauseMovement.Reset | movement/pause_movement.hpp:31-34 | reset zeroes the elapsed time and keeps the duration |
| PauseMovement.RunLength | movement/pause_movement.hpp:10-25 | after k ticks the elapsed time is min(e + k, d), with one stop per tick that moved it |
| PauseMovement.ActiveCount | movement/pause_movement.hpp:10-29 | from reset, the k-th execute is active iff k + 1 < d and stops the motor iff k < d: a pause of d >= 1 takes d ticks, and a pause of 0 is inactive at once without a command |
| PauseMovement.Execute | movement/pause_movement.hpp:10-25 | the imperative execute changes the pool, the result and the motor log exactly as `Tick` says |
| PauseMovement.ResetAt | movement/pause_movement.hpp:31-34 | the imperative reset replaces the movement by `Reset` of it, and nothing else |
| WaitUserMovement.Tick | movement/wait_user_movement.hpp:8-15 | always exactly one stop command, the movement unchanged, and active iff not acknowledged |
| WaitUserMovement.Reset | movement/wait_user_movement.hpp:21-23 | reset clears the acknowledgement and keeps duration and elapsed time |
| WaitUserMovement.Acknowledge | movement/wait_user_movement.hpp:25-27 | acknowledging makes the checkpoint complete and keeps duration and elapsed time |
| WaitUserMovement.AcknowledgeThenTick | movement/wait_user_movement.hpp:14-27 | after an acknowledgement, execute is inactive and the checkpoint is complete; after a reset it is active again |
| WaitUserMovement.Execute | movement/wait_user_movement.hpp:8-15 | the imperative execute leaves the pool alone and issues exactly the stop that `Tick` says |
| WaitUserMovement.ResetAt | movement/wait_user_movement.hpp:21-23 | the imperative reset replaces the movement by `Reset` of it |
| WaitUserMovement.AcknowledgeUser | movement/wait_user_movement.hpp:25-27 | the imperative acknowledgeUser replaces the movement by `Acknowledge` of it |
| LoopMovement.UnboundedLoopNeverComplete | movement/loop_movement.hpp:40-43 | a loop with neither an iteration bound nor a duration bound is not complete, whatever its counters |
| LoopMovement.Step | movement/loop_movement.hpp:18-38 | execute of any movement: the arena size is kept, no movement created later is touched, and a complete movement is inactive; a complete non-checkpoint changes nothing and issues nothing |
| LoopMovement.StepKeepsWellFormed | movement/loop_movement.hpp:18-38 | every execute keeps the arena invariant (child index within the children, counters within set bounds) and changes no kind, duration, child list or iteration count |
| LoopMovement.StepFrame | movement/loop_movement.hpp:31 | an execute changes only the movements the executed one reaches through its children |
| LoopMovement.FinishedChildConsumed | movement/loop_movement.hpp:23-37 | a loop whose current child is already complete moves past that child in one active tick without a motor command, since a pass wrap does not reset the children |
| LoopMovement.PassEndWithoutBound | movement/loop_movement.hpp:23-28 | with iteration count 0, the end of every pass rewinds the index, counts the pass, runs no child and reports inactive |
| LoopMovement.UnboundedLoopRunsForever | movement/loop_movement.hpp:40-43 | a loop with neither an iteration bound nor a duration bound is still incomplete after any number of ticks |
| LoopMovement.ResetTree | movement/loop_movement.hpp:45-52 | reset of any movement keeps the arena invariant and every shape, and touches no movement created later |
| LoopMovement.ResetSeq | movement/loop_movement.hpp:49-51 | resetting a list of movements in order keeps the arena invariant and every shape, and touches nothing at or above the bound |
| LoopMovement.ResetTreeFresh | movement/loop_movement.hpp:45-52 | after reset, every movement the reset one reaches is in its constructed state, and every other movement is unchanged |
| LoopMovement.ResetSeqFresh | movement/loop_movement.hpp:49-51 | after resetting a list, everything the list reaches is in its constructed state and nothing else changed |
| LoopMovement.ResetIdempotent | movement/loop_movement.hpp:45-52 | reset twice is the same as reset once |
| LoopMovement.Execute | movement/loop_movement.hpp:18-38 | the imperative execute, recursive through the children, changes the arena, the result and the motor log exactly as `Step` says |
| LoopMovement.Reset | movement/loop_movement.hpp:45-52 | the imperative reset, with its loop over the children, leaves the arena as `ResetTree` says |
| MovementFactory.CreateIn | movement/movement_factory.hpp:23-33 | a create succeeds iff the movement's size fits; on success the movement is appended, its handle is the old count, and the index grows by exactly its size; on failure the pool is unchanged |
| MovementFactory.ConsecutiveDisjoint | movement/movement_factory.hpp:127-128 | regions handed out since the last reset never overlap: each ends at or before the start of every later one |
| MovementFactory.MovementFactory.constructor | movement/movement_factory.hpp:132-134 | a new pool is empty, with index 0 |
| MovementFactory.MovementFactory.GetAvailableSpace | movement/movement_factory.hpp:15-17 | index plus available space is the pool size |
| MovementFactory.MovementFactory.CanAllocate | movement/movement_factory.hpp:19-21 | canAllocate(s) iff s is at most the available space |
| MovementFactory.MovementFactory.AllocateMovement | movement/movement_factory.hpp:121-130 | fails iff size bytes do not fit, leaving the index alone; otherwise it returns the old index as the region's start and advances the index by exactly size; regions stay consecutive and the index stays within the pool |
| MovementFactory.MovementFactory.Place | movement/movement_factory.hpp:23-33 | check, allocate and construct is `CreateIn`, with one region recorded on success and none on failure |
| MovementFactory.MovementFactory.CreateCW | movement/movement_factory.hpp:23-33 | createCW is `CreateIn` of a CW spin with the given duration |
| MovementFactory.MovementFactory.CreateCCW | movement/movement_factory.hpp:35-45 | createCCW is `CreateIn` of a CCW spin with the given duration |
| MovementFactory.MovementFactory.CreatePause | movement/movement_factory.hpp:47-57 | createPause is `CreateIn` of a pause with the given duration |
| MovementFactory.MovementFactory.CreateWaitUser | movement/movement_factory.hpp:96-106 | createWaitUser is `CreateIn` of a checkpoint of duration 0 |
| MovementFactory.MovementFactory.CreateLoop | movement/movement_factory.hpp:59-94 | one up-front check for the pointer array plus the loop; on success two consecutive regions (pointers, then loop) and a loop holding the given children in order, with the count as iterations and the maximum duration as duration; on failure the pool is unchanged |
| MovementFactory.MovementFactory.Reset | movement/movement_factory.hpp:108-112 | reset returns the pool to index 0 with nothing handed out |
| MovementFactory.CopyHandles | movement/movement_factory.hpp:82-84 | the copy loop yields the first n child pointers, each at its own position |
| MovementLoader.Loadable | movement/movement_loader.hpp:31 | at most min(length, 32) nodes are read |
| MovementLoader.LoadMovementIn | movement/movement_loader.hpp:52-114 | loading a node only grows the pool; a movement built is the last one added; a node of unknown kind leaves the pool as it was and yields nothing |
| MovementLoader.LoadSequenceIn | movement/movement_loader.hpp:25-44 | loading k nodes only grows the pool and yields at most k handles, all of movements this load added, in strictly increasing (recipe) order |
| MovementLoader.LoadLeaf | movement/movement_loader.hpp:57-73 | a spin, pause or checkpoint node is one create: either the pool is untouched and nothing is built, or exactly one fresh movement of that kind with the node's duration is added (0 for a checkpoint) |
| MovementLoader.LoadLoop | movement/movement_loader.hpp:75-100 | a loop node loads its body first; an empty body builds no loop; a failed loop create keeps the space its children took; a built loop holds exactly the loaded children with the node's count and maximum duration |
| MovementLoader.UnknownNodeSkipped | movement/movement_loader.hpp:106-107 | inserting a node of unknown kind anywhere in the nodes read changes neither the pool nor the handles loaded: the load skips it and goes on |
| MovementLoader.MovementLoader.constructor | movement/movement_loader.hpp:16 | the loader is bound to the given pool |
| MovementLoader.MovementLoader.LoadSequence | movement/movement_loader.hpp:25-44 | the imperative load is `LoadSequenceIn` of min(length, 32) nodes; the slots below the result hold the loaded handles; the slot at the result is old or empty; no later slot is touched |
| MovementLoader.MovementLoader.LoadMovement | movement/movement_loader.hpp:52-114 | the imperative load of one node, recursive for loops through a local 32-slot array, is `LoadMovementIn` |
| AgitationInterpreter.ContinuousLoopEndsEveryPass | agitation_interpreter.hpp:11 | a loop built with the "continuous" count 0 does not run on: at the end of a pass its execute reports inactive and issues no command, whatever its duration bound, and a loop that was not complete is still not complete afterwards |
| AgitationInterpreter.RecordedTimeRemaining | agitation_interpreter.cpp:51-52 | the recorded time is the duration for a complete movement, the duration less 1 otherwise, and wraps to 0xFFFFFFFF for an incomplete movement of duration 0 |
| AgitationInterpreter.CheckpointTimeRemainingWraps | agitation_interpreter.cpp:51-52 | a waiting checkpoint always records the wrapped value 0xFFFFFFFF |
| AgitationInterpreter.AgitationInterpreterState.constructor | agitation_interpreter.cpp:14 | zeroed state: no sequence, index 0, no motor |
| AgitationInterpreter.AgitationInterpreterState.Init | agitation_interpreter.cpp:6-37 | the state points at the shared array, the length is the loader's count, the index is 0, the loaded slots hold the loaded handles, and the motor is stored |
| AgitationInterpreter.AgitationInterpreterState.Tick | agitation_interpreter.cpp:39-62 | past the end or on an empty slot: false, nothing changes, and no motor is needed (so the zeroed state, with no array and length 0, ticks to false); otherwise the current movement is executed once (as `Step`) on the motor, its kind and recorded time are stored, the index grows by 1 iff it reported inactive, and the result is true; the index stays within the length |
| AgitationInterpreter.AgitationInterpreterState.Reset | agitation_interpreter.cpp:64-74 | re-init with an empty recipe: length 0, index 0, the motor kept, pool and shared array untouched, so every later tick is false |
| AgitationProcessInterpreter.CurrentHandle | agitation_process_interpreter.cpp:215-221 | there is a current movement iff the movement index is within the loaded sequence, and it is a live movement |
| AgitationProcessInterpreter.WaitingForCheckpoint | agitation_process_interpreter.cpp:174-181 | waiting for the user iff the current movement is a checkpoint |
| AgitationProcessInterpreter.AdvanceMovement | agitation_process_interpreter.cpp:195-206 | within the sequence the index grows by exactly 1 and nothing but the pool changes; past it nothing changes |
| AgitationProcessInterpreter.AdvanceStep | agitation_process_interpreter.cpp:127-146 | with a next step: step + 1, Idle, sequence length 0, index 0, all else kept; on the last step nothing changes |
| AgitationProcessInterpreter.AdvanceStepStaysInRange | agitation_process_interpreter.cpp:127-138 | the step index never passes the last step |
| AgitationProcessInterpreter.InitializeSequence | agitation_process_interpreter.cpp:38-60 | loading a step starts at movement 0 and only grows the pool; when nothing loads the state becomes Error, and otherwise the state is kept |
| AgitationProcessInterpreter.ExecuteCurrent | agitation_process_interpreter.cpp:87-103 | executing the current movement changes only the pool; without a current movement it changes nothing and reports inactive |
| AgitationProcessInterpreter.TickSpec | agitation_process_interpreter.cpp:62-111 | a tick keeps the interpreter invariant |
| AgitationProcessInterpreter.Prepare | agitation_process_interpreter.cpp:74-85 | the step's temperature becomes the target; any state but Error leaves as Running (an Error from the load is overwritten); a Running step is not reloaded |
| AgitationProcessInterpreter.RunCurrent | agitation_process_interpreter.cpp:87-110 | the second half of a tick keeps the interpreter invariant |
| AgitationProcessInterpreter.TickInvariants | agitation_process_interpreter.cpp:62-111 | Error is kept and gives false; otherwise the result is true iff the process has steps, the state never becomes Error, the step moves by at most one (to Idle) or stays Running, an empty process goes Complete, and the pool only grows |
| AgitationProcessInterpreter.RunningStepInvariants | agitation_process_interpreter.cpp:87-110 | on a running step the rest of a tick returns true, either stays on the step, Running, or moves to the next existing step, Idle, and the pool only grows |
| AgitationProcessInterpreter.CheckpointHoldsTick | agitation_process_interpreter.cpp:92-95 | while a checkpoint is current, a running tick returns true, issues no command and changes nothing but the target |
| AgitationProcessInterpreter.LastStepNeverFinishes | agitation_process_interpreter.cpp:105-110 | once the last step's sequence is used up, every tick returns true and changes nothing but the target |
| AgitationProcessInterpreter.LastMovementEndsStep | agitation_process_interpreter.cpp:97-110 | when the last movement of the sequence reports inactive, the tick returns true with that movement's commands; before the last step it moves to the next step, Idle, with the sequence dropped; on the last step only the movement index moves past the end |
| AgitationProcessInterpreter.UsedUpSequenceAdvancesStep | agitation_process_interpreter.cpp:87-110 | a running tick on a used-up (or empty) sequence before the last step executes nothing, moves to the next step, Idle, with the sequence dropped, and returns true |
| AgitationProcessInterpreter.RunningTickExecutesCurrent | agitation_process_interpreter.cpp:97-103 | a running tick executes the current movement once; while it is active nothing else moves; when it is inactive the next movement becomes current and is reset |
| AgitationProcessInterpreter.ConfirmSpec | agitation_process_interpreter.cpp:115-125 | confirm does nothing unless waiting; on the last step it moves one movement on; otherwise it moves to the next step, Idle, dropping the sequence |
| AgitationProcessInterpreter.ConfirmLeavesCheckpointWaiting | agitation_process_interpreter.cpp:115-125 | confirm before the last step leaves every movement, the checkpoint included, as it was |
| AgitationProcessInterpreter.AgitationProcessInterpreter.constructor | agitation_process_interpreter.cpp:8-15 | no process, step 0, Idle, both temperatures 20, no motor, an empty loaded array |
| AgitationProcessInterpreter.AgitationProcessInterpreter.Init | agitation_process_interpreter.cpp:17-36 | the process and motor are bound; step 0, Idle, no sequence, index 0, target = the process temperature, current temperature 20 |
| AgitationProcessInterpreter.AgitationProcessInterpreter.Reset | agitation_process_interpreter.cpp:113 | reset is init with the same process and motor |
| AgitationProcessInterpreter.AgitationProcessInterpreter.InitializeMovementSequence | agitation_process_interpreter.cpp:38-60 | the imperative load of a step is `InitializeSequence` |
| AgitationProcessInterpreter.AgitationProcessInterpreter.LoadStepSequence | agitation_process_interpreter.cpp:40-43 | the cleared array holds exactly the loaded handles at the front and nothing after them, the length is their count, and the pool is `LoadSequenceIn` of the step's recipe |
| AgitationProcessInterpreter.AgitationProcessInterpreter.ClearLoadedSequence | agitation_process_interpreter.cpp:40 | every slot of the loaded array is empty |
| AgitationProcessInterpreter.AgitationProcessInterpreter.ResetLoadedMovements | agitation_process_interpreter.cpp:53-57 | the reset loop resets the loaded movements in order, as `ResetSeq` |
| AgitationProcessInterpreter.AgitationProcessInterpreter.AdvanceToNextMovement | agitation_process_interpreter.cpp:195-206 | the imperative advance is `AdvanceMovement` |
| AgitationProcessInterpreter.AgitationProcessInterpreter.AdvanceToNextStep | agitation_process_interpreter.cpp:127-146 | the imperative advance is `AdvanceStep` |
| AgitationProcessInterpreter.AgitationProcessInterpreter.SkipToNextStep | agitation_process_interpreter.cpp:148 | skip is exactly `AdvanceStep` |
| AgitationProcessInterpreter.AgitationProcessInterpreter.Tick | agitation_process_interpreter.cpp:62-111 | the imperative tick changes the state, the result and the motor log exactly as `TickSpec` says |
| AgitationProcessInterpreter.AgitationProcessInterpreter.RunCurrentMovement | agitation_process_interpreter.cpp:87-110 | the second half of tick changes the state, the result and the motor log as `RunCurrent` says |
| AgitationProcessInterpreter.AgitationProcessInterpreter.Confirm | agitation_process_interpreter.cpp:115-125 | the imperative confirm is `ConfirmSpec` |
| AgitationProcessInterpreter.AgitationProcessInterpreter.IsWaitingForUser | agitation_process_interpreter.cpp:174-181 | true iff the current movement is a checkpoint; false when the index is past the sequence |
| AgitationProcessInterpreter.AgitationProcessInterpreter.GetCurrentMovementDuration | agitation_process_interpreter.cpp:166-172 | the current movement's duration, 0 without a current movement |
| AgitationProcessInterpreter.AgitationProcessInterpreter.GetCurrentMovementTimeElapsed | agitation_process_interpreter.cpp:158-164 | the current movement's elapsed time, 0 without a current movement |
| AgitationProcessInterpreter.AgitationProcessInterpreter.GetCurrentMovementTimeRemaining | agitation_process_interpreter.cpp:150-156 | the current movement's remaining time, 0 without one, and never above the reported duration |
| AgitationProcessInterpreter.AgitationProcessInterpreter.GetCurrentStep | agitation_process_interpreter.cpp:208-213 | the current step iff there is a process and the index names one of its steps |
| AgitationProcessInterpreter.AgitationProcessInterpreter.GetCurrentMovement | agitation_process_interpreter.cpp:215-221 | the slot at the movement index, `CurrentHandle` of the state: the movement that a tick executes and that a confirm waits on; a live movement iff the index is within the loaded sequence |
| AgitationProcessInterpreter.AgitationProcessInterpreter.GetUserMessage | agitation_process_interpreter.cpp:183-193 | "Finish" on the last step; otherwise a prefix of "Next: " + the next step's name, shorter than the 32-byte buffer, and either the whole text or exactly 31 bytes; step names are C strings, one non-NUL byte per character |

## Left out

- The user interface is not modelled: views, scenes, the view dispatcher, input callbacks and the periodic timer. They only call the interpreter.
- The concrete motor drivers are not modelled: GPIO pin writes, the safety delays and `isRunning`. The motor is the abstract interface, with a log of commands.
- Floating-point temperatures are kept as opaque values. The model copies them and does no arithmetic on them.
- `DEBUG_PRINT`, `TRACE_PRINT`, the `print()` methods and `printPoolStats` are left out: they only log.
- The pool's byte layout is not modelled: placement new, alignment and concrete `sizeof` values. The pool is a capacity counter, with the `sizeof` of each class as a parameter.
- MovementFactory.MovementFactory.Reset: besides setting the index to 0, it also empties the arena. The source leaves the old objects in the bytes, to be overwritten, so after a reset no old handle is usable in the model.
- The static storage (the pool and the interpreters' shared loaded array) is one explicit object that callers pass in. Aliasing through the shared statics is modelled only by passing the same object.
- The legacy interpreter's `loop_stack`, `loop_depth` and the two motor callbacks are not modelled: nothing reads them. The `MAX_LOOP_DEPTH` bound is declared but never checked.
- The MotorMovement constructor's type fallback is not modelled. It assigns its parameter instead of the field, so it has no effect, and the loader only builds CW and CCW spins.
- The factory's unused `MAX_SEQUENCE_LENGTH` of 12 is not modelled. The loader's 32 is the limit in effect.
- `getCurrentStepIndex`, `getCurrentProcess` and `getState` are not modelled separately: they are plain field reads, and the class's fields are public.
- The reset loop at the end of `advanceToNextStep` is not modelled. It runs after the sequence length is set to 0, so it never resets anything.
- `getUserMessage` returns a pointer to a static buffer that each call overwrites. The model returns the string.
- The loader's test file is not modelled: it calls functions that do not exist in this code.
- A process or motor that is absent (a null pointer dereferenced by `tick`, `confirm` and the step functions) is a precondition, not an error path. The source would crash there.
