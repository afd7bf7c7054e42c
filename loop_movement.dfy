/** A loop (movement/loop_movement.hpp), and the virtual calls `execute`,
 *  `isComplete` and `reset` of every movement, dispatched on the variant.
 *
 *  A loop drives its children, which sit in the same arena at smaller
 *  handles, one child per tick. `Step` and `ResetTree` are the two virtual
 *  calls as functions of the whole arena; `Execute` and `Reset` are the
 *  imperative calls, proved equal to them. */
module LoopMovement {
  import opened MotorControl
  import opened Movement
  import opened MovementFactory
  import Spin = MotorMovement
  import Pauses = PauseMovement
  import Checkpoint = WaitUserMovement

  /** What one `execute` on a movement in the arena did: the arena
   *  afterwards, the returned "still active" flag and the motor commands. */
  datatype TickResult = TickResult(nodes: seq<Movement>, active: bool, calls: seq<MotorCall>)

  /** LoopMovement::isComplete: an iteration bound that is set and reached,
   *  or a duration bound that is set and reached. */
  predicate LoopComplete(m: Movement)
    requires m.LoopMovement?
  {
    (m.iterations > 0 && m.currentIteration >= m.iterations)
    || (m.duration > 0 && m.elapsed >= m.duration)
  }

  /** The virtual isComplete. */
  predicate IsComplete(m: Movement)
  {
    match m
    case MotorMovement(_, _, _) => Spin.IsComplete(m)
    case PauseMovement(_, _) => Pauses.IsComplete(m)
    case WaitUserMovement(_, _, _) => Checkpoint.IsComplete(m)
    case LoopMovement(_, _, _, _, _, _) => LoopComplete(m)
  }

  /** Without an iteration bound and without a duration bound a loop is
   *  never complete. */
  lemma UnboundedLoopNeverComplete(m: Movement)
    requires m.LoopMovement?
    ensures m.iterations == 0 && m.duration == 0 ==> !IsComplete(m)
  {
  }

  /** The virtual execute, on the movement at `h`. A loop that is complete
   *  does nothing. At the end of a pass it rewinds to the first child and
   *  counts the pass, and reports inactive without running a child once
   *  the count is not below the iteration bound (with a bound of 0 this
   *  happens at the end of every pass). Otherwise it runs exactly one
   *  child, moves past that child only when the child reported inactive,
   *  counts the tick and reports active. Children are not reset when a
   *  pass wraps. */
  function Step(nodes: seq<Movement>, h: Handle): (r: TickResult)
    requires WellFormed(nodes) && h < |nodes|
    ensures |r.nodes| == |nodes|
    ensures forall i :: h < i < |nodes| ==> r.nodes[i] == nodes[i]
    ensures IsComplete(nodes[h]) ==> !r.active
    ensures IsComplete(nodes[h]) && !nodes[h].WaitUserMovement? ==> r == TickResult(nodes, false, [])
    decreases h
  {
    match nodes[h]
    case MotorMovement(_, _, _) =>
      var o := Spin.Tick(nodes[h]);
      TickResult(nodes[h := o.after], o.active, o.calls)
    case PauseMovement(_, _) =>
      var o := Pauses.Tick(nodes[h]);
      TickResult(nodes[h := o.after], o.active, o.calls)
    case WaitUserMovement(_, _, _) =>
      var o := Checkpoint.Tick(nodes[h]);
      TickResult(nodes[h := o.after], o.active, o.calls)
    case LoopMovement(duration, elapsed, children, iterations, currentIteration, currentIndex) =>
      if LoopComplete(nodes[h]) then
        TickResult(nodes, false, [])
      else
        var wrap := currentIndex >= |children|;
        var iteration := if wrap then Inc32(currentIteration) else currentIteration;
        var index := if wrap then 0 else currentIndex;
        if wrap && iteration >= iterations then
          TickResult(nodes[h := LoopMovement(duration, elapsed, children, iterations, iteration, 0)], false, [])
        else
          var child := Step(nodes, children[index]);
          var next := if child.active then index else index + 1;
          TickResult(child.nodes[h := LoopMovement(duration, Inc32(elapsed), children, iterations, iteration, next)],
                     true, child.calls)
  }

  /** Every execute keeps the arena well formed and changes no movement's
   *  shape: kinds, durations, children and iteration counts stay as they
   *  were built, and a loop's child index stays within its children. */
  lemma {:induction false} StepKeepsWellFormed(nodes: seq<Movement>, h: Handle)
    requires WellFormed(nodes) && h < |nodes|
    ensures WellFormed(Step(nodes, h).nodes) && SameShape(nodes, Step(nodes, h).nodes)
    decreases h
  {
    var r := Step(nodes, h);
    match nodes[h]
    case MotorMovement(_, _, _) =>
      UpdateKeepsWellFormed(nodes, h, Spin.Tick(nodes[h]).after);
    case PauseMovement(_, _) =>
      UpdateKeepsWellFormed(nodes, h, Pauses.Tick(nodes[h]).after);
    case WaitUserMovement(_, _, _) =>
      UpdateKeepsWellFormed(nodes, h, Checkpoint.Tick(nodes[h]).after);
    case LoopMovement(duration, elapsed, children, iterations, currentIteration, currentIndex) =>
      if !LoopComplete(nodes[h]) {
        var wrap := currentIndex >= |children|;
        var iteration := if wrap then Inc32(currentIteration) else currentIteration;
        var index := if wrap then 0 else currentIndex;
        if wrap && iteration >= iterations {
          UpdateKeepsWellFormed(nodes, h, LoopMovement(duration, elapsed, children, iterations, iteration, 0));
        } else {
          var child := Step(nodes, children[index]);
          StepKeepsWellFormed(nodes, children[index]);
          var next := if child.active then index else index + 1;
          UpdateKeepsWellFormed(child.nodes, h, LoopMovement(duration, Inc32(elapsed), children, iterations, iteration, next));
        }
      }
  }

  // ---------------------------------------------------------------------
  // Reachability: the movements a loop drives, directly or through
  // nested loops

  /** The handle itself and, for a loop, everything its children reach. */
  function Reach(nodes: seq<Movement>, h: Handle): (r: set<Handle>)
    requires WellFormed(nodes) && h < |nodes|
    ensures h in r && forall i :: i in r ==> i <= h
    decreases h, 1, 0
  {
    if nodes[h].LoopMovement? then {h} + ReachSeq(nodes, nodes[h].children, h) else {h}
  }

  /** Everything a list of handles, all below `bound`, reaches. */
  function ReachSeq(nodes: seq<Movement>, hs: seq<Handle>, bound: nat): (r: set<Handle>)
    requires WellFormed(nodes) && bound <= |nodes|
    requires forall k :: 0 <= k < |hs| ==> hs[k] < bound
    ensures forall i :: i in r ==> i < bound
    decreases bound, 0, |hs|
  {
    if hs == [] then {} else ReachSeq(nodes, hs[..|hs| - 1], bound) + Reach(nodes, hs[|hs| - 1])
  }

  /** Reachability depends on the shapes only, so no execute or reset
   *  changes it. */
  lemma {:induction false} ReachSameShape(a: seq<Movement>, b: seq<Movement>, h: Handle)
    requires WellFormed(a) && WellFormed(b) && SameShape(a, b) && h < |a|
    ensures Reach(a, h) == Reach(b, h)
    decreases h, 1, 0
  {
    assert Shape(a[h]) == Shape(b[h]);
    if a[h].LoopMovement? {
      assert a[h].children == Shape(a[h]).children == b[h].children;
      ReachSeqSameShape(a, b, a[h].children, h);
    }
  }

  lemma {:induction false} ReachSeqSameShape(a: seq<Movement>, b: seq<Movement>, hs: seq<Handle>, bound: nat)
    requires WellFormed(a) && WellFormed(b) && SameShape(a, b) && bound <= |a|
    requires forall k :: 0 <= k < |hs| ==> hs[k] < bound
    ensures ReachSeq(a, hs, bound) == ReachSeq(b, hs, bound)
    decreases bound, 0, |hs|
  {
    if hs != [] {
      ReachSeqSameShape(a, b, hs[..|hs| - 1], bound);
      ReachSameShape(a, b, hs[|hs| - 1]);
    }
  }

  /** Each handle of the list reaches a part of what the list reaches. */
  lemma {:induction false} ReachSeqContains(nodes: seq<Movement>, hs: seq<Handle>, bound: nat, k: nat)
    requires WellFormed(nodes) && bound <= |nodes|
    requires forall j :: 0 <= j < |hs| ==> hs[j] < bound
    requires k < |hs|
    ensures Reach(nodes, hs[k]) <= ReachSeq(nodes, hs, bound)
    decreases |hs|
  {
    if k < |hs| - 1 {
      ReachSeqContains(nodes, hs[..|hs| - 1], bound, k);
    }
  }

  /** An execute changes only the movements the executed one reaches: a
   *  loop's tick touches its own subtree and nothing else in the pool. */
  lemma {:induction false} StepFrame(nodes: seq<Movement>, h: Handle)
    requires WellFormed(nodes) && h < |nodes|
    ensures forall i :: 0 <= i < |nodes| && i !in Reach(nodes, h) ==> Step(nodes, h).nodes[i] == nodes[i]
    decreases h
  {
    var m := nodes[h];
    if m.LoopMovement? && !LoopComplete(m) {
      var wrap := m.currentIndex >= |m.children|;
      var iteration := if wrap then Inc32(m.currentIteration) else m.currentIteration;
      var index := if wrap then 0 else m.currentIndex;
      if !(wrap && iteration >= m.iterations) {
        StepFrame(nodes, m.children[index]);
        ReachSeqContains(nodes, m.children, h, index);
      }
    }
  }

  // ---------------------------------------------------------------------
  // Observable consequences of the loop's execute

  /** A child that has already finished (a spin, pause or loop that is
   *  complete) is consumed in one tick of its loop: no motor command, the
   *  child untouched, the loop moving on to the next child and reporting
   *  active. Since a pass wrap does not reset the children, this is what
   *  every pass after the first does with every finished child. */
  lemma FinishedChildConsumed(nodes: seq<Movement>, h: Handle)
    requires WellFormed(nodes) && h < |nodes|
    requires nodes[h].LoopMovement? && !LoopComplete(nodes[h])
    requires nodes[h].currentIndex < |nodes[h].children|
    requires IsComplete(nodes[nodes[h].children[nodes[h].currentIndex]])
    requires !nodes[nodes[h].children[nodes[h].currentIndex]].WaitUserMovement?
    ensures var m := nodes[h];
            Step(nodes, h) == TickResult(nodes[h := LoopMovement(m.duration, Inc32(m.elapsed), m.children, m.iterations,
                                                                 m.currentIteration, m.currentIndex + 1)], true, [])
  {
    var m := nodes[h];
    assert m.children[m.currentIndex] < h;
  }

  /** At the end of a pass a loop whose count then reaches its bound
   *  reports inactive, rewinds and counts the pass, and runs no child.
   *  With an iteration bound of 0 this happens at the end of every pass,
   *  and the loop is then driven again from its first child. */
  lemma PassEndWithoutBound(nodes: seq<Movement>, h: Handle)
    requires WellFormed(nodes) && h < |nodes|
    requires nodes[h].LoopMovement? && nodes[h].iterations == 0
    requires nodes[h].duration == 0 || nodes[h].elapsed < nodes[h].duration
    requires nodes[h].currentIndex == |nodes[h].children|
    ensures var m := nodes[h];
            Step(nodes, h) == TickResult(nodes[h := LoopMovement(m.duration, m.elapsed, m.children, 0,
                                                                 Inc32(m.currentIteration), 0)], false, [])
  {
  }

  /** The arena after `k` ticks of the movement at `h`. */
  function Run(nodes: seq<Movement>, h: Handle, k: nat): (r: seq<Movement>)
    requires WellFormed(nodes) && h < |nodes|
    ensures WellFormed(r) && SameShape(nodes, r)
    decreases k
  {
    if k == 0 then nodes
    else
      StepKeepsWellFormed(nodes, h);
      Run(Step(nodes, h).nodes, h, k - 1)
  }

  /** A loop built with neither an iteration bound nor a duration bound is
   *  never complete, however many ticks it gets. */
  lemma UnboundedLoopRunsForever(nodes: seq<Movement>, h: Handle, k: nat)
    requires WellFormed(nodes) && h < |nodes|
    requires nodes[h].LoopMovement? && nodes[h].iterations == 0 && nodes[h].duration == 0
    ensures !IsComplete(Run(nodes, h, k)[h])
  {
    var r := Run(nodes, h, k);
    assert Shape(r[h]) == Shape(nodes[h]);
  }

  // ---------------------------------------------------------------------
  // Reset

  /** The virtual reset, on the movement at `h`: a loop zeroes its own
   *  counters and then resets each of its children in order. */
  function ResetTree(nodes: seq<Movement>, h: Handle): (r: seq<Movement>)
    requires WellFormed(nodes) && h < |nodes|
    ensures |r| == |nodes| && WellFormed(r) && SameShape(nodes, r)
    ensures forall i :: h < i < |nodes| ==> r[i] == nodes[i]
    decreases h, 1, 0
  {
    match nodes[h]
    case MotorMovement(_, _, _) =>
      UpdateKeepsWellFormed(nodes, h, Spin.Reset(nodes[h]));
      nodes[h := Spin.Reset(nodes[h])]
    case PauseMovement(_, _) =>
      UpdateKeepsWellFormed(nodes, h, Pauses.Reset(nodes[h]));
      nodes[h := Pauses.Reset(nodes[h])]
    case WaitUserMovement(_, _, _) =>
      UpdateKeepsWellFormed(nodes, h, Checkpoint.Reset(nodes[h]));
      nodes[h := Checkpoint.Reset(nodes[h])]
    case LoopMovement(duration, _, children, iterations, _, _) =>
      var cleared := LoopMovement(duration, 0, children, iterations, 0, 0);
      UpdateKeepsWellFormed(nodes, h, cleared);
      ResetSeq(nodes[h := cleared], children, h)
  }

  /** Reset the movements at `hs`, in order. */
  function ResetSeq(nodes: seq<Movement>, hs: seq<Handle>, bound: nat): (r: seq<Movement>)
    requires WellFormed(nodes) && bound <= |nodes|
    requires forall k :: 0 <= k < |hs| ==> hs[k] < bound
    ensures |r| == |nodes| && WellFormed(r) && SameShape(nodes, r)
    ensures forall i :: bound <= i < |nodes| ==> r[i] == nodes[i]
    decreases bound, 0, |hs|
  {
    if hs == [] then nodes
    else ResetTree(ResetSeq(nodes, hs[..|hs| - 1], bound), hs[|hs| - 1])
  }

  /** reset puts every movement the reset one reaches back into the state
   *  its constructor built, and leaves every other movement alone. */
  lemma {:induction false} ResetTreeFresh(nodes: seq<Movement>, h: Handle)
    requires WellFormed(nodes) && h < |nodes|
    ensures forall i :: 0 <= i < |nodes| ==>
              ResetTree(nodes, h)[i] == if i in Reach(nodes, h) then Shape(nodes[i]) else nodes[i]
    decreases h, 1, 0
  {
    if nodes[h].LoopMovement? {
      var m := nodes[h];
      var cleared := LoopMovement(m.duration, 0, m.children, m.iterations, 0, 0);
      var start := nodes[h := cleared];
      UpdateKeepsWellFormed(nodes, h, cleared);
      ResetSeqFresh(start, m.children, h);
      ReachSeqSameShape(start, nodes, m.children, h);
    }
  }

  lemma {:induction false} ResetSeqFresh(nodes: seq<Movement>, hs: seq<Handle>, bound: nat)
    requires WellFormed(nodes) && bound <= |nodes|
    requires forall k :: 0 <= k < |hs| ==> hs[k] < bound
    ensures forall i :: 0 <= i < |nodes| ==>
              ResetSeq(nodes, hs, bound)[i] == if i in ReachSeq(nodes, hs, bound) then Shape(nodes[i]) else nodes[i]
    decreases bound, 0, |hs|
  {
    if hs != [] {
      var before := ResetSeq(nodes, hs[..|hs| - 1], bound);
      ResetSeqFresh(nodes, hs[..|hs| - 1], bound);
      ResetTreeFresh(before, hs[|hs| - 1]);
      ReachSameShape(before, nodes, hs[|hs| - 1]);
      forall i | 0 <= i < |nodes|
        ensures Shape(Shape(nodes[i])) == Shape(nodes[i]) && Shape(before[i]) == Shape(nodes[i])
      {
      }
    }
  }

  /** Reset twice is reset once. */
  lemma ResetIdempotent(nodes: seq<Movement>, h: Handle)
    requires WellFormed(nodes) && h < |nodes|
    ensures ResetTree(ResetTree(nodes, h), h) == ResetTree(nodes, h)
  {
    var once := ResetTree(nodes, h);
    ResetTreeFresh(nodes, h);
    ResetTreeFresh(once, h);
    ReachSameShape(once, nodes, h);
    forall i | 0 <= i < |nodes|
      ensures ResetTree(once, h)[i] == once[i]
    {
      assert Shape(Shape(nodes[i])) == Shape(nodes[i]);
    }
  }

  // ---------------------------------------------------------------------
  // The imperative calls

  /** The virtual execute on the movement at `h`. */
  method Execute(pool: MovementFactory, h: Handle, motor: MotorController) returns (active: bool)
    requires WellFormed(pool.nodes) && h < |pool.nodes|
    modifies pool`nodes, motor
    ensures pool.nodes == Step(old(pool.nodes), h).nodes
    ensures active == Step(old(pool.nodes), h).active
    ensures motor.log == old(motor.log) + Step(old(pool.nodes), h).calls
    decreases h
  {
    var m := pool.nodes[h];
    match m {
      case MotorMovement(_, _, _) =>
        active := Spin.Execute(pool, h, motor);
      case PauseMovement(_, _) =>
        active := Pauses.Execute(pool, h, motor);
      case WaitUserMovement(_, _, _) =>
        active := Checkpoint.Execute(pool, h, motor);
      case LoopMovement(duration, elapsed, children, iterations, currentIteration, currentIndex) =>
        if LoopComplete(m) {
          return false;
        }
        var index := currentIndex;
        var iteration := currentIteration;
        if index >= |children| {
          index := 0;
          iteration := Inc32(iteration);
          if iteration >= iterations {
            pool.nodes := pool.nodes[h := LoopMovement(duration, elapsed, children, iterations, iteration, 0)];
            return false;
          }
        }
        var result := Execute(pool, children[index], motor);
        if !result {
          index := index + 1;
        }
        pool.nodes := pool.nodes[h := LoopMovement(duration, Inc32(elapsed), children, iterations, iteration, index)];
        return true;
    }
  }

  /** The virtual reset on the movement at `h`. */
  method Reset(pool: MovementFactory, h: Handle)
    requires WellFormed(pool.nodes) && h < |pool.nodes|
    modifies pool`nodes
    ensures pool.nodes == ResetTree(old(pool.nodes), h)
    decreases h
  {
    var m := pool.nodes[h];
    match m {
      case MotorMovement(_, _, _) =>
        Spin.ResetAt(pool, h);
      case PauseMovement(_, _) =>
        Pauses.ResetAt(pool, h);
      case WaitUserMovement(_, _, _) =>
        Checkpoint.ResetAt(pool, h);
      case LoopMovement(duration, _, children, iterations, _, _) =>
        var cleared := LoopMovement(duration, 0, children, iterations, 0, 0);
        UpdateKeepsWellFormed(pool.nodes, h, cleared);
        pool.nodes := pool.nodes[h := cleared];
        ghost var start := pool.nodes;
        for i := 0 to |children|
          invariant pool.nodes == ResetSeq(start, children[..i], h)
        {
          assert children[..i + 1][..i] == children[..i];
          Reset(pool, children[i]);
        }
        assert children[..|children|] == children;
    }
  }
}
