/** The movement object model (movement/movement.hpp and the fields of its
 *  four subclasses). A movement is a value; the live movements of a program
 *  sit in the factory's arena (`MovementFactory.nodes`) and refer to each
 *  other by handle, which is how a Loop holds its children. */
module Movement {
  import opened MotorControl

  /** uint32_t. */
  type U32 = x: int | 0 <= x < 0x1_0000_0000

  const U32_MODULUS: int := 0x1_0000_0000

  /** `x++` on a uint32_t: wraps from 0xFFFF_FFFF to 0. */
  function Inc32(x: U32): (r: U32)
    ensures r == 0 <==> x == 0xFFFF_FFFF
  {
    (x + 1) % U32_MODULUS
  }

  /** `a - b` on uint32_t: wraps below 0. */
  function Sub32(a: U32, b: U32): (r: U32)
    ensures b <= a ==> r == a - b
    ensures a < b ==> r == a - b + U32_MODULUS
  {
    (a - b) % U32_MODULUS
  }

  function Min(a: int, b: int): int
  {
    if a <= b then a else b
  }

  /** `n` copies of the same motor command. */
  function Repeat(c: MotorCall, n: nat): (r: seq<MotorCall>)
    ensures |r| == n && forall i :: 0 <= i < n ==> r[i] == c
  {
    if n == 0 then [] else Repeat(c, n - 1) + [c]
  }

  /** Index of a movement in the arena (a pointer into the pool). */
  type Handle = nat

  /** AgitationMovement::Type. */
  datatype Kind = CW | CCW | Pause | Loop | WaitUser

  /** One live movement. `duration` and `elapsed` are the base-class fields
   *  `duration` and `elapsed_time`; the rest is each subclass's own state. */
  datatype Movement =
    | MotorMovement(kind: Kind, duration: U32, elapsed: U32)
    | PauseMovement(duration: U32, elapsed: U32)
    | WaitUserMovement(duration: U32, elapsed: U32, acknowledged: bool)
    | LoopMovement(duration: U32, elapsed: U32, children: seq<Handle>,
                   iterations: U32, currentIteration: U32, currentIndex: nat)

  /** What one `execute` call did: the movement afterwards, the returned
   *  "still active" flag, and the motor commands it issued. */
  datatype Outcome = Outcome(after: Movement, active: bool, calls: seq<MotorCall>)

  // ---------------------------------------------------------------------
  // Construction (the four subclass constructors)

  function NewMotorMovement(kind: Kind, duration: U32): (m: Movement)
    ensures GetType(m) == kind && GetDuration(m) == duration && TimeElapsed(m) == 0
    ensures Fresh(m)
  {
    MotorMovement(kind, duration, 0)
  }

  function NewPauseMovement(duration: U32): (m: Movement)
    ensures GetType(m) == Pause && GetDuration(m) == duration && TimeElapsed(m) == 0
    ensures Fresh(m) && Inv(m)
  {
    PauseMovement(duration, 0)
  }

  /** A WaitUser movement is built without a duration, so it gets the
   *  base constructor's default of 0, and starts unacknowledged. */
  function NewWaitUserMovement(): (m: Movement)
    ensures GetType(m) == WaitUser && GetDuration(m) == 0 && TimeElapsed(m) == 0
    ensures m.WaitUserMovement? && !m.acknowledged && Fresh(m) && Inv(m)
  {
    WaitUserMovement(0, 0, false)
  }

  /** The loop's own duration is its `max_duration`; all counters start at 0. */
  function NewLoopMovement(children: seq<Handle>, iterations: U32, maxDuration: U32): (m: Movement)
    ensures GetType(m) == Loop && GetDuration(m) == maxDuration && TimeElapsed(m) == 0
    ensures m.LoopMovement? && m.children == children && m.iterations == iterations
    ensures m.currentIteration == 0 && m.currentIndex == 0 && Fresh(m)
    ensures |children| > 0 ==> Inv(m)
  {
    LoopMovement(maxDuration, 0, children, iterations, 0, 0)
  }

  // ---------------------------------------------------------------------
  // The base-class queries

  /** getType: the kind the movement was built with. */
  function GetType(m: Movement): (k: Kind)
    ensures m.MotorMovement? ==> k == m.kind
    ensures Inv(m) ==> && ((k == CW || k == CCW) <==> m.MotorMovement?)
                       && (k == Pause <==> m.PauseMovement?)
                       && (k == WaitUser <==> m.WaitUserMovement?)
                       && (k == Loop <==> m.LoopMovement?)
  {
    match m
    case MotorMovement(kind, _, _) => kind
    case PauseMovement(_, _) => Pause
    case WaitUserMovement(_, _, _) => WaitUser
    case LoopMovement(_, _, _, _, _, _) => Loop
  }

  function GetDuration(m: Movement): U32 { m.duration }

  function TimeElapsed(m: Movement): U32 { m.elapsed }

  /** timeRemaining: the ticks left, saturating at 0 instead of wrapping. */
  function TimeRemaining(m: Movement): (r: U32)
    ensures r <= GetDuration(m)
  {
    if m.duration > m.elapsed then m.duration - m.elapsed else 0
  }

  /** Elapsed and remaining time split the duration while the elapsed time
   *  has not passed it, and the remaining time is 0 once it has. */
  lemma ElapsedPlusRemaining(m: Movement)
    ensures TimeElapsed(m) <= GetDuration(m) ==> TimeElapsed(m) + TimeRemaining(m) == GetDuration(m)
    ensures TimeElapsed(m) >= GetDuration(m) ==> TimeRemaining(m) == 0
  {
  }

  // ---------------------------------------------------------------------
  // Shape, freshness and the invariants every live movement keeps

  /** The movement with its run-time state cleared: what its constructor
   *  built. Kind, duration, children and iteration count are kept. */
  function Shape(m: Movement): Movement
  {
    match m
    case MotorMovement(kind, duration, _) => MotorMovement(kind, duration, 0)
    case PauseMovement(duration, _) => PauseMovement(duration, 0)
    case WaitUserMovement(duration, _, _) => WaitUserMovement(duration, 0, false)
    case LoopMovement(duration, _, children, iterations, _, _) =>
      LoopMovement(duration, 0, children, iterations, 0, 0)
  }

  /** In the state its constructor leaves it in. */
  predicate Fresh(m: Movement)
  {
    m == Shape(m)
  }

  /** Two arenas hold the same movements, up to run-time state. */
  predicate SameShape(a: seq<Movement>, b: seq<Movement>)
  {
    |a| == |b| && forall i :: 0 <= i < |a| ==> Shape(a[i]) == Shape(b[i])
  }

  /** The per-movement invariant. A motor movement turns one way or the
   *  other; spins and pauses never pass their duration; a WaitUser has
   *  neither duration nor elapsed time; a loop has at least one child, a
   *  child index that is at most the child count, and counters that stop
   *  at their bounds when the bounds are set. */
  predicate Inv(m: Movement)
  {
    match m
    case MotorMovement(kind, duration, elapsed) => (kind == CW || kind == CCW) && elapsed <= duration
    case PauseMovement(duration, elapsed) => elapsed <= duration
    case WaitUserMovement(duration, elapsed, _) => duration == 0 && elapsed == 0
    case LoopMovement(duration, elapsed, children, iterations, currentIteration, currentIndex) =>
      && |children| > 0
      && currentIndex <= |children|
      && (duration > 0 ==> elapsed <= duration)
      && (iterations > 0 ==> currentIteration <= iterations)
  }

  /** A loop only refers to movements created before it. */
  predicate ChildrenBelow(m: Movement, h: Handle)
  {
    m.LoopMovement? ==> forall k :: 0 <= k < |m.children| ==> m.children[k] < h
  }

  /** The arena invariant. */
  predicate WellFormed(nodes: seq<Movement>)
  {
    forall h :: 0 <= h < |nodes| ==> Inv(nodes[h]) && ChildrenBelow(nodes[h], h)
  }

  /** Replacing a movement by one of the same shape that keeps the
   *  per-movement invariant keeps the arena well formed. */
  lemma UpdateKeepsWellFormed(nodes: seq<Movement>, h: Handle, m: Movement)
    requires WellFormed(nodes) && h < |nodes|
    requires Shape(m) == Shape(nodes[h]) && Inv(m)
    ensures WellFormed(nodes[h := m]) && SameShape(nodes, nodes[h := m])
  {
    assert ChildrenBelow(m, h) by {
      assert m.LoopMovement? ==> m.children == Shape(m).children == nodes[h].children;
    }
  }

  /** Shape is all that ChildrenBelow looks at. */
  lemma SameShapeChildrenBelow(a: seq<Movement>, b: seq<Movement>)
    requires SameShape(a, b)
    ensures forall h :: 0 <= h < |a| ==> (ChildrenBelow(a[h], h) <==> ChildrenBelow(b[h], h))
  {
    forall h | 0 <= h < |a|
      ensures ChildrenBelow(a[h], h) <==> ChildrenBelow(b[h], h)
    {
      assert Shape(a[h]) == Shape(b[h]);
      assert a[h].LoopMovement? <==> b[h].LoopMovement?;
      assert a[h].LoopMovement? ==> a[h].children == Shape(a[h]).children == b[h].children;
    }
  }
}
