/** A spin (movement/motor_movement.hpp): one clockwise or counter-clockwise
 *  command per tick while the elapsed time is below the duration, then
 *  inactive without touching the motor. */
module MotorMovement {
  import opened MotorControl
  import opened Movement
  import opened MovementFactory

  predicate IsComplete(m: Movement)
    requires m.MotorMovement?
  {
    m.elapsed >= m.duration
  }

  /** The command a spin issues on each active tick. */
  function Command(m: Movement): MotorCall
    requires m.MotorMovement?
  {
    if m.kind == CW then MotorCall.Clockwise(true) else MotorCall.CounterClockwise(true)
  }

  /** execute, as a function of the movement. */
  function Tick(m: Movement): (o: Outcome)
    requires m.MotorMovement?
    ensures o.active <==> !IsComplete(m)
    ensures o.after.MotorMovement? && Shape(o.after) == Shape(m)
    ensures o.active ==> o.after.elapsed == m.elapsed + 1 && o.calls == [Command(m)]
    ensures !o.active ==> o.after == m && o.calls == []
    ensures Inv(m) ==> Inv(o.after)
  {
    if m.elapsed >= m.duration then Outcome(m, false, [])
    else Outcome(MotorMovement(m.kind, m.duration, m.elapsed + 1), true, [Command(m)])
  }

  /** reset: back to the state the constructor built. */
  function Reset(m: Movement): (r: Movement)
    requires m.MotorMovement?
    ensures r == Shape(m) && r.elapsed == 0
    ensures Inv(m) ==> Inv(r)
  {
    MotorMovement(m.kind, m.duration, 0)
  }

  /** The movement after `k` ticks. */
  function After(m: Movement, k: nat): (r: Movement)
    requires m.MotorMovement?
    ensures r.MotorMovement?
    decreases k
  {
    if k == 0 then m else After(Tick(m).after, k - 1)
  }

  /** The motor commands of the first `k` ticks. */
  function Calls(m: Movement, k: nat): seq<MotorCall>
    requires m.MotorMovement?
    decreases k
  {
    if k == 0 then [] else Tick(m).calls + Calls(Tick(m).after, k - 1)
  }

  /** `k` ticks move the elapsed time `k` closer to the duration, stopping
   *  there, issue one command per tick that moved it, and change nothing
   *  but the elapsed time. */
  lemma {:induction false} RunLength(m: Movement, k: nat)
    requires m.MotorMovement? && m.elapsed <= m.duration
    ensures Shape(After(m, k)) == Shape(m)
    ensures After(m, k).elapsed == Min(m.elapsed + k, m.duration)
    ensures Calls(m, k) == Repeat(Command(m), Min(k, m.duration - m.elapsed))
    decreases k
  {
    if k > 0 {
      var o := Tick(m);
      RunLength(o.after, k - 1);
      if o.active {
        assert Command(o.after) == Command(m);
        assert Repeat(Command(m), Min(k, m.duration - m.elapsed))
            == [Command(m)] + Repeat(Command(m), Min(k - 1, m.duration - m.elapsed - 1));
      }
    }
  }

  /** From reset, execute returns true on exactly the first `duration`
   *  calls and false on every later one; the true calls issue one command
   *  each, the false calls none. So a spin of duration d takes d + 1
   *  interpreter ticks, the last of them without a motor command. */
  lemma ActiveExactlyDuration(m: Movement, k: nat)
    requires m.MotorMovement? && m.elapsed == 0
    ensures Tick(After(m, k)).active <==> k < m.duration
    ensures Tick(After(m, k)).calls == if k < m.duration then [Command(m)] else []
    ensures Calls(m, k) == Repeat(Command(m), Min(k, m.duration))
  {
    RunLength(m, k);
    assert Command(After(m, k)) == Command(m) by {
      assert After(m, k).kind == Shape(After(m, k)).kind;
    }
  }

  /** The imperative `execute` on the movement at `h` in the pool. */
  method Execute(pool: MovementFactory, h: Handle, motor: MotorController) returns (active: bool)
    requires h < |pool.nodes| && pool.nodes[h].MotorMovement?
    modifies pool`nodes, motor
    ensures pool.nodes == old(pool.nodes)[h := Tick(old(pool.nodes[h])).after]
    ensures active == Tick(old(pool.nodes[h])).active
    ensures motor.log == old(motor.log) + Tick(old(pool.nodes[h])).calls
  {
    var m := pool.nodes[h];
    if m.elapsed >= m.duration {
      return false;
    }
    if m.kind == CW {
      motor.Clockwise(true);
    } else {
      motor.CounterClockwise(true);
    }
    pool.nodes := pool.nodes[h := MotorMovement(m.kind, m.duration, m.elapsed + 1)];
    return true;
  }

  /** The imperative `reset` on the movement at `h`. */
  method ResetAt(pool: MovementFactory, h: Handle)
    requires h < |pool.nodes| && pool.nodes[h].MotorMovement?
    modifies pool`nodes
    ensures pool.nodes == old(pool.nodes)[h := Reset(old(pool.nodes[h]))]
  {
    var m := pool.nodes[h];
    pool.nodes := pool.nodes[h := MotorMovement(m.kind, m.duration, 0)];
  }
}
