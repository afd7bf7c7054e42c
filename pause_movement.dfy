/** A pause (movement/pause_movement.hpp): stops the motor once per tick
 *  while the elapsed time is below the duration. The tick that reaches the
 *  duration already reports inactive. */
module PauseMovement {
  import opened MotorControl
  import opened Movement
  import opened MovementFactory

  predicate IsComplete(m: Movement)
    requires m.PauseMovement?
  {
    m.elapsed >= m.duration
  }

  /** execute, as a function of the movement. */
  function Tick(m: Movement): (o: Outcome)
    requires m.PauseMovement?
    ensures o.after.PauseMovement? && Shape(o.after) == Shape(m)
    ensures IsComplete(m) ==> !o.active && o.after == m && o.calls == []
    ensures !IsComplete(m) ==> o.after.elapsed == m.elapsed + 1 && o.calls == [MotorCall.Stop]
                               && (o.active <==> !IsComplete(o.after))
    ensures Inv(m) ==> Inv(o.after)
  {
    if m.elapsed >= m.duration then Outcome(m, false, [])
    else
      var after := PauseMovement(m.duration, m.elapsed + 1);
      Outcome(after, after.elapsed < after.duration, [MotorCall.Stop])
  }

  /** reset: back to the state the constructor built. */
  function Reset(m: Movement): (r: Movement)
    requires m.PauseMovement?
    ensures r == Shape(m) && r.elapsed == 0
    ensures Inv(m) ==> Inv(r)
  {
    PauseMovement(m.duration, 0)
  }

  /** The movement after `k` ticks. */
  function After(m: Movement, k: nat): (r: Movement)
    requires m.PauseMovement?
    ensures r.PauseMovement?
    decreases k
  {
    if k == 0 then m else After(Tick(m).after, k - 1)
  }

  /** The motor commands of the first `k` ticks. */
  function Calls(m: Movement, k: nat): seq<MotorCall>
    requires m.PauseMovement?
    decreases k
  {
    if k == 0 then [] else Tick(m).calls + Calls(Tick(m).after, k - 1)
  }

  /** `k` ticks move the elapsed time `k` closer to the duration, stopping
   *  there, and stop the motor once for every tick that moved it. */
  lemma {:induction false} RunLength(m: Movement, k: nat)
    requires m.PauseMovement? && m.elapsed <= m.duration
    ensures Shape(After(m, k)) == Shape(m)
    ensures After(m, k).elapsed == Min(m.elapsed + k, m.duration)
    ensures Calls(m, k) == Repeat(MotorCall.Stop, Min(k, m.duration - m.elapsed))
    decreases k
  {
    if k > 0 {
      var o := Tick(m);
      RunLength(o.after, k - 1);
      if !IsComplete(m) {
        assert Repeat(MotorCall.Stop, Min(k, m.duration - m.elapsed))
            == [MotorCall.Stop] + Repeat(MotorCall.Stop, Min(k - 1, m.duration - m.elapsed - 1));
      }
    }
  }

  /** From reset, execute returns true on the first duration - 1 calls and
   *  false from the duration-th call on, so a pause of d >= 1 takes d
   *  interpreter ticks; every call before the duration is reached stops
   *  the motor, the false-returning one included, and later calls do not.
   *  A pause of duration 0 returns false at once without a motor command. */
  lemma ActiveCount(m: Movement, k: nat)
    requires m.PauseMovement? && m.elapsed == 0
    ensures Tick(After(m, k)).active <==> k + 1 < m.duration
    ensures Tick(After(m, k)).calls == if k < m.duration then [MotorCall.Stop] else []
    ensures Calls(m, k) == Repeat(MotorCall.Stop, Min(k, m.duration))
  {
    RunLength(m, k);
  }

  /** The imperative `execute` on the movement at `h` in the pool. */
  method Execute(pool: MovementFactory, h: Handle, motor: MotorController) returns (active: bool)
    requires h < |pool.nodes| && pool.nodes[h].PauseMovement?
    modifies pool`nodes, motor
    ensures pool.nodes == old(pool.nodes)[h := Tick(old(pool.nodes[h])).after]
    ensures active == Tick(old(pool.nodes[h])).active
    ensures motor.log == old(motor.log) + Tick(old(pool.nodes[h])).calls
  {
    var m := pool.nodes[h];
    if m.elapsed >= m.duration {
      return false;
    }
    motor.Stop();
    var elapsed := m.elapsed + 1;
    pool.nodes := pool.nodes[h := PauseMovement(m.duration, elapsed)];
    if elapsed >= m.duration {
      return false;
    }
    return true;
  }

  /** The imperative `reset` on the movement at `h`. */
  method ResetAt(pool: MovementFactory, h: Handle)
    requires h < |pool.nodes| && pool.nodes[h].PauseMovement?
    modifies pool`nodes
    ensures pool.nodes == old(pool.nodes)[h := Reset(old(pool.nodes[h]))]
  {
    pool.nodes := pool.nodes[h := PauseMovement(pool.nodes[h].duration, 0)];
  }
}
