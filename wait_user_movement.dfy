/** A user checkpoint (movement/wait_user_movement.hpp): stops the motor on
 *  every tick and stays active until the user has acknowledged it. It never
 *  advances by itself. */
module WaitUserMovement {
  import opened MotorControl
  import opened Movement
  import opened MovementFactory

  predicate IsComplete(m: Movement)
    requires m.WaitUserMovement?
  {
    m.acknowledged
  }

  /** execute, as a function of the movement: a stop command, the movement
   *  unchanged, active exactly while not yet acknowledged. */
  function Tick(m: Movement): (o: Outcome)
    requires m.WaitUserMovement?
    ensures o.after == m && o.calls == [MotorCall.Stop]
    ensures o.active <==> !IsComplete(m)
  {
    Outcome(m, !m.acknowledged, [MotorCall.Stop])
  }

  /** reset: clears the acknowledgement and nothing else. */
  function Reset(m: Movement): (r: Movement)
    requires m.WaitUserMovement?
    ensures r.WaitUserMovement? && !IsComplete(r)
    ensures r.duration == m.duration && r.elapsed == m.elapsed
    ensures Inv(m) ==> Inv(r) && r == Shape(m)
  {
    WaitUserMovement(m.duration, m.elapsed, false)
  }

  /** acknowledgeUser: sets the acknowledgement and nothing else. */
  function Acknowledge(m: Movement): (r: Movement)
    requires m.WaitUserMovement?
    ensures r.WaitUserMovement? && IsComplete(r)
    ensures r.duration == m.duration && r.elapsed == m.elapsed
    ensures Inv(m) ==> Inv(r)
  {
    WaitUserMovement(m.duration, m.elapsed, true)
  }

  /** Once acknowledged, execute reports inactive and the movement is
   *  complete; after a reset it is active again. */
  lemma AcknowledgeThenTick(m: Movement)
    requires m.WaitUserMovement?
    ensures !Tick(Acknowledge(m)).active && IsComplete(Acknowledge(m))
    ensures Tick(Reset(Acknowledge(m))).active
  {
  }

  /** The imperative `execute` on the movement at `h` in the pool. */
  method Execute(pool: MovementFactory, h: Handle, motor: MotorController) returns (active: bool)
    requires h < |pool.nodes| && pool.nodes[h].WaitUserMovement?
    modifies motor
    ensures active == Tick(pool.nodes[h]).active
    ensures motor.log == old(motor.log) + Tick(pool.nodes[h]).calls
  {
    motor.Stop();
    return !pool.nodes[h].acknowledged;
  }

  /** The imperative `reset` on the movement at `h`. */
  method ResetAt(pool: MovementFactory, h: Handle)
    requires h < |pool.nodes| && pool.nodes[h].WaitUserMovement?
    modifies pool`nodes
    ensures pool.nodes == old(pool.nodes)[h := Reset(old(pool.nodes[h]))]
  {
    var m := pool.nodes[h];
    pool.nodes := pool.nodes[h := WaitUserMovement(m.duration, m.elapsed, false)];
  }

  /** The imperative `acknowledgeUser` on the movement at `h`. */
  method AcknowledgeUser(pool: MovementFactory, h: Handle)
    requires h < |pool.nodes| && pool.nodes[h].WaitUserMovement?
    modifies pool`nodes
    ensures pool.nodes == old(pool.nodes)[h := Acknowledge(old(pool.nodes[h]))]
  {
    var m := pool.nodes[h];
    pool.nodes := pool.nodes[h := WaitUserMovement(m.duration, m.elapsed, true)];
  }
}
