/** The motor as the movements see it: an abstract controller whose commands
 *  are recorded, in order, in a ghost log. Pin writes and safety delays of
 *  the concrete drivers are not part of this model. */
module MotorControl {

  /** One command issued to the motor. */
  datatype MotorCall = Clockwise(enable: bool) | CounterClockwise(enable: bool) | Stop

  class MotorController {
    /** Every command received so far, oldest first. */
    ghost var log: seq<MotorCall>

    constructor ()
      ensures log == []
    {
      log := [];
    }

    method Clockwise(enable: bool)
      modifies this
      ensures log == old(log) + [MotorCall.Clockwise(enable)]
    {
      log := log + [MotorCall.Clockwise(enable)];
    }

    method CounterClockwise(enable: bool)
      modifies this
      ensures log == old(log) + [MotorCall.CounterClockwise(enable)]
    {
      log := log + [MotorCall.CounterClockwise(enable)];
    }

    method Stop()
      modifies this
      ensures log == old(log) + [MotorCall.Stop]
    {
      log := log + [MotorCall.Stop];
    }
  }
}
