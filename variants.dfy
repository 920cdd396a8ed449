/**
  How the two controller versions relate: the throttle step is the same,
  the left-side four-wheel-steer angles have opposite signs, and the packets
  differ only in the ';' terminator.
 */
module Variants {
  import MF = MainFunction
  import MW = MainWindow

  function ModeOf(m: MW.DriveMode): MF.DriveMode {
    match m
    case FourWS => MF.FourWS
    case Crab => MF.Crab
    case Pivot => MF.Pivot
  }

  /** Both versions take the same throttle step in every mode. */
  lemma SameThrottle(m: MW.DriveMode, forward: bool, backward: bool, left: bool, right: bool, x: int)
    ensures MF.NextThrottle(ModeOf(m), forward, backward, left, right, x) ==
            MW.NextThrottle(m, forward, backward, left, right, x)
  {
  }

  /** The right wheels agree; the left wheels of the console class are the window's negated. */
  lemma LeftSideInverted(c: int, angIn: nat -> real, angOut: nat -> real)
    ensures var a := MF.Calculate4WS(c, angIn, angOut);
            var b := MW.FourWheelSteer(c, angIn, angOut);
            a.rf == b.rf && a.rr == b.rr && a.lf == -b.lf && a.lr == -b.lr
  {
  }

  /** The console class's packet is the window's with ';' appended. */
  lemma PacketTerminator(fmt: real -> string, accel: real, rf: real, rr: real, lf: real, lr: real)
    ensures MF.Packet(fmt, accel, rf, rr, lf, lr) == MW.Packet(fmt, accel, rf, rr, lf, lr) + [';']
  {
  }
}
