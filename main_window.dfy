/**
  The window-bound controller variant (Contrul_tester/MainWindow.xaml.cs):
  the same drive-mode state machine with its own rates, limits and pivot
  geometry, the inline four-wheel-steer angles, the stop/release/key
  handlers and the unterminated command packet.

  As in the other variant, the accumulators are integers (the rates 2 and 1,
  the limits 50, 100 and 90 and the resets are all integral) and the wheel
  angles are reals built from the inner and outer angle functions of |steer|.
 */
module MainWindow {
  import Text

  datatype DriveMode = FourWS | Crab | Pivot

  /** Angles of the right-front, right-rear, left-front and left-rear wheels. */
  datatype Wheels = Wheels(rf: real, rr: real, lf: real, lr: real)

  /** The mouse buttons that latch an input flag. */
  datatype Button = ForwardButton | BackwardButton | LeftButton | RightButton

  /** The keys the window reacts to; every other key is `OtherKey`. */
  datatype Key = W | S | A | D | Space | OtherKey

  // Rates and limits per 100 ms tick
  const AccelRate := 2
  const SteerRate := 1
  const MaxSpeed := 100
  const MaxPivotSpeed := 50
  const MaxSteer := 90

  function Abs(x: int): nat { if x < 0 then -x else x }

  // ---------------------------------------------------------------------
  // Control state machine
  // ---------------------------------------------------------------------

  /** Throttle limit of a mode: rotation speed in Pivot, drive speed otherwise. */
  function ThrottleLimit(mode: DriveMode): nat {
    if mode == Pivot then MaxPivotSpeed else MaxSpeed
  }

  /** The input that raises the throttle: Left (counter-clockwise) in Pivot, Forward otherwise. */
  function RaiseHeld(mode: DriveMode, forward: bool, left: bool): bool {
    if mode == Pivot then left else forward
  }

  /** The input that lowers the throttle: Right (clockwise) in Pivot, Backward otherwise. */
  function LowerHeld(mode: DriveMode, backward: bool, right: bool): bool {
    if mode == Pivot then right else backward
  }

  /** The accumulators are within the limits of the mode; Pivot never steers. */
  predicate Bounded(mode: DriveMode, x: int, c: int) {
    Abs(x) <= ThrottleLimit(mode) &&
    if mode == Pivot then c == 0 else Abs(c) <= MaxSteer
  }

  /** Throttle after one tick. */
  function NextThrottle(mode: DriveMode, forward: bool, backward: bool, left: bool, right: bool, x: int): (r: int)
    ensures var lim: int := ThrottleLimit(mode);
      && (RaiseHeld(mode, forward, left) ==>
            r <= lim && (r == x + AccelRate || (x + AccelRate > lim && r == lim)))
      && (!RaiseHeld(mode, forward, left) && LowerHeld(mode, backward, right) ==>
            r >= -lim && (r == x - AccelRate || (x - AccelRate < -lim && r == -lim)))
      && (!RaiseHeld(mode, forward, left) && !LowerHeld(mode, backward, right) ==> r == 0)
      && (Abs(x) <= lim ==> Abs(r) <= lim)
  {
    var lim: int := ThrottleLimit(mode);
    if RaiseHeld(mode, forward, left) then
      (if x + AccelRate > lim then lim else x + AccelRate)
    else if LowerHeld(mode, backward, right) then
      (if x - AccelRate < -lim then -lim else x - AccelRate)
    else 0
  }

  /** Steering after one tick: one limit of 90 for both steering modes; Pivot leaves it alone. */
  function NextSteer(mode: DriveMode, left: bool, right: bool, c: int): (r: int)
    ensures mode == Pivot ==> r == c
    ensures mode != Pivot ==> Abs(r) <= MaxSteer
    ensures mode != Pivot && Abs(c) <= MaxSteer ==>
      if left then r == c + SteerRate || (c + SteerRate > MaxSteer && r == MaxSteer)
      else if right then r == c - SteerRate || (c - SteerRate < -MaxSteer && r == -MaxSteer)
      else r == c
  {
    if mode == Pivot then c
    else
      var moved := if left then c + SteerRate else if right then c - SteerRate else c;
      var upper := if moved > MaxSteer then MaxSteer else moved;
      if upper < -MaxSteer then -MaxSteer else upper
  }

  /** A tick keeps the accumulators within the limits of the mode. */
  lemma TickKeepsBounds(mode: DriveMode, forward: bool, backward: bool, left: bool, right: bool, x: int, c: int)
    requires Bounded(mode, x, c)
    ensures Bounded(mode, NextThrottle(mode, forward, backward, left, right, x), NextSteer(mode, left, right, c))
  {
  }

  /** When both inputs of a pair are held, the first one (Forward, Left) wins. */
  lemma FirstInputWins(mode: DriveMode, forward: bool, backward: bool, left: bool, right: bool, x: int, c: int)
    ensures mode != Pivot ==>
      NextThrottle(mode, true, backward, left, right, x) == NextThrottle(mode, true, false, left, right, x)
    ensures mode == Pivot ==>
      NextThrottle(mode, forward, backward, true, right, x) == NextThrottle(mode, forward, backward, true, false, x)
    ensures NextSteer(mode, true, right, c) == NextSteer(mode, true, false, c)
  {
  }

  // ---------------------------------------------------------------------
  // Kinematics
  // ---------------------------------------------------------------------

  /** The fixed spot-turn diamond of this variant. */
  const PivotWheels := Wheels(-45.0, 45.0, 45.0, -45.0)

  const Straight := Wheels(0.0, 0.0, 0.0, 0.0)

  /** Outside the deadband |c| <= 0.1, which for an integral command is c != 0. */
  predicate Steering(c: int) { c != 0 }

  /**
    The inline four-wheel-steer angles: for a left turn the left wheels take
    the inner angle, for a right turn the right wheels do, each rear wheel
    counter-steering its front wheel; a right turn negates every angle.
   */
  function FourWheelSteer(c: int, angIn: nat -> real, angOut: nat -> real): (w: Wheels)
    ensures !Steering(c) ==> w == Straight
    ensures w.rr == -w.rf && w.lr == -w.lf
    ensures c > 0 ==> w.lf == angIn(Abs(c)) && w.rf == angOut(Abs(c))
    ensures c < 0 ==> w.rf == -angIn(Abs(c)) && w.lf == -angOut(Abs(c))
  {
    if Steering(c) then
      var inner := angIn(Abs(c));
      var outer := angOut(Abs(c));
      if c > 0 then Wheels(outer, -outer, inner, -inner)
      else Wheels(-inner, inner, -outer, outer)
    else Straight
  }

  function SwapSides(w: Wheels): Wheels {
    Wheels(w.lf, w.lr, w.rf, w.rr)
  }

  function Negate(w: Wheels): Wheels {
    Wheels(-w.rf, -w.rr, -w.lf, -w.lr)
  }

  /** Turning the other way swaps the left and right values and negates them. */
  lemma FourWheelSteerMirror(c: int, angIn: nat -> real, angOut: nat -> real)
    ensures FourWheelSteer(-c, angIn, angOut) == Negate(SwapSides(FourWheelSteer(c, angIn, angOut)))
  {
  }

  /** Wheel angles of one tick, by mode, from the steering accumulator. */
  function WheelAngles(mode: DriveMode, c: int, angIn: nat -> real, angOut: nat -> real): (w: Wheels)
    ensures mode == Pivot ==> w == PivotWheels
    ensures mode == Crab ==> w.rf == w.rr == w.lf == w.lr == c as real
    ensures mode == FourWS ==> w == FourWheelSteer(c, angIn, angOut)
  {
    match mode
    case Pivot => PivotWheels
    case Crab => Wheels(c as real, c as real, c as real, c as real)
    case FourWS => FourWheelSteer(c, angIn, angOut)
  }

  // ---------------------------------------------------------------------
  // Outbound packet
  // ---------------------------------------------------------------------

  function Fields(fmt: real -> string, accel: real, rf: real, rr: real, lf: real, lr: real): seq<string> {
    [fmt(accel), fmt(rf), fmt(rr), fmt(lf), fmt(lr)]
  }

  /** "accel,rf,rr,lf,lr" with every number formatted by `fmt`, and no terminator. */
  function Packet(fmt: real -> string, accel: real, rf: real, rr: real, lf: real, lr: real): (pkt: string)
    ensures fmt(accel) <= pkt
    ensures |fmt(lr)| <= |pkt| && pkt[|pkt| - |fmt(lr)|..] == fmt(lr)
  {
    Text.Join(Fields(fmt, accel, rf, rr, lf, lr))
  }

  /** The packet holds no ';' at all, and splitting it gives back the five fields in order. */
  lemma PacketFields(fmt: real -> string, accel: real, rf: real, rr: real, lf: real, lr: real)
    requires Text.Clean(fmt)
    ensures var pkt := Packet(fmt, accel, rf, rr, lf, lr);
      && Text.Terminator !in pkt
      && Text.Split(pkt) == [fmt(accel), fmt(rf), fmt(rr), fmt(lf), fmt(lr)]
  {
    var fields := Fields(fmt, accel, rf, rr, lf, lr);
    assert Text.PlainField(fmt(accel)) && Text.PlainField(fmt(rf)) && Text.PlainField(fmt(rr));
    assert Text.PlainField(fmt(lf)) && Text.PlainField(fmt(lr));
    Text.SplitJoin(fields);
    Text.JoinHasNoTerminator(fields);
  }

  // ---------------------------------------------------------------------
  // The window
  // ---------------------------------------------------------------------

  /**
    The window's controller state. `hasClient` is whether a TCP client object
    exists (it is created by a connect click and dropped by Disconnect); that
    client's own connected state is the `linkUp` parameter of the operations
    that test it. `sent` records, in order, the packets written.
   */
  class Window {
    var mode: DriveMode
    var isForward: bool
    var isBackward: bool
    var isLeft: bool
    var isRight: bool
    var currentX: int
    var currentC: int
    var hasClient: bool
    var sent: seq<string>

    ghost predicate Valid()
      reads this
    {
      Bounded(mode, currentX, currentC)
    }

    /** The window starts in FourWS with everything released and no client. */
    constructor ()
      ensures Valid()
      ensures mode == FourWS && currentX == 0 && currentC == 0
      ensures !isForward && !isBackward && !isLeft && !isRight
      ensures !hasClient && sent == []
    {
      mode := FourWS;
      isForward, isBackward, isLeft, isRight := false, false, false, false;
      currentX, currentC := 0, 0;
      hasClient := false;
      sent := [];
    }

    /** Selects a mode and zeroes both accumulators. */
    method SetMode(m: DriveMode)
      modifies this`mode, this`currentX, this`currentC
      ensures Valid()
      ensures mode == m && currentX == 0 && currentC == 0
    {
      mode := m;
      currentX := 0;
      currentC := 0;
    }

    /** Drops the client. */
    method Disconnect()
      modifies this`hasClient
      ensures !hasClient
    {
      hasClient := false;
    }

    /**
      The state effect of a connect click: with a port that parses, a new
      client object exists from then on, whether or not its connect
      succeeds; with one that does not, nothing happens.
     */
    method ConnectClick(portParses: bool)
      modifies this`hasClient
      ensures hasClient == (portParses || old(hasClient))
    {
      if portParses {
        hasClient := true;
      }
    }

    /** Emergency stop: releases every input and zeroes both accumulators. */
    method Stop()
      modifies this`isForward, this`isBackward, this`isLeft, this`isRight, this`currentX, this`currentC
      ensures Valid()
      ensures !isForward && !isBackward && !isLeft && !isRight
      ensures currentX == 0 && currentC == 0
    {
      isForward := false;
      isBackward := false;
      isLeft := false;
      isRight := false;
      currentX := 0;
      currentC := 0;
    }

    /** Releasing any input button releases all four inputs. */
    method InputUp()
      modifies this`isForward, this`isBackward, this`isLeft, this`isRight
      ensures !isForward && !isBackward && !isLeft && !isRight
    {
      isForward := false;
      isBackward := false;
      isLeft := false;
      isRight := false;
    }

    /** Pressing an input button latches its flag only. */
    method ButtonDown(b: Button)
      modifies this`isForward, this`isBackward, this`isLeft, this`isRight
      ensures isForward == (old(isForward) || b == ForwardButton)
      ensures isBackward == (old(isBackward) || b == BackwardButton)
      ensures isLeft == (old(isLeft) || b == LeftButton)
      ensures isRight == (old(isRight) || b == RightButton)
    {
      match b
      case ForwardButton => isForward := true;
      case BackwardButton => isBackward := true;
      case LeftButton => isLeft := true;
      case RightButton => isRight := true;
    }

    /** W, S, A and D latch Forward, Backward, Left and Right; Space is the emergency stop. */
    method KeyDown(k: Key)
      requires Valid()
      modifies this`isForward, this`isBackward, this`isLeft, this`isRight, this`currentX, this`currentC
      ensures Valid()
      ensures k == Space ==>
        !isForward && !isBackward && !isLeft && !isRight && currentX == 0 && currentC == 0
      ensures k != Space ==>
        currentX == old(currentX) && currentC == old(currentC) &&
        isForward == (old(isForward) || k == W) && isBackward == (old(isBackward) || k == S) &&
        isLeft == (old(isLeft) || k == A) && isRight == (old(isRight) || k == D)
    {
      if k == W { isForward := true; }
      if k == S { isBackward := true; }
      if k == A { isLeft := true; }
      if k == D { isRight := true; }
      if k == Space { Stop(); }
    }

    /** W, S, A and D release Forward, Backward, Left and Right; other keys do nothing. */
    method KeyUp(k: Key)
      modifies this`isForward, this`isBackward, this`isLeft, this`isRight
      ensures isForward == (old(isForward) && k != W) && isBackward == (old(isBackward) && k != S)
      ensures isLeft == (old(isLeft) && k != A) && isRight == (old(isRight) && k != D)
    {
      if k == W { isForward := false; }
      if k == S { isBackward := false; }
      if k == A { isLeft := false; }
      if k == D { isRight := false; }
    }

    /**
      Writes one command packet while the client exists and is connected; a
      failed write (`writeOk` false) disconnects instead.
     */
    method SendPacket(accel: real, rf: real, rr: real, lf: real, lr: real,
                      fmt: real -> string, linkUp: bool, writeOk: bool)
      modifies this`hasClient, this`sent
      ensures !(old(hasClient) && linkUp) ==> sent == old(sent) && hasClient == old(hasClient)
      ensures old(hasClient) && linkUp && writeOk ==>
        sent == old(sent) + [Packet(fmt, accel, rf, rr, lf, lr)] && hasClient
      ensures old(hasClient) && linkUp && !writeOk ==> sent == old(sent) && !hasClient
    {
      if hasClient && linkUp {
        var packet := Packet(fmt, accel, rf, rr, lf, lr);
        if writeOk {
          sent := sent + [packet];
        } else {
          Disconnect();
        }
      }
    }

    /**
      One 100 ms control tick: while the client is connected, the
      accumulator update of the mode, the wheel angles and the packet.
     */
    method Tick(linkUp: bool, angIn: nat -> real, angOut: nat -> real, fmt: real -> string, writeOk: bool)
      requires Valid()
      modifies this`currentX, this`currentC, this`hasClient, this`sent
      ensures Valid()
      // no connected client: nothing happens
      ensures !(old(hasClient) && linkUp) ==>
        hasClient == old(hasClient) && sent == old(sent) &&
        currentX == old(currentX) && currentC == old(currentC)
      // a live tick
      ensures old(hasClient) && linkUp ==>
        currentX == NextThrottle(mode, isForward, isBackward, isLeft, isRight, old(currentX)) &&
        currentC == NextSteer(mode, isLeft, isRight, old(currentC)) &&
        var w := WheelAngles(mode, currentC, angIn, angOut);
        (writeOk ==> hasClient && sent == old(sent) + [Packet(fmt, currentX as real, w.rf, w.rr, w.lf, w.lr)]) &&
        (!writeOk ==> !hasClient && sent == old(sent))
    {
      if !hasClient || !linkUp {
        return;
      }
      TickKeepsBounds(mode, isForward, isBackward, isLeft, isRight, currentX, currentC);
      var targetAccel := AdvanceAccumulators();
      var w := SelectWheels(angIn, angOut);
      SendPacket(targetAccel as real, w.rf, w.rr, w.lf, w.lr, fmt, linkUp, writeOk);
    }

    /** The accumulator part of a live tick: step by the rate and clamp, per mode. */
    method AdvanceAccumulators() returns (targetAccel: int)
      modifies this`currentX, this`currentC
      ensures currentX == NextThrottle(mode, isForward, isBackward, isLeft, isRight, old(currentX))
      ensures currentC == NextSteer(mode, isLeft, isRight, old(currentC))
      ensures targetAccel == currentX
    {
      if mode == Pivot {
        if isLeft {
          currentX := currentX + AccelRate;
          if currentX > MaxPivotSpeed { currentX := MaxPivotSpeed; }
        } else if isRight {
          currentX := currentX - AccelRate;
          if currentX < -MaxPivotSpeed { currentX := -MaxPivotSpeed; }
        } else {
          currentX := 0;
        }
        targetAccel := currentX;
      } else {
        if isForward {
          currentX := currentX + AccelRate;
          if currentX > MaxSpeed { currentX := MaxSpeed; }
        } else if isBackward {
          currentX := currentX - AccelRate;
          if currentX < -MaxSpeed { currentX := -MaxSpeed; }
        } else {
          currentX := 0;
        }
        targetAccel := currentX;

        if isLeft {
          currentC := currentC + SteerRate;
        } else if isRight {
          currentC := currentC - SteerRate;
        }
        if currentC > MaxSteer { currentC := MaxSteer; }
        if currentC < -MaxSteer { currentC := -MaxSteer; }
      }
    }

    /** The wheel-angle part of a live tick: the diamond in Pivot, all equal in Crab, FourWheelSteer in FourWS. */
    method SelectWheels(angIn: nat -> real, angOut: nat -> real) returns (w: Wheels)
      ensures w == WheelAngles(mode, currentC, angIn, angOut)
    {
      if mode == Pivot {
        w := PivotWheels;
      } else if mode == Crab {
        w := Wheels(currentC as real, currentC as real, currentC as real, currentC as real);
      } else {
        w := FourWheelSteer(currentC, angIn, angOut);
      }
    }
  }
}
