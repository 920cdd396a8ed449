/**
  The console's controller class with its TCP link (Contrul_tester/MainFunction.cs):
  drive-mode state machine, four-wheel-steer sign assignment, the 0xFE 0xFE
  framed receive buffer, telemetry word decoding, the liveness watchdog and
  the ';'-terminated command packet.

  Accumulators are integers: every rate, limit and reset value of the source
  is integral, so its `double` accumulators only ever hold integers. Wheel
  angles are reals, because the four-wheel-steer angles come from the
  (uninterpreted) inner and outer angle functions of |steer|.
 */
module MainFunction {
  import Text

  datatype DriveMode = FourWS | Crab | Pivot

  type byte = b: int | 0 <= b < 256

  datatype Option<T> = None | Some(value: T)

  /** Angles of the right-front, right-rear, left-front and left-rear wheels. */
  datatype Wheels = Wheels(rf: real, rr: real, lf: real, lr: real)

  /** One decoded telemetry frame: five raw channel words and the error code. */
  datatype Telemetry = Telemetry(values: seq<int>, errorCode: int)

  datatype ConnectOutcome = Established | TimedOut | Refused
  datatype ConnectError = ConnectTimeout | ConnectFailed

  // Rates and limits per control tick
  const AccelRate := 2
  const SteerRate := 2
  const MaxSpeed := 100
  const MaxPivotSpeed := 50
  const MaxSteer4WS := 89
  const MaxSteerCrab := 135

  // Liveness watchdog, in milliseconds
  const WatchdogMs := 2000

  // Inbound framing
  const Sync: byte := 0xFE
  const HeaderSize := 2
  const PayloadSize := 24
  const FrameSize := 26
  const BufferSize := 1024
  const WordCount := 6

  function Abs(x: int): nat { if x < 0 then -x else x }

  // ---------------------------------------------------------------------
  // Control state machine: per-tick accumulator updates
  // ---------------------------------------------------------------------

  /** Throttle limit of a mode: rotation speed in Pivot, drive speed otherwise. */
  function ThrottleLimit(mode: DriveMode): nat {
    if mode == Pivot then MaxPivotSpeed else MaxSpeed
  }

  /** Steering limit of the two steering modes. */
  function SteerLimit(mode: DriveMode): nat {
    if mode == Crab then MaxSteerCrab else MaxSteer4WS
  }

  /** The input that raises the throttle: Left (counter-clockwise) in Pivot, Forward otherwise. */
  function RaiseHeld(mode: DriveMode, forward: bool, left: bool): bool {
    if mode == Pivot then left else forward
  }

  /** The input that lowers the throttle: Right (clockwise) in Pivot, Backward otherwise. */
  function LowerHeld(mode: DriveMode, backward: bool, right: bool): bool {
    if mode == Pivot then right else backward
  }

  /** The accumulators are within the limits of the current mode; Pivot never steers. */
  predicate Bounded(mode: DriveMode, x: int, c: int) {
    Abs(x) <= ThrottleLimit(mode) &&
    if mode == Pivot then c == 0 else Abs(c) <= SteerLimit(mode)
  }

  /** Throttle after one tick. */
  function NextThrottle(mode: DriveMode, forward: bool, backward: bool, left: bool, right: bool, x: int): (r: int)
    ensures var lim: int := ThrottleLimit(mode);
      && (RaiseHeld(mode, forward, left) ==>
            r <= lim && (r == x + AccelRate || (x + AccelRate > lim && r == lim)))
      && (!RaiseHeld(mode, forward, left) && LowerHeld(mode, backward, right) ==>
            r >= -lim && (r == x - AccelRate || (x - AccelRate < -lim && r == -lim)))
      && (!RaiseHeld(mode, forward, left) && !LowerHeld(mode, backward, right) ==> r == 0)
      && (Abs(x) <= lim ==> Abs(r) <= lim)
  {
    var lim: int := ThrottleLimit(mode);
    if RaiseHeld(mode, forward, left) then
      (if x + AccelRate > lim then lim else x + AccelRate)
    else if LowerHeld(mode, backward, right) then
      (if x - AccelRate < -lim then -lim else x - AccelRate)
    else 0
  }

  /** Steering after one tick; Pivot leaves it alone. */
  function NextSteer(mode: DriveMode, left: bool, right: bool, c: int): (r: int)
    ensures mode == Pivot ==> r == c
    ensures mode != Pivot ==> Abs(r) <= SteerLimit(mode)
    ensures mode != Pivot && Abs(c) <= SteerLimit(mode) ==>
      var lim: int := SteerLimit(mode);
      if left then r == c + SteerRate || (c + SteerRate > lim && r == lim)
      else if right then r == c - SteerRate || (c - SteerRate < -lim && r == -lim)
      else r == c
  {
    if mode == Pivot then c
    else
      var moved := if left then c + SteerRate else if right then c - SteerRate else c;
      var lim: int := SteerLimit(mode);
      var upper := if moved > lim then lim else moved;
      if upper < -lim then -lim else upper
  }

  /** A tick keeps the accumulators within the limits of the mode. */
  lemma TickKeepsBounds(mode: DriveMode, forward: bool, backward: bool, left: bool, right: bool, x: int, c: int)
    requires Bounded(mode, x, c)
    ensures Bounded(mode, NextThrottle(mode, forward, backward, left, right, x), NextSteer(mode, left, right, c))
  {
  }

  /** When both inputs of a pair are held, the first one (Forward, Left) wins. */
  lemma FirstInputWins(mode: DriveMode, forward: bool, backward: bool, left: bool, right: bool, x: int, c: int)
    ensures mode != Pivot ==>
      NextThrottle(mode, true, backward, left, right, x) == NextThrottle(mode, true, false, left, right, x)
    ensures mode == Pivot ==>
      NextThrottle(mode, forward, backward, true, right, x) == NextThrottle(mode, forward, backward, true, false, x)
    ensures NextSteer(mode, true, right, c) == NextSteer(mode, true, false, c)
  {
  }

  // ---------------------------------------------------------------------
  // Kinematics
  // ---------------------------------------------------------------------

  /** The fixed spot-turn geometry of this variant. */
  const PivotWheels := Wheels(-135.0, 135.0, 45.0, -45.0)

  const Straight := Wheels(0.0, 0.0, 0.0, 0.0)

  /** The wheels are steered: outside the deadband |c| <= 0.1, which for an integral command is c == 0. */
  predicate Steering(c: int) { c != 0 }

  /** Steering is exactly the source's test |c| > 0.1 on an integral command. */
  lemma SteeringIsDeadband(c: int)
    ensures Steering(c) <==> Abs(c) as real > 0.1
  {
  }

  /**
    Four-wheel-steer angles for steering command `c`. `angIn` and `angOut`
    give the inner and outer wheel angle for a steering magnitude; for a
    left turn the left side gets the inner angle, for a right turn the right
    side, each rear wheel counter-steering its front wheel. The left wheels
    are written with the signs of this variant (see Variants.LeftSideInverted).
   */
  function Calculate4WS(c: int, angIn: nat -> real, angOut: nat -> real): (w: Wheels)
    ensures !Steering(c) ==> w == Straight
    ensures w.rr == -w.rf && w.lr == -w.lf
    ensures c > 0 ==> w.lf == -angIn(Abs(c)) && w.rf == angOut(Abs(c))
    ensures c < 0 ==> w.rf == -angIn(Abs(c)) && w.lf == angOut(Abs(c))
  {
    if Steering(c) then
      var inner := angIn(Abs(c));
      var outer := angOut(Abs(c));
      if c > 0 then Wheels(outer, -outer, -inner, inner)
      else Wheels(-inner, inner, -(-outer), -outer)
    else Straight
  }

  function SwapSides(w: Wheels): Wheels {
    Wheels(w.lf, w.lr, w.rf, w.rr)
  }

  /** Turning the other way swaps the left and right values, keeping their signs. */
  lemma Calculate4WSMirror(c: int, angIn: nat -> real, angOut: nat -> real)
    ensures Calculate4WS(-c, angIn, angOut) == SwapSides(Calculate4WS(c, angIn, angOut))
  {
  }

  /** Wheel angles of one tick, by mode, from the steering accumulator. */
  function WheelAngles(mode: DriveMode, c: int, angIn: nat -> real, angOut: nat -> real): (w: Wheels)
    ensures mode == Pivot ==> w == PivotWheels
    ensures mode == Crab ==> w.rf == w.rr == w.lf == w.lr == c as real
    ensures mode == FourWS ==> w == Calculate4WS(c, angIn, angOut)
  {
    match mode
    case Pivot => PivotWheels
    case Crab => Wheels(c as real, c as real, c as real, c as real)
    case FourWS => Calculate4WS(c, angIn, angOut)
  }

  // ---------------------------------------------------------------------
  // Outbound packet
  // ---------------------------------------------------------------------

  function Fields(fmt: real -> string, accel: real, rf: real, rr: real, lf: real, lr: real): seq<string> {
    [fmt(accel), fmt(rf), fmt(rr), fmt(lf), fmt(lr)]
  }

  /** "accel,rf,rr,lf,lr;" with every number formatted by `fmt`. */
  function Packet(fmt: real -> string, accel: real, rf: real, rr: real, lf: real, lr: real): (pkt: string)
    ensures |pkt| >= 1 && pkt[|pkt| - 1] == Text.Terminator
    ensures fmt(accel) <= pkt
  {
    Text.Join(Fields(fmt, accel, rf, rr, lf, lr)) + [Text.Terminator]
  }

  /** The packet ends in its only ';', and splitting what precedes it gives back the five fields in order. */
  lemma PacketFields(fmt: real -> string, accel: real, rf: real, rr: real, lf: real, lr: real)
    requires Text.Clean(fmt)
    ensures var pkt := Packet(fmt, accel, rf, rr, lf, lr);
      && |pkt| >= 1 && pkt[|pkt| - 1] == Text.Terminator
      && Text.Terminator !in pkt[..|pkt| - 1]
      && Text.Split(pkt[..|pkt| - 1]) == [fmt(accel), fmt(rf), fmt(rr), fmt(lf), fmt(lr)]
  {
    var fields := Fields(fmt, accel, rf, rr, lf, lr);
    assert Text.PlainField(fmt(accel)) && Text.PlainField(fmt(rf)) && Text.PlainField(fmt(rr));
    assert Text.PlainField(fmt(lf)) && Text.PlainField(fmt(lr));
    var body := Text.Join(fields);
    assert Packet(fmt, accel, rf, rr, lf, lr)[..|body|] == body;
    Text.SplitJoin(fields);
    Text.JoinHasNoTerminator(fields);
  }

  // ---------------------------------------------------------------------
  // Telemetry words
  // ---------------------------------------------------------------------

  /**
    `(b0 << 24) | (b1 << 16) | (b2 << 8) | b3` on C# `int`: the bit fields do
    not overlap, so the or is their sum, and the shift of b0 wraps into the
    sign bit of the 32-bit result.
   */
  function Int32BigEndian(b0: byte, b1: byte, b2: byte, b3: byte): (v: int)
    ensures -0x8000_0000 <= v < 0x8000_0000
    ensures v < 0 <==> b0 >= 0x80
  {
    var u := b0 * 0x100_0000 + b1 * 0x1_0000 + b2 * 0x100 + b3;
    if u >= 0x8000_0000 then u - 0x1_0000_0000 else u
  }

  /** Word `i` of a 24-byte payload: bytes 4i .. 4i+3. */
  function Word(p: seq<byte>, i: nat): (w: int)
    requires |p| == PayloadSize && i < WordCount
    ensures IsInt32(w)
    ensures w < 0 <==> p[4 * i] >= 0x80
  {
    Int32BigEndian(p[4 * i], p[4 * i + 1], p[4 * i + 2], p[4 * i + 3])
  }

  /** Words 0-4 are the telemetry channels, word 5 the error code. */
  function Decode(p: seq<byte>): (t: Telemetry)
    requires |p| == PayloadSize
    ensures |t.values| == 5 && IsInt32(t.errorCode)
    ensures forall k :: 0 <= k < 5 ==> IsInt32(t.values[k])
  {
    Telemetry([Word(p, 0), Word(p, 1), Word(p, 2), Word(p, 3), Word(p, 4)], Word(p, 5))
  }

  predicate IsInt32(v: int) { -0x8000_0000 <= v < 0x8000_0000 }

  /** The four big-endian two's-complement bytes of a 32-bit value (the sender's side). */
  function Int32Bytes(v: int): (bs: seq<byte>)
    requires IsInt32(v)
    ensures |bs| == 4
  {
    var u := if v < 0 then v + 0x1_0000_0000 else v;
    [u / 0x100_0000, u / 0x1_0000 % 0x100, u / 0x100 % 0x100, u % 0x100]
  }

  lemma Int32RoundTrip(v: int)
    requires IsInt32(v)
    ensures var bs := Int32Bytes(v); Int32BigEndian(bs[0], bs[1], bs[2], bs[3]) == v
  {
    var u := if v < 0 then v + 0x1_0000_0000 else v;
    var q1 := u / 0x100;
    var q2 := q1 / 0x100;
    var q3 := q2 / 0x100;
    assert u == q1 * 0x100 + u % 0x100;
    assert q1 == q2 * 0x100 + q1 % 0x100;
    assert q2 == q3 * 0x100 + q2 % 0x100;
    assert u / 0x1_0000 == q2;
    assert u / 0x100_0000 == q3;
  }

  lemma BytesRoundTrip(b0: byte, b1: byte, b2: byte, b3: byte)
    ensures Int32Bytes(Int32BigEndian(b0, b1, b2, b3)) == [b0, b1, b2, b3]
  {
    var u := b0 * 0x100_0000 + b1 * 0x1_0000 + b2 * 0x100 + b3;
    var v := Int32BigEndian(b0, b1, b2, b3);
    assert (if v < 0 then v + 0x1_0000_0000 else v) == u;
    assert u == (b0 * 0x1_0000 + b1 * 0x100 + b2) * 0x100 + b3;
    assert u / 0x100 == b0 * 0x1_0000 + b1 * 0x100 + b2;
    assert u / 0x1_0000 == b0 * 0x100 + b1;
    assert u / 0x100_0000 == b0;
  }

  /** The 24-byte payload a vehicle sends for a telemetry frame. */
  function EncodeTelemetry(t: Telemetry): (p: seq<byte>)
    requires |t.values| == 5 && IsInt32(t.errorCode)
    requires forall i :: 0 <= i < 5 ==> IsInt32(t.values[i])
    ensures |p| == PayloadSize
  {
    Int32Bytes(t.values[0]) + Int32Bytes(t.values[1]) + Int32Bytes(t.values[2]) +
    Int32Bytes(t.values[3]) + Int32Bytes(t.values[4]) + Int32Bytes(t.errorCode)
  }

  lemma WordOfEncoding(t: Telemetry, i: nat)
    requires |t.values| == 5 && IsInt32(t.errorCode)
    requires forall k :: 0 <= k < 5 ==> IsInt32(t.values[k])
    requires i < WordCount
    ensures Word(EncodeTelemetry(t), i) == if i < 5 then t.values[i] else t.errorCode
  {
    var p := EncodeTelemetry(t);
    var v := if i < 5 then t.values[i] else t.errorCode;
    var bs := Int32Bytes(v);
    assert p[4 * i..4 * i + 4] == bs;
    Int32RoundTrip(v);
  }

  /** Decoding undoes the sender's encoding. */
  lemma DecodeEncode(t: Telemetry)
    requires |t.values| == 5 && IsInt32(t.errorCode)
    requires forall i :: 0 <= i < 5 ==> IsInt32(t.values[i])
    ensures Decode(EncodeTelemetry(t)) == t
  {
    WordOfEncoding(t, 0);
    WordOfEncoding(t, 1);
    WordOfEncoding(t, 2);
    WordOfEncoding(t, 3);
    WordOfEncoding(t, 4);
    WordOfEncoding(t, 5);
  }

  /** The word loop of ProcessPacket: six words, the first five into `vals`, the last into `err`. */
  method ProcessPacket(payload: seq<byte>) returns (t: Telemetry)
    requires |payload| == PayloadSize
    ensures |t.values| == 5
    ensures forall i :: 0 <= i < 5 ==> t.values[i] == Word(payload, i)
    ensures t.errorCode == Word(payload, 5)
  {
    var vals := new int[5];
    var err := 0;
    for i := 0 to WordCount
      invariant forall k :: 0 <= k < i && k < 5 ==> vals[k] == Word(payload, k)
      invariant i == WordCount ==> err == Word(payload, 5)
    {
      var idx := i * 4;
      var raw := Int32BigEndian(payload[idx], payload[idx + 1], payload[idx + 2], payload[idx + 3]);
      if i < 5 {
        vals[i] := raw;
      } else {
        err := raw;
      }
    }
    t := Telemetry(vals[..], err);
  }

  /** ProcessPacket computes Decode. */
  lemma ProcessPacketIsDecode(payload: seq<byte>, t: Telemetry)
    requires |payload| == PayloadSize
    requires |t.values| == 5 && t.errorCode == Word(payload, 5)
    requires forall i :: 0 <= i < 5 ==> t.values[i] == Word(payload, i)
    ensures t == Decode(payload)
  {
    assert t.values == Decode(payload).values;
  }

  // ---------------------------------------------------------------------
  // Inbound framing
  // ---------------------------------------------------------------------

  /** A 0xFE 0xFE sync pair starts at index i of s. */
  predicate IsHeader(s: seq<byte>, i: int) {
    0 <= i && i + 1 < |s| && s[i] == Sync && s[i + 1] == Sync
  }

  /** The first sync pair at or after index i. */
  function HeaderFrom(s: seq<byte>, i: nat): (r: Option<nat>)
    ensures r.Some? ==>
      i <= r.value && IsHeader(s, r.value) && forall j :: i <= j < r.value ==> !IsHeader(s, j)
    ensures r.None? ==> forall j :: i <= j ==> !IsHeader(s, j)
    decreases |s| - i
  {
    if i + 1 >= |s| then None
    else if IsHeader(s, i) then Some(i)
    else HeaderFrom(s, i + 1)
  }

  function FirstHeader(s: seq<byte>): Option<nat> {
    HeaderFrom(s, 0)
  }

  /** What the framing loop leaves behind: the payloads handed on, in order, and the bytes kept. */
  datatype Framing = Framing(payloads: seq<seq<byte>>, rest: seq<byte>)

  /**
    The framing loop on a buffer holding `s`: while at least a frame's worth
    is buffered, drop the bytes before the first sync pair, hand on the 24
    data bytes of a frame starting at 0, or, without any sync pair, keep
    only a trailing 0xFE.
   */
  function Deframe(s: seq<byte>): (r: Framing)
    ensures |r.rest| < FrameSize
    ensures AllPayloads(r.payloads)
    decreases |s|
  {
    if |s| < FrameSize then Framing([], s)
    else match FirstHeader(s)
      case None => Framing([], if s[|s| - 1] == Sync then [Sync] else [])
      case Some(h) =>
        if h > 0 then Deframe(s[h..])
        else
          var tail := Deframe(s[FrameSize..]);
          Framing([s[HeaderSize..FrameSize]] + tail.payloads, tail.rest)
  }

  /**
    The loop consumes a frame's worth of input per payload, what it keeps is
    the end of its input, and without any sync pair nothing is handed on.
   */
  lemma {:induction false} DeframeShape(s: seq<byte>)
    ensures var r := Deframe(s);
      && FrameSize * |r.payloads| + |r.rest| <= |s|
      && r.rest == s[|s| - |r.rest|..]
      && (FirstHeader(s).None? ==> r.payloads == [])
    decreases |s|
  {
    if |s| >= FrameSize && FirstHeader(s).Some? {
      var h := FirstHeader(s).value;
      var t := if h > 0 then s[h..] else s[FrameSize..];
      DeframeShape(t);
      var rest := Deframe(s).rest;
      assert rest == Deframe(t).rest;
      assert t[|t| - |rest|..] == s[|s| - |rest|..];
    }
  }

  /** `p` is the data of a whole frame of `s` whose sync pair starts at index k. */
  predicate FramedAt(s: seq<byte>, k: int, p: seq<byte>) {
    0 <= k && k + FrameSize <= |s| && IsHeader(s, k) && p == s[k + HeaderSize..k + FrameSize]
  }

  /** A frame of a suffix of `s` is a frame of `s`, shifted by where the suffix starts. */
  lemma FramedInSuffix(s: seq<byte>, h: nat, k: int, p: seq<byte>)
    requires h <= |s| && FramedAt(s[h..], k, p)
    ensures FramedAt(s, k + h, p)
  {
    assert s[h..][k] == s[k + h] && s[h..][k + 1] == s[k + h + 1];
    assert s[h..][k + HeaderSize..k + FrameSize] == s[k + h + HeaderSize..k + h + FrameSize];
  }

  /** `p` is the data of some whole frame of `s`. */
  ghost predicate Framed(s: seq<byte>, p: seq<byte>) {
    exists k :: FramedAt(s, k, p)
  }

  /** The frames of a suffix of `s` are frames of `s`. */
  lemma FramedInSuffixAll(s: seq<byte>, h: nat, ps: seq<seq<byte>>)
    requires h <= |s|
    requires forall i :: 0 <= i < |ps| ==> Framed(s[h..], ps[i])
    ensures forall i :: 0 <= i < |ps| ==> Framed(s, ps[i])
  {
    forall i | 0 <= i < |ps|
      ensures Framed(s, ps[i])
    {
      var k :| FramedAt(s[h..], k, ps[i]);
      FramedInSuffix(s, h, k, ps[i]);
    }
  }

  /**
    Every payload handed on is the 24 bytes after some sync pair of the
    input: bytes that are not framed never produce a record.
   */
  lemma {:induction false} PayloadsAreFramed(s: seq<byte>)
    ensures forall i :: 0 <= i < |Deframe(s).payloads| ==> Framed(s, Deframe(s).payloads[i])
    decreases |s|
  {
    if |s| >= FrameSize && FirstHeader(s).Some? {
      var h := FirstHeader(s).value;
      if h > 0 {
        PayloadsAreFramed(s[h..]);
        FramedInSuffixAll(s, h, Deframe(s[h..]).payloads);
      } else {
        var tail := Deframe(s[FrameSize..]).payloads;
        PayloadsAreFramed(s[FrameSize..]);
        FramedInSuffixAll(s, FrameSize, tail);
        assert FramedAt(s, 0, s[HeaderSize..FrameSize]);
        assert Deframe(s).payloads == [s[HeaderSize..FrameSize]] + tail;
      }
    } else {
      assert Deframe(s).payloads == [];
    }
  }

  /** With no sync pair in a full buffer, nothing is handed on and only a trailing 0xFE is kept. */
  lemma NoHeaderKeepsTrailingSync(s: seq<byte>)
    requires |s| >= FrameSize
    requires forall j :: 0 <= j < |s| ==> !IsHeader(s, j)
    ensures Deframe(s).payloads == []
    ensures Deframe(s).rest == if s[|s| - 1] == Sync then [Sync] else []
  {
  }

  /** Bytes before the first sync pair are discarded. */
  lemma GarbageDiscarded(g: seq<byte>, t: seq<byte>)
    requires |g| + |t| >= FrameSize
    requires IsHeader(t, 0)
    requires forall j :: 0 <= j < |g| ==> !IsHeader(g + t, j)
    ensures Deframe(g + t) == Deframe(t)
  {
    var s := g + t;
    assert IsHeader(s, |g|);
    assert FirstHeader(s) == Some(|g|);
    if |g| > 0 {
      assert s[|g|..] == t;
    } else {
      assert s == t;
    }
  }

  /** A frame as the vehicle sends it. */
  function Frame(p: seq<byte>): seq<byte> {
    [Sync, Sync] + p
  }

  /** Frames sent back to back. */
  function Stream(ps: seq<seq<byte>>): seq<byte>
    decreases |ps|
  {
    if |ps| == 0 then [] else Frame(ps[0]) + Stream(ps[1..])
  }

  predicate AllPayloads(ps: seq<seq<byte>>) {
    forall k :: 0 <= k < |ps| ==> |ps[k]| == PayloadSize
  }

  /** A well-formed stream yields exactly its payloads, in order, and nothing is left over. */
  lemma {:induction false} DeframeStream(ps: seq<seq<byte>>)
    requires AllPayloads(ps)
    ensures Deframe(Stream(ps)) == Framing(ps, [])
    decreases |ps|
  {
    if |ps| > 0 {
      var s := Stream(ps);
      assert s == Frame(ps[0]) + Stream(ps[1..]);
      assert IsHeader(s, 0);
      assert s[HeaderSize..FrameSize] == ps[0];
      assert s[FrameSize..] == Stream(ps[1..]);
      DeframeStream(ps[1..]);
      assert [ps[0]] + ps[1..] == ps;
    }
  }

  /**
    Garbage without a sync pair and not ending in 0xFE, then one frame, then a
    dangling 0xFE: exactly that frame is handed on and the 0xFE is kept.
   */
  lemma ResyncScenario(g: seq<byte>, p: seq<byte>)
    requires |p| == PayloadSize
    requires forall j :: 0 <= j < |g| ==> !IsHeader(g, j)
    requires |g| > 0 ==> g[|g| - 1] != Sync
    ensures Deframe(g + Frame(p) + [Sync]) == Framing([p], [Sync])
  {
    var t := Frame(p) + [Sync];
    assert g + Frame(p) + [Sync] == g + t;
    NoHeaderInPrefix(g, t);
    assert IsHeader(t, 0);
    GarbageDiscarded(g, t);
    FrameThenSync(p);
  }

  /** Garbage without a sync pair, not ending in 0xFE, starts no sync pair whatever follows it. */
  lemma NoHeaderInPrefix(g: seq<byte>, t: seq<byte>)
    requires forall j :: 0 <= j < |g| ==> !IsHeader(g, j)
    requires |g| > 0 ==> g[|g| - 1] != Sync
    ensures forall j :: 0 <= j < |g| ==> !IsHeader(g + t, j)
  {
    forall j | 0 <= j < |g|
      ensures !IsHeader(g + t, j)
    {
      assert (g + t)[j] == g[j];
      if j + 1 < |g| {
        assert !IsHeader(g, j);
        assert (g + t)[j + 1] == g[j + 1];
      }
    }
  }

  lemma FrameThenSync(p: seq<byte>)
    requires |p| == PayloadSize
    ensures Deframe(Frame(p) + [Sync]) == Framing([p], [Sync])
  {
    var t := Frame(p) + [Sync];
    assert IsHeader(t, 0);
    assert FirstHeader(t) == Some(0);
    assert t[FrameSize..] == [Sync];
    assert t[HeaderSize..FrameSize] == p;
    assert Deframe([Sync]) == Framing([], [Sync]);
  }

  /**
    Garbage ending in 0xFE before a frame: the scan takes that 0xFE and the
    frame's first sync byte as the sync pair, so the payload handed on is
    read one byte early and the frame's last byte is kept with the 0xFE.
   */
  lemma SyncEndedGarbage(p: seq<byte>)
    requires |p| == PayloadSize
    ensures Deframe([Sync] + Frame(p) + [Sync]) == Framing([[Sync] + p[..PayloadSize - 1]], [p[PayloadSize - 1], Sync])
  {
    var s := [Sync] + Frame(p) + [Sync];
    assert IsHeader(s, 0);
    assert FirstHeader(s) == Some(0);
    assert s[HeaderSize..FrameSize] == [Sync] + p[..PayloadSize - 1];
    assert s[FrameSize..] == [p[PayloadSize - 1], Sync];
    assert Deframe([p[PayloadSize - 1], Sync]) == Framing([], [p[PayloadSize - 1], Sync]);
  }

  /** One telemetry record per payload. */
  function DecodeAll(ps: seq<seq<byte>>): (ts: seq<Telemetry>)
    requires AllPayloads(ps)
    ensures |ts| == |ps|
    decreases |ps|
  {
    if |ps| == 0 then [] else [Decode(ps[0])] + DecodeAll(ps[1..])
  }

  /** Decoding a list of payloads one more payload long appends one record. */
  lemma {:induction false} DecodeAllSnoc(ps: seq<seq<byte>>, p: seq<byte>)
    requires AllPayloads(ps) && |p| == PayloadSize
    ensures AllPayloads(ps + [p])
    ensures DecodeAll(ps + [p]) == DecodeAll(ps) + [Decode(p)]
    decreases |ps|
  {
    if |ps| > 0 {
      assert (ps + [p])[1..] == ps[1..] + [p];
      DecodeAllSnoc(ps[1..], p);
    }
  }

  /** One pass of the framing loop on a full buffer, as Deframe takes it. */
  lemma DeframeStep(s: seq<byte>)
    requires |s| >= FrameSize
    ensures FirstHeader(s).Some? && FirstHeader(s).value > 0 ==>
      Deframe(s) == Deframe(s[FirstHeader(s).value..])
    ensures FirstHeader(s) == Some(0) ==>
      Deframe(s) == Framing([s[HeaderSize..FrameSize]] + Deframe(s[FrameSize..]).payloads,
                            Deframe(s[FrameSize..]).rest)
    ensures FirstHeader(s).None? ==>
      Deframe(s) == Framing([], if s[|s| - 1] == Sync then [Sync] else [])
  {
  }

  /** Moving the frame at the front of `cur` to the payloads handed on keeps the whole result. */
  lemma FrameAccounting(s: seq<byte>, done: seq<seq<byte>>, cur: seq<byte>)
    requires |cur| >= FrameSize && FirstHeader(cur) == Some(0)
    requires Pending(s, done, cur)
    ensures Pending(s, done + [cur[HeaderSize..FrameSize]], cur[FrameSize..])
  {
    DeframeStep(cur);
    DecodeAllSnoc(done, cur[HeaderSize..FrameSize]);
    AppendAssoc(done, [cur[HeaderSize..FrameSize]], Deframe(cur[FrameSize..]).payloads);
  }

  lemma AppendAssoc<T>(a: seq<T>, b: seq<T>, c: seq<T>)
    ensures a + (b + c) == (a + b) + c
  {
  }

  /**
    The framing loop's invariant: the payloads `done` handed on so far,
    followed by what the buffer `cur` still yields, make up what the loop
    yields on its starting bytes `s`.
   */
  ghost predicate Pending(s: seq<byte>, done: seq<seq<byte>>, cur: seq<byte>) {
    AllPayloads(done) &&
    Deframe(s) == Framing(done + Deframe(cur).payloads, Deframe(cur).rest)
  }

  lemma Accounting(s: seq<byte>)
    ensures Pending(s, [], s)
  {
    assert [] + Deframe(s).payloads == Deframe(s).payloads;
  }

  /** Dropping the bytes before the first sync pair of `cur` keeps the whole result. */
  lemma DiscardAccounting(s: seq<byte>, done: seq<seq<byte>>, cur: seq<byte>)
    requires |cur| >= FrameSize && FirstHeader(cur).Some? && FirstHeader(cur).value > 0
    requires Pending(s, done, cur)
    ensures Pending(s, done, cur[FirstHeader(cur).value..])
  {
    DeframeStep(cur);
  }

  /** A full `cur` without a sync pair ends the result with at most a trailing 0xFE. */
  lemma NoHeaderAccounting(s: seq<byte>, done: seq<seq<byte>>, cur: seq<byte>)
    requires |cur| >= FrameSize && FirstHeader(cur).None?
    requires Pending(s, done, cur)
    ensures Deframe(s) == Framing(done, if cur[|cur| - 1] == Sync then [Sync] else [])
  {
    DeframeStep(cur);
    assert done + [] == done;
  }

  /** Less than a frame's worth in `cur` is kept as it is. */
  lemma ShortAccounting(s: seq<byte>, done: seq<seq<byte>>, cur: seq<byte>)
    requires |cur| < FrameSize
    requires Pending(s, done, cur)
    ensures Deframe(s) == Framing(done, cur)
  {
    assert done + [] == done;
  }

  /** A short buffer that is all of what remains keeps the invariant. */
  lemma ShortPending(s: seq<byte>, done: seq<seq<byte>>, cur: seq<byte>)
    requires |cur| < FrameSize && AllPayloads(done)
    requires Deframe(s) == Framing(done, cur)
    ensures Pending(s, done, cur)
  {
    assert done + [] == done;
  }

  /** Scans a[0 .. n-1) for the first sync pair, as the inner for loop does; -1 for none. */
  method FindHeader(a: array<byte>, n: nat) returns (idx: int)
    requires n <= a.Length
    ensures idx == match FirstHeader(a[..n]) case None => -1 case Some(h) => h
  {
    ghost var s := a[..n];
    idx := -1;
    var i := 0;
    while i < n - 1
      invariant 0 <= i <= n
      invariant idx == -1
      invariant HeaderFrom(s, i) == HeaderFrom(s, 0)
    {
      if a[i] == Sync && a[i + 1] == Sync {
        assert IsHeader(s, i);
        idx := i;
        break;
      }
      assert !IsHeader(s, i);
      i := i + 1;
    }
  }

  /** Array.Copy(a, from, a, 0, count): copies as if through a temporary, so overlap is harmless. */
  method ShiftToFront(a: array<byte>, from: nat, count: nat)
    requires from + count <= a.Length
    modifies a
    ensures a[..count] == old(a[from..from + count])
    ensures a[count..] == old(a[count..])
  {
    forall k | 0 <= k < count {
      a[k] := a[from + k];
    }
  }

  // ---------------------------------------------------------------------
  // The controller
  // ---------------------------------------------------------------------

  /**
    The controller object. `buffer` and `collected` are the receive loop's
    own buffer and fill count; they live here because one call of Receive
    models one pass of that loop. `sent`, `received` and `connectionEvents`
    record, in order, what the OnPacketSent, OnStatusReceived and
    OnConnectionChanged notifications carry.
   */
  class Controller {
    var mode: DriveMode
    var isForward: bool
    var isBackward: bool
    var isLeft: bool
    var isRight: bool
    var currentX: int
    var currentC: int
    var isConnected: bool
    var lastReceivedTime: int
    var buffer: array<byte>
    var collected: nat
    var sent: seq<string>
    var received: seq<Telemetry>
    var connectionEvents: seq<bool>

    ghost predicate Valid()
      reads this
    {
      buffer.Length == BufferSize && collected < FrameSize &&
      Bounded(mode, currentX, currentC)
    }

    constructor ()
      ensures Valid() && fresh(buffer)
      ensures mode == FourWS && currentX == 0 && currentC == 0
      ensures !isForward && !isBackward && !isLeft && !isRight
      ensures !isConnected && collected == 0
      ensures sent == [] && received == [] && connectionEvents == []
    {
      mode := FourWS;
      isForward, isBackward, isLeft, isRight := false, false, false, false;
      currentX, currentC := 0, 0;
      isConnected := false;
      lastReceivedTime := 0;
      buffer := new byte[BufferSize];
      collected := 0;
      sent, received, connectionEvents := [], [], [];
    }

    /** Selects a mode and zeroes both accumulators. */
    method SetMode(m: DriveMode)
      requires Valid()
      modifies this
      ensures Valid()
      ensures mode == m && currentX == 0 && currentC == 0
      ensures isForward == old(isForward) && isBackward == old(isBackward)
      ensures isLeft == old(isLeft) && isRight == old(isRight)
      ensures isConnected == old(isConnected) && lastReceivedTime == old(lastReceivedTime)
      ensures buffer == old(buffer) && collected == old(collected)
      ensures sent == old(sent) && received == old(received) && connectionEvents == old(connectionEvents)
    {
      mode := m;
      currentX := 0;
      currentC := 0;
    }

    /** Latches the four held-input flags and touches nothing else. */
    method SetInput(forward: bool, backward: bool, left: bool, right: bool)
      requires Valid()
      modifies this`isForward, this`isBackward, this`isLeft, this`isRight
      ensures Valid()
      ensures isForward == forward && isBackward == backward && isLeft == left && isRight == right
    {
      isForward := forward;
      isBackward := backward;
      isLeft := left;
      isRight := right;
    }

    /** Marks the link down and notifies connection-changed(false); idempotent on the state. */
    method Disconnect()
      requires Valid()
      modifies this`isConnected, this`connectionEvents
      ensures Valid()
      ensures !isConnected && connectionEvents == old(connectionEvents) + [false]
    {
      isConnected := false;
      connectionEvents := connectionEvents + [false];
    }

    /**
      The state effects of ConnectAsync once the connect attempt has an
      outcome: on success the link is up, the watchdog clock restarts and a
      fresh receive buffer is started; a timeout or a connect error tears
      the link down and is reported to the caller.
     */
    method Connect(outcome: ConnectOutcome, now: int) returns (err: Option<ConnectError>)
      requires Valid()
      modifies this
      ensures Valid()
      ensures mode == old(mode) && currentX == old(currentX) && currentC == old(currentC)
      ensures isForward == old(isForward) && isBackward == old(isBackward)
      ensures isLeft == old(isLeft) && isRight == old(isRight)
      ensures sent == old(sent) && received == old(received)
      ensures outcome == Established ==>
        err == None && isConnected && lastReceivedTime == now && collected == 0 && fresh(buffer) &&
        connectionEvents == old(connectionEvents) + [true]
      ensures outcome != Established ==>
        err == Some(if outcome == TimedOut then ConnectTimeout else ConnectFailed) &&
        !isConnected && connectionEvents == old(connectionEvents) + [false] &&
        lastReceivedTime == old(lastReceivedTime) && buffer == old(buffer) && collected == old(collected)
    {
      if outcome == Established {
        isConnected := true;
        lastReceivedTime := now;
        connectionEvents := connectionEvents + [true];
        buffer := new byte[BufferSize];
        collected := 0;
        err := None;
      } else {
        Disconnect();
        err := Some(if outcome == TimedOut then ConnectTimeout else ConnectFailed);
      }
    }

    /** The watchdog has expired: more than 2 s since the last frame. */
    function Stale(now: int): (stale: bool)
      reads this
      ensures stale ==> now > lastReceivedTime
      ensures lastReceivedTime <= now <= lastReceivedTime + WatchdogMs ==> !stale
    {
      now - lastReceivedTime > WatchdogMs
    }

    /**
      Writes one command packet while the link is up (`linkUp` is the
      socket's own connected state); a failed write (`writeOk` false)
      disconnects instead of reporting the packet.
     */
    method SendPacket(accel: real, rf: real, rr: real, lf: real, lr: real,
                      fmt: real -> string, linkUp: bool, writeOk: bool)
      requires Valid()
      modifies this`isConnected, this`connectionEvents, this`sent
      ensures Valid()
      ensures !(old(isConnected) && linkUp) ==>
        sent == old(sent) && isConnected == old(isConnected) && connectionEvents == old(connectionEvents)
      ensures old(isConnected) && linkUp && writeOk ==>
        sent == old(sent) + [Packet(fmt, accel, rf, rr, lf, lr)] &&
        isConnected && connectionEvents == old(connectionEvents)
      ensures old(isConnected) && linkUp && !writeOk ==>
        sent == old(sent) && !isConnected && connectionEvents == old(connectionEvents) + [false]
    {
      if isConnected && linkUp {
        var pkt := Packet(fmt, accel, rf, rr, lf, lr);
        if writeOk {
          sent := sent + [pkt];
        } else {
          Disconnect();
        }
      }
    }

    /**
      One control tick at clock `now` (milliseconds): the watchdog check,
      then, while the link is up, the accumulator update of the mode, the
      wheel angles and the packet.
     */
    method UpdateControl(now: int, linkUp: bool, angIn: nat -> real, angOut: nat -> real,
                         fmt: real -> string, writeOk: bool)
      requires Valid()
      modifies this
      ensures Valid()
      ensures mode == old(mode) && buffer == old(buffer) && collected == old(collected)
      ensures isForward == old(isForward) && isBackward == old(isBackward)
      ensures isLeft == old(isLeft) && isRight == old(isRight)
      ensures received == old(received) && lastReceivedTime == old(lastReceivedTime)
      // watchdog trips: disconnect, nothing sent, accumulators kept
      ensures old(isConnected) && old(Stale(now)) ==>
        !isConnected && connectionEvents == old(connectionEvents) + [false] &&
        sent == old(sent) && currentX == old(currentX) && currentC == old(currentC)
      // no usable link: nothing at all happens
      ensures !old(isConnected) || (!old(Stale(now)) && !linkUp) ==>
        isConnected == old(isConnected) && connectionEvents == old(connectionEvents) &&
        sent == old(sent) && currentX == old(currentX) && currentC == old(currentC)
      // a live tick
      ensures old(isConnected) && !old(Stale(now)) && linkUp ==>
        currentX == NextThrottle(mode, isForward, isBackward, isLeft, isRight, old(currentX)) &&
        currentC == NextSteer(mode, isLeft, isRight, old(currentC)) &&
        var w := WheelAngles(mode, currentC, angIn, angOut);
        (writeOk ==>
          isConnected && connectionEvents == old(connectionEvents) &&
          sent == old(sent) + [Packet(fmt, currentX as real, w.rf, w.rr, w.lf, w.lr)]) &&
        (!writeOk ==>
          !isConnected && connectionEvents == old(connectionEvents) + [false] && sent == old(sent))
    {
      if isConnected {
        if now - lastReceivedTime > WatchdogMs {
          Disconnect();
          return;
        }
      }
      if !isConnected || !linkUp {
        return;
      }
      TickKeepsBounds(mode, isForward, isBackward, isLeft, isRight, currentX, currentC);
      var targetAccel := AdvanceAccumulators();
      var w := SelectWheels(angIn, angOut);
      SendPacket(targetAccel as real, w.rf, w.rr, w.lf, w.lr, fmt, linkUp, writeOk);
    }

    /** The accumulator part of a live tick: step by the rate and clamp, per mode. */
    method AdvanceAccumulators() returns (targetAccel: int)
      modifies this`currentX, this`currentC
      ensures currentX == NextThrottle(mode, isForward, isBackward, isLeft, isRight, old(currentX))
      ensures currentC == NextSteer(mode, isLeft, isRight, old(currentC))
      ensures targetAccel == currentX
    {
      if mode == Pivot {
        if isLeft {
          currentX := currentX + AccelRate;
          if currentX > MaxPivotSpeed { currentX := MaxPivotSpeed; }
        } else if isRight {
          currentX := currentX - AccelRate;
          if currentX < -MaxPivotSpeed { currentX := -MaxPivotSpeed; }
        } else {
          currentX := 0;
        }
        targetAccel := currentX;
      } else {
        if isForward {
          currentX := currentX + AccelRate;
          if currentX > MaxSpeed { currentX := MaxSpeed; }
        } else if isBackward {
          currentX := currentX - AccelRate;
          if currentX < -MaxSpeed { currentX := -MaxSpeed; }
        } else {
          currentX := 0;
        }
        targetAccel := currentX;

        if isLeft {
          currentC := currentC + SteerRate;
        } else if isRight {
          currentC := currentC - SteerRate;
        }
        var limit := if mode == Crab then MaxSteerCrab else MaxSteer4WS;
        if currentC > limit { currentC := limit; }
        if currentC < -limit { currentC := -limit; }
      }
    }

    /** The wheel-angle part of a live tick: fixed in Pivot, all equal in Crab, Calculate4WS in FourWS. */
    method SelectWheels(angIn: nat -> real, angOut: nat -> real) returns (w: Wheels)
      ensures w == WheelAngles(mode, currentC, angIn, angOut)
    {
      if mode == Pivot {
        w := PivotWheels;
      } else if mode == Crab {
        w := Wheels(currentC as real, currentC as real, currentC as real, currentC as real);
      } else {
        w := Calculate4WS(currentC, angIn, angOut);
      }
    }

    /** Array.Copy of the bytes from index h on to the front: the bytes before h are dropped. */
    method DiscardBefore(h: nat)
      requires h <= collected <= buffer.Length
      modifies buffer, this`collected
      ensures collected == old(collected) - h
      ensures buffer[..collected] == old(buffer[..collected])[h..]
    {
      ShiftToFront(buffer, h, collected - h);
      collected := collected - h;
    }

    /** Hands on the frame at the front and moves the remaining bytes to the front. */
    method TakeFrame(now: int)
      requires FrameSize <= collected <= buffer.Length
      modifies buffer, this`collected, this`received, this`lastReceivedTime
      ensures collected == old(collected) - FrameSize
      ensures buffer[..collected] == old(buffer[..collected])[FrameSize..]
      ensures received == old(received) + [Decode(old(buffer[..collected])[HeaderSize..FrameSize])]
      ensures lastReceivedTime == now
    {
      var payload := buffer[HeaderSize..FrameSize];
      assert payload == buffer[..collected][HeaderSize..FrameSize];
      var t := ProcessPacket(payload);
      ProcessPacketIsDecode(payload, t);
      received := received + [t];
      lastReceivedTime := now;
      var remaining := collected - FrameSize;
      if remaining > 0 {
        ShiftToFront(buffer, FrameSize, remaining);
      }
      collected := remaining;
    }

    /**
      One pass of the framing loop's body on a buffer holding at least a
      frame: `done` are the payloads handed on so far, out of the bytes `s`
      the loop started with, `r0` and `t0` the notifications and clock before.
      `stop` is the loop's break: no sync pair was found.
     */
    method FramingPass(now: int, ghost s: seq<byte>, ghost done: seq<seq<byte>>,
                       ghost r0: seq<Telemetry>, ghost t0: int)
        returns (stop: bool, ghost done': seq<seq<byte>>)
      requires FrameSize <= collected <= buffer.Length
      requires Pending(s, done, buffer[..collected])
      requires received == r0 + DecodeAll(done)
      requires lastReceivedTime == if done == [] then t0 else now
      modifies buffer, this`collected, this`received, this`lastReceivedTime
      ensures collected < old(collected)
      ensures stop ==> collected < FrameSize
      ensures Pending(s, done', buffer[..collected])
      ensures received == r0 + DecodeAll(done')
      ensures lastReceivedTime == if done' == [] then t0 else now
    {
      ghost var cur := buffer[..collected];
      stop, done' := false, done;
      var headerIdx := FindHeader(buffer, collected);
      if headerIdx >= 0 {
        if headerIdx > 0 {
          // discard everything before the sync pair and scan again
          DiscardBefore(headerIdx);
          DiscardAccounting(s, done, cur);
          return;
        }
        // the sync pair is at 0 and a full frame is buffered
        ghost var p := cur[HeaderSize..FrameSize];
        TakeFrame(now);
        DecodeAllSnoc(done, p);
        AppendAssoc(r0, DecodeAll(done), [Decode(p)]);
        FrameAccounting(s, done, cur);
        done' := done + [p];
      } else {
        DropUnframed(s, done);
        stop := true;
      }
    }

    /** No sync pair in the buffer: keep a trailing 0xFE, drop the rest. */
    method DropUnframed(ghost s: seq<byte>, ghost done: seq<seq<byte>>)
      requires FrameSize <= collected <= buffer.Length
      requires FirstHeader(buffer[..collected]).None?
      requires Pending(s, done, buffer[..collected])
      modifies buffer, this`collected
      ensures collected < FrameSize
      ensures Pending(s, done, buffer[..collected])
    {
      ghost var cur := buffer[..collected];
      NoHeaderAccounting(s, done, cur);
      var last := buffer[collected - 1];
      assert last == cur[|cur| - 1];
      if last == Sync {
        buffer[0] := Sync;
        collected := 1;
        assert buffer[..collected] == [Sync];
      } else {
        collected := 0;
      }
      ShortPending(s, done, buffer[..collected]);
    }

    /**
      The framing loop of the receive loop: hands on every complete frame of
      the buffer (decoded, with the watchdog clock refreshed to `now`) and
      leaves the kept bytes at the front.
     */
    method ExtractFrames(now: int)
      requires collected <= buffer.Length
      modifies buffer, this`collected, this`received, this`lastReceivedTime
      ensures collected < FrameSize && collected <= buffer.Length
      ensures var f := Deframe(old(buffer[..collected]));
        && buffer[..collected] == f.rest
        && received == old(received) + DecodeAll(f.payloads)
        && lastReceivedTime == if f.payloads == [] then old(lastReceivedTime) else now
    {
      ghost var s := buffer[..collected];
      ghost var done: seq<seq<byte>> := [];
      Accounting(s);
      while collected >= FrameSize
        invariant collected <= buffer.Length
        invariant Pending(s, done, buffer[..collected])
        invariant received == old(received) + DecodeAll(done)
        invariant lastReceivedTime == if done == [] then old(lastReceivedTime) else now
        decreases collected
      {
        var stop;
        stop, done := FramingPass(now, s, done, old(received), old(lastReceivedTime));
        if stop {
          break;
        }
      }
      ShortAccounting(s, done, buffer[..collected]);
    }

    /**
      One pass of the receive loop with the bytes `data` that one read
      returned (a read never returns more than the free space). A read of
      0 bytes means the remote closed the stream and disconnects. The loop
      runs only while connected.
     */
    method Receive(data: seq<byte>, now: int)
      requires Valid()
      requires |data| <= BufferSize - collected
      modifies buffer, this`collected, this`received, this`lastReceivedTime
      modifies this`isConnected, this`connectionEvents
      ensures Valid()
      ensures !old(isConnected) ==>
        !isConnected && connectionEvents == old(connectionEvents) && collected == old(collected) &&
        buffer[..] == old(buffer[..]) && received == old(received) && lastReceivedTime == old(lastReceivedTime)
      ensures old(isConnected) && |data| == 0 ==>
        !isConnected && connectionEvents == old(connectionEvents) + [false] &&
        collected == old(collected) && buffer[..] == old(buffer[..]) &&
        received == old(received) && lastReceivedTime == old(lastReceivedTime)
      ensures old(isConnected) && |data| > 0 ==>
        var f := Deframe(old(buffer[..collected]) + data);
        && isConnected && connectionEvents == old(connectionEvents)
        && buffer[..collected] == f.rest
        && received == old(received) + DecodeAll(f.payloads)
        && lastReceivedTime == if f.payloads == [] then old(lastReceivedTime) else now
    {
      if !isConnected {
        return;
      }
      if |data| == 0 {
        Disconnect();
        return;
      }
      Append(data);
      ExtractFrames(now);
    }

    /** Copies the bytes just read behind those already collected. */
    method Append(data: seq<byte>)
      requires collected + |data| <= buffer.Length
      modifies buffer, this`collected
      ensures collected == old(collected) + |data|
      ensures buffer[..collected] == old(buffer[..collected]) + data
    {
      forall i | 0 <= i < |data| {
        buffer[collected + i] := data[i];
      }
      collected := collected + |data|;
    }
  }
}
