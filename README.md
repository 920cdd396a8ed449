# Teleoperation console control plane

This project models the control plane of an operator console for a
four-wheel-steer vehicle, and proves properties of that model. The console
turns held direction inputs into a stream of throttle and wheel-angle
commands sent over TCP. It also decodes the telemetry frames the vehicle
sends back.

The repository has two alternative versions of the controller, modelled as
two independent modules:

- `MainFunction` is the console class with its TCP link
  (`Contrul_tester/MainFunction.cs`). Its parts:
  - a drive-mode state machine for FourWS, Crab and Pivot, with a throttle
    and a steering accumulator;
  - the `Calculate4WS` sign assignment;
  - a liveness watchdog over the connected flag;
  - the receive loop's in-place framing buffer: 1024 bytes, each frame is
    0xFE 0xFE followed by 24 data bytes;
  - big-endian two's-complement telemetry words;
  - the `;`-terminated command packet.
- `MainWindow` is the window-bound version
  (`Contrul_tester/MainWindow.xaml.cs`). Its parts:
  - a steering rate of 1 and a steering limit of 90;
  - a different spot-turn diamond;
  - inline four-wheel-steer angles with the opposite left-side signs;
  - Stop, release and key handlers;
  - a packet with no terminator.
- `Text` holds the comma join that both packets use and the receiver-side
  split that undoes it.
- `Variants` relates the two versions.

How the model is built:

- **Accumulators are integers.** Every rate, limit and reset value in the
  source is integral, so the `double` accumulators only ever hold
  integers. For the same reason the four-wheel-steer deadband `|c| > 0.1`
  is `c != 0`, a fact proved as `SteeringIsDeadband`.
- **Wheel angles are reals.** The inner and outer angle for a steering
  magnitude are function parameters `angIn` and `angOut`.
- **Numbers are formatted by a parameter.** The number formatter is a
  function parameter `fmt`. The packet lemmas assume only that its output
  contains no `,` or `;`.
- **The clock is a parameter.** It is an integer in milliseconds.
- **The link is a parameter.** A TCP client's own connected state is the
  `linkUp` parameter, and whether a write succeeds is the `writeOk`
  parameter.
- **One read is one call.** One `Receive(data, now)` call stands for one
  pass of the receive loop, with the bytes one read returned. The loop's
  local buffer and fill count are fields of the `Controller`.
- **Notifications are recorded sequences.** `sent`, `received` and
  `connectionEvents` hold, in order, what the packet-sent, status and
  connection-changed notifications carry.

The framing loop `Controller.ExtractFrames` works in place on the array. It
is proved against the function `Deframe`, which states what the loop hands
on and what it keeps. The lemmas about `Deframe` cover:

- termination, with fewer than 26 bytes left;
- the kept bytes being a suffix of the input;
- garbage before the first sync pair being dropped, once at least 26 bytes
  are buffered;
- only a trailing 0xFE surviving when there is no sync pair;
- exact recovery of a stream of well-formed frames.

The watchdog clock of `MainFunction` is refreshed only when a complete
frame is handed on (`MainFunction.cs:290`). A read that delivers bytes
without completing a frame does not refresh it. The model follows the code
here.

The resynchronisation after garbage holds only when the garbage does not end
in 0xFE. When it does, the scan at `MainFunction.cs:264-269` takes that byte
and the frame's first sync byte as the sync pair, and the frame is read one
byte off: `SyncEndedGarbage` shows the payload handed on starting with 0xFE
and the frame's last byte kept in the buffer.

## Model

| member | source | states |
|---|---|---|
| MainFunction.NextThrottle | Contrul_tester/MainFunction.cs:156-189 | The raising input is Left in Pivot and Forward otherwise. It moves the throttle up by exactly 2, or to the limit only when 2 more would pass it; the limit is 50 in Pivot and 100 otherwise. Failing that, the lowering input moves it down by exactly 2, or to minus the limit only when 2 less would pass it. With neither held it snaps to 0. A throttle within the limit stays within it. |
| MainFunction.NextSteer | Contrul_tester/MainFunction.cs:191-196 | Pivot leaves the steering unchanged. Otherwise the result is within 89 in FourWS and within 135 in Crab. Starting within the limit: Left moves it by exactly +2, or to the limit only when +2 would pass it; Right moves it by exactly -2, or to minus the limit only when -2 would pass it; with neither held it keeps its value. |
| MainFunction.TickKeepsBounds | Contrul_tester/MainFunction.cs:156-196 | A tick keeps throttle and steering within the current mode's limits, and keeps the steering at 0 in Pivot. |
| MainFunction.FirstInputWins | Contrul_tester/MainFunction.cs:175-192 | Forward beats Backward in FourWS and Crab, and Left beats Right for the Pivot throttle and for steering. |
| MainFunction.SteeringIsDeadband | Contrul_tester/MainFunction.cs:214 | For an integral command, lying outside the 0.1 deadband is the same as being non-zero. |
| MainFunction.Calculate4WS | Contrul_tester/MainFunction.cs:212-237 | Inside the deadband all four angles are zero. Each rear wheel is the negation of its front wheel. For a left turn LF = -angIn and RF = angOut. For a right turn RF = -angIn and LF = angOut. |
| MainFunction.Calculate4WSMirror | Contrul_tester/MainFunction.cs:221-231 | Steering by -c gives the result for c with the left and right values swapped and their signs kept. |
| MainFunction.WheelAngles | Contrul_tester/MainFunction.cs:146-205 | Pivot always gives RF -135, RR 135, LF 45, LR -45. Crab gives all four wheels equal to the steering value. FourWS gives Calculate4WS. |
| MainFunction.Packet | Contrul_tester/MainFunction.cs:357 | The packet is the five formatted fields joined by `,` with `;` appended: it ends in `;` and starts with the formatted throttle. |
| MainFunction.PacketFields | Contrul_tester/MainFunction.cs:357 | The packet ends in its only `;`. Splitting what comes before it at `,` gives back the five formatted fields in the order accel, rf, rr, lf, lr. |
| MainFunction.Int32BigEndian | Contrul_tester/MainFunction.cs:337 | The word lies in the int32 range, and it is negative exactly when the high byte has its top bit set. |
| MainFunction.Word | Contrul_tester/MainFunction.cs:334-337 | Word i of a payload is the int32 read from bytes 4i to 4i+3: it lies in the int32 range and is negative exactly when byte 4i has its top bit set. |
| MainFunction.Decode | Contrul_tester/MainFunction.cs:334-341 | A payload decodes to five channel words and an error code, all in the int32 range. |
| MainFunction.Int32RoundTrip | Contrul_tester/MainFunction.cs:337 | Reading back the big-endian two's-complement bytes of any int32 gives that value. |
| MainFunction.BytesRoundTrip | Contrul_tester/MainFunction.cs:337 | Encoding the word read from any four bytes gives those four bytes back, so the reading is one-to-one. |
| MainFunction.WordOfEncoding | Contrul_tester/MainFunction.cs:334-341 | Word i of an encoded frame is telemetry value i for i < 5, and the error code for i = 5. |
| MainFunction.DecodeEncode | Contrul_tester/MainFunction.cs:334-341 | Decoding a sender's 24-byte payload recovers its five values and its error code. |
| MainFunction.ProcessPacket | Contrul_tester/MainFunction.cs:327-349 | The loop over six words yields five values equal to words 0 to 4 and an error code equal to word 5. |
| MainFunction.ProcessPacketIsDecode | Contrul_tester/MainFunction.cs:334-341 | The loop's result is exactly Decode of the payload. |
| MainFunction.HeaderFrom | Contrul_tester/MainFunction.cs:264-271 | It returns the first index at or after i where 0xFE 0xFE starts, and None when there is no such index. |
| MainFunction.FindHeader | Contrul_tester/MainFunction.cs:263-271 | The scan of the first n-1 positions returns the first sync-pair index, or -1 when there is none. |
| MainFunction.ShiftToFront | Contrul_tester/MainFunction.cs:278 | Array.Copy to the front: the first count bytes become the old bytes from `from` on, and the rest of the array is unchanged. |
| MainFunction.Deframe | Contrul_tester/MainFunction.cs:260-318 | Fewer than 26 bytes are kept, and every payload handed on has 24 bytes. |
| MainFunction.DeframeShape | Contrul_tester/MainFunction.cs:260-318 | 26 input bytes are consumed per payload handed on, the kept bytes are a suffix of the input, and with no sync pair nothing is handed on. |
| MainFunction.PayloadsAreFramed | Contrul_tester/MainFunction.cs:260-318 | Every payload handed on is the 24 bytes after some 0xFE 0xFE pair of the input with a whole frame behind it: bytes outside a frame never produce a record. |
| MainFunction.FramedInSuffix | Contrul_tester/MainFunction.cs:278-295 | A frame found after the buffer is shifted down by h bytes is a frame, h bytes further on, of the unshifted bytes. |
| MainFunction.FramedInSuffixAll | Contrul_tester/MainFunction.cs:278-295 | Every frame of the shifted bytes is a frame of the unshifted bytes. |
| MainFunction.DeframeStep | Contrul_tester/MainFunction.cs:273-317 | One pass on a full buffer does one of three things. A sync pair after index 0 drops the bytes before it. A sync pair at index 0 hands on bytes 2 to 26 and continues after the frame. No sync pair keeps only a trailing 0xFE. |
| MainFunction.NoHeaderKeepsTrailingSync | Contrul_tester/MainFunction.cs:298-316 | A full buffer without a sync pair hands on nothing and keeps [0xFE] or nothing, depending on its last byte. |
| MainFunction.GarbageDiscarded | Contrul_tester/MainFunction.cs:260-281 | Once at least 26 bytes are buffered, bytes before the first sync pair do not affect the result. Below 26 bytes the loop does not run and the garbage is kept. |
| MainFunction.DeframeStream | Contrul_tester/MainFunction.cs:284-296 | Frames sent back to back are all handed on, in order, with nothing left over. |
| MainFunction.FrameThenSync | Contrul_tester/MainFunction.cs:284-296 | One frame followed by a lone 0xFE hands on the frame and keeps the 0xFE. |
| MainFunction.ResyncScenario | Contrul_tester/MainFunction.cs:260-318 | Garbage without any sync pair and not ending in 0xFE, then a frame, then a dangling 0xFE: exactly that frame is handed on and the 0xFE is kept. |
| MainFunction.SyncEndedGarbage | Contrul_tester/MainFunction.cs:264-295 | A single 0xFE of garbage before a frame and a dangling 0xFE: the scan pairs the garbage byte with the frame's first sync byte, so the payload handed on is 0xFE followed by the first 23 payload bytes, and the last payload byte is kept with the 0xFE. |
| MainFunction.NoHeaderInPrefix | Contrul_tester/MainFunction.cs:264-271 | Garbage with no sync pair and no trailing 0xFE starts no sync pair, whatever bytes follow it. |
| MainFunction.DecodeAllSnoc | Contrul_tester/MainFunction.cs:289 | Handing on one more payload appends exactly its decoded record to the notifications. |
| MainFunction.Controller.constructor | Contrul_tester/MainFunction.cs:29-44 | It starts in FourWS, with every input released, both accumulators at 0, disconnected, and an empty buffer. |
| MainFunction.Controller.SetMode | Contrul_tester/MainFunction.cs:61-67 | It sets the mode and zeroes both accumulators. Nothing else changes. |
| MainFunction.Controller.SetInput | Contrul_tester/MainFunction.cs:69-75 | It overwrites exactly the four input flags. |
| MainFunction.Controller.Disconnect | Contrul_tester/MainFunction.cs:110-124 | The link is down afterwards, and exactly one connection-changed(false) is recorded. |
| MainFunction.Controller.Connect | Contrul_tester/MainFunction.cs:77-108 | On success the link is up, the watchdog clock is `now`, connection-changed(true) is recorded and a fresh empty buffer starts. A timeout or a connect error disconnects and is returned as ConnectTimeout or ConnectFailed. |
| MainFunction.Controller.Stale | Contrul_tester/MainFunction.cs:131 | The watchdog test, more than 2000 ms since the last frame: stale implies the clock has moved past the last frame, and a clock at most 2000 ms after it is never stale. |
| MainFunction.Controller.SendPacket | Contrul_tester/MainFunction.cs:351-368 | With the link up, a successful write records the packet. A failed write records nothing and disconnects. Without a link, nothing happens. |
| MainFunction.Controller.UpdateControl | Contrul_tester/MainFunction.cs:126-210 | A connected controller more than 2000 ms past its last frame disconnects, sends nothing and keeps its accumulators. With no link, nothing changes. A live tick applies NextThrottle and NextSteer and sends the packet of the new throttle and WheelAngles. The limits are kept throughout. |
| MainFunction.Controller.AdvanceAccumulators | Contrul_tester/MainFunction.cs:146-196 | The branches of the tick give exactly NextThrottle and NextSteer, and the target throttle is the new throttle. |
| MainFunction.Controller.SelectWheels | Contrul_tester/MainFunction.cs:146-205 | The angles chosen by mode are exactly WheelAngles. |
| MainFunction.Controller.DiscardBefore | Contrul_tester/MainFunction.cs:276-281 | The buffered bytes become those from index h on, and the count drops by h. |
| MainFunction.Controller.TakeFrame | Contrul_tester/MainFunction.cs:284-296 | It records the decoded bytes 2 to 26 and refreshes the watchdog clock. The remaining bytes move to the front in order, and the count drops by 26. |
| MainFunction.Controller.FramingPass | Contrul_tester/MainFunction.cs:262-317 | One pass keeps the loop invariant relating what has been handed on, plus what the buffer still yields, to Deframe of the starting bytes. The count strictly decreases. A break leaves fewer than 26 bytes. |
| MainFunction.Controller.DropUnframed | Contrul_tester/MainFunction.cs:298-316 | Without a sync pair, the buffer becomes [0xFE] or empty, as Deframe says. |
| MainFunction.Controller.ExtractFrames | Contrul_tester/MainFunction.cs:260-318 | The loop ends with fewer than 26 bytes, which are Deframe's kept bytes. Every payload it hands on is appended, decoded, to the notifications. The watchdog clock is `now` exactly when at least one frame was handed on. |
| MainFunction.Controller.Append | Contrul_tester/MainFunction.cs:250-257 | The bytes read are placed right after those already collected. |
| MainFunction.Controller.Receive | Contrul_tester/MainFunction.cs:246-320 | When disconnected nothing happens. A read of 0 bytes disconnects and leaves the buffer and its fill count as they were. Otherwise the buffer afterwards, the notifications and the watchdog clock are what Deframe gives on the old buffer followed by the new bytes. |
| MainWindow.NextThrottle | Contrul_tester/MainWindow.xaml.cs:155-196 | The same throttle step as the console class: exactly ±2, reaching the limit (50 in Pivot, 100 otherwise) only when the step would pass it, the first input of a pair first, and a snap to 0 when released. |
| MainWindow.NextSteer | Contrul_tester/MainWindow.xaml.cs:199-211 | Pivot leaves the steering unchanged. Otherwise the result is within 90. Starting within 90: Left moves it by exactly +1, or to 90 only when +1 would pass it; Right by exactly -1, or to -90 only when -1 would pass it; with neither held it keeps its value. |
| MainWindow.TickKeepsBounds | Contrul_tester/MainWindow.xaml.cs:155-211 | A tick keeps throttle and steering within the mode's limits, and keeps the steering at 0 in Pivot. |
| MainWindow.FirstInputWins | Contrul_tester/MainWindow.xaml.cs:155-206 | Forward beats Backward, and Left beats Right for the Pivot throttle and for steering. |
| MainWindow.FourWheelSteer | Contrul_tester/MainWindow.xaml.cs:225-247 | Inside the deadband all four angles are zero. Each rear wheel is the negation of its front wheel. For a left turn LF = angIn and RF = angOut. For a right turn RF = -angIn and LF = -angOut. |
| MainWindow.FourWheelSteerMirror | Contrul_tester/MainWindow.xaml.cs:233-242 | Steering by -c gives the result for c with left and right swapped and every angle negated. |
| MainWindow.WheelAngles | Contrul_tester/MainWindow.xaml.cs:128-248 | Pivot always gives RF -45, RR 45, LF 45, LR -45. Crab gives all four wheels equal to the steering value. FourWS gives FourWheelSteer. |
| MainWindow.Packet | Contrul_tester/MainWindow.xaml.cs:262 | The packet is the five formatted fields joined by `,` with no terminator: it starts with the formatted throttle and ends with the formatted LR angle. |
| MainWindow.PacketFields | Contrul_tester/MainWindow.xaml.cs:262 | The packet contains no `;`. Splitting it at `,` gives back the five formatted fields in the order accel, rf, rr, lf, lr. |
| MainWindow.Window.constructor | Contrul_tester/MainWindow.xaml.cs:28-55 | It starts in FourWS, with every input released, both accumulators at 0, and no client. |
| MainWindow.Window.SetMode | Contrul_tester/MainWindow.xaml.cs:65-71 | It sets the mode and zeroes both accumulators, and touches nothing else. |
| MainWindow.Window.Disconnect | Contrul_tester/MainWindow.xaml.cs:308-327 | The client is gone afterwards. |
| MainWindow.Window.ConnectClick | Contrul_tester/MainWindow.xaml.cs:277-301 | With a port that parses a client exists from then on, even if its connect fails. Without one, nothing changes. |
| MainWindow.Window.Stop | Contrul_tester/MainWindow.xaml.cs:358-368 | It clears all four flags and zeroes both accumulators. |
| MainWindow.Window.InputUp | Contrul_tester/MainWindow.xaml.cs:349-355 | It clears all four flags. |
| MainWindow.Window.ButtonDown | Contrul_tester/MainWindow.xaml.cs:339-346 | It sets exactly the pressed button's flag. |
| MainWindow.Window.KeyDown | Contrul_tester/MainWindow.xaml.cs:371-378 | Space acts as Stop. W, S, A and D set their flag and nothing else. |
| MainWindow.Window.KeyUp | Contrul_tester/MainWindow.xaml.cs:380-386 | W, S, A and D clear their flag. Other keys change nothing. |
| MainWindow.Window.SendPacket | Contrul_tester/MainWindow.xaml.cs:255-274 | With a connected client, a successful write records the unterminated packet and a failed write drops the client. Otherwise nothing happens. |
| MainWindow.Window.Tick | Contrul_tester/MainWindow.xaml.cs:116-253 | Without a connected client nothing changes and nothing is sent. A live tick applies NextThrottle and NextSteer and sends the packet of the new throttle and WheelAngles. The limits are kept throughout. |
| MainWindow.Window.AdvanceAccumulators | Contrul_tester/MainWindow.xaml.cs:128-211 | The branches of the tick give exactly NextThrottle and NextSteer. |
| MainWindow.Window.SelectWheels | Contrul_tester/MainWindow.xaml.cs:128-248 | The angles chosen by mode are exactly WheelAngles. |
| Text.SplitJoin | Contrul_tester/MainFunction.cs:357 | Splitting at `,` undoes joining fields that contain no `,`. |
| Text.Join | Contrul_tester/MainFunction.cs:357 | The fields written with `,` between neighbours: empty for no fields, otherwise starting with the first field and ending with the last. |
| Text.JoinHasNoTerminator | Contrul_tester/MainWindow.xaml.cs:262 | Joining fields that contain no `;` gives a string with no `;`. |
| Variants.SameThrottle | Contrul_tester/MainFunction.cs:156-189 | Both versions take the same throttle step in every mode. |
| Variants.LeftSideInverted | Contrul_tester/MainFunction.cs:221-231 | The right wheels of both versions agree. The console class's left wheels are the window's left wheels negated. |
| Variants.PacketTerminator | Contrul_tester/MainFunction.cs:357 | The console class's packet is the window's packet with `;` appended. |

## Left out

- TCP I/O is not modelled: `TcpClient`, `NetworkStream`, `StreamWriter`, connect, read, write and flush. Read bytes, the link state and write success are parameters.
- MainFunction.Controller.Connect: the 3-second race between the connect attempt and a timer is concurrency, so its result is the `outcome` parameter. The re-throw to the caller is the returned error.
- The receive loop runs as a background task beside the control tick. The model is sequential: one `Receive` call is one pass of that loop, and its interleaving with `UpdateControl` is not modelled.
- MainFunction.Controller.Receive: the loop's condition also tests the client's own connected state and a null stream. Only the connected flag is modelled.
- MainFunction.Controller.UpdateControl: the test for a missing client or a closed socket is modelled as the connected flag plus `linkUp`. The client object exists exactly while the flag is set, except during the connect race, which is left out.
- MainFunction.Controller.SendPacket and MainWindow.Window.SendPacket: in the source they are `async void` and the tick does not await them. A failed write therefore disconnects only after the tick has returned, and a write overlapping the previous one can fail and disconnect. The model writes synchronously inside the tick and does not capture that ordering or overlap.
- Text.Clean: the `F1` format uses the current culture. Under a culture whose decimal separator is `,`, each field would contain `,` and the packet would no longer split into five fields. The formatter condition `Clean` rules out such cultures.
- Trigonometry is not modelled. The inner and outer angles come from the angle functions passed in, and the deadband reading of `|c| > 0.1` rests on the accumulators being integral.
- The `F1` number formatting is not modelled: it is culture-dependent floating-point output, so the formatter is a parameter.
- MainFunction.ProcessPacket: the division of words 0 to 4 by 100.0 is floating point and is not modelled. The record keeps the raw words.
- MainFunction.ProcessPacket: the cycle-time measurement in milliseconds is not modelled, because it depends on the clock.
- The clock is not read from the system: `DateTime.Now` is the integer millisecond parameter `now`.
- Log messages, WPF widgets, brushes, labels and the mouse and keyboard event wiring are not modelled. They have no effect on the control state.
- The catch-all exception handlers around I/O are not modelled. A failed write is the `writeOk` parameter, and the decode loop cannot throw on a 24-byte payload.
