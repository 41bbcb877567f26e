# RFremote receiver, modelled in Dafny

RFremote is an Arduino library that receives one RF remote-control protocol.
An edge interrupt (`intSinal`) samples the pin level and the time since the
previous edge. The poll step `RFrecv::available` drains each sample into a
fixed capture buffer (`buffState`, `buffDiff`). When the buffer is full it
decodes the buffer:

- `gotPattern` finds the first two sync gaps, which are intervals strictly
  inside the pattern window.
- `gotData` turns every interval strictly between those two gaps into
  command digits. A 1-byte-band interval gives one `'0'`/`'1'` digit and a
  2-byte-band interval gives the same digit twice. Any other interval, or
  reaching `CMD_SIZE` digits, fails the frame.

After a failure `cmd` is cleared to `'\0'`. In every case the capture buffer
is then cleared and capture resumes.

The project has three modules:

- `Timing` (timing.dfy) holds the pure specification:
  - the header constants as a `Config` value;
  - 32-bit clock arithmetic;
  - `Markers`, the sync-gap indices in scan order;
  - `DigitsBetween` and `Decode`, the output of the data loop;
  - `Receive`, one whole decode cycle;
  - `Advance`, the capture-index bookkeeping;
  - lemmas about all of these.
- `RFremote` (receiver.dfy) is the imperative model:
  - `RFparams` is the interrupt-shared global `rfparams`;
  - `IntSinal` is the edge handler;
  - `RFrecv` is a class over the arrays `buffState`, `buffDiff`, `cmd` and
    `foundIdx`, with methods and loops proved against the `Timing`
    functions.

  The object invariant `RFrecv.Valid()` keeps these facts:
  - `idx` stays inside the buffer;
  - `lock` and `eof` are never both set;
  - a full buffer has `idx` rewound to 0;
  - the marker indices are buffer positions;
  - while capturing, every slot from `idx` on is still zero.
- `Overrun` (overrun.dfy) is the data loop of `gotData` exactly as written,
  run against an unbounded `cmd`. It exposes the one-past-the-end write
  listed under Findings.

## Model

| member | source | states |
|---|---|---|
| `RFremote.RFparams.constructor` | RFremote.cpp:23-28 | The shared capture state starts unlocked, not full, with zero interval, level and index, and `tempo` set to the clock reading. |
| `RFremote.RFrecv.constructor` | RFremote.cpp:21-35 | A new receiver satisfies the invariant. Both marker indices are 0, the capture buffer is all zero and `cmd` is all `'\0'`. |
| `RFremote.IntSinal` | RFremote.cpp:218-235 | With `lock` and `eof` both clear, it sets `lock`, stores the pin level, stores the 32-bit elapsed time since `tempo`, and stores the second clock reading as `tempo`. Otherwise the edge is dropped and nothing changes. It never sets `lock` while `eof` is set. |
| `RFremote.InterruptStep` | RFremote.cpp:222-230 | An edge taken as an atomic step keeps the receiver invariant, including "`lock` and `eof` never both set". It leaves `eof` and `idx` unchanged. |
| `Timing.ElapsedRoundTrip` | RFremote.cpp:229-230 | Adding the unsigned 32-bit `diff` back to the old `tempo` gives the clock reading modulo 2^32. Without wrap-around it is the plain difference. |
| `RFremote.RFrecv.Available` | RFremote.cpp:56-110 | Drain (`lock && !eof`): writes slot `idx` of both arrays and nothing else, clears `lock`, advances `idx` or sets `eof` and rewinds `idx` to 0, and returns 0. Decode (`eof`): returns 1 exactly when `Receive` succeeds. Then `cmd` holds the command followed by its old tail; on failure `cmd` is all `'\0'`. Either way `eof` is cleared and the buffer zeroed. Otherwise nothing changes and it returns 0. The invariant is kept. |
| `Timing.DrainsFill` | RFremote.cpp:71-79 | From an empty buffer, `eof` stays clear and `idx` counts the drains until exactly `BUFF_SIZE` drains. The last of those sets `eof` and rewinds `idx` to 0. |
| `RFremote.RFrecv.ResetBuffer` | RFremote.cpp:197-204 | Afterwards every level is low and every interval 0, whatever came before, so it is idempotent. |
| `RFremote.RFrecv.ResetCmd` | RFremote.cpp:208-214 | Afterwards every `cmd` character is `'\0'`, whatever came before, so it is idempotent. |
| `RFremote.RFrecv.GotPattern` | RFremote.cpp:114-139 | Returns 1 exactly when the buffer holds at least two sync gaps. With two, `foundIdx` holds the first two markers. With one, `foundIdx[0]` holds it and `foundIdx[1]` is untouched. With none, `foundIdx` is untouched. |
| `Timing.MarkersExact` | RFremote.cpp:121-128 | The markers are exactly the indices whose interval lies strictly inside the pattern window, strictly increasing. |
| `Timing.TwoMarkersIff` | RFremote.cpp:121-138 | At least two markers exist if and only if two distinct indices have intervals strictly inside the pattern window. |
| `Timing.FirstTwoMarkers` | RFremote.cpp:121-136 | The first two markers are in the window and in order. No index before the first, and none between the two, is in the window. |
| `Timing.MarkersEarlyStop` | RFremote.cpp:132-136 | Two markers found in a prefix of the buffer are the first two markers of the whole buffer, so the scan may stop there. |
| `Timing.MarkersPrefix` | RFremote.cpp:121-128 | Scanning a prefix of the buffer finds a prefix of the markers. |
| `RFremote.RFrecv.GotData` | RFremote.cpp:143-193 | Returns 1 exactly when `Decode` succeeds on the two marker indices. Then `cmd[0..n)` is the decoded command and `cmd[n..]` keeps its old contents. With either index 0 it writes nothing. Every write stays inside `cmd` (see Findings). |
| `Timing.MarkerAtZeroRejected` | RFremote.cpp:149 | A genuine sync gap at buffer position 0 makes the whole frame fail, because index 0 also means "not found". |
| `Timing.DigitsFailIff` | RFremote.cpp:156-174 | Decoding a range fails if and only if some position in it has an interval outside both the 1-byte and the 2-byte band. |
| `Timing.DigitsShape` | RFremote.cpp:156-167 | A decoded range contains only `'0'`/`'1'` and has between one and two digits per position. |
| `Timing.DigitsOneByte` | RFremote.cpp:156-159 | When every interval is in the 1-byte band, the command is the pin levels read as digits, one per position. |
| `Timing.DigitsTwoByte` | RFremote.cpp:162-167 | When every interval is in the 2-byte band only, each pin level appears as two equal consecutive digits. |
| `Timing.DigitsExtend` | RFremote.cpp:152-184 | Decoding a shorter range yields a prefix of decoding a longer one, so a failure or an overflow cannot be undone by later positions. |
| `Timing.DigitsInvalidAt` | RFremote.cpp:168-173 | An interval outside both bands voids every range that contains it. |
| `Timing.DigitsOverflowAt` | RFremote.cpp:176-183 | Once the digits up to some position exceed a bound, no longer range decodes to fewer. |
| `Timing.DecodeInvalidAt` | RFremote.cpp:168-173 | `gotData` fails once it meets an interval outside both bands. |
| `Timing.DecodeOverflowAt` | RFremote.cpp:176-183 | `gotData` fails once the digits reach `CMD_SIZE`. |
| `Timing.ReceiveSound` | RFremote.cpp:81-94 | In an accepted frame the first marker is not at 0, every interval between the markers is in a band, and the command is binary. The command has fewer than `CMD_SIZE` digits, one or two per position. |
| `Timing.ReceiveOneByteFrame` | RFremote.cpp:85-94 | A frame is accepted and decodes to its pin levels, one digit each, when all of these hold: the first marker is past 0, every interval is in the 1-byte band, and there are fewer than `CMD_SIZE` positions. |
| `Timing.ExampleFrame` | RFremote.cpp:152-183 | Markers at 2 and 7 with levels 1,0,1,0 on alternating 1-byte/2-byte intervals decode to `100100`, and are accepted exactly when `CMD_SIZE` > 6. |
| `Timing.ExampleInvalidTiming` | RFremote.cpp:168-173 | A 700 us interval between bands 400-600 and 900-1100 voids the frame. |
| `Overrun.AsWrittenAgrees` | RFremote.cpp:143-193 | The loop as written reports success exactly when `Decode` does, with the same command. |
| `Overrun.AsWrittenBound` | RFremote.cpp:162-183 | The loop as written writes at most `CMD_SIZE + 1` characters. It writes past `CMD_SIZE - 1` only on a run that fails. |
| `Overrun.AsWrittenOverrun` | RFremote.cpp:162-166 | With `CMD_SIZE` 1, markers at 1 and 3 and one 2-byte interval between them, the loop as written writes `cmd[0]` and `cmd[1]`. |

## Findings

| source | as written | input that shows it | evidently intended | confidence | as-written member | corrected member |
|---|---|---|---|---|---|---|
| RFremote.cpp:162-183 | The 2-byte branch advances `cmdIdx` and writes `cmd[cmdIdx]` again before the overflow test at line 179. | `CMD_SIZE` 1, markers at 1 and 3, a 2-byte interval at 2. `cmd[1]` is written, which is one past a `CMD_SIZE`-element array. | The overflow test also guards the second write, so no write leaves `cmd`. The verdict is unchanged (`Overrun.AsWrittenAgrees`). | medium, not executed (assumes `cmd` is declared with `CMD_SIZE` elements in RFremote.h, which is not part of this model) | `Overrun.AsWrittenOverrun` | `RFremote.RFrecv.GotData` |

## Behaviour worth knowing

- **Doubled digits.** A 2-byte-band interval emits its digit twice, so
  markers at 2 and 7 with levels 1,0,1,0 on alternating 1-byte/2-byte
  intervals decode to `100100` (`Timing.ExampleFrame`).
- **Trailing `cmd` slots.** `cmd` is cleared only after a failed decode
  (RFremote.cpp:96-100). A successful decode of `n` digits leaves `cmd[n..]`
  as it was, including digits of an earlier, longer command
  (`RFremote.RFrecv.Available`).
- **Marker at index 0.** Index 0 counts as "marker not found"
  (RFremote.cpp:149), so a genuine sync gap at position 0 voids the frame
  (`Timing.MarkerAtZeroRejected`).

## Left out

- `RFrecv::begin` (RFremote.cpp:39-51) is left out. It only configures pins
  and attaches the interrupt.
- The debug LED write (RFremote.cpp:233) is left out. It only sets an
  output pin.
- `micros()` and `digitalRead()` are parameters:
  - `IntSinal` takes the pin level and the two clock readings of lines 229
    and 230 as `now` and `later`;
  - the constructor takes one clock reading.
- Interrupt preemption and `volatile` are not modelled. `IntSinal` and
  `Available` are whole atomic steps, so an edge that arrives in the middle
  of `available` is outside the model.
- RFremote.h is not part of this model. `BUFF_SIZE`, `CMD_SIZE` and the six
  `SIGNAL_*` bounds are the fields of `Config`, with `BUFF_SIZE > 0` and
  `CMD_SIZE > 0` required. The bounds are required to lie in the unsigned
  32-bit range, where comparing them with an interval as integers agrees
  with C's unsigned comparison; a negative bound, which C would convert to
  a huge unsigned value, is outside the model.
- Integer widths:
  - `diff`, `tempo` and `buffDiff` are unsigned 32-bit values, the width of
    `micros()` on AVR;
  - the pin level is a `bool`;
  - `idx`, the loop counters and `foundIdx` are unbounded naturals. They
    stay at most `BUFF_SIZE` and `CMD_SIZE + 1` (the as-written data loop
    lets `cmdIdx` reach `CMD_SIZE + 1`, see Findings), and are assumed to
    fit the types RFremote.h declares for them.
- RFremote.RFrecv.GotData: does not state what a failing run leaves in
  `cmd`. The only caller clears `cmd` on every failure.
- RFremote.RFrecv.GotData: models the corrected loop. The as-written loop,
  with its one-past-the-end write, is `Overrun.AsWrittenRun`.
