# Exam countdown server: a Dafny model

The server keeps one countdown per exam room. A teacher starts it over HTTP with a duration
in seconds. A one-second interval then lowers the remaining time and broadcasts a status
snapshot (`started`, plus the time left as a number and as `HH:MM:SS`) to everyone in the room.
When the time runs out it sends a `completed` message and stops. The countdown can be paused,
which clears the interval, and continued, which installs a new interval from the stored time.

The process-wide registry `times` maps the room id, exactly as the client sent it, to a
mutable record `{time, interval}`. The model keeps that shape:

- `TimeFormat` is `formatTimeHMS`.
  - It is built from the decimal rendering of a natural number and padding to two
    characters.
  - It comes with a parser `ParseHMS` that reads such a string back.
- `Messages` defines the events sent to a room.
  - The "msg" status snapshot comes from `emitStatus`.
  - The literal completion message comes from the final tick.
  - The "start" notice comes from the start endpoint.
  - `Payload` renders a body as its JSON fields.
- `Registry` models the registry state and the functions that change it.
  - A `TimeRecord` class stands for the record object.
  - An `ExamServer` class holds the `times` map, the live intervals (handle ↦ the room, the
    record and the local `time` its closure captured), the next handle and the sequence of
    everything sent.
  - `emitStatus`, `pauseGroupExam`, `continueGroupExam` and `startGroupExam` are methods on
    it.
  - The tick closure is the method `Tick`, which may be called for any live handle.
- `Endpoints` models the three `/emit/*` HTTP handlers with their guards, responses and
  registry effects.
- `Scenarios` holds whole runs from an empty registry.

`ExamServer.Valid()` is the consistency every operation keeps. A record names a handle exactly
when an interval with that handle is live on it, and that interval's local time equals the
record's time. `Exclusive(room)` says every live interval of the room runs on the record
stored for it; together with `Valid()` the room then has at most one (`AtMostOneInterval`).

The start, tick, pause and continue paths all preserve `Exclusive`. The start endpoint does
not: it replaces the record of a running room without clearing that record's interval. The
model states this leak instead of claiming one interval per room across restarts:
- `Restart` and `StartEvaluation` say the room then has one more live interval than before;
- `Scenarios.RestartLeak` shows the old interval writing its own record back over the new one.

Where the code behaves differently from what a reader might expect, the model follows the code:
- Room ids are not normalised. The number 42 and the string "42" are different keys
  (`Scenarios.RawRoomIds`).
- There is no stop command, and the `stopped` status is never sent.
- Starting a running room again leaves the first interval running (above).
- The final tick stores a fresh copy `{...record, time: 0}`. The record the closure holds keeps
  its last time, 1.
- Snapshots carry `isStarted` and, only on completion, `examCompleted: true`. They carry no
  `completionReason`.

## Model

| member | source | states |
|---|---|---|
| TimeFormat.FormatHMS | src/server.js:40-45 | `formatTimeHMS` on a natural number of seconds; its properties are stated by `FormatHMSDecodes`, `FormatHMSInjective` and `FormatHMSShape` |
| TimeFormat.JoinFields | src/server.js:44 | the template literal joining three padded fields with colons; its properties are stated by `JoinFieldsDecodes` and `JoinFieldsShape` |
| TimeFormat.PadStart2 | src/server.js:41-43 | `padStart(2, "0")`; its properties are stated by `PaddedField` and `LeadingZeros` |
| TimeFormat.NatToString | src/server.js:41-43 | the decimal rendering of n is a non-empty string of digits with no leading zero; it has one character exactly when n < 10 and at most two exactly when n < 100 |
| TimeFormat.DigitsValueOfNatToString | src/server.js:41-43 | reading the decimal rendering of n back gives n |
| TimeFormat.LeadingZeros | src/server.js:41-43 | zeros prepended by `padStart` keep a digit string a digit string with the same value |
| TimeFormat.ZerosValue | src/server.js:41-43 | a string of zeros is a digit string of value 0 |
| TimeFormat.PaddedField | src/server.js:41-43 | a field rendered with `padStart(2, "0")` is all digits and reads back as n; below 100 it is exactly two characters |
| TimeFormat.HMSFields | src/server.js:41-43 | the hour, minute and second fields satisfy minutes < 60, seconds < 60 and h*3600 + m*60 + s == seconds |
| TimeFormat.Segments | src/server.js:44 | in `h:mm:ss` the two colons sit 6 and 3 characters from the end and the slices between them are the fields |
| TimeFormat.ParseJoined | src/server.js:44 | parsing `h:mm:ss` with two-character minute and second fields reads exactly those three fields |
| TimeFormat.JoinFieldsDecodes | src/server.js:41-44 | joining padded fields with minutes and seconds below 60 parses back to h*3600 + m*60 + s |
| TimeFormat.FormatHMSDecodes | src/server.js:40-45 | `ParseHMS(formatTimeHMS(s)) == Some(s)` for every natural s (for the program, every safe integer) |
| TimeFormat.FormatHMSInjective | src/server.js:40-45 | different numbers of seconds are rendered differently |
| TimeFormat.FormatHMSShape | src/server.js:40-45 | below 360000 s the result is 8 characters `HH:MM:SS`, all six field characters digits, minutes and seconds < 60, and h*3600 + m*60 + s == the input |
| TimeFormat.JoinFieldsShape | src/server.js:44 | hours below 100 and minutes and seconds below 60 join into exactly `HH:MM:SS` with those field values |
| TimeFormat.TwoDigitsValue | src/server.js:41-43 | a two-digit string reads as 10 * first digit + second digit |
| Messages.StatusName | src/server.js:31-37 | the wire value of each member of `examStatuses`; `StatusNameInjective` states they are pairwise different |
| Messages.StatusNameInjective | src/server.js:31-37 | the five wire values of `examStatuses` are pairwise different |
| Messages.Payload | src/server.js:51-58 | a status snapshot carries the status's wire value, the stored time and no completion flag; the completion carries `completed`, 0 and `examCompleted: true`; in both the formatted time is `formatTimeHMS` of the time left and parses back to it (so the literal "00:00:00" of src/server.js:217-225 is `formatTimeHMS(0)`) |
| Registry.InstallKeepsExclusive | src/server.js:207 | installing an interval on the record stored for the room keeps every exclusive room exclusive |
| Registry.TickKeepsExclusive | src/server.js:231-232 | an ordinary tick, which stores its record back under its room, keeps every exclusive room exclusive |
| Registry.CompleteKeepsExclusive | src/server.js:212-215 | the final tick, which clears its interval and stores a copy, keeps every exclusive room exclusive |
| Registry.RestartExclusive | src/server.js:112-116 | a fresh record stored over a room plus one interval on it: the room's live intervals grow by that one, the room is exclusive exactly when it had none before, and other rooms are unaffected |
| Registry.AtMostOneInterval | src/server.js:197-207 | in a consistent registry, a room whose live intervals all run on its stored record has at most one live interval |
| Registry.IdleRoomHasNoIntervals | src/server.js:62-73 | a consistent, exclusive room that is not running (paused, completed or never given an interval) has no live interval, so `RestartExclusive` keeps it exclusive when it is restarted |
| Registry.TimeRecord.constructor | src/server.js:112 | a new record holds the given time and no interval (`{time: duration, interval: null}`, and the `{...record, time: 0}` copy of src/server.js:215 after the interval was nulled) |
| Registry.ExamServer.constructor | src/server.js:30 | the registry starts empty, with no live interval and nothing sent |
| Registry.ExamServer.Running | src/server.js:66 | the truthiness test on `roomTimeData.interval` (also at src/server.js:79, 156 and 197); `PauseGroupExam` states that a room is not running after a pause |
| Registry.ExamServer.EmitStatus | src/server.js:48-59 | sends one snapshot of the room's stored time with the given status, or nothing for an unknown room |
| Registry.ExamServer.ClearInterval | src/server.js:67 | the cleared handle is no longer live; clearing `null` does nothing |
| Registry.ExamServer.StartGroupExam | src/server.js:193-207 | unknown room or a record with an interval: nothing changes and nothing is sent; otherwise one STARTED snapshot and one fresh interval on the record, counting from the stored time; `Valid` and exclusivity are kept |
| Registry.ExamServer.Tick | src/server.js:207-234 | one firing lowers the closure's time by 1; at zero or below it completes (`Completes`), otherwise it stores and reports the new time (`Advances`); `Valid` and exclusivity are kept |
| Registry.ExamServer.FinalTick | src/server.js:212-228 | the interval is cleared, the record keeps its time and loses its interval, a fresh copy with time 0 and no interval is stored under the room, and exactly one completion message is sent |
| Registry.ExamServer.OrdinaryTick | src/server.js:231-233 | the record holds one second less, is stored under its room, and one STARTED snapshot of the new time is sent |
| Registry.ExamServer.PauseGroupExam | src/server.js:62-73 | unknown room or no interval: nothing changes; otherwise the interval is cleared, the time is unchanged and one PAUSED snapshot of it is sent; afterwards the room is not running |
| Registry.ExamServer.ContinueGroupExam | src/server.js:76-84 | unknown room, a live interval or no time left: nothing changes; otherwise CONTINUED and STARTED snapshots of the stored time are sent and an interval resumes from that time |
| Registry.ExamServer.Restart | src/server.js:112-116 | the room gets a fresh record with the duration and a new interval on it; "start" and STARTED are sent; an interval of the replaced record stays live |
| Registry.ExamServer.StoreNewRecord | src/server.js:112 | a fresh record `{time: duration, interval: null}` replaces the room's entry and nothing else changes |
| Endpoints.Truthy | src/server.js:91 | `!token` is false: the token is present and not empty; the handlers' contracts state the 401 on its negation |
| Endpoints.PositiveDuration | src/server.js:92 | `!duration \|\| duration <= 0` is false: the duration is present and positive; `StartEvaluation` states the 400 on its negation |
| Endpoints.StartEvaluation | src/server.js:87-128 | 401 "Token requerido" first, then 400 for a missing or non-positive duration, then 500 if verification throws and 401 "Token inválido" if it refuses; none of these touches the registry; on success the room is restarted and 200 reports the room, the duration and the client count |
| Endpoints.PauseEvaluation | src/server.js:131-145 | 401 without a token and 404 for a room id that is not a key, both with no effect; otherwise the pause effect and 200 "Examen pausado" with the record's time |
| Endpoints.ContinueEvaluation | src/server.js:148-165 | 401 without a token and 404 for a room id that is not a key, both with no effect; otherwise the continue effect (which the handler's own guard does not change) and 200 "Examen reanudado" with the record's time |
| Scenarios.PauseTwice | src/server.js:62-73 | pausing twice has exactly the effect of pausing once |
| Scenarios.CountdownOfTwo | src/server.js:193-235 | a two-second exam sends "start", STARTED 2, STARTED 1 and the completion, and leaves no interval live |
| Scenarios.ResumeFromPausedTime | src/server.js:62-84 | after one tick, a pause and a continue, the new interval counts from 4, not from the duration 5 |
| Scenarios.RawRoomIds | src/server.js:136-137 | an exam started in room 42 is not found when room "42" is paused |
| Scenarios.RestartLeak | src/server.js:231-232 | after a restart of a running room two intervals are live, and the old one's next tick puts the old record, with its time 4, back in place of the new duration 10 |

## Left out

- Transport and start-up: Express, the HTTP server, socket.io, CORS and `server.listen` are
  framework wiring.
- Socket handlers: `join` and `disconnect` depend on socket.io rooms. The `control:pause` and
  `control:continue` handlers only call `pauseGroupExam` and `continueGroupExam`, which are
  modelled.
- Room size: the `clients` count in the start response is an input to `StartEvaluation`.
- Token verification: the backend calls and the token cache with its expiry depend on an
  external service and the clock. The outcome is the input `Verification`
  (`Accepted`, `Refused`, `Throws`).
- `serverTime` and logging: the wall-clock field of every snapshot and all console output are
  not modelled.
- Timer period: `setInterval` firing every second is not modelled. A firing is an explicit
  call to `Tick` for a live handle. A cleared handle is never fired.
- Endpoints.PauseEvaluation: the 500 "Error interno" branch is not modelled, because nothing
  inside that `try` can throw once the registry is in memory.
- Endpoints.ContinueEvaluation: the 500 "Error interno" branch is not modelled, for the same
  reason.
- Endpoints.StartEvaluation: the duration is an integer. JavaScript's loose checks also accept
  fractional or string durations, which are not modelled.
- Concurrency: the start handler suspends at the token verification (src/server.js:99, 101),
  and ticks and other requests can run meanwhile. Nothing before that point touches `times`,
  and everything after it (src/server.js:112-116) runs without suspending, as do the other
  handlers and every timer callback. So the operations are sequential methods.
- Numbers: time values, durations and numeric room ids are integers below 2^53. JavaScript's
  double arithmetic is not modelled: above 2^53 `--time` can leave the time unchanged and
  distinct numeric ids collapse into one key, and from 10^21 `toString` uses exponent notation.
  JavaScript's coercion of other values (an object or array passed as duration gets through
  `!duration || duration <= 0`, and can make the time `NaN`) is not modelled either.
- Tokens are a string or absent. A token that is a JSON number, boolean or `null` is not
  representable, although `!token` (src/server.js:91, 133, 150) still decides for it between
  the 401 and going on.
- Room ids are a number, a string, `null` or `undefined`. Booleans, fractional numbers and
  objects used as room ids are not representable.
- TimeFormat.FormatHMS: takes only natural numbers. A stored `time` is never negative, since it
  is a positive duration, a decremented time that is still above 0, or the 0 of the completion.
- The backend service and the token middleware are not part of this model. They only forward
  HTTP calls.
