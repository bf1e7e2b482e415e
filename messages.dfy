/**
 * What the server sends to a room: the status names of `examStatuses` (src/server.js:31-37),
 * the status snapshot built by `emitStatus` (src/server.js:48-59), the completion message of
 * the final tick (src/server.js:217-225) and the "start" notice of the start endpoint
 * (src/server.js:115).
 */
module Messages {
  import opened Wrappers
  import opened TimeFormat

  /**
   * A room id exactly as a client sent it. Keys of the registry are compared the way a
   * JavaScript Map compares them: the number 42 and the string "42" are different rooms.
   */
  datatype RoomId = Undefined | Null | Number(n: int) | Text(s: string)

  /** The values of `examStatuses`; `Stopped` is declared there but never sent. */
  datatype Status = Started | Completed | Paused | Continued | Stopped

  /** The wire value of each status. */
  function StatusName(s: Status): string {
    match s
    case Started => "started"
    case Completed => "completed"
    case Paused => "paused"
    case Continued => "continued"
    case Stopped => "stopped"
  }

  /** Different statuses have different wire values, so a client can tell them apart. */
  lemma StatusNameInjective(a: Status, b: Status)
    requires StatusName(a) == StatusName(b)
    ensures a == b
  {
  }

  /**
   * The JSON body of a "msg" event; `serverTime` (a wall-clock reading) is not modelled.
   * `examCompleted` is only present in the completion message.
   */
  datatype Snapshot = Snapshot(isStarted: string, timeLeft: nat, timeFormatted: string, examCompleted: Option<bool>)

  /** What a "msg" event reports: a status with the room's stored time, or the completion. */
  datatype Body =
    | StatusOf(status: Status, time: nat)  // built by emitStatus from the stored record
    | Completion                           // written out literally by the final tick

  datatype Event =
    | Msg(room: RoomId, body: Body)             // io.to(room).emit("msg", Payload(body))
    | StartNotice(room: RoomId, duration: int)  // io.to(room).emit("start", {roomId, duration})

  /**
   * The JSON object sent for a body. Its `timeFormatted` always reads back as its `timeLeft`;
   * for the completion this is the literal "00:00:00", which is what the formatter gives for 0.
   */
  function Payload(b: Body): (r: Snapshot)
    ensures b.StatusOf? ==> r.isStarted == StatusName(b.status) && r.timeLeft == b.time && r.examCompleted == None
    ensures b.Completion? ==> r.isStarted == StatusName(Completed) && r.timeLeft == 0 && r.examCompleted == Some(true)
    ensures r.timeFormatted == FormatHMS(r.timeLeft)
    ensures ParseHMS(r.timeFormatted) == Some(r.timeLeft)
  {
    match b
    case StatusOf(status, time) =>
      FormatHMSDecodes(time);
      Snapshot(StatusName(status), time, FormatHMS(time), None)
    case Completion =>
      FormatHMSDecodes(0);
      Snapshot("completed", 0, "00:00:00", Some(true))
  }
}
