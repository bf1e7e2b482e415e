/**
 * Runs of the server from an empty registry, each a sequence of handler calls and timer
 * firings, with what is sent to the room. They show the promises of the handlers working
 * together: a complete countdown, a resume from the paused time, a repeated pause, raw room
 * ids, and the interval a restart leaves running.
 */
module Scenarios {
  import opened Wrappers
  import opened Messages
  import opened Registry
  import opened Endpoints

  /** After a pause the room is not running, so pausing twice has the effect of pausing once. */
  method PauseTwice(s: ExamServer, roomId: RoomId)
    requires s.Valid()
    modifies s, s.Footprint(roomId)
    ensures s.Valid() && s.PauseEffect(roomId)
  {
    s.PauseGroupExam(roomId);
    s.PauseGroupExam(roomId);
  }

  /**
   * A two-second exam: the "start" notice, STARTED snapshots of 2 and 1, then the completion;
   * afterwards no interval is live.
   */
  method CountdownOfTwo() returns (log: seq<Event>, live: nat)
    ensures log == [StartNotice(Number(1), 2),
                    Msg(Number(1), StatusOf(Started, 2)),
                    Msg(Number(1), StatusOf(Started, 1)),
                    Msg(Number(1), Completion)]
    ensures live == 0
  {
    var s := new ExamServer();
    s.Restart(Number(1), 2);
    s.Tick(0);
    s.Tick(0);
    log, live := s.sent, |s.timers|;
  }

  /** A paused exam resumes from the time it was paused at, not from its duration. */
  method ResumeFromPausedTime() returns (log: seq<Event>, resumed: Timer)
    ensures log == [StartNotice(Text("math"), 5),
                    Msg(Text("math"), StatusOf(Started, 5)),
                    Msg(Text("math"), StatusOf(Started, 4)),
                    Msg(Text("math"), StatusOf(Paused, 4)),
                    Msg(Text("math"), StatusOf(Continued, 4)),
                    Msg(Text("math"), StatusOf(Started, 4))]
    ensures resumed.room == Text("math") && resumed.time == 4
  {
    var s := new ExamServer();
    s.Restart(Text("math"), 5);
    s.Tick(0);
    assert s.sent == [StartNotice(Text("math"), 5),
                      Msg(Text("math"), StatusOf(Started, 5)),
                      Msg(Text("math"), StatusOf(Started, 4))];
    s.PauseGroupExam(Text("math"));
    s.ContinueGroupExam(Text("math"));
    log, resumed := s.sent, s.timers[1];
  }

  /** Room ids are not normalised: an exam started in room 42 is not found as room "42". */
  method RawRoomIds() returns (r: Response)
    ensures r == RoomNotFound
  {
    var s := new ExamServer();
    var started := StartEvaluation(s, Number(42), Some(60), Some("token"), Accepted, 0);
    r := PauseEvaluation(s, Text("42"), Some("token"));
  }

  /**
   * Starting a running room again leaves the first interval live beside the new one. When the
   * first interval fires next it stores its own record back, so the room shows that record's
   * time (4) in place of the new duration (10).
   */
  method RestartLeak() returns (live: nat, shown: nat, last: Event)
    ensures live == 2
    ensures shown == 4
    ensures last == Msg(Text("math"), StatusOf(Started, 4))
  {
    var s := new ExamServer();
    s.Restart(Text("math"), 5);
    s.Restart(Text("math"), 10);
    live := |s.timers|;
    s.Tick(0);
    shown, last := s.times[Text("math")].time, s.sent[|s.sent| - 1];
  }
}
