/**
 * The per-room countdown state of the server: the `times` map (src/server.js:30) from raw room
 * id to a mutable record `{time, interval}`, the intervals that are live, and the functions
 * that change them: `emitStatus`, `pauseGroupExam`, `continueGroupExam`, `startGroupExam` and
 * the tick closure it installs (src/server.js:48-84, 193-235).
 *
 * A record is an object: the tick closure keeps a reference to the record it was started on and
 * writes that record back into `times`, even after the start endpoint has replaced it by a new
 * one. Modelling records as objects keeps that aliasing visible.
 */
module Registry {
  import opened Wrappers
  import opened TimeFormat
  import opened Messages

  /** The identity of an interval returned by `setInterval`. */
  type Handle = nat

  /** The value stored under a room id: `{time, interval}`. */
  class TimeRecord {
    var time: nat
    var interval: Option<Handle>

    constructor (time: nat)
      ensures this.time == time && interval == None
    {
      this.time := time;
      interval := None;
    }
  }

  /**
   * A live interval: what its closure captured, namely the room id, the record it was started
   * on and the local countdown variable `time`.
   */
  datatype Timer = Timer(room: RoomId, rec: TimeRecord, time: int)

  /**
   * Every live interval of the room runs on the record stored for it in `times`. This and
   * `LiveIn` are stated on plain maps so that the lemmas below can reason without the heap;
   * `ExamServer.Exclusive` and `ExamServer.LiveIntervals` apply them to the server's fields.
   */
  ghost predicate ExclusiveIn(times: map<RoomId, TimeRecord>, timers: map<Handle, Timer>, roomId: RoomId) {
    forall h :: h in timers && timers[h].room == roomId ==> roomId in times && timers[h].rec == times[roomId]
  }

  /** Installing an interval on the stored record of a room keeps every room exclusive. */
  lemma InstallKeepsExclusive(times: map<RoomId, TimeRecord>, timers: map<Handle, Timer>, h: Handle, roomId: RoomId, time: int)
    requires roomId in times
    ensures forall room :: ExclusiveIn(times, timers, room) ==>
      ExclusiveIn(times, timers[h := Timer(roomId, times[roomId], time)], room)
  {
  }

  /** An ordinary tick writes its own record back under its own room and keeps every room exclusive. */
  lemma TickKeepsExclusive(times: map<RoomId, TimeRecord>, timers: map<Handle, Timer>, h: Handle, time: int)
    requires h in timers
    ensures var t := timers[h];
      forall room :: ExclusiveIn(times, timers, room) ==>
        ExclusiveIn(times[t.room := t.rec], timers[h := t.(time := time)], room)
  {
  }

  /**
   * The final tick replaces the room's record by a copy and clears its interval; when no other
   * live interval runs on the same record, every room stays exclusive.
   */
  lemma CompleteKeepsExclusive(times: map<RoomId, TimeRecord>, timers: map<Handle, Timer>, h: Handle, copy: TimeRecord)
    requires h in timers
    requires forall g :: g in timers && timers[g].rec == timers[h].rec ==> g == h
    ensures forall room :: ExclusiveIn(times, timers, room) ==>
      ExclusiveIn(times[timers[h].room := copy], timers - {h}, room)
  {
  }

  /** The live intervals whose closures write to the room. */
  ghost function LiveIn(timers: map<Handle, Timer>, roomId: RoomId): set<Handle> {
    set h | h in timers && timers[h].room == roomId
  }

  /**
   * Replacing a room's record by a new one and installing one interval on it (the start
   * endpoint over a room that may still be running): the room stays exclusive exactly when it
   * had no live interval before, and every other exclusive room stays exclusive.
   */
  lemma RestartExclusive(times: map<RoomId, TimeRecord>, timers: map<Handle, Timer>, h: Handle,
                         roomId: RoomId, rec: TimeRecord, time: int)
    requires h !in timers
    requires forall g :: g in timers ==> timers[g].rec != rec
    ensures var times', timers' := times[roomId := rec], timers[h := Timer(roomId, rec, time)];
            && LiveIn(timers', roomId) == LiveIn(timers, roomId) + {h}
            && (ExclusiveIn(times', timers', roomId) <==> LiveIn(timers, roomId) == {})
            && forall room :: room != roomId && ExclusiveIn(times, timers, room) ==> ExclusiveIn(times', timers', room)
  {
    var times', timers' := times[roomId := rec], timers[h := Timer(roomId, rec, time)];
    if LiveIn(timers, roomId) != {} {
      var g :| g in LiveIn(timers, roomId);
      assert g in timers' && timers'[g] == timers[g];
    } else {
      forall g | g in timers' && timers'[g].room == roomId
        ensures timers'[g].rec == times'[roomId]
      {
        assert g !in LiveIn(timers, roomId);
      }
    }
  }

  /**
   * With the consistency invariant, an exclusive room has at most one live interval: two of its
   * intervals run on the same stored record, and that record names only one handle.
   */
  lemma AtMostOneInterval(s: ExamServer, room: RoomId)
    requires s.Valid() && s.Exclusive(room)
    ensures forall g, h :: g in s.LiveIntervals(room) && h in s.LiveIntervals(room) ==> g == h
  {
  }

  /**
   * A consistent, exclusive room that is not running (paused, completed or never started) has
   * no live interval, so restarting it keeps it exclusive (see `ExamServer.Restart`).
   */
  lemma IdleRoomHasNoIntervals(s: ExamServer, room: RoomId)
    requires s.Valid() && s.Exclusive(room) && !s.Running(room)
    ensures s.LiveIntervals(room) == {}
  {
  }

  class ExamServer {
    var times: map<RoomId, TimeRecord>
    var timers: map<Handle, Timer>   // intervals not yet cleared, by handle
    var nextHandle: Handle           // handles are never reused
    var sent: seq<Event>             // everything emitted to rooms, oldest first
    ghost var Repr: set<TimeRecord>  // every record ever created

    /**
     * Consistency of the records with the live intervals: a record names a handle exactly when
     * an interval with that handle is live on it, and the closure's local countdown agrees with
     * the record's stored time. So no record ever has two live intervals.
     */
    ghost predicate Valid()
      reads this, Repr
    {
      && (forall k :: k in times ==> times[k] in Repr)
      && (forall h :: h in timers ==>
            && h < nextHandle
            && timers[h].rec in Repr
            && timers[h].rec.interval == Some(h)
            && timers[h].rec.time == timers[h].time)
      && (forall r :: r in Repr && r.interval.Some? ==>
            r.interval.value in timers && timers[r.interval.value].rec == r)
    }

    constructor ()
      ensures Valid()
      ensures times == map[] && timers == map[] && nextHandle == 0 && sent == [] && Repr == {}
    {
      times := map[];
      timers := map[];
      nextHandle := 0;
      sent := [];
      Repr := {};
    }

    /** The record currently stored under a room id, as a frame. */
    function Footprint(roomId: RoomId): set<TimeRecord>
      reads this
    {
      if roomId in times then {times[roomId]} else {}
    }

    /** The room's current record has an interval (the truthiness test `roomTimeData.interval`). */
    predicate Running(roomId: RoomId)
      reads this, Footprint(roomId)
    {
      roomId in times && times[roomId].interval.Some?
    }

    /**
     * Every live interval of the room runs on the record currently stored for it. Then the room
     * has at most one live interval. The start, tick, pause and continue paths keep this; the
     * start endpoint breaks it when it replaces the record of a running room.
     */
    ghost predicate Exclusive(roomId: RoomId)
      reads this
    {
      ExclusiveIn(times, timers, roomId)
    }

    /** The intervals whose closures write to the room. */
    ghost function LiveIntervals(roomId: RoomId): set<Handle>
      reads this
    {
      LiveIn(timers, roomId)
    }

    /**
     * `startGroupExam` on a record with no interval: one fresh interval, started from the
     * record's stored time, is installed on the record; the time is not changed.
     */
    twostate predicate Installed(roomId: RoomId)
      reads this, Repr
    {
      && roomId in times && roomId in old(times)
      && times[roomId] in Repr
      && var rec, h := times[roomId], old(nextHandle);
      && h !in old(timers)
      && nextHandle == h + 1
      && timers == old(timers)[h := Timer(roomId, rec, rec.time)]
      && rec.interval == Some(h)
      && rec.time == old(times[roomId].time)
    }

    /** Nothing observable changes: the registry, the intervals, the log and the room's record. */
    twostate predicate NoEffect(roomId: RoomId)
      reads this, Footprint(roomId)
    {
      && times == old(times) && timers == old(timers) && nextHandle == old(nextHandle) && sent == old(sent)
      && (roomId in times ==> unchanged(times[roomId]))
    }

    /** The whole effect of `startGroupExam(roomId)`. */
    twostate predicate StartEffect(roomId: RoomId)
      reads this, Repr, Footprint(roomId)
    {
      && times == old(times) && Repr == old(Repr)
      && if old(roomId in times && times[roomId].interval.None?) then
           && Installed(roomId)
           && sent == old(sent) + [Msg(roomId, StatusOf(Started, times[roomId].time))]
         else
           NoEffect(roomId)
    }

    /** The whole effect of `pauseGroupExam(roomId)`. */
    twostate predicate PauseEffect(roomId: RoomId)
      reads this, Repr, Footprint(roomId)
    {
      && times == old(times) && Repr == old(Repr) && nextHandle == old(nextHandle)
      && if old(roomId in times && times[roomId].interval.Some?) then
           && roomId in times && times[roomId] in Repr
           && var rec := times[roomId];
           && timers == old(timers) - {old(rec.interval.value)}
           && rec.interval == None
           && rec.time == old(rec.time)
           && sent == old(sent) + [Msg(roomId, StatusOf(Paused, rec.time))]
         else
           NoEffect(roomId)
    }

    /** The whole effect of `continueGroupExam(roomId)`. */
    twostate predicate ContinueEffect(roomId: RoomId)
      reads this, Repr, Footprint(roomId)
    {
      && times == old(times) && Repr == old(Repr)
      && if old(roomId in times && times[roomId].interval.None? && times[roomId].time > 0) then
           && Installed(roomId)
           && var t := times[roomId].time;
           && sent == old(sent) + [Msg(roomId, StatusOf(Continued, t)), Msg(roomId, StatusOf(Started, t))]
         else
           NoEffect(roomId)
    }

    /**
     * A tick that reaches zero: its interval is cleared (its record keeps its last time), a copy
     * of the record with time 0 is stored under the room and the completion is sent.
     */
    twostate predicate Completes(h: Handle)
      reads this, Repr
    {
      && h in old(timers)
      && var t := old(timers[h]);
      && timers == old(timers) - {h}
      && t.rec in Repr && t.rec.interval == None && t.rec.time == old(t.rec.time)
      && t.room in times && times[t.room] in Repr && fresh(times[t.room])
      && times == old(times)[t.room := times[t.room]]
      && times[t.room].time == 0 && times[t.room].interval == None
      && Repr == old(Repr) + {times[t.room]}
      && nextHandle == old(nextHandle)
      && sent == old(sent) + [Msg(t.room, Completion)]
    }

    /**
     * An ordinary tick: the record of the interval holds one second less, is stored under the
     * room (even if the room has been given a new record since) and a STARTED snapshot is sent.
     */
    twostate predicate Advances(h: Handle)
      reads this, Repr
    {
      && h in old(timers)
      && var t := old(timers[h]);
      && t.rec in Repr
      && timers == old(timers)[h := t.(time := t.time - 1)]
      && t.rec.interval == Some(h) && t.rec.time == old(t.rec.time) - 1
      && times == old(times)[t.room := t.rec]
      && Repr == old(Repr) && nextHandle == old(nextHandle)
      && sent == old(sent) + [Msg(t.room, StatusOf(Started, t.rec.time))]
    }

    /** `emitStatus`: a snapshot of the room's stored record, or nothing when there is none. */
    method EmitStatus(roomId: RoomId, status: Status)
      modifies this`sent
      ensures sent == old(sent) + if roomId in times then [Msg(roomId, StatusOf(status, times[roomId].time))] else []
    {
      if roomId in times {
        var roomTimeData := times[roomId];
        sent := sent + [Msg(roomId, StatusOf(status, roomTimeData.time))];
      }
    }

    /** `clearInterval(handle)`: the interval stops firing; clearing nothing does nothing. */
    method ClearInterval(handle: Option<Handle>)
      modifies this`timers
      ensures timers == if handle.Some? then old(timers) - {handle.value} else old(timers)
    {
      if handle.Some? {
        timers := timers - {handle.value};
      }
    }

    /**
     * `startGroupExam`: nothing happens for an unknown room or a record that already has an
     * interval; otherwise a STARTED snapshot is sent and a fresh interval is installed.
     */
    method StartGroupExam(roomId: RoomId)
      requires Valid()
      modifies this, Footprint(roomId)
      ensures Valid() && StartEffect(roomId)
      ensures forall room :: old(Exclusive(room)) ==> Exclusive(room)
    {
      if roomId !in times {
        return;
      }
      var roomTimeData := times[roomId];
      if roomTimeData.interval.Some? {
        return;
      }
      var time := roomTimeData.time;
      EmitStatus(roomId, Started);
      var handle := nextHandle;
      InstallKeepsExclusive(times, timers, handle, roomId, time);
      nextHandle := nextHandle + 1;
      roomTimeData.interval := Some(handle);
      timers := timers[handle := Timer(roomId, roomTimeData, time)];
    }

    /**
     * One firing of the live interval `h`: the closure lowers its local time by one and then
     * either completes (at zero or below) or stores and reports the new time.
     */
    method Tick(h: Handle)
      requires Valid() && h in timers
      modifies this, timers[h].rec
      ensures Valid()
      ensures if old(timers[h].time) - 1 <= 0 then Completes(h) else Advances(h)
      ensures forall room :: old(Exclusive(room)) ==> Exclusive(room)
    {
      var time := timers[h].time - 1;
      if time <= 0 {
        FinalTick(h);
      } else {
        OrdinaryTick(h);
      }
    }

    /** The `time <= 0` branch of the tick closure. */
    method FinalTick(h: Handle)
      requires Valid() && h in timers && timers[h].time - 1 <= 0
      modifies this, timers[h].rec
      ensures Valid() && Completes(h)
      ensures forall room :: old(Exclusive(room)) ==> Exclusive(room)
    {
      var Timer(roomId, roomTimeData, _) := timers[h];
      ghost var times0, timers0 := times, timers;
      ClearInterval(roomTimeData.interval);
      roomTimeData.interval := None;
      var copy := new TimeRecord(0);
      CompleteKeepsExclusive(times0, timers0, h, copy);
      Repr := Repr + {copy};
      times := times[roomId := copy];
      sent := sent + [Msg(roomId, Completion)];
    }

    /** The branch of the tick closure that stores the lowered time and reports it. */
    method OrdinaryTick(h: Handle)
      requires Valid() && h in timers && timers[h].time - 1 > 0
      modifies this, timers[h].rec
      ensures Valid() && Advances(h)
      ensures forall room :: old(Exclusive(room)) ==> Exclusive(room)
    {
      var Timer(roomId, roomTimeData, time) := timers[h];
      time := time - 1;
      TickKeepsExclusive(times, timers, h, time);
      roomTimeData.time := time;
      timers := timers[h := Timer(roomId, roomTimeData, time)];
      times := times[roomId := roomTimeData];
      EmitStatus(roomId, Started);
    }

    /**
     * `pauseGroupExam`: for a known room whose record has an interval, the interval is cleared
     * and a PAUSED snapshot of the unchanged time is sent; otherwise nothing happens. Afterwards
     * the room is not running, so a second pause does nothing.
     */
    method PauseGroupExam(roomId: RoomId)
      requires Valid()
      modifies this, Footprint(roomId)
      ensures Valid() && PauseEffect(roomId)
      ensures !Running(roomId)
      ensures forall room :: old(Exclusive(room)) ==> Exclusive(room)
    {
      if roomId !in times {
        return;
      }
      var roomTimeData := times[roomId];
      if roomTimeData.interval.Some? {
        ClearInterval(roomTimeData.interval);
        roomTimeData.interval := None;
        times := times[roomId := roomTimeData];
        EmitStatus(roomId, Paused);
      }
    }

    /**
     * `continueGroupExam`: for a known room whose record has no interval and time left, a
     * CONTINUED snapshot is sent and `startGroupExam` resumes from the stored time; otherwise
     * nothing happens.
     */
    method ContinueGroupExam(roomId: RoomId)
      requires Valid()
      modifies this, Footprint(roomId)
      ensures Valid() && ContinueEffect(roomId)
      ensures forall room :: old(Exclusive(room)) ==> Exclusive(room)
    {
      if roomId !in times {
        return;
      }
      var roomTimeData := times[roomId];
      if roomTimeData.interval.Some? || roomTimeData.time <= 0 {
        return;
      }
      EmitStatus(roomId, Continued);
      StartGroupExam(roomId);
    }

    /**
     * The success path of the start endpoint: a fresh record `{time: duration, interval: null}`
     * replaces whatever the room had, the "start" notice is sent and `startGroupExam` installs a
     * new interval on the fresh record. An interval still live on the replaced record is not
     * cleared: the room then has one live interval more than before, and it is exclusive again
     * only if it had none.
     */
    method Restart(roomId: RoomId, duration: nat)
      requires Valid()
      modifies this
      ensures Valid()
      ensures var h := old(nextHandle);
              && roomId in times && fresh(times[roomId])
              && times == old(times)[roomId := times[roomId]]
              && times[roomId].time == duration && times[roomId].interval == Some(h)
              && h !in old(timers) && nextHandle == h + 1
              && timers == old(timers)[h := Timer(roomId, times[roomId], duration)]
              && sent == old(sent) + [StartNotice(roomId, duration), Msg(roomId, StatusOf(Started, duration))]
              && LiveIntervals(roomId) == old(LiveIntervals(roomId)) + {h}
              && (Exclusive(roomId) <==> old(LiveIntervals(roomId)) == {})
              && (forall room :: room != roomId && old(Exclusive(room)) ==> Exclusive(room))
    {
      ghost var times0, timers0, h := times, timers, nextHandle;
      sent := sent + [StartNotice(roomId, duration)];
      var rec := StoreNewRecord(roomId, duration);
      StartGroupExam(roomId);
      RestartExclusive(times0, timers0, h, roomId, rec, duration);
    }

    /** `times.set(roomId, {time: duration, interval: null})`: a fresh record replaces the old. */
    method StoreNewRecord(roomId: RoomId, duration: nat) returns (roomTimeData: TimeRecord)
      requires Valid()
      modifies this`times, this`Repr
      ensures Valid()
      ensures fresh(roomTimeData) && roomTimeData.time == duration && roomTimeData.interval == None
      ensures times == old(times)[roomId := roomTimeData] && Repr == old(Repr) + {roomTimeData}
    {
      roomTimeData := new TimeRecord(duration);
      Repr := Repr + {roomTimeData};
      times := times[roomId := roomTimeData];
    }
  }
}
