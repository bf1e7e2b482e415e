/**
 * The three HTTP handlers `/emit/start-evaluation`, `/emit/pause-evaluation` and
 * `/emit/continue-evaluation` (src/server.js:87-165): their guard checks, the order in which
 * they are made, the responses, and what each handler does to the registry.
 */
module Endpoints {
  import opened Wrappers
  import opened Messages
  import opened Registry

  /** What verifying the token came to: the backend accepted it, refused it, or threw. */
  datatype Verification = Accepted | Refused | Throws

  /** The JSON body of a response. */
  datatype Reply =
    | Notice(message: string)
    | Launched(message: string, roomId: RoomId, duration: int, clients: nat)
    | Progress(message: string, roomId: RoomId, timeLeft: nat)

  datatype Response = Response(status: nat, body: Reply)

  const TokenRequired := Response(401, Notice("Token requerido"))
  const InvalidDuration := Response(400, Notice("Duraci\U{F3}n inv\U{E1}lida"))
  const InvalidToken := Response(401, Notice("Token inv\U{E1}lido"))
  const InternalError := Response(500, Notice("Error interno"))
  const RoomNotFound := Response(404, Notice("Sala no encontrada"))

  /** `!token` is false: the field is present and not the empty string. */
  predicate Truthy(token: Option<string>) {
    token.Some? && token.value != ""
  }

  /** `!duration || duration <= 0` is false: the field is present and positive. */
  predicate PositiveDuration(duration: Option<int>) {
    duration.Some? && duration.value > 0
  }

  /**
   * `/emit/start-evaluation`. The token is checked first, then the duration, then the token's
   * verification; none of these touches the registry. On success the room is restarted with
   * the duration (`Restart`), leaving any interval of the replaced record live.
   */
  method StartEvaluation(s: ExamServer, roomId: RoomId, duration: Option<int>, token: Option<string>,
                         verification: Verification, clients: nat) returns (r: Response)
    requires s.Valid()
    modifies s
    ensures s.Valid()
    ensures !Truthy(token) ==> r == TokenRequired && unchanged(s)
    ensures Truthy(token) && !PositiveDuration(duration) ==> r == InvalidDuration && unchanged(s)
    ensures Truthy(token) && PositiveDuration(duration) && verification == Throws ==>
              r == InternalError && unchanged(s)
    ensures Truthy(token) && PositiveDuration(duration) && verification == Refused ==>
              r == InvalidToken && unchanged(s)
    ensures Truthy(token) && PositiveDuration(duration) && verification == Accepted ==>
              var d, h := duration.value, old(s.nextHandle);
              && r == Response(200, Launched("Evento emitido correctamente", roomId, d, clients))
              && roomId in s.times && fresh(s.times[roomId])
              && s.times == old(s.times)[roomId := s.times[roomId]]
              && s.times[roomId].time == d && s.times[roomId].interval == Some(h)
              && h !in old(s.timers) && s.nextHandle == h + 1
              && s.timers == old(s.timers)[h := Timer(roomId, s.times[roomId], d)]
              && s.sent == old(s.sent) + [StartNotice(roomId, d), Msg(roomId, StatusOf(Started, d))]
              && s.LiveIntervals(roomId) == old(s.LiveIntervals(roomId)) + {h}
              && (s.Exclusive(roomId) <==> old(s.LiveIntervals(roomId)) == {})
              && (forall room :: room != roomId && old(s.Exclusive(room)) ==> s.Exclusive(room))
  {
    if !Truthy(token) {
      return TokenRequired;
    }
    if !PositiveDuration(duration) {
      return InvalidDuration;
    }
    if verification == Throws {
      return InternalError;
    }
    if verification == Refused {
      return InvalidToken;
    }
    s.Restart(roomId, duration.value);
    r := Response(200, Launched("Evento emitido correctamente", roomId, duration.value, clients));
  }

  /**
   * `/emit/pause-evaluation`: 401 without a token, 404 (registry untouched) for a room id that
   * is not a key, and otherwise `pauseGroupExam` and a 200 reporting the record's time.
   */
  method PauseEvaluation(s: ExamServer, roomId: RoomId, token: Option<string>) returns (r: Response)
    requires s.Valid()
    modifies s, s.Footprint(roomId)
    ensures s.Valid()
    ensures !Truthy(token) ==> r == TokenRequired && s.NoEffect(roomId)
    ensures Truthy(token) && roomId !in old(s.times) ==> r == RoomNotFound && s.NoEffect(roomId)
    ensures Truthy(token) && roomId in old(s.times) ==>
              && s.PauseEffect(roomId) && !s.Running(roomId)
              && r == Response(200, Progress("Examen pausado", roomId, old(s.times[roomId].time)))
    ensures forall room :: old(s.Exclusive(room)) ==> s.Exclusive(room)
  {
    if !Truthy(token) {
      return TokenRequired;
    }
    if roomId !in s.times {
      return RoomNotFound;
    }
    var roomTimeData := s.times[roomId];
    s.PauseGroupExam(roomId);
    r := Response(200, Progress("Examen pausado", roomId, roomTimeData.time));
  }

  /**
   * `/emit/continue-evaluation`: 401 without a token, 404 (registry untouched) for a room id
   * that is not a key, and otherwise `continueGroupExam` when the record has no interval and
   * time left, and a 200 reporting the record's time.
   */
  method ContinueEvaluation(s: ExamServer, roomId: RoomId, token: Option<string>) returns (r: Response)
    requires s.Valid()
    modifies s, s.Footprint(roomId)
    ensures s.Valid()
    ensures !Truthy(token) ==> r == TokenRequired && s.NoEffect(roomId)
    ensures Truthy(token) && roomId !in old(s.times) ==> r == RoomNotFound && s.NoEffect(roomId)
    ensures Truthy(token) && roomId in old(s.times) ==>
              && s.ContinueEffect(roomId)
              && r == Response(200, Progress("Examen reanudado", roomId, old(s.times[roomId].time)))
    ensures forall room :: old(s.Exclusive(room)) ==> s.Exclusive(room)
  {
    if !Truthy(token) {
      return TokenRequired;
    }
    if roomId !in s.times {
      return RoomNotFound;
    }
    var roomTimeData := s.times[roomId];
    if roomTimeData.interval.None? && roomTimeData.time > 0 {
      s.ContinueGroupExam(roomId);
    }
    r := Response(200, Progress("Examen reanudado", roomId, roomTimeData.time));
  }
}
