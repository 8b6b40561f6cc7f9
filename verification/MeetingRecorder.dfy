/** Meeting history. One worker applies join and leave events in order; it keeps the live meetings in memory and
    writes sessions and participant rows with statements any of which may fail. */
module MeetingRecorder {
  import opened Identifiers

  type SessionId = nat

  datatype Session = Session(room: RoomId, startedAt: int, endedAt: Option<int>)

  datatype Row = Row(joinedAt: int, leftAt: Option<int>)

  /** `meeting_sessions` in order of insertion, a session's id being its position, and `meeting_participants`
      with its unique key. */
  datatype Tables = Tables(sessions: seq<Session>, rows: map<(SessionId, ParticipantId), Row>)

  datatype LiveMeeting = LiveMeeting(session: SessionId, participants: set<ParticipantId>)

  datatype Recorder = Recorder(
    rooms: map<RoomId, LiveMeeting>,
    participantRooms: map<ParticipantId, RoomId>,
    tables: Tables)

  datatype Event =
    | Joined(room: RoomId, participant: ParticipantId, at: int)
    | Left(participant: ParticipantId, at: int)

  /** A statement succeeds, fails without effect, or takes effect although its reply is lost. */
  datatype Outcome = Done | Failed | ReplyLost

  /** The outcomes one event may meet, statement by statement; a leave uses `row` and `close`. */
  datatype Faults = Faults(connected: bool, close: Outcome, insert: Outcome, row: Outcome, compensate: Outcome)

  const NO_FAULTS := Faults(true, Done, Done, Done, Done)

  // ---------------------------------------------------------------------------------------------------
  // Statements: the tables afterwards, and whether the caller sees success

  predicate IsOpen(tables: Tables, id: SessionId, room: RoomId) {
    id < |tables.sessions| && tables.sessions[id].room == room && tables.sessions[id].endedAt.None?
  }

  function Execute(before: Tables, after: Tables, legal: bool, outcome: Outcome): Tables {
    if legal && !outcome.Failed? then after else before
  }

  function EndOpen(sessions: seq<Session>, room: RoomId, at: int): (ended: seq<Session>)
    ensures |ended| == |sessions|
  {
    seq(|sessions|, i requires 0 <= i < |sessions| =>
      if sessions[i].room == room && sessions[i].endedAt.None? then sessions[i].(endedAt := Some(at)) else sessions[i])
  }

  /** The table's check that a session does not end before it starts. */
  predicate MayEndOpen(tables: Tables, room: RoomId, at: int) {
    forall id | 0 <= id < |tables.sessions| :: IsOpen(tables, id, room) ==> tables.sessions[id].startedAt <= at
  }

  /** The table's unique index on open sessions of a room. */
  predicate MayOpen(tables: Tables, room: RoomId) {
    forall id | 0 <= id < |tables.sessions| :: !IsOpen(tables, id, room)
  }

  predicate MayEnd(tables: Tables, id: SessionId, at: int) {
    id < |tables.sessions| ==> tables.sessions[id].startedAt <= at
  }

  function EndOne(tables: Tables, id: SessionId, at: int): Tables {
    if id < |tables.sessions| then
      tables.(sessions := tables.sessions[id := tables.sessions[id].(endedAt := Some(at))])
    else tables
  }

  function EndOneIfOpen(tables: Tables, id: SessionId, at: int): Tables {
    if id < |tables.sessions| && tables.sessions[id].endedAt.None? then EndOne(tables, id, at) else tables
  }

  function InsertRow(tables: Tables, id: SessionId, p: ParticipantId, at: int): Tables {
    if (id, p) in tables.rows then tables else tables.(rows := tables.rows[(id, p) := Row(at, None)])
  }

  predicate HasOpenRow(tables: Tables, id: SessionId, p: ParticipantId) {
    (id, p) in tables.rows && tables.rows[(id, p)].leftAt.None?
  }

  predicate MayCloseRow(tables: Tables, id: SessionId, p: ParticipantId, at: int) {
    HasOpenRow(tables, id, p) ==> tables.rows[(id, p)].joinedAt <= at
  }

  function CloseRow(tables: Tables, id: SessionId, p: ParticipantId, at: int): Tables {
    if HasOpenRow(tables, id, p) then
      tables.(rows := tables.rows[(id, p) := tables.rows[(id, p)].(leftAt := Some(at))])
    else tables
  }

  // ---------------------------------------------------------------------------------------------------
  // The two handlers as functions

  /** Makes the room live unless it is: ends what an earlier failure left open, then inserts a session. */
  function StartMeeting(r: Recorder, room: RoomId, at: int, f: Faults): (Recorder, bool) {
    if room in r.rooms then (r, true)
    else
      var ended := Execute(r.tables, r.tables.(sessions := EndOpen(r.tables.sessions, room, at)),
                           MayEndOpen(r.tables, room, at), f.close);
      if !MayEndOpen(r.tables, room, at) || !f.close.Done? then (r.(tables := ended), false)
      else
        var grown := Execute(ended, ended.(sessions := ended.sessions + [Session(room, at, None)]),
                              MayOpen(ended, room), f.insert);
        if !MayOpen(ended, room) || !f.insert.Done? then (r.(tables := grown), false)
        else (r.(tables := grown, rooms := r.rooms[room := LiveMeeting(|ended.sessions|, {})]), true)
  }

  /** Records the participant of a live room; without one a new session is dropped again. */
  function AddParticipant(r: Recorder, room: RoomId, p: ParticipantId, at: int, f: Faults): Recorder
    requires room in r.rooms
  {
    var meeting := r.rooms[room];
    var inserted := Execute(r.tables, InsertRow(r.tables, meeting.session, p, at), true, f.row);
    if f.row.Done? then
      Recorder(r.rooms[room := meeting.(participants := meeting.participants + {p})],
               r.participantRooms[p := room],
               inserted)
    else if meeting.participants == {} then
      r.(rooms := r.rooms - {room},
         tables := Execute(inserted, EndOne(inserted, meeting.session, at), MayEnd(inserted, meeting.session, at),
                           f.compensate))
    else r.(tables := inserted)
  }

  function JoinStep(r: Recorder, room: RoomId, p: ParticipantId, at: int, f: Faults): Recorder {
    if !f.connected then r
    else
      var (started, ok) := StartMeeting(r, room, at, f);
      if ok && room in started.rooms then AddParticipant(started, room, p, at, f) else started
  }

  function LeaveStep(r: Recorder, p: ParticipantId, at: int, f: Faults): Recorder {
    if p !in r.participantRooms then r
    else
      var room := r.participantRooms[p];
      var forgotten := r.(participantRooms := r.participantRooms - {p});
      if room !in r.rooms then forgotten
      else
        var meeting := r.rooms[room].(participants := r.rooms[room].participants - {p});
        var ended := meeting.participants == {};
        var removed := forgotten.(rooms := if ended then r.rooms - {room} else r.rooms[room := meeting]);
        if !f.connected then removed
        else
          var left := Execute(r.tables, CloseRow(r.tables, meeting.session, p, at),
                              MayCloseRow(r.tables, meeting.session, p, at), f.row);
          if !MayCloseRow(r.tables, meeting.session, p, at) || !f.row.Done? || !ended then removed.(tables := left)
          else
            removed.(tables := Execute(left, EndOneIfOpen(left, meeting.session, at),
                                       MayEnd(left, meeting.session, at), f.close))
  }

  function Apply(r: Recorder, e: Event, f: Faults): Recorder {
    match e
    case Joined(room, p, at) => JoinStep(r, room, p, at, f)
    case Left(p, at) => LeaveStep(r, p, at, f)
  }

  function ApplyAll(r: Recorder, log: seq<Event>, faults: seq<Faults>): Recorder
    requires |faults| == |log|
    decreases |log|
  {
    if log == [] then r
    else
      var n := |log| - 1;
      Apply(ApplyAll(r, log[..n], faults[..n]), log[n], faults[n])
  }

  // ---------------------------------------------------------------------------------------------------
  // Memory and tables stay in step whatever fails

  ghost predicate MapsAreInverse(r: Recorder) {
    && (forall p | p in r.participantRooms ::
          r.participantRooms[p] in r.rooms && p in r.rooms[r.participantRooms[p]].participants)
    && (forall room, p | room in r.rooms && p in r.rooms[room].participants ::
          p in r.participantRooms && r.participantRooms[p] == room)
  }

  ghost predicate NoEmptyMeeting(r: Recorder) {
    forall room | room in r.rooms :: r.rooms[room].participants != {}
  }

  /** Each live room's session is the room's one and only open session. */
  ghost predicate SessionsAreOpen(r: Recorder) {
    forall room | room in r.rooms ::
      && IsOpen(r.tables, r.rooms[room].session, room)
      && (forall id: nat | IsOpen(r.tables, id, room) :: id == r.rooms[room].session)
  }

  ghost predicate RowsAreOpen(r: Recorder) {
    forall room, p | room in r.rooms && p in r.rooms[room].participants ::
      HasOpenRow(r.tables, r.rooms[room].session, p)
  }

  ghost predicate InStep(r: Recorder) {
    MapsAreInverse(r) && NoEmptyMeeting(r) && SessionsAreOpen(r) && RowsAreOpen(r)
  }

  /** No row names a participant who has not joined yet. */
  ghost predicate RowsWithin(r: Recorder, seen: set<ParticipantId>) {
    && (forall id, p | (id, p) in r.tables.rows :: p in seen)
    && r.participantRooms.Keys <= seen
  }

  function JoinersOf(log: seq<Event>): set<ParticipantId> {
    set i | 0 <= i < |log| && log[i].Joined? :: log[i].participant
  }

  /** Each connection joins at most once, which the signaling handler enforces. */
  ghost predicate JoinsOnce(log: seq<Event>) {
    forall i, j | 0 <= i < j < |log| && log[i].Joined? && log[j].Joined? :: log[i].participant != log[j].participant
  }

  /** Ending what is open of one room, then opening one, leaves the open sessions of the others as they are. */
  lemma OpenAfterStart(t: Tables, room: RoomId, at: int, id: nat, other: RoomId)
    ensures var ended := t.(sessions := EndOpen(t.sessions, room, at));
      && (IsOpen(ended, id, other) <==> IsOpen(t, id, other) && other != room)
      && var started := ended.(sessions := ended.sessions + [Session(room, at, None)]);
         IsOpen(started, id, other) <==> IsOpen(ended, id, other) || (id == |t.sessions| && other == room)
  {}

  lemma StartMeetingOpens(r: Recorder, room: RoomId, at: int, f: Faults)
    requires SessionsAreOpen(r) && room !in r.rooms
    ensures SessionsAreOpen(StartMeeting(r, room, at, f).0)
  {
    var r' := StartMeeting(r, room, at, f).0;
    forall id: nat, other ensures IsOpen(r.tables, id, other) && other != room ==> IsOpen(r'.tables, id, other)
      ensures IsOpen(r'.tables, id, other) && other != room ==> IsOpen(r.tables, id, other)
      ensures IsOpen(r'.tables, id, room) && room in r'.rooms ==> id == r'.rooms[room].session
      ensures room in r'.rooms ==> IsOpen(r'.tables, r'.rooms[room].session, room)
    {
      OpenAfterStart(r.tables, room, at, id, other);
      OpenAfterStart(r.tables, room, at, id, room);
      OpenAfterStart(r.tables, room, at, |r.tables.sessions|, room);
    }
  }

  lemma StartMeetingFrame(r: Recorder, room: RoomId, at: int, f: Faults)
    ensures var (r', ok) := StartMeeting(r, room, at, f);
      && r'.participantRooms == r.participantRooms && r'.tables.rows == r.tables.rows
      && (ok ==> room in r'.rooms)
      && (!ok ==> r'.rooms == r.rooms && room !in r.rooms)
      && (forall other | other != room || room in r.rooms ::
            (other in r'.rooms <==> other in r.rooms) && (other in r.rooms ==> r'.rooms[other] == r.rooms[other]))
      && (ok && room !in r.rooms ==> r'.rooms[room].participants == {})
  {}

  lemma StartMeetingKeepsInStep(r: Recorder, room: RoomId, at: int, f: Faults)
    requires InStep(r)
    ensures var (r', ok) := StartMeeting(r, room, at, f);
      && (!ok ==> NoEmptyMeeting(r'))
      && MapsAreInverse(r') && SessionsAreOpen(r') && RowsAreOpen(r')
      && (forall other | other in r'.rooms && other != room :: r'.rooms[other].participants != {})
  {
    StartMeetingFrame(r, room, at, f);
    if room !in r.rooms { StartMeetingOpens(r, room, at, f); }
    var r' := StartMeeting(r, room, at, f).0;
    forall other, p | other in r'.rooms && p in r'.rooms[other].participants
      ensures HasOpenRow(r'.tables, r'.rooms[other].session, p)
    {
      assert HasOpenRow(r.tables, r.rooms[other].session, p);
    }
  }

  /** Statements about session `id` and its participant `p` end no other session and close no other row. */
  ghost predicate TouchesOnly(before: Tables, after: Tables, id: SessionId, p: ParticipantId) {
    && (forall other: nat, room | IsOpen(after, other, room) :: IsOpen(before, other, room))
    && (forall other: nat, room | IsOpen(before, other, room) && other != id :: IsOpen(after, other, room))
    && (forall other, q | HasOpenRow(before, other, q) && (other != id || q != p) :: HasOpenRow(after, other, q))
  }

  lemma StatementsTouchOnly(t: Tables, id: SessionId, p: ParticipantId, at: int)
    ensures TouchesOnly(t, InsertRow(t, id, p, at), id, p)
    ensures TouchesOnly(t, CloseRow(t, id, p, at), id, p)
    ensures TouchesOnly(t, EndOne(t, id, at), id, p)
    ensures TouchesOnly(t, EndOneIfOpen(t, id, at), id, p)
  {}

  lemma TouchesOnlyTwice(t1: Tables, t2: Tables, t3: Tables, id: SessionId, p: ParticipantId)
    requires TouchesOnly(t1, t2, id, p) && TouchesOnly(t2, t3, id, p)
    ensures TouchesOnly(t1, t3, id, p)
  {
    forall other, q | HasOpenRow(t1, other, q) && (other != id || q != p) ensures HasOpenRow(t3, other, q) {
      assert HasOpenRow(t2, other, q);
    }
  }

  lemma AddTouchesOnly(r: Recorder, room: RoomId, p: ParticipantId, at: int, f: Faults)
    requires room in r.rooms
    ensures TouchesOnly(r.tables, AddParticipant(r, room, p, at, f).tables, r.rooms[room].session, p)
  {
    var id := r.rooms[room].session;
    var inserted := Execute(r.tables, InsertRow(r.tables, id, p, at), true, f.row);
    StatementsTouchOnly(r.tables, id, p, at);
    StatementsTouchOnly(inserted, id, p, at);
    TouchesOnlyTwice(r.tables, inserted, AddParticipant(r, room, p, at, f).tables, id, p);
  }

  lemma LeaveTouchesOnly(r: Recorder, p: ParticipantId, at: int, f: Faults)
    requires p in r.participantRooms && r.participantRooms[p] in r.rooms
    ensures TouchesOnly(r.tables, LeaveStep(r, p, at, f).tables, r.rooms[r.participantRooms[p]].session, p)
  {
    var id := r.rooms[r.participantRooms[p]].session;
    var left := Execute(r.tables, CloseRow(r.tables, id, p, at), MayCloseRow(r.tables, id, p, at), f.row);
    StatementsTouchOnly(r.tables, id, p, at);
    StatementsTouchOnly(left, id, p, at);
    TouchesOnlyTwice(r.tables, left, LeaveStep(r, p, at, f).tables, id, p);
  }

  /** Live rooms other than the touched one stay in step. */
  lemma OthersStayOpen(r: Recorder, r': Recorder, room: RoomId, p: ParticipantId)
    requires SessionsAreOpen(r) && RowsAreOpen(r) && room in r.rooms
    requires TouchesOnly(r.tables, r'.tables, r.rooms[room].session, p)
    requires r'.rooms.Keys <= r.rooms.Keys
    requires forall other | other in r'.rooms && other != room :: r'.rooms[other] == r.rooms[other]
    requires room in r'.rooms ==>
      && r'.rooms[room].session == r.rooms[room].session
      && r'.rooms[room].participants <= r.rooms[room].participants + {p}
      && IsOpen(r'.tables, r'.rooms[room].session, room)
      && (p in r'.rooms[room].participants ==> HasOpenRow(r'.tables, r'.rooms[room].session, p))
    ensures SessionsAreOpen(r') && RowsAreOpen(r')
  {
    var id := r.rooms[room].session;
    assert IsOpen(r.tables, id, room);
    forall other | other in r'.rooms
      ensures IsOpen(r'.tables, r'.rooms[other].session, other)
      ensures forall q | q in r'.rooms[other].participants :: HasOpenRow(r'.tables, r'.rooms[other].session, q)
    {
      assert IsOpen(r.tables, r.rooms[other].session, other);
      forall q | q in r'.rooms[other].participants ensures HasOpenRow(r'.tables, r'.rooms[other].session, q) {
        if other != room || q != p { assert HasOpenRow(r.tables, r.rooms[other].session, q); }
      }
    }
  }

  lemma AddKeepsMaps(r: Recorder, room: RoomId, p: ParticipantId, at: int, f: Faults)
    requires MapsAreInverse(r) && room in r.rooms && p !in r.participantRooms
    requires forall other | other in r.rooms && other != room :: r.rooms[other].participants != {}
    ensures var r' := AddParticipant(r, room, p, at, f); MapsAreInverse(r') && NoEmptyMeeting(r')
  {}

  lemma AddKeepsTables(r: Recorder, room: RoomId, p: ParticipantId, at: int, f: Faults)
    requires SessionsAreOpen(r) && RowsAreOpen(r) && room in r.rooms
    requires (r.rooms[room].session, p) !in r.tables.rows
    ensures var r' := AddParticipant(r, room, p, at, f); SessionsAreOpen(r') && RowsAreOpen(r')
  {
    AddTouchesOnly(r, room, p, at, f);
    assert IsOpen(r.tables, r.rooms[room].session, room);
    OthersStayOpen(r, AddParticipant(r, room, p, at, f), room, p);
  }

  lemma LeaveKeepsMaps(r: Recorder, p: ParticipantId, at: int, f: Faults)
    requires MapsAreInverse(r) && NoEmptyMeeting(r)
    ensures var r' := LeaveStep(r, p, at, f); MapsAreInverse(r') && NoEmptyMeeting(r')
  {}

  lemma LeaveKeepsTables(r: Recorder, p: ParticipantId, at: int, f: Faults)
    requires InStep(r) && p in r.participantRooms
    ensures var r' := LeaveStep(r, p, at, f); SessionsAreOpen(r') && RowsAreOpen(r')
  {
    var room := r.participantRooms[p];
    LeaveTouchesOnly(r, p, at, f);
    assert IsOpen(r.tables, r.rooms[room].session, room);
    OthersStayOpen(r, LeaveStep(r, p, at, f), room, p);
  }

  lemma ApplyKeepsInStep(r: Recorder, e: Event, f: Faults, seen: set<ParticipantId>)
    requires InStep(r) && RowsWithin(r, seen)
    requires e.Joined? ==> e.participant !in seen
    ensures InStep(Apply(r, e, f))
    ensures RowsWithin(Apply(r, e, f), if e.Joined? then seen + {e.participant} else seen)
  {
    match e
    case Left(p, at) =>
      LeaveKeepsMaps(r, p, at, f);
      if p in r.participantRooms { LeaveKeepsTables(r, p, at, f); }
    case Joined(room, p, at) =>
      if f.connected {
        StartMeetingFrame(r, room, at, f);
        StartMeetingKeepsInStep(r, room, at, f);
        var (started, ok) := StartMeeting(r, room, at, f);
        if ok {
          AddKeepsMaps(started, room, p, at, f);
          AddKeepsTables(started, room, p, at, f);
        }
      }
  }

  /** Whatever statements fail or lose their reply, from any tables a previous process left behind, after every
      event memory and tables agree. */
  lemma {:induction false} FaultsNeverPutOutOfStep(tables: Tables, log: seq<Event>, faults: seq<Faults>,
                                                   earlier: set<ParticipantId>)
    requires |faults| == |log| && JoinsOnce(log) && JoinersOf(log) !! earlier
    requires forall id, p | (id, p) in tables.rows :: p in earlier
    ensures InStep(ApplyAll(Recorder(map[], map[], tables), log, faults))
    ensures RowsWithin(ApplyAll(Recorder(map[], map[], tables), log, faults), earlier + JoinersOf(log))
    decreases |log|
  {
    if log != [] {
      var n := |log| - 1;
      assert JoinersOf(log[..n]) <= JoinersOf(log) by {
        forall p | p in JoinersOf(log[..n]) ensures p in JoinersOf(log) {
          var i :| 0 <= i < n && log[..n][i].Joined? && log[..n][i].participant == p;
          assert log[i] == log[..n][i];
        }
      }
      FaultsNeverPutOutOfStep(tables, log[..n], faults[..n], earlier);
      var seen := earlier + JoinersOf(log[..n]);
      if log[n].Joined? {
        assert log[n].participant in JoinersOf(log);
        assert log[n].participant !in JoinersOf(log[..n]);
      }
      ApplyKeepsInStep(ApplyAll(Recorder(map[], map[], tables), log[..n], faults[..n]), log[n], faults[n], seen);
    }
  }

  // ---------------------------------------------------------------------------------------------------
  // Without faults the tables are the event log's occupied periods

  /** Where everyone is after the log. */
  function Where(log: seq<Event>): map<ParticipantId, RoomId>
    decreases |log|
  {
    if log == [] then map[]
    else
      Move(Where(log[..|log| - 1]), log[|log| - 1])
  }

  function Move(places: map<ParticipantId, RoomId>, e: Event): map<ParticipantId, RoomId> {
    match e
    case Joined(room, p, _) => places[p := room]
    case Left(p, _) => places - {p}
  }

  ghost predicate Occupied(log: seq<Event>, room: RoomId) {
    exists p :: p in Where(log) && Where(log)[p] == room
  }

  /** A stretch of the log; the room is occupied after each of its events but the last. */
  datatype Period = Period(room: RoomId, from: nat, to: Option<nat>)

  ghost predicate OccupiedDuring(log: seq<Event>, room: RoomId, from: nat, to: nat)
    requires to <= |log|
  {
    forall k | from < k <= to :: Occupied(log[..k], room)
  }

  /** `period` is a maximal stretch in which the room is occupied: it was empty before, and the stretch goes on
      until the room is empty again or the log ends. */
  ghost predicate IsMaximal(log: seq<Event>, period: Period) {
    && period.from < |log|
    && !Occupied(log[..period.from], period.room)
    && (match period.to
        case None => OccupiedDuring(log, period.room, period.from, |log|)
        case Some(to) =>
          && period.from < to < |log|
          && OccupiedDuring(log, period.room, period.from, to)
          && !Occupied(log[..to + 1], period.room))
  }

  function At(log: seq<Event>, i: nat): int {
    if i < |log| then log[i].at else 0
  }

  function SessionOf(log: seq<Event>, period: Period): Session {
    Session(period.room, At(log, period.from), match period.to case None => None case Some(to) => Some(At(log, to)))
  }

  /** The first departure of `p` after event `i`. */
  function LeftAfter(log: seq<Event>, i: nat, p: ParticipantId): Option<int>
    decreases |log|
  {
    if |log| <= i + 1 then None
    else
      var n := |log| - 1;
      match LeftAfter(log[..n], i, p)
      case Some(at) => Some(at)
      case None => if log[n].Left? && log[n].participant == p then Some(log[n].at) else None
  }

  /** Event `i` is the join that row `(id, p)` records, in the period of session `id`. */
  ghost predicate RowRecords(log: seq<Event>, period: Period, p: ParticipantId, row: Row, i: nat) {
    && i < |log| && log[i] == Joined(period.room, p, row.joinedAt)
    && period.from <= i && (period.to.Some? ==> i < period.to.value)
    && row.leftAt == LeftAfter(log, i, p)
    && (row.leftAt.None? ==> p in Where(log) && Where(log)[p] == period.room && period.to.None?)
  }

  function Now(log: seq<Event>): int {
    if log == [] then 0 else log[|log| - 1].at
  }

  /** The interval of a row lies inside that of its session, and both lie in the past. */
  predicate RowInside(now: int, session: Session, row: Row) {
    && session.startedAt <= row.joinedAt <= now
    && (row.leftAt.Some? ==>
          && row.joinedAt <= row.leftAt.value <= now
          && (session.endedAt.Some? ==> row.leftAt.value <= session.endedAt.value))
  }

  /** `periods` lists exactly the maximal occupied periods, in order of their start, each once. */
  ghost predicate ListsPeriods(log: seq<Event>, periods: seq<Period>) {
    && (forall i | 0 <= i < |periods| :: IsMaximal(log, periods[i]))
    && (forall i, j | 0 <= i < j < |periods| :: periods[i].from < periods[j].from)
    && (forall period | IsMaximal(log, period) :: period in periods)
  }

  ghost predicate SessionsArePeriods(log: seq<Event>, periods: seq<Period>, t: Tables) {
    && |t.sessions| == |periods|
    && (forall i | 0 <= i < |periods| :: t.sessions[i] == SessionOf(log, periods[i]))
  }

  /** Row `(id, p)` records some join of `p`. */
  ghost predicate RowHasJoin(log: seq<Event>, periods: seq<Period>, t: Tables, id: SessionId, p: ParticipantId)
    requires (id, p) in t.rows
  {
    && id < |periods|
    && RowInside(Now(log), SessionOf(log, periods[id]), t.rows[(id, p)])
    && exists i: nat :: RowRecords(log, periods[id], p, t.rows[(id, p)], i)
  }

  /** The join at `i` is recorded by some row. */
  ghost predicate JoinHasRow(log: seq<Event>, periods: seq<Period>, t: Tables, i: nat)
    requires i < |log| && log[i].Joined?
  {
    exists id: nat :: id < |periods| && (id, log[i].participant) in t.rows
                      && RowRecords(log, periods[id], log[i].participant, t.rows[(id, log[i].participant)], i)
  }

  ghost predicate RowsAreJoins(log: seq<Event>, periods: seq<Period>, t: Tables) {
    && (forall id, p | (id, p) in t.rows :: RowHasJoin(log, periods, t, id, p))
    && (forall i: nat | i < |log| && log[i].Joined? :: JoinHasRow(log, periods, t, i))
  }

  ghost predicate Records(log: seq<Event>, periods: seq<Period>, r: Recorder) {
    && r.participantRooms == Where(log)
    && SessionsArePeriods(log, periods, r.tables)
    && RowsAreJoins(log, periods, r.tables)
  }

  ghost predicate NotBefore(log: seq<Event>, at: int) {
    forall i | 0 <= i < |log| :: log[i].at <= at
  }

  ghost predicate TimesDoNotDecrease(log: seq<Event>) {
    forall i, j | 0 <= i < j < |log| :: log[i].at <= log[j].at
  }

  /** One more event extends the list of periods: it opens one, closes the open one of its room, or neither. */
  ghost function Extend(log: seq<Event>, periods: seq<Period>, e: Event): seq<Period> {
    var log' := log + [e];
    match e
    case Joined(room, p, _) => if Occupied(log, room) then periods else periods + [Period(room, |log|, None)]
    case Left(p, _) =>
      if p !in Where(log) || Occupied(log', Where(log)[p]) then periods
      else
        seq(|periods|, i requires 0 <= i < |periods| =>
          if periods[i].room == Where(log)[p] && periods[i].to.None?
          then periods[i].(to := Some(|log|))
          else periods[i])
  }

  lemma PrefixOfLonger(log: seq<Event>, e: Event, k: nat)
    requires k <= |log|
    ensures (log + [e])[..k] == log[..k]
  {}

  lemma StillMaximal(log: seq<Event>, e: Event, period: Period)
    requires IsMaximal(log, period)
    requires period.to.None? ==> Occupied(log + [e], period.room)
    ensures IsMaximal(log + [e], period)
  {
    var log' := log + [e];
    PrefixOfLonger(log, e, period.from);
    if period.to.Some? { PrefixOfLonger(log, e, period.to.value + 1); }
    assert log'[..|log'|] == log';
    var end := if period.to.Some? then period.to.value else |log|;
    forall k | period.from < k <= end ensures Occupied(log'[..k], period.room) { PrefixOfLonger(log, e, k); }
  }

  lemma NowClosed(log: seq<Event>, e: Event, period: Period)
    requires IsMaximal(log, period) && period.to.None? && !Occupied(log + [e], period.room)
    ensures IsMaximal(log + [e], period.(to := Some(|log|)))
  {
    var log' := log + [e];
    PrefixOfLonger(log, e, period.from);
    assert log'[..|log'|] == log';
    forall k | period.from < k <= |log| ensures Occupied(log'[..k], period.room) { PrefixOfLonger(log, e, k); }
  }

  /** Conversely a maximal period of the longer log comes from one of the shorter, or starts with the event. */
  lemma WasMaximal(log: seq<Event>, e: Event, period: Period)
    requires IsMaximal(log + [e], period)
    ensures period.from == |log| || IsMaximal(log, period)
      || (period.to == Some(|log|) && IsMaximal(log, period.(to := None)))
    ensures period.from == |log| ==> period.to.None? && !Occupied(log, period.room) && Occupied(log + [e], period.room)
  {
    var log' := log + [e];
    PrefixOfLonger(log, e, period.from);
    assert log'[..|log'|] == log' && log[..|log|] == log;
    if period.to.Some? && period.to.value < |log| { PrefixOfLonger(log, e, period.to.value + 1); }
    if period.from < |log| {
      var end := if period.to.Some? then period.to.value else |log|;
      forall k | period.from < k <= end ensures Occupied(log[..k], period.room) {
        PrefixOfLonger(log, e, k);
        assert Occupied(log'[..k], period.room);
      }
    }
  }

  lemma WhereAfter(log: seq<Event>, e: Event)
    ensures Where(log + [e]) == Move(Where(log), e)
  {
    assert (log + [e])[..|log|] == log;
  }

  /** Only the room of an event can change from empty to occupied or back. */
  lemma OccupancyAfter(log: seq<Event>, e: Event, room: RoomId)
    requires e.Joined? ==> e.participant !in Where(log)
    ensures e.Joined? ==> (Occupied(log + [e], room) <==> Occupied(log, room) || room == e.room)
    ensures e.Left? && Occupied(log + [e], room) ==> Occupied(log, room)
    ensures e.Left? && (e.participant !in Where(log) || Where(log)[e.participant] != room)
      ==> (Occupied(log + [e], room) <==> Occupied(log, room))
  {
    WhereAfter(log, e);
    if Occupied(log, room) {
      var p :| p in Where(log) && Where(log)[p] == room;
      assert e.Joined? || e.participant != p ==> p in Where(log + [e]) && Where(log + [e])[p] == room;
    }
    if Occupied(log + [e], room) {
      var p :| p in Where(log + [e]) && Where(log + [e])[p] == room;
    }
    if e.Joined? { assert e.participant in Where(log + [e]); }
  }

  lemma OpenPeriodIsOccupied(log: seq<Event>, period: Period)
    requires IsMaximal(log, period) && period.to.None?
    ensures Occupied(log, period.room)
  {
    assert log[..|log|] == log;
  }

  /** What one more event makes of one period. */
  ghost function Continue(log: seq<Event>, period: Period, e: Event): Period {
    if e.Left? && e.participant in Where(log) && Where(log)[e.participant] == period.room && period.to.None?
       && !Occupied(log + [e], period.room)
    then period.(to := Some(|log|)) else period
  }

  lemma ExtendContinues(log: seq<Event>, periods: seq<Period>, e: Event)
    ensures |periods| <= |Extend(log, periods, e)|
    ensures forall i | 0 <= i < |periods| :: Extend(log, periods, e)[i] == Continue(log, periods[i], e)
    ensures Extend(log, periods, e)[|periods|..] ==
      if e.Joined? && !Occupied(log, e.room) then [Period(e.room, |log|, None)] else []
  {}

  lemma ContinueIsMaximal(log: seq<Event>, period: Period, e: Event)
    requires IsMaximal(log, period) && (e.Joined? ==> e.participant !in Where(log))
    ensures IsMaximal(log + [e], Continue(log, period, e))
  {
    OccupancyAfter(log, e, period.room);
    if period.to.None? { OpenPeriodIsOccupied(log, period); }
    if Continue(log, period, e) == period { StillMaximal(log, e, period); } else { NowClosed(log, e, period); }
  }

  /** The period of the shorter log that `period` continues. */
  function Source(log: seq<Event>, period: Period): Period {
    if period.to == Some(|log|) then period.(to := None) else period
  }

  lemma SourceIsMaximal(log: seq<Event>, period: Period, e: Event)
    requires IsMaximal(log + [e], period) && (e.Joined? ==> e.participant !in Where(log)) && period.from < |log|
    ensures IsMaximal(log, Source(log, period))
  {
    WasMaximal(log, e, period);
  }

  /** A period that the event closes: its room was occupied before and is empty now. */
  lemma ClosedByEvent(log: seq<Event>, period: Period, e: Event)
    requires IsMaximal(log + [e], period) && period.to == Some(|log|) && IsMaximal(log, period.(to := None))
    ensures Occupied(log, period.room) && !Occupied(log + [e], period.room)
  {
    assert (log + [e])[..|log| + 1] == log + [e];
    OpenPeriodIsOccupied(log, period.(to := None));
  }

  lemma SourceContinues(log: seq<Event>, period: Period, e: Event)
    requires IsMaximal(log + [e], period) && (e.Joined? ==> e.participant !in Where(log)) && period.from < |log|
    requires IsMaximal(log, Source(log, period))
    ensures Continue(log, Source(log, period), e) == period
  {
    if period.to == Some(|log|) {
      ClosedByEvent(log, period, e);
      EmptyingEvent(log, period.room, e);
    } else if period.to.None? {
      OpenPeriodIsOccupied(log + [e], period);
    }
  }

  lemma EmptyingEvent(log: seq<Event>, room: RoomId, e: Event)
    requires (e.Joined? ==> e.participant !in Where(log)) && Occupied(log, room) && !Occupied(log + [e], room)
    ensures e.Left? && e.participant in Where(log) && Where(log)[e.participant] == room
  {
    OccupancyAfter(log, e, room);
  }

  lemma ComesFromSource(log: seq<Event>, period: Period, e: Event)
    requires IsMaximal(log + [e], period) && (e.Joined? ==> e.participant !in Where(log)) && period.from < |log|
    ensures IsMaximal(log, Source(log, period)) && Continue(log, Source(log, period), e) == period
  {
    SourceIsMaximal(log, period, e);
    SourceContinues(log, period, e);
  }

  lemma StartsWithEvent(log: seq<Event>, period: Period, e: Event)
    requires IsMaximal(log + [e], period) && (e.Joined? ==> e.participant !in Where(log)) && period.from >= |log|
    ensures e.Joined? && !Occupied(log, e.room) && period == Period(e.room, |log|, None)
  {
    WasMaximal(log, e, period);
    OccupancyAfter(log, e, period.room);
  }

  lemma OpenedIsMaximal(log: seq<Event>, e: Event)
    requires e.Joined? && e.participant !in Where(log) && !Occupied(log, e.room)
    ensures IsMaximal(log + [e], Period(e.room, |log|, None))
  {
    var log' := log + [e];
    OccupancyAfter(log, e, e.room);
    assert log'[..|log|] == log && log'[..|log'|] == log';
  }

  lemma ExtendedAreMaximal(log: seq<Event>, periods: seq<Period>, e: Event, i: nat)
    requires ListsPeriods(log, periods) && (e.Joined? ==> e.participant !in Where(log))
    requires i < |Extend(log, periods, e)|
    ensures IsMaximal(log + [e], Extend(log, periods, e)[i])
  {
    var periods' := Extend(log, periods, e);
    ExtendContinues(log, periods, e);
    if i < |periods| {
      ContinueIsMaximal(log, periods[i], e);
    } else {
      assert periods'[i] == periods'[|periods|..][i - |periods|];
      OpenedIsMaximal(log, e);
    }
  }

  lemma MaximalAreExtended(log: seq<Event>, periods: seq<Period>, e: Event, period: Period)
    requires ListsPeriods(log, periods) && (e.Joined? ==> e.participant !in Where(log))
    requires IsMaximal(log + [e], period)
    ensures period in Extend(log, periods, e)
  {
    var periods' := Extend(log, periods, e);
    ExtendContinues(log, periods, e);
    if period.from < |log| {
      ComesFromSource(log, period, e);
      var i :| 0 <= i < |periods| && periods[i] == Source(log, period);
      assert periods'[i] == period;
    } else {
      StartsWithEvent(log, period, e);
      assert periods'[|periods|..][0] == period;
    }
  }

  lemma ExtendListsPeriods(log: seq<Event>, periods: seq<Period>, e: Event)
    requires ListsPeriods(log, periods) && (e.Joined? ==> e.participant !in Where(log))
    ensures ListsPeriods(log + [e], Extend(log, periods, e))
  {
    forall i | 0 <= i < |Extend(log, periods, e)| ensures IsMaximal(log + [e], Extend(log, periods, e)[i]) {
      ExtendedAreMaximal(log, periods, e, i);
    }
    forall period | IsMaximal(log + [e], period) ensures period in Extend(log, periods, e) {
      MaximalAreExtended(log, periods, e, period);
    }
    ExtendStaysSorted(log, periods, e);
  }

  lemma ExtendStaysSorted(log: seq<Event>, periods: seq<Period>, e: Event)
    requires ListsPeriods(log, periods)
    ensures var periods' := Extend(log, periods, e);
      forall i, j | 0 <= i < j < |periods'| :: periods'[i].from < periods'[j].from
  {
    var periods' := Extend(log, periods, e);
    ExtendContinues(log, periods, e);
    forall i, j | 0 <= i < j < |periods'| ensures periods'[i].from < periods'[j].from {
      assert IsMaximal(log, periods[i]);
      if j < |periods| { assert periods[i].from < periods[j].from; }
    }
  }

  lemma LiveIsOccupied(log: seq<Event>, r: Recorder, room: RoomId)
    requires MapsAreInverse(r) && NoEmptyMeeting(r) && r.participantRooms == Where(log)
    ensures room in r.rooms <==> Occupied(log, room)
  {
    if room in r.rooms {
      var p :| p in r.rooms[room].participants;
      assert p in Where(log) && Where(log)[p] == room;
    }
  }

  /** An open session is that of a live room, and the period it stands for is open. */
  lemma OpenSessionsAreLive(log: seq<Event>, periods: seq<Period>, r: Recorder, id: nat, room: RoomId)
    requires InStep(r) && ListsPeriods(log, periods) && Records(log, periods, r)
    requires IsOpen(r.tables, id, room)
    ensures id < |periods| && periods[id].room == room && periods[id].to.None?
    ensures room in r.rooms && r.rooms[room].session == id
  {
    OpenPeriodIsOccupied(log, periods[id]);
    LiveIsOccupied(log, r, room);
  }

  lemma NothingToEnd(t: Tables, room: RoomId, at: int)
    requires MayOpen(t, room)
    ensures MayEndOpen(t, room, at) && EndOpen(t.sessions, room, at) == t.sessions
  {
    forall id | 0 <= id < |t.sessions| ensures EndOpen(t.sessions, room, at)[id] == t.sessions[id] {
      assert !IsOpen(t, id, room);
    }
  }

  function SessionFor(r: Recorder, room: RoomId): SessionId {
    if room in r.rooms then r.rooms[room].session else |r.tables.sessions|
  }

  /** The fault-free join: either one more participant of a live room, or a new session with its first one. */
  lemma JoinWithoutFaults(r: Recorder, room: RoomId, p: ParticipantId, at: int)
    requires room !in r.rooms ==> MayOpen(r.tables, room)
    ensures var r' := JoinStep(r, room, p, at, NO_FAULTS);
      && r'.participantRooms == r.participantRooms[p := room]
      && r'.tables.sessions ==
        (if room in r.rooms then r.tables.sessions else r.tables.sessions + [Session(room, at, None)])
      && r'.tables.rows == InsertRow(r.tables, SessionFor(r, room), p, at).rows
  {
    if room !in r.rooms { NothingToEnd(r.tables, room, at); }
  }

  lemma NewRoomMayOpen(log: seq<Event>, periods: seq<Period>, r: Recorder, room: RoomId)
    requires InStep(r) && ListsPeriods(log, periods) && Records(log, periods, r) && room !in r.rooms
    ensures MayOpen(r.tables, room)
  {
    forall id: nat ensures !IsOpen(r.tables, id, room) {
      if IsOpen(r.tables, id, room) { OpenSessionsAreLive(log, periods, r, id, room); }
    }
  }

  lemma LeftAfterExtends(log: seq<Event>, e: Event, i: nat, p: ParticipantId)
    requires i < |log|
    ensures LeftAfter(log + [e], i, p) ==
      if LeftAfter(log, i, p).Some? then LeftAfter(log, i, p)
      else if e.Left? && e.participant == p then Some(e.at) else None
  {
    assert (log + [e])[..|log|] == log;
  }

  lemma SameSession(log: seq<Event>, e: Event, period: Period)
    requires IsMaximal(log, period)
    ensures SessionOf(log + [e], period) == SessionOf(log, period)
  {}

  lemma JoinRecordsSessions(log: seq<Event>, periods: seq<Period>, r: Recorder, e: Event)
    requires InStep(r) && ListsPeriods(log, periods) && Records(log, periods, r) && e.Joined?
    ensures SessionsArePeriods(log + [e], Extend(log, periods, e), Apply(r, e, NO_FAULTS).tables)
    ensures Apply(r, e, NO_FAULTS).participantRooms == Where(log + [e])
  {
    if e.room !in r.rooms { NewRoomMayOpen(log, periods, r, e.room); }
    JoinWithoutFaults(r, e.room, e.participant, e.at);
    LiveIsOccupied(log, r, e.room);
    WhereAfter(log, e);
    forall i | 0 <= i < |periods| ensures SessionOf(log + [e], periods[i]) == SessionOf(log, periods[i]) {
      SameSession(log, e, periods[i]);
    }
  }

  /** The session that a join to a live room goes to stands for an open period of that room. */
  lemma LiveSessionHasPeriod(log: seq<Event>, periods: seq<Period>, r: Recorder, room: RoomId)
    requires InStep(r) && ListsPeriods(log, periods) && Records(log, periods, r) && room in r.rooms
    ensures var id := r.rooms[room].session;
      id < |periods| && periods[id].room == room && periods[id].to.None?
  {
    var id := r.rooms[room].session;
    LiveIsOccupied(log, r, room);
    assert IsOpen(r.tables, id, room);
    OpenSessionsAreLive(log, periods, r, id, room);
    assert r.tables.sessions[id] == SessionOf(log, periods[id]);
  }

  lemma JoinExtends(log: seq<Event>, periods: seq<Period>, e: Event)
    requires e.Joined?
    ensures Extend(log, periods, e) ==
            if Occupied(log, e.room) then periods else periods + [Period(e.room, |log|, None)]
  {}

  lemma PeriodStartsBefore(log: seq<Event>, periods: seq<Period>, id: nat, e: Event)
    requires ListsPeriods(log, periods) && id < |periods| && NotBefore(log, e.at)
    ensures periods[id].from < |log| && At(log + [e], periods[id].from) <= e.at
  {
    assert IsMaximal(log, periods[id]);
    assert log[periods[id].from].at <= e.at;
  }

  /** A join goes to the session of this open period of its room. */
  ghost predicate JoinsPeriod(log: seq<Event>, periods: seq<Period>, e: Event, id: nat)
    requires e.Joined?
  {
    var periods' := Extend(log, periods, e);
    && id < |periods'| && periods <= periods'
    && periods'[id].room == e.room && periods'[id].to.None? && periods'[id].from <= |log|
    && At(log + [e], periods'[id].from) <= e.at
  }

  lemma JoinsOldPeriod(log: seq<Event>, periods: seq<Period>, e: Event, id: nat)
    requires e.Joined? && Occupied(log, e.room)
    requires id < |periods| && periods[id].room == e.room && periods[id].to.None?
    requires periods[id].from < |log| && At(log + [e], periods[id].from) <= e.at
    ensures JoinsPeriod(log, periods, e, id)
  {
    JoinExtends(log, periods, e);
  }

  lemma JoinsNewPeriod(log: seq<Event>, periods: seq<Period>, e: Event)
    requires e.Joined? && !Occupied(log, e.room)
    ensures JoinsPeriod(log, periods, e, |periods|)
  {
    JoinExtends(log, periods, e);
    assert At(log + [e], |log|) == e.at;
  }

  /** What the fault-free join does to the periods. */
  lemma JoinContext(log: seq<Event>, periods: seq<Period>, r: Recorder, e: Event)
    requires InStep(r) && ListsPeriods(log, periods) && Records(log, periods, r)
    requires e.Joined? && NotBefore(log, e.at)
    ensures JoinsPeriod(log, periods, e, SessionFor(r, e.room))
  {
    LiveIsOccupied(log, r, e.room);
    if e.room in r.rooms {
      var id := r.rooms[e.room].session;
      LiveSessionHasPeriod(log, periods, r, e.room);
      PeriodStartsBefore(log, periods, id, e);
      JoinsOldPeriod(log, periods, e, id);
    } else {
      JoinsNewPeriod(log, periods, e);
    }
  }

  lemma JoinRecordsRows(log: seq<Event>, periods: seq<Period>, r: Recorder, e: Event)
    requires InStep(r) && RowsWithin(r, JoinersOf(log)) && ListsPeriods(log, periods) && Records(log, periods, r)
    requires e.Joined? && e.participant !in JoinersOf(log) && NotBefore(log, e.at)
    ensures RowsAreJoins(log + [e], Extend(log, periods, e), Apply(r, e, NO_FAULTS).tables)
  {
    var periods', t' := Extend(log, periods, e), Apply(r, e, NO_FAULTS).tables;
    JoinContext(log, periods, r, e);
    if e.room !in r.rooms { NewRoomMayOpen(log, periods, r, e.room); }
    JoinWithoutFaults(r, e.room, e.participant, e.at);
    RowsAfterJoin(log, periods, r.tables, e, periods', t', SessionFor(r, e.room));
    JoinsAfterJoin(log, periods, r.tables, e, periods', t', SessionFor(r, e.room));
  }

  lemma RowsAfterJoin(log: seq<Event>, periods: seq<Period>, t: Tables, e: Event, periods': seq<Period>, t': Tables,
                      id: nat)
    requires ListsPeriods(log, periods) && RowsAreJoins(log, periods, t) && NotBefore(log, e.at)
    requires forall k, q | (k, q) in t.rows :: q in JoinersOf(log)
    requires e.Joined? && e.participant !in JoinersOf(log) && periods <= periods' && id < |periods'|
    requires periods'[id].room == e.room && periods'[id].to.None? && periods'[id].from <= |log|
    requires At(log + [e], periods'[id].from) <= e.at
    requires t'.rows == t.rows[(id, e.participant) := Row(e.at, None)]
    ensures forall k, q | (k, q) in t'.rows :: RowHasJoin(log + [e], periods', t', k, q)
  {
    NewRowHasJoin(log, periods', t', e, id);
    forall k, q | (k, q) in t'.rows ensures RowHasJoin(log + [e], periods', t', k, q) {
      if (k, q) != (id, e.participant) {
        assert RowHasJoin(log, periods, t, k, q);
        OldRowKeepsJoin(log, periods, t, e, periods', t', k, q);
      }
    }
  }

  lemma JoinsAfterJoin(log: seq<Event>, periods: seq<Period>, t: Tables, e: Event, periods': seq<Period>, t': Tables,
                       id: nat)
    requires forall i: nat | i < |log| && log[i].Joined? :: JoinHasRow(log, periods, t, i)
    requires e.Joined? && e.participant !in JoinersOf(log) && periods <= periods' && id < |periods'|
    requires periods'[id].room == e.room && periods'[id].to.None? && periods'[id].from <= |log|
    requires At(log + [e], periods'[id].from) <= e.at
    requires t'.rows == t.rows[(id, e.participant) := Row(e.at, None)]
    ensures forall i: nat | i < |log + [e]| && (log + [e])[i].Joined? :: JoinHasRow(log + [e], periods', t', i)
  {
    NewRowHasJoin(log, periods', t', e, id);
    forall i: nat | i < |log + [e]| && (log + [e])[i].Joined? ensures JoinHasRow(log + [e], periods', t', i) {
      if i < |log| {
        assert JoinHasRow(log, periods, t, i);
        assert log[i].participant in JoinersOf(log);
        OldJoinKeepsRow(log, periods, t, e, periods', t', i);
      }
    }
  }

  lemma NewRowHasJoin(log: seq<Event>, periods': seq<Period>, t': Tables, e: Event, id: nat)
    requires e.Joined? && id < |periods'| && periods'[id].room == e.room && periods'[id].to.None?
    requires periods'[id].from <= |log| && (id, e.participant) in t'.rows
    requires t'.rows[(id, e.participant)] == Row(e.at, None)
    requires At(log + [e], periods'[id].from) <= e.at
    ensures RowHasJoin(log + [e], periods', t', id, e.participant)
    ensures JoinHasRow(log + [e], periods', t', |log|)
  {
    WhereAfter(log, e);
    assert LeftAfter(log + [e], |log|, e.participant) == None;
    assert RowRecords(log + [e], periods'[id], e.participant, t'.rows[(id, e.participant)], |log|);
  }

  lemma OldRowKeepsJoin(log: seq<Event>, periods: seq<Period>, t: Tables, e: Event, periods': seq<Period>, t': Tables,
                        id: nat, q: ParticipantId)
    requires (id, q) in t.rows && RowHasJoin(log, periods, t, id, q)
    requires (id, q) in t'.rows && t'.rows[(id, q)] == t.rows[(id, q)]
    requires id < |periods'| && periods'[id] == periods[id] && IsMaximal(log, periods[id])
    requires e.participant != q || t.rows[(id, q)].leftAt.Some?
    requires NotBefore(log, e.at)
    ensures RowHasJoin(log + [e], periods', t', id, q)
  {
    SameSession(log, e, periods[id]);
    var i: nat :| RowRecords(log, periods[id], q, t.rows[(id, q)], i);
    RowStaysRecorded(log, periods[id], e, q, t.rows[(id, q)], i);
  }

  lemma OldJoinKeepsRow(log: seq<Event>, periods: seq<Period>, t: Tables, e: Event, periods': seq<Period>, t': Tables,
                        i: nat)
    requires i < |log| && log[i].Joined? && JoinHasRow(log, periods, t, i)
    requires forall k, q | (k, q) in t.rows && q == log[i].participant ::
      && (k, q) in t'.rows && t'.rows[(k, q)] == t.rows[(k, q)]
      && (k < |periods| ==> k < |periods'| && periods'[k] == periods[k])
    requires e.participant != log[i].participant
    ensures JoinHasRow(log + [e], periods', t', i)
  {
    var q := log[i].participant;
    var k: nat :| k < |periods| && (k, q) in t.rows && RowRecords(log, periods[k], q, t.rows[(k, q)], i);
    RowStaysRecorded(log, periods[k], e, q, t.rows[(k, q)], i);
    assert (log + [e])[i] == log[i];
    assert (k, q) in t'.rows;
  }

  /** An event about someone else leaves a row's record as it is. */
  lemma RowStaysRecorded(log: seq<Event>, period: Period, e: Event, q: ParticipantId, row: Row, i: nat)
    requires RowRecords(log, period, q, row, i) && (e.participant != q || row.leftAt.Some?)
    ensures RowRecords(log + [e], period, q, row, i)
  {
    LeftAfterExtends(log, e, i, q);
    WhereAfter(log, e);
  }

  // The fault-free leave

  function CloseAt(row: Row, at: int): Row {
    if row.leftAt.None? then row.(leftAt := Some(at)) else row
  }

  /** What a leave does to one row and its period keeps the row the record of its join. */
  lemma RowAfterLeave(log: seq<Event>, e: Event, period: Period, period': Period, q: ParticipantId, row: Row, row': Row,
                      i: nat)
    requires e.Left? && NotBefore(log, e.at) && IsMaximal(log, period)
    requires RowRecords(log, period, q, row, i) && RowInside(Now(log), SessionOf(log, period), row)
    requires period' == period || (period.to.None? && period' == period.(to := Some(|log|)))
    requires row' == if q == e.participant then CloseAt(row, e.at) else row
    requires period' != period ==> row'.leftAt.Some?
    ensures RowRecords(log + [e], period', q, row', i)
    ensures RowInside(Now(log + [e]), SessionOf(log + [e], period'), row')
  {
    LeftAfterExtends(log, e, i, q);
    WhereAfter(log, e);
    SameSession(log, e, period);
  }

  /** The periods and the rows after a leave, as far as the records are concerned. */
  ghost predicate LeaveTransforms(log: seq<Event>, periods: seq<Period>, t: Tables, e: Event, periods': seq<Period>,
                                  t': Tables)
  {
    && |periods'| == |periods|
    && t'.rows.Keys == t.rows.Keys
    && (forall k | 0 <= k < |periods| ::
          periods'[k] == periods[k] || (periods[k].to.None? && periods'[k] == periods[k].(to := Some(|log|))))
    && (forall k, q | (k, q) in t.rows && k < |periods| ::
          && t'.rows[(k, q)] == (if q == e.participant then CloseAt(t.rows[(k, q)], e.at) else t.rows[(k, q)])
          && (periods'[k] != periods[k] ==> t'.rows[(k, q)].leftAt.Some?))
  }

  lemma RowsAfterLeave(log: seq<Event>, periods: seq<Period>, t: Tables, e: Event, periods': seq<Period>, t': Tables)
    requires e.Left? && NotBefore(log, e.at) && ListsPeriods(log, periods) && RowsAreJoins(log, periods, t)
    requires LeaveTransforms(log, periods, t, e, periods', t')
    ensures forall k, q | (k, q) in t'.rows :: RowHasJoin(log + [e], periods', t', k, q)
  {
    forall k, q | (k, q) in t'.rows ensures RowHasJoin(log + [e], periods', t', k, q) {
      assert RowHasJoin(log, periods, t, k, q);
      var i: nat :| RowRecords(log, periods[k], q, t.rows[(k, q)], i);
      RowAfterLeave(log, e, periods[k], periods'[k], q, t.rows[(k, q)], t'.rows[(k, q)], i);
    }
  }

  lemma JoinsAfterLeave(log: seq<Event>, periods: seq<Period>, t: Tables, e: Event, periods': seq<Period>, t': Tables)
    requires e.Left? && NotBefore(log, e.at) && ListsPeriods(log, periods) && RowsAreJoins(log, periods, t)
    requires LeaveTransforms(log, periods, t, e, periods', t')
    ensures forall i: nat | i < |log + [e]| && (log + [e])[i].Joined? :: JoinHasRow(log + [e], periods', t', i)
  {
    forall i: nat | i < |log + [e]| && (log + [e])[i].Joined? ensures JoinHasRow(log + [e], periods', t', i) {
      assert i < |log| && (log + [e])[i] == log[i];
      assert JoinHasRow(log, periods, t, i);
      var q := log[i].participant;
      var k: nat :| k < |periods| && (k, q) in t.rows && RowRecords(log, periods[k], q, t.rows[(k, q)], i);
      assert RowHasJoin(log, periods, t, k, q);
      RowAfterLeave(log, e, periods[k], periods'[k], q, t.rows[(k, q)], t'.rows[(k, q)], i);
    }
  }

  /** An open row is that of a current occupant, in the session of its live room. */
  lemma OpenRowIsCurrent(log: seq<Event>, periods: seq<Period>, r: Recorder, k: SessionId, q: ParticipantId)
    requires InStep(r) && ListsPeriods(log, periods) && Records(log, periods, r)
    requires HasOpenRow(r.tables, k, q)
    ensures q in Where(log) && Where(log)[q] in r.rooms && r.rooms[Where(log)[q]].session == k
    ensures q in r.rooms[Where(log)[q]].participants && k < |periods| && periods[k].room == Where(log)[q]
  {
    assert RowHasJoin(log, periods, r.tables, k, q);
    OnlyOneOpenPeriod(log, periods, r, periods[k].room, k);
  }

  lemma SessionsAfterLeave(log: seq<Event>, periods: seq<Period>, e: Event)
    requires ListsPeriods(log, periods)
    ensures forall i | 0 <= i < |periods| :: SessionOf(log + [e], periods[i]) == SessionOf(log, periods[i])
  {
    forall i | 0 <= i < |periods| ensures SessionOf(log + [e], periods[i]) == SessionOf(log, periods[i]) {
      SameSession(log, e, periods[i]);
    }
  }

  /** Open rows are those of occupants, each in the session of their room. */
  ghost predicate OpenRowsAreCurrent(log: seq<Event>, r: Recorder) {
    forall k, q | HasOpenRow(r.tables, k, q) ::
      && q in Where(log) && Where(log)[q] in r.rooms
      && r.rooms[Where(log)[q]].session == k && q in r.rooms[Where(log)[q]].participants
      && IsOpen(r.tables, k, Where(log)[q])
  }

  lemma RowsAreCurrent(log: seq<Event>, periods: seq<Period>, r: Recorder)
    requires InStep(r) && ListsPeriods(log, periods) && Records(log, periods, r)
    ensures OpenRowsAreCurrent(log, r)
  {
    forall k, q | HasOpenRow(r.tables, k, q)
      ensures q in Where(log) && Where(log)[q] in r.rooms && r.rooms[Where(log)[q]].session == k
      ensures q in r.rooms[Where(log)[q]].participants && IsOpen(r.tables, k, Where(log)[q])
    {
      OpenRowIsCurrent(log, periods, r, k, q);
    }
  }

  lemma StrangerTransforms(log: seq<Event>, periods: seq<Period>, r: Recorder, e: Event)
    requires OpenRowsAreCurrent(log, r) && e.Left? && e.participant !in Where(log)
    ensures LeaveTransforms(log, periods, r.tables, e, periods, r.tables)
  {
    forall k, q | (k, q) in r.tables.rows && q == e.participant ensures r.tables.rows[(k, q)].leftAt.Some? {
      assert !HasOpenRow(r.tables, k, q);
    }
  }

  lemma StrangerSessions(log: seq<Event>, periods: seq<Period>, r: Recorder, e: Event)
    requires ListsPeriods(log, periods) && SessionsArePeriods(log, periods, r.tables)
      && r.participantRooms == Where(log)
    requires e.Left? && e.participant !in Where(log)
    ensures SessionsArePeriods(log + [e], periods, r.tables) && r.participantRooms == Where(log + [e])
  {
    WhereAfter(log, e);
    assert Where(log) - {e.participant} == Where(log);
    SessionsAfterLeave(log, periods, e);
  }

  lemma StrangerLeaves(log: seq<Event>, periods: seq<Period>, r: Recorder, e: Event)
    requires InStep(r) && ListsPeriods(log, periods) && Records(log, periods, r)
    requires e.Left? && e.participant !in Where(log) && NotBefore(log, e.at)
    ensures Records(log + [e], Extend(log, periods, e), Apply(r, e, NO_FAULTS))
  {
    RowsAreCurrent(log, periods, r);
    StrangerTransforms(log, periods, r, e);
    StrangerSessions(log, periods, r, e);
    RowsAfterLeave(log, periods, r.tables, e, periods, r.tables);
    JoinsAfterLeave(log, periods, r.tables, e, periods, r.tables);
  }

  lemma LeaveWithoutFaults(r: Recorder, p: ParticipantId, at: int)
    requires p in r.participantRooms && r.participantRooms[p] in r.rooms
    requires p in r.rooms[r.participantRooms[p]].participants
    requires var id := r.rooms[r.participantRooms[p]].session;
      && IsOpen(r.tables, id, r.participantRooms[p]) && r.tables.sessions[id].startedAt <= at
      && HasOpenRow(r.tables, id, p) && r.tables.rows[(id, p)].joinedAt <= at
    ensures
      var r' := LeaveStep(r, p, at, NO_FAULTS);
      var room := r.participantRooms[p];
      var id := r.rooms[room].session;
      && r'.participantRooms == r.participantRooms - {p}
      && r'.tables.rows == r.tables.rows[(id, p) := CloseAt(r.tables.rows[(id, p)], at)]
      && r'.tables.sessions ==
           (if r.rooms[room].participants == {p}
            then r.tables.sessions[id := r.tables.sessions[id].(endedAt := Some(at))]
            else r.tables.sessions)
  {
    var room := r.participantRooms[p];
    assert r.rooms[room].participants - {p} == {} <==> r.rooms[room].participants <= {p};
  }

  lemma RoomEmpties(log: seq<Event>, r: Recorder, e: Event)
    requires InStep(r) && r.participantRooms == Where(log) && e.Left? && e.participant in Where(log)
    ensures var room := Where(log)[e.participant];
      room in r.rooms && (Occupied(log + [e], room) <==> r.rooms[room].participants != {e.participant})
  {
    var room := Where(log)[e.participant];
    WhereAfter(log, e);
    if r.rooms[room].participants != {e.participant} {
      var q :| q in r.rooms[room].participants && q != e.participant;
      assert q in Where(log + [e]) && Where(log + [e])[q] == room;
    }
  }

  lemma OnlyOneOpenPeriod(log: seq<Event>, periods: seq<Period>, r: Recorder, room: RoomId, k: nat)
    requires InStep(r) && ListsPeriods(log, periods) && Records(log, periods, r)
    requires k < |periods| && periods[k].room == room && periods[k].to.None?
    ensures room in r.rooms && k == r.rooms[room].session
  {
    assert IsOpen(r.tables, k, room);
    OpenSessionsAreLive(log, periods, r, k, room);
  }

  lemma MemberLeavesPeriods(log: seq<Event>, periods: seq<Period>, e: Event, room: RoomId, id: nat)
    requires e.Left? && e.participant in Where(log) && Where(log)[e.participant] == room
    requires id < |periods| && periods[id].room == room && periods[id].to.None?
    requires forall k | 0 <= k < |periods| && periods[k].room == room && periods[k].to.None? :: k == id
    ensures Extend(log, periods, e) ==
      if Occupied(log + [e], room) then periods else periods[id := periods[id].(to := Some(|log|))]
  {}

  /** The session and the row that a leave closes. */
  lemma LeaveTargets(log: seq<Event>, periods: seq<Period>, r: Recorder, e: Event)
    requires InStep(r) && ListsPeriods(log, periods) && Records(log, periods, r)
    requires e.Left? && e.participant in Where(log) && NotBefore(log, e.at)
    ensures var p := e.participant; var room := Where(log)[p];
      && room in r.rooms && p in r.rooms[room].participants
      && var id := r.rooms[room].session;
      && id < |periods| && periods[id].room == room && periods[id].to.None?
      && IsOpen(r.tables, id, room) && r.tables.sessions[id].startedAt <= e.at
      && HasOpenRow(r.tables, id, p) && r.tables.rows[(id, p)].joinedAt <= e.at
      && (forall k | 0 <= k < |periods| && periods[k].room == room && periods[k].to.None? :: k == id)
  {
    var p := e.participant;
    var room := Where(log)[p];
    var id := r.rooms[room].session;
    assert IsOpen(r.tables, id, room) && HasOpenRow(r.tables, id, p);
    OpenSessionsAreLive(log, periods, r, id, room);
    assert RowHasJoin(log, periods, r.tables, id, p);
    forall k: nat | k < |periods| && periods[k].room == room && periods[k].to.None? ensures k == id {
      OnlyOneOpenPeriod(log, periods, r, room, k);
    }
  }

  lemma MemberTransforms(log: seq<Event>, periods: seq<Period>, r: Recorder, e: Event, periods': seq<Period>,
                         t': Tables, room: RoomId, id: nat, empties: bool)
    requires OpenRowsAreCurrent(log, r) && e.Left? && e.participant in Where(log) && Where(log)[e.participant] == room
    requires room in r.rooms && r.rooms[room].session == id && id < |periods| && periods[id].to.None?
    requires IsOpen(r.tables, id, room)
    requires empties <==> r.rooms[room].participants == {e.participant}
    requires periods' == if empties then periods[id := periods[id].(to := Some(|log|))] else periods
    requires HasOpenRow(r.tables, id, e.participant)
    requires t'.rows == r.tables.rows[(id, e.participant) := CloseAt(r.tables.rows[(id, e.participant)], e.at)]
    requires forall q | q in Where(log) && Where(log)[q] == room :: q in r.rooms[room].participants
    ensures LeaveTransforms(log, periods, r.tables, e, periods', t')
  {
    forall k, q | (k, q) in r.tables.rows && k < |periods|
      ensures t'.rows[(k, q)] ==
        (if q == e.participant then CloseAt(r.tables.rows[(k, q)], e.at) else r.tables.rows[(k, q)])
      ensures periods'[k] != periods[k] ==> t'.rows[(k, q)].leftAt.Some?
    {
      if r.tables.rows[(k, q)].leftAt.None? {
        assert HasOpenRow(r.tables, k, q);
      }
    }
  }

  lemma SessionsOfLeave(log: seq<Event>, periods: seq<Period>, t: Tables, e: Event, periods': seq<Period>, t': Tables,
                        id: nat, empties: bool)
    requires ListsPeriods(log, periods) && SessionsArePeriods(log, periods, t)
    requires id < |periods| && periods[id].to.None?
    requires periods' == if empties then periods[id := periods[id].(to := Some(|log|))] else periods
    requires t'.sessions == if empties then t.sessions[id := t.sessions[id].(endedAt := Some(e.at))] else t.sessions
    ensures SessionsArePeriods(log + [e], periods', t')
  {
    SessionsAfterLeave(log, periods, e);
  }

  lemma MemberLeavesTables(log: seq<Event>, periods: seq<Period>, r: Recorder, e: Event)
    requires InStep(r) && ListsPeriods(log, periods) && Records(log, periods, r)
    requires e.Left? && e.participant in Where(log) && NotBefore(log, e.at)
    ensures var periods' := Extend(log, periods, e); var r' := Apply(r, e, NO_FAULTS);
      && r'.participantRooms == Where(log + [e])
      && SessionsArePeriods(log + [e], periods', r'.tables)
  {
    var room := Where(log)[e.participant];
    LeaveTargets(log, periods, r, e);
    LeaveWithoutFaults(r, e.participant, e.at);
    RoomEmpties(log, r, e);
    MemberLeavesPeriods(log, periods, e, room, r.rooms[room].session);
    WhereAfter(log, e);
    SessionsOfLeave(log, periods, r.tables, e, Extend(log, periods, e), Apply(r, e, NO_FAULTS).tables,
                    r.rooms[room].session, !Occupied(log + [e], room));
  }

  lemma MemberLeavesRows(log: seq<Event>, periods: seq<Period>, r: Recorder, e: Event)
    requires InStep(r) && ListsPeriods(log, periods) && Records(log, periods, r)
    requires e.Left? && e.participant in Where(log) && NotBefore(log, e.at)
    ensures LeaveTransforms(log, periods, r.tables, e, Extend(log, periods, e), Apply(r, e, NO_FAULTS).tables)
  {
    var room := Where(log)[e.participant];
    var id := r.rooms[room].session;
    LeaveTargets(log, periods, r, e);
    LeaveWithoutFaults(r, e.participant, e.at);
    RoomEmpties(log, r, e);
    MemberLeavesPeriods(log, periods, e, room, id);
    RowsAreCurrent(log, periods, r);
    MemberTransforms(log, periods, r, e, Extend(log, periods, e), Apply(r, e, NO_FAULTS).tables, room, id,
                     !Occupied(log + [e], room));
  }

  lemma MemberLeaves(log: seq<Event>, periods: seq<Period>, r: Recorder, e: Event)
    requires InStep(r) && ListsPeriods(log, periods) && Records(log, periods, r)
    requires e.Left? && e.participant in Where(log) && NotBefore(log, e.at)
    ensures Records(log + [e], Extend(log, periods, e), Apply(r, e, NO_FAULTS))
  {
    var periods', t' := Extend(log, periods, e), Apply(r, e, NO_FAULTS).tables;
    MemberLeavesTables(log, periods, r, e);
    MemberLeavesRows(log, periods, r, e);
    RowsAfterLeave(log, periods, r.tables, e, periods', t');
    JoinsAfterLeave(log, periods, r.tables, e, periods', t');
  }

  function NoFaults(n: nat): (faults: seq<Faults>)
    ensures |faults| == n
  {
    seq(n, _ => NO_FAULTS)
  }

  ghost function RecordedBy(log: seq<Event>): Recorder {
    ApplyAll(Recorder(map[], map[], Tables([], map[])), log, NoFaults(|log|))
  }

  lemma RecordedByLast(log: seq<Event>)
    requires log != []
    ensures RecordedBy(log) == Apply(RecordedBy(log[..|log| - 1]), log[|log| - 1], NO_FAULTS)
  {
    assert NoFaults(|log|)[..|log| - 1] == NoFaults(|log| - 1);
  }

  /** When no statement fails, the sessions of the tables are exactly the maximal stretches of the log in which
      their room is occupied, in order, and the rows are exactly the joins, each with its first leave. */
  lemma {:induction false} TablesAreOccupiedPeriods(log: seq<Event>) returns (periods: seq<Period>)
    requires JoinsOnce(log) && TimesDoNotDecrease(log)
    ensures ListsPeriods(log, periods) && Records(log, periods, RecordedBy(log))
    decreases |log|
  {
    if log == [] {
      periods := [];
      return;
    }
    var before, e := log[..|log| - 1], log[|log| - 1];
    assert before + [e] == log;
    var earlier := TablesAreOccupiedPeriods(before);
    FaultsNeverPutOutOfStep(Tables([], map[]), before, NoFaults(|before|), {});
    RecordedByLast(log);
    periods := Extend(before, earlier, e);
    NextIsRecorded(before, earlier, RecordedBy(before), e);
  }

  lemma NextIsRecorded(log: seq<Event>, periods: seq<Period>, r: Recorder, e: Event)
    requires InStep(r) && RowsWithin(r, {} + JoinersOf(log)) && ListsPeriods(log, periods) && Records(log, periods, r)
    requires JoinsOnce(log + [e]) && TimesDoNotDecrease(log + [e])
    ensures ListsPeriods(log + [e], Extend(log, periods, e))
      && Records(log + [e], Extend(log, periods, e), Apply(r, e, NO_FAULTS))
  {
    assert {} + JoinersOf(log) == JoinersOf(log);
    assert NotBefore(log, e.at) by {
      forall i | 0 <= i < |log| ensures log[i].at <= e.at {
        assert (log + [e])[i].at <= (log + [e])[|log|].at;
      }
    }
    if e.Joined? {
      assert e.participant !in JoinersOf(log) by {
        forall i | 0 <= i < |log| && log[i].Joined? ensures log[i].participant != e.participant {
          assert (log + [e])[i].participant != (log + [e])[|log|].participant;
        }
      }
      JoinRecordsSessions(log, periods, r, e);
      JoinRecordsRows(log, periods, r, e);
    } else if e.participant in Where(log) {
      MemberLeaves(log, periods, r, e);
    } else {
      StrangerLeaves(log, periods, r, e);
    }
    ExtendListsPeriods(log, periods, e);
  }

  /** The sessions of a room follow each other: an earlier one has ended by the time a later one starts. */
  lemma SessionsOfARoomAreDisjoint(log: seq<Event>, i: nat, j: nat)
    requires JoinsOnce(log) && TimesDoNotDecrease(log)
    requires var sessions := RecordedBy(log).tables.sessions; i < j < |sessions| && sessions[i].room == sessions[j].room
    ensures var sessions := RecordedBy(log).tables.sessions;
      sessions[i].endedAt.Some? && sessions[i].startedAt <= sessions[i].endedAt.value <= sessions[j].startedAt
  {
    var periods := TablesAreOccupiedPeriods(log);
    var first, second := periods[i], periods[j];
    assert IsMaximal(log, first) && IsMaximal(log, second) && first.from < second.from;
    assert !Occupied(log[..second.from], first.room);
  }

  /** A connection joins once, so two rows of it record the same join and hold the same times. */
  lemma RowsOfOneJoinAgree(log: seq<Event>, periods: seq<Period>, t: Tables, id: SessionId, other: SessionId,
                           p: ParticipantId)
    requires JoinsOnce(log) && (id, p) in t.rows && (other, p) in t.rows
    requires RowHasJoin(log, periods, t, id, p) && RowHasJoin(log, periods, t, other, p)
    ensures t.rows[(id, p)] == t.rows[(other, p)]
  {
    var i: nat :| RowRecords(log, periods[id], p, t.rows[(id, p)], i);
    var j: nat :| RowRecords(log, periods[other], p, t.rows[(other, p)], j);
    assert i == j;
  }

  lemma ClosedRowMeansGone(log: seq<Event>, periods: seq<Period>, r: Recorder, id: SessionId, p: ParticipantId)
    requires MapsAreInverse(r) && RowsAreOpen(r) && r.participantRooms == Where(log) && JoinsOnce(log)
    requires forall k, q | (k, q) in r.tables.rows :: RowHasJoin(log, periods, r.tables, k, q)
    requires (id, p) in r.tables.rows && r.tables.rows[(id, p)].leftAt.Some?
    ensures p !in Where(log)
  {
    if p in Where(log) {
      var live := r.rooms[Where(log)[p]].session;
      assert HasOpenRow(r.tables, live, p);
      RowsOfOneJoinAgree(log, periods, r.tables, id, live, p);
    }
  }

  ghost predicate RowMatches(log: seq<Event>, t: Tables, id: SessionId, p: ParticipantId)
    requires (id, p) in t.rows
  {
    var row := t.rows[(id, p)];
    && id < |t.sessions|
    && RowInside(Now(log), t.sessions[id], row)
    && (row.leftAt.None? <==> p in Where(log))
    && (row.leftAt.None? ==> IsOpen(t, id, Where(log)[p]))
  }

  /** Every row lies inside its session, and the open rows are exactly the current occupants, in the open
      session of the room they are in. */
  lemma RowsMatchOccupancy(log: seq<Event>, id: SessionId, p: ParticipantId)
    requires JoinsOnce(log) && TimesDoNotDecrease(log)
    requires (id, p) in RecordedBy(log).tables.rows
    ensures RowMatches(log, RecordedBy(log).tables, id, p)
  {
    var r := RecordedBy(log);
    var periods := TablesAreOccupiedPeriods(log);
    FaultsNeverPutOutOfStep(Tables([], map[]), log, NoFaults(|log|), {});
    assert RowHasJoin(log, periods, r.tables, id, p);
    if HasOpenRow(r.tables, id, p) {
      OpenRowIsCurrent(log, periods, r, id, p);
    } else {
      ClosedRowMeansGone(log, periods, r, id, p);
    }
  }

  /** Whoever is in a room has exactly one open row, in that room's one open session; nobody else has any. */
  lemma OpenRowsAreOccupants(log: seq<Event>, p: ParticipantId)
    requires JoinsOnce(log) && TimesDoNotDecrease(log)
    ensures p in Where(log) <==> exists id: nat :: HasOpenRow(RecordedBy(log).tables, id, p)
    ensures forall id: nat, other: nat |
      HasOpenRow(RecordedBy(log).tables, id, p) && HasOpenRow(RecordedBy(log).tables, other, p) :: id == other
    ensures forall id: nat | HasOpenRow(RecordedBy(log).tables, id, p) ::
      p in Where(log) && IsOpen(RecordedBy(log).tables, id, Where(log)[p])
  {
    var r := RecordedBy(log);
    var periods := TablesAreOccupiedPeriods(log);
    FaultsNeverPutOutOfStep(Tables([], map[]), log, NoFaults(|log|), {});
    if p in Where(log) {
      assert HasOpenRow(r.tables, r.rooms[Where(log)[p]].session, p);
    }
    forall id: nat | HasOpenRow(r.tables, id, p)
      ensures p in Where(log) && id == r.rooms[Where(log)[p]].session && IsOpen(r.tables, id, Where(log)[p])
    {
      OpenRowIsCurrent(log, periods, r, id, p);
    }
  }

  // ---------------------------------------------------------------------------------------------------
  // The worker

  /** The connection to the two tables; each method is one statement. */
  class MeetingTables {
    var sessions: seq<Session>
    var rows: map<(SessionId, ParticipantId), Row>

    constructor (stored: Tables)
      ensures View() == stored
    {
      sessions, rows := stored.sessions, stored.rows;
    }

    function View(): Tables
      reads this
    {
      Tables(sessions, rows)
    }

    method Apply(after: Tables, legal: bool, outcome: Outcome) returns (ok: bool)
      modifies this
      ensures View() == Execute(old(View()), after, legal, outcome)
      ensures ok == (legal && outcome.Done?)
    {
      if legal && !outcome.Failed? {
        sessions, rows := after.sessions, after.rows;
      }
      ok := legal && outcome.Done?;
    }

    /** On success no session of the room is open and the others are as they were. The caller learns of success only
        when the reply arrives; a statement that fails, or that would end a session before it started,
        changes nothing. */
    method EndOpenSessions(room: RoomId, at: int, outcome: Outcome) returns (ok: bool)
      modifies this
      ensures ok <==> outcome.Done? && MayEndOpen(old(View()), room, at)
      ensures ok ==> MayOpen(View(), room)
      ensures if outcome.Failed? || !MayEndOpen(old(View()), room, at) then View() == old(View())
              else Ended(old(View()), View(), room, at)
    {
      ok := Apply(View().(sessions := EndOpen(sessions, room, at)), MayEndOpen(View(), room, at), outcome);
    }

    /** On success the new id is the one open session of the room, started now, and the others are as they were. A
        statement that fails, or that would open a second session, changes nothing. */
    method InsertSession(room: RoomId, at: int, outcome: Outcome) returns (id: SessionId, ok: bool)
      modifies this
      ensures ok <==> outcome.Done? && MayOpen(old(View()), room)
      ensures ok ==> forall k: nat :: IsOpen(View(), k, room) <==> k == id
      ensures id == |old(View()).sessions|
      ensures if outcome.Failed? || !MayOpen(old(View()), room) then View() == old(View())
              else Inserted(old(View()), View(), room, at)
    {
      id := |sessions|;
      ghost var before := View();
      ok := Apply(View().(sessions := sessions + [Session(room, at, None)]), MayOpen(View(), room), outcome);
      if ok {
        forall k: nat ensures IsOpen(View(), k, room) <==> k == id {
          if k < id { assert !IsOpen(before, k, room); }
        }
      }
    }
  }

  /** The open sessions of the room have ended at `at`; nothing else has changed. */
  ghost predicate Ended(before: Tables, after: Tables, room: RoomId, at: int) {
    && after.rows == before.rows && |after.sessions| == |before.sessions|
    && forall id: nat | id < |before.sessions| ::
         after.sessions[id] ==
           if IsOpen(before, id, room) then before.sessions[id].(endedAt := Some(at)) else before.sessions[id]
  }

  /** One more session has been added, open and of the room; nothing else has changed. */
  ghost predicate Inserted(before: Tables, after: Tables, room: RoomId, at: int) {
    && after.rows == before.rows && |after.sessions| == |before.sessions| + 1
    && (forall id: nat | id < |before.sessions| :: after.sessions[id] == before.sessions[id])
    && after.sessions[|before.sessions|] == Session(room, at, None)
  }

  lemma EndedIsTheStatement(before: Tables, after: Tables, room: RoomId, at: int)
    requires Ended(before, after, room, at)
    ensures after == before.(sessions := EndOpen(before.sessions, room, at))
  {
    assert after.sessions == EndOpen(before.sessions, room, at);
  }

  lemma InsertedIsTheStatement(before: Tables, after: Tables, room: RoomId, at: int)
    requires Inserted(before, after, room, at)
    ensures after == before.(sessions := before.sessions + [Session(room, at, None)])
  {
    assert after.sessions == before.sessions + [Session(room, at, None)];
  }

  /** `LiveMeetings` and the loop of `run_recorder`. */
  class Worker {
    var rooms: map<RoomId, LiveMeeting>
    var participantRooms: map<ParticipantId, RoomId>
    const tables: MeetingTables

    constructor (tables: MeetingTables)
      ensures this.tables == tables && View() == Recorder(map[], map[], tables.View())
    {
      this.tables := tables;
      rooms, participantRooms := map[], map[];
    }

    function View(): Recorder
      reads this, tables
    {
      Recorder(rooms, participantRooms, tables.View())
    }

    /** Makes the room live unless it is. */
    method StartLiveMeeting(room: RoomId, at: int, f: Faults) returns (ok: bool)
      modifies this`rooms, tables
      ensures (View(), ok) == StartMeeting(old(View()), room, at, f)
    {
      if room in rooms {
        return true;
      }
      ghost var before := tables.View();
      var closed := tables.EndOpenSessions(room, at, f.close);
      ghost var ended := tables.View();
      if Ended(before, ended, room, at) { EndedIsTheStatement(before, ended, room, at); }
      if !closed { return false; }
      var id, inserted := tables.InsertSession(room, at, f.insert);
      if Inserted(ended, tables.View(), room, at) { InsertedIsTheStatement(ended, tables.View(), room, at); }
      if !inserted { return false; }
      rooms := rooms[room := LiveMeeting(id, {})];
      return true;
    }

    method RecordJoin(room: RoomId, p: ParticipantId, at: int, f: Faults)
      modifies this, tables
      ensures View() == JoinStep(old(View()), room, p, at, f)
    {
      if !f.connected {
        return;
      }
      var live := StartLiveMeeting(room, at, f);
      if !live { return; }
      var meeting := rooms[room];
      var inserted := tables.Apply(InsertRow(tables.View(), meeting.session, p, at), true, f.row);
      if !inserted {
        if meeting.participants == {} {
          rooms := rooms - {room};
          var _ := tables.Apply(EndOne(tables.View(), meeting.session, at), MayEnd(tables.View(), meeting.session, at),
                                f.compensate);
        }
        return;
      }
      rooms := rooms[room := meeting.(participants := meeting.participants + {p})];
      participantRooms := participantRooms[p := room];
    }

    method RecordLeave(p: ParticipantId, at: int, f: Faults)
      modifies this, tables
      ensures View() == LeaveStep(old(View()), p, at, f)
    {
      if p !in participantRooms { return; }
      var room := participantRooms[p];
      participantRooms := participantRooms - {p};
      if room !in rooms { return; }
      var meeting := rooms[room].(participants := rooms[room].participants - {p});
      var ended := meeting.participants == {};
      rooms := if ended then rooms - {room} else rooms[room := meeting];
      if !f.connected { return; }
      var left := tables.Apply(CloseRow(tables.View(), meeting.session, p, at),
                               MayCloseRow(tables.View(), meeting.session, p, at), f.row);
      if left && ended {
        var _ := tables.Apply(EndOneIfOpen(tables.View(), meeting.session, at),
                              MayEnd(tables.View(), meeting.session, at), f.close);
      }
    }

    /** From an empty memory and any tables, after every event memory and tables are in step. */
    method RunRecorder(log: seq<Event>, faults: seq<Faults>, ghost earlier: set<ParticipantId>)
      requires |faults| == |log| && View() == Recorder(map[], map[], tables.View())
      requires JoinsOnce(log) && JoinersOf(log) !! earlier
      requires forall id, p | (id, p) in tables.rows :: p in earlier
      modifies this, tables
      ensures View() == ApplyAll(Recorder(map[], map[], old(tables.View())), log, faults)
      ensures InStep(View())
    {
      ghost var start := View();
      FaultsNeverPutOutOfStep(start.tables, [], [], earlier);
      for i := 0 to |log|
        invariant View() == ApplyAll(start, log[..i], faults[..i])
        invariant InStep(View())
      {
        assert log[..i + 1][..i] == log[..i] && faults[..i + 1][..i] == faults[..i];
        match log[i] {
          case Joined(room, p, at) => RecordJoin(room, p, at, faults[i]);
          case Left(p, at) => RecordLeave(p, at, faults[i]);
        }
        PrefixJoinsOnce(log, i + 1, earlier);
        FaultsNeverPutOutOfStep(start.tables, log[..i + 1], faults[..i + 1], earlier);
      }
      assert log[..|log|] == log && faults[..|log|] == faults;
    }
  }

  lemma PrefixJoinsOnce(log: seq<Event>, n: nat, earlier: set<ParticipantId>)
    requires n <= |log| && JoinsOnce(log) && JoinersOf(log) !! earlier
    ensures JoinsOnce(log[..n]) && JoinersOf(log[..n]) !! earlier
  {
    forall p | p in JoinersOf(log[..n]) ensures p in JoinersOf(log) {
      var i :| 0 <= i < n && log[..n][i].Joined? && log[..n][i].participant == p;
      assert log[i] == log[..n][i];
    }
  }
}
