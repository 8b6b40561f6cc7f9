/** What the recorder's failures can and cannot do to the tables: exactly which failures leave a session open that no
    live room has, and what stays as it was whatever fails. */
module MeetingFaults {
  import opened Identifiers
  import opened MeetingRecorder

  // ---------------------------------------------------------------------------------------------------
  // A join that could not record its participant

  /** When the first participant of a meeting cannot be recorded, the session that was opened for them ends at once:
      nothing of the room stays live or open. */
  lemma FailedJoinLeavesNothingOpen(r: Recorder, room: RoomId, p: ParticipantId, at: int, f: Faults)
    requires room !in r.rooms && MayEndOpen(r.tables, room, at)
    requires f.connected && f.close.Done? && f.insert.Done? && !f.row.Done? && !f.compensate.Failed?
    ensures var after := JoinStep(r, room, p, at, f);
      && after.rooms == r.rooms && after.participantRooms == r.participantRooms
      && MayOpen(after.tables, room)
      && |after.tables.sessions| == |r.tables.sessions| + 1
      && after.tables.sessions[|r.tables.sessions|] == Session(room, at, Some(at))
  {
    forall id: nat ensures !IsOpen(JoinStep(r, room, p, at, f).tables, id, room) {
      OpenAfterStart(r.tables, room, at, id, room);
    }
    OpenAfterStart(r.tables, room, at, 0, room);
    assert forall id: nat :: !IsOpen(r.tables.(sessions := EndOpen(r.tables.sessions, room, at)), id, room);
  }

  // ---------------------------------------------------------------------------------------------------
  // Exactly which failures leave a session open

  /** Every open session is that of a live room. */
  ghost predicate NoStrays(r: Recorder) {
    forall id: nat, room | IsOpen(r.tables, id, room) :: room in r.rooms
  }

  /** The failures that leave the room's session open behind: the insert takes effect unseen, or neither the first
      participant nor the compensation is written; or the last participant's leave cannot write its two updates. */
  predicate LeavesOpen(r: Recorder, e: Event, f: Faults) {
    match e
    case Joined(room, _, _) =>
      f.connected && room !in r.rooms && f.close.Done?
      && (f.insert.ReplyLost? || (f.insert.Done? && !f.row.Done? && f.compensate.Failed?))
    case Left(p, _) =>
      p in r.participantRooms && r.participantRooms[p] in r.rooms && r.rooms[r.participantRooms[p]].participants == {p}
      && (!f.connected || !f.row.Done? || f.close.Failed?)
  }

  /** What is live started, and its people joined, no later than `at`. */
  ghost predicate StartedBy(r: Recorder, at: int) {
    forall room | room in r.rooms ::
      && r.rooms[room].session < |r.tables.sessions| && r.tables.sessions[r.rooms[room].session].startedAt <= at
      && forall p | p in r.rooms[room].participants ::
           (r.rooms[room].session, p) in r.tables.rows && r.tables.rows[(r.rooms[room].session, p)].joinedAt <= at
  }

  lemma NothingToEnd(t: Tables, room: RoomId, at: int)
    requires MayOpen(t, room)
    ensures MayEndOpen(t, room, at) && EndOpen(t.sessions, room, at) == t.sessions
  {}

  /** The sessions, and whether the room is live, after the first join of a room that has nothing open. */
  lemma FirstJoin(r: Recorder, room: RoomId, p: ParticipantId, at: int, f: Faults)
    requires f.connected && room !in r.rooms && MayOpen(r.tables, room)
    ensures var after := JoinStep(r, room, p, at, f);
      var begun := f.close.Done? && !f.insert.Failed?;
      var undone := f.insert.Done? && !f.row.Done? && !f.compensate.Failed?;
      && after.tables.sessions ==
           r.tables.sessions + (if begun then [Session(room, at, if undone then Some(at) else None)] else [])
      && after.rooms.Keys ==
           r.rooms.Keys + (if f.close.Done? && f.insert.Done? && f.row.Done? then {room} else {})
  {
    NothingToEnd(r.tables, room, at);
    var (started, ok) := StartMeeting(r, room, at, f);
    if ok {
      var n := |r.tables.sessions|;
      assert started.tables.sessions == r.tables.sessions + [Session(room, at, None)];
      assert started.tables.sessions[n := Session(room, at, Some(at))] ==
        r.tables.sessions + [Session(room, at, Some(at))];
    }
  }

  lemma OneMoreSession(t: Tables, session: Session, t': Tables, id: nat, other: RoomId)
    requires t'.sessions == t.sessions + [session]
    ensures IsOpen(t', id, other) <==>
      IsOpen(t, id, other) || (id == |t.sessions| && session.room == other && session.endedAt.None?)
  {}

  lemma FirstJoinLeavesOpenExactly(r: Recorder, room: RoomId, p: ParticipantId, at: int, f: Faults)
    requires f.connected && room !in r.rooms && NoStrays(r)
    ensures NoStrays(JoinStep(r, room, p, at, f)) <==> !LeavesOpen(r, Joined(room, p, at), f)
  {
    var r' := JoinStep(r, room, p, at, f);
    FirstJoin(r, room, p, at, f);
    if f.close.Done? && !f.insert.Failed? {
      var n := |r.tables.sessions|;
      forall id: nat, other
        ensures IsOpen(r'.tables, id, other) <==>
          IsOpen(r.tables, id, other) || (id == n && r'.tables.sessions[n].room == other
                                          && r'.tables.sessions[n].endedAt.None?)
      {
        OneMoreSession(r.tables, r'.tables.sessions[n], r'.tables, id, other);
      }
      assert r'.tables.sessions[n].endedAt.None? ==> IsOpen(r'.tables, n, room);
    } else {
      assert r'.tables.sessions == r.tables.sessions;
    }
  }

  lemma JoinLeavesOpenExactly(r: Recorder, room: RoomId, p: ParticipantId, at: int, f: Faults)
    requires InStep(r) && NoStrays(r)
    ensures NoStrays(JoinStep(r, room, p, at, f)) <==> !LeavesOpen(r, Joined(room, p, at), f)
  {
    if f.connected && room !in r.rooms {
      FirstJoinLeavesOpenExactly(r, room, p, at, f);
    } else if f.connected {
      assert r.rooms[room].participants != {};
      var r' := JoinStep(r, room, p, at, f);
      assert r'.tables.sessions == r.tables.sessions && r'.rooms.Keys == r.rooms.Keys;
      assert forall id: nat, other :: IsOpen(r'.tables, id, other) == IsOpen(r.tables, id, other);
    }
  }

  lemma LeaveLeavesOpenExactly(r: Recorder, p: ParticipantId, at: int, f: Faults)
    requires InStep(r) && NoStrays(r) && StartedBy(r, at)
    ensures NoStrays(LeaveStep(r, p, at, f)) <==> !LeavesOpen(r, Left(p, at), f)
  {
    if p in r.participantRooms {
      var room := r.participantRooms[p];
      var id := r.rooms[room].session;
      assert IsOpen(r.tables, id, room);
      var r' := LeaveStep(r, p, at, f);
      assert forall other: nat, q | other != id && IsOpen(r'.tables, other, q) :: IsOpen(r.tables, other, q);
      assert forall q | IsOpen(r'.tables, id, q) :: q == room;
      assert LeavesOpen(r, Left(p, at), f) ==> IsOpen(r'.tables, id, room) && room !in r'.rooms;
    }
  }

  // ---------------------------------------------------------------------------------------------------
  // What stays as it was, whatever fails

  /** A session stays as it is, or it was open and ends at `at`. */
  predicate SessionGoesOn(before: Session, after: Session, at: int) {
    after == before || (before.endedAt.None? && after == before.(endedAt := Some(at)))
  }

  predicate RowGoesOn(before: Row, after: Row, at: int) {
    after == before || (before.leftAt.None? && after == before.(leftAt := Some(at)))
  }

  /** Sessions and rows are only added and only end, once and at the time of an event: at most one session is added,
      of the room joined, and at most one row, of the connection that joins; a row ends by its connection's leave. */
  ghost predicate OnlyGrows(t: Tables, t': Tables, e: Event) {
    && |t.sessions| <= |t'.sessions| <= |t.sessions| + 1
    && (forall id: nat | id < |t.sessions| :: SessionGoesOn(t.sessions[id], t'.sessions[id], e.at))
    && (|t'.sessions| > |t.sessions| ==>
          e.Joined? && SessionGoesOn(Session(e.room, e.at, None), t'.sessions[|t.sessions|], e.at))
    && (forall id, p | (id, p) in t.rows ::
          (id, p) in t'.rows && RowGoesOn(t.rows[(id, p)], t'.rows[(id, p)], e.at)
          && (t'.rows[(id, p)] != t.rows[(id, p)] ==> e.Left? && p == e.participant))
    && (forall id, p | (id, p) in t'.rows && (id, p) !in t.rows ::
          e.Joined? && p == e.participant && t'.rows[(id, p)] == Row(e.at, None))
  }

  lemma StartOnlyGrows(r: Recorder, room: RoomId, p: ParticipantId, at: int, f: Faults)
    requires room !in r.rooms
    ensures var t' := StartMeeting(r, room, at, f).0.tables;
      OnlyGrows(r.tables, t', Joined(room, p, at)) && t'.rows == r.tables.rows
    ensures StartMeeting(r, room, at, f).1 ==>
      var (started, _) := StartMeeting(r, room, at, f);
      && started.rooms[room] == LiveMeeting(|r.tables.sessions|, {})
      && |started.tables.sessions| == |r.tables.sessions| + 1
      && started.tables.sessions[|r.tables.sessions|] == Session(room, at, None)
  {}

  lemma AddOnlyGrows(r: Recorder, room: RoomId, p: ParticipantId, at: int, f: Faults)
    requires room in r.rooms
    requires r.rooms[room].participants == {} ==> IsOpen(r.tables, r.rooms[room].session, room)
    ensures OnlyGrows(r.tables, AddParticipant(r, room, p, at, f).tables, Joined(room, p, at))
    ensures |AddParticipant(r, room, p, at, f).tables.sessions| == |r.tables.sessions|
  {}

  lemma GrowsTwice(t: Tables, t1: Tables, t2: Tables, e: Event)
    requires OnlyGrows(t, t1, e) && OnlyGrows(t1, t2, e) && |t2.sessions| == |t1.sessions| && e.Joined?
    ensures OnlyGrows(t, t2, e)
  {}

  lemma JoinOnlyGrows(r: Recorder, room: RoomId, p: ParticipantId, at: int, f: Faults)
    requires InStep(r)
    ensures OnlyGrows(r.tables, JoinStep(r, room, p, at, f).tables, Joined(room, p, at))
  {
    if f.connected {
      if room in r.rooms {
        AddOnlyGrows(r, room, p, at, f);
      } else {
        StartOnlyGrows(r, room, p, at, f);
        var (started, ok) := StartMeeting(r, room, at, f);
        if ok {
          AddOnlyGrows(started, room, p, at, f);
          GrowsTwice(r.tables, started.tables, JoinStep(r, room, p, at, f).tables, Joined(room, p, at));
        }
      }
    }
  }

  lemma ClosingOnlyGrows(t: Tables, id: SessionId, p: ParticipantId, at: int)
    ensures OnlyGrows(t, CloseRow(t, id, p, at), Left(p, at)) && CloseRow(t, id, p, at).sessions == t.sessions
    ensures OnlyGrows(t, EndOneIfOpen(t, id, at), Left(p, at)) && EndOneIfOpen(t, id, at).rows == t.rows
    ensures |EndOneIfOpen(t, id, at).sessions| == |t.sessions|
  {}

  lemma LeaveOnlyGrows(r: Recorder, p: ParticipantId, at: int, f: Faults)
    requires InStep(r)
    ensures OnlyGrows(r.tables, LeaveStep(r, p, at, f).tables, Left(p, at))
  {
    if p in r.participantRooms {
      var id := r.rooms[r.participantRooms[p]].session;
      var left := Execute(r.tables, CloseRow(r.tables, id, p, at), MayCloseRow(r.tables, id, p, at), f.row);
      ClosingOnlyGrows(r.tables, id, p, at);
      ClosingOnlyGrows(left, id, p, at);
    }
  }

  /** No failure rewrites the past: whatever fails, an event only adds to the tables and ends what was open. */
  lemma ThePastStays(r: Recorder, e: Event, f: Faults)
    requires InStep(r)
    ensures OnlyGrows(r.tables, Apply(r, e, f).tables, e)
  {
    match e
    case Joined(room, p, at) => JoinOnlyGrows(r, room, p, at, f);
    case Left(p, at) => LeaveOnlyGrows(r, p, at, f);
  }

  // ---------------------------------------------------------------------------------------------------
  // Over whole runs

  lemma StartedByLater(r: Recorder, earlier: int, at: int)
    requires StartedBy(r, earlier) && earlier <= at
    ensures StartedBy(r, at)
  {}

  lemma NextStartedBy(r: Recorder, e: Event, f: Faults, seen: set<ParticipantId>)
    requires InStep(r) && RowsWithin(r, seen) && StartedBy(r, e.at) && (e.Joined? ==> e.participant !in seen)
    ensures StartedBy(Apply(r, e, f), e.at)
  {
    ApplyKeepsInStep(r, e, f, seen);
    ThePastStays(r, e, f);
    var r' := Apply(r, e, f);
    forall room | room in r'.rooms
      ensures r'.rooms[room].session < |r'.tables.sessions|
      ensures r'.tables.sessions[r'.rooms[room].session].startedAt <= e.at
      ensures forall p | p in r'.rooms[room].participants ::
        (r'.rooms[room].session, p) in r'.tables.rows && r'.tables.rows[(r'.rooms[room].session, p)].joinedAt <= e.at
    {
      var id := r'.rooms[room].session;
      assert IsOpen(r'.tables, id, room);
      if room in r.rooms { assert IsOpen(r.tables, r.rooms[room].session, room); }
      LiveSessionKeepsPeople(r, e, f, room);
    }
  }

  /** A room that stays live keeps its session and its people, but for the one who joins; a new one has a new
      session. */
  lemma LiveSessionKeepsPeople(r: Recorder, e: Event, f: Faults, room: RoomId)
    requires InStep(r) && room in Apply(r, e, f).rooms
    ensures var m' := Apply(r, e, f).rooms[room];
      && (room in r.rooms ==> m'.session == r.rooms[room].session)
      && (room !in r.rooms ==> m'.session == |r.tables.sessions|)
      && forall p | p in m'.participants ::
           (room in r.rooms && p in r.rooms[room].participants) || (e.Joined? && p == e.participant)
  {
    match e
    case Joined(joined, p, at) => JoinKeepsPeople(r, joined, p, at, f, room);
    case Left(_, _) =>
  }

  lemma JoinKeepsPeople(r: Recorder, joined: RoomId, p: ParticipantId, at: int, f: Faults, room: RoomId)
    requires room in JoinStep(r, joined, p, at, f).rooms
    ensures var m' := JoinStep(r, joined, p, at, f).rooms[room];
      && (room in r.rooms ==> m'.session == r.rooms[room].session)
      && (room !in r.rooms ==> m'.session == |r.tables.sessions|)
      && forall q | q in m'.participants :: (room in r.rooms && q in r.rooms[room].participants) || q == p
  {
    if f.connected { StartMeetingFrame(r, joined, at, f); }
  }

  /** The log may be recorded into the tables: each connection joins once and is new to them, and times do not
      decrease. */
  ghost predicate Recordable(tables: Tables, log: seq<Event>, faults: seq<Faults>, earlier: set<ParticipantId>) {
    && |faults| == |log| && JoinsOnce(log) && JoinersOf(log) !! earlier && TimesDoNotDecrease(log)
    && forall id, p | (id, p) in tables.rows :: p in earlier
  }

  function RecordedUpTo(tables: Tables, log: seq<Event>, faults: seq<Faults>, k: nat): Recorder
    requires k <= |log| == |faults|
  {
    ApplyAll(Recorder(map[], map[], tables), log[..k], faults[..k])
  }

  lemma OneMoreEvent(tables: Tables, log: seq<Event>, faults: seq<Faults>, k: nat)
    requires k < |log| == |faults|
    ensures RecordedUpTo(tables, log, faults, k + 1) == Apply(RecordedUpTo(tables, log, faults, k), log[k], faults[k])
  {
    assert log[..k + 1][..k] == log[..k] && faults[..k + 1][..k] == faults[..k];
  }

  lemma UpToIsInStep(tables: Tables, log: seq<Event>, faults: seq<Faults>, earlier: set<ParticipantId>, k: nat)
    requires Recordable(tables, log, faults, earlier) && k <= |log|
    ensures InStep(RecordedUpTo(tables, log, faults, k))
    ensures RowsWithin(RecordedUpTo(tables, log, faults, k), earlier + JoinersOf(log[..k]))
    ensures k < |log| && log[k].Joined? ==> log[k].participant !in earlier + JoinersOf(log[..k])
  {
    PrefixJoinsOnce(log, k, earlier);
    FaultsNeverPutOutOfStep(tables, log[..k], faults[..k], earlier);
    if k < |log| && log[k].Joined? { assert log[k].participant in JoinersOf(log); }
  }

  lemma {:induction false} UpToStartedBy(tables: Tables, log: seq<Event>, faults: seq<Faults>,
                                         earlier: set<ParticipantId>, k: nat)
    requires Recordable(tables, log, faults, earlier) && k < |log|
    ensures StartedBy(RecordedUpTo(tables, log, faults, k), log[k].at)
    decreases k
  {
    if k > 0 {
      UpToStartedBy(tables, log, faults, earlier, k - 1);
      UpToIsInStep(tables, log, faults, earlier, k - 1);
      OneMoreEvent(tables, log, faults, k - 1);
      NextStartedBy(RecordedUpTo(tables, log, faults, k - 1), log[k - 1], faults[k - 1],
                    earlier + JoinersOf(log[..k - 1]));
      StartedByLater(RecordedUpTo(tables, log, faults, k), log[k - 1].at, log[k].at);
    }
  }

  ghost predicate NoStraysUpTo(tables: Tables, log: seq<Event>, faults: seq<Faults>, n: nat)
    requires n <= |log| == |faults|
  {
    forall k: nat | k <= n :: NoStrays(RecordedUpTo(tables, log, faults, k))
  }

  ghost predicate LeftOpenAt(tables: Tables, log: seq<Event>, faults: seq<Faults>, k: nat)
    requires k < |log| == |faults|
  {
    LeavesOpen(RecordedUpTo(tables, log, faults, k), log[k], faults[k])
  }

  lemma EventLeavesOpenExactly(tables: Tables, log: seq<Event>, faults: seq<Faults>, earlier: set<ParticipantId>,
                               k: nat)
    requires Recordable(tables, log, faults, earlier) && k < |log|
    requires NoStrays(RecordedUpTo(tables, log, faults, k))
    ensures NoStrays(RecordedUpTo(tables, log, faults, k + 1)) <==> !LeftOpenAt(tables, log, faults, k)
  {
    var r := RecordedUpTo(tables, log, faults, k);
    OneMoreEvent(tables, log, faults, k);
    UpToIsInStep(tables, log, faults, earlier, k);
    UpToStartedBy(tables, log, faults, earlier, k);
    match log[k]
    case Joined(room, p, at) => JoinLeavesOpenExactly(r, room, p, at, faults[k]);
    case Left(p, at) => LeaveLeavesOpenExactly(r, p, at, faults[k]);
  }

  /** Over every run from tables whose sessions have all ended: no session is ever open without its room being live
      exactly when no event met one of the failures that leave a session open. */
  lemma {:induction false} StraysComeFromFailures(tables: Tables, log: seq<Event>, faults: seq<Faults>,
                                                  earlier: set<ParticipantId>, n: nat)
    requires Recordable(tables, log, faults, earlier) && n <= |log|
    requires NoStrays(Recorder(map[], map[], tables))
    ensures NoStraysUpTo(tables, log, faults, n) <==> forall k: nat | k < n :: !LeftOpenAt(tables, log, faults, k)
    decreases n
  {
    if n > 0 {
      StraysComeFromFailures(tables, log, faults, earlier, n - 1);
      if NoStraysUpTo(tables, log, faults, n - 1) {
        EventLeavesOpenExactly(tables, log, faults, earlier, n - 1);
      }
    }
  }

  /** No insert loses its reply, compensations are written, and leaves are written in full. */
  predicate Mild(e: Event, f: Faults) {
    match e
    case Joined(_, _, _) => !f.insert.ReplyLost? && !f.compensate.Failed?
    case Left(_, _) => f.connected && f.row.Done? && !f.close.Failed?
  }

  /** In a run of mild failures the open sessions are exactly those of the live rooms, whatever participant rows could
      not be written. */
  lemma MildFailuresLeaveNothingOpen(tables: Tables, log: seq<Event>, faults: seq<Faults>, earlier: set<ParticipantId>,
                                     id: nat, room: RoomId)
    requires Recordable(tables, log, faults, earlier) && NoStrays(Recorder(map[], map[], tables))
    requires forall k | 0 <= k < |log| :: Mild(log[k], faults[k])
    ensures var r := ApplyAll(Recorder(map[], map[], tables), log, faults);
      IsOpen(r.tables, id, room) <==> room in r.rooms && r.rooms[room].session == id
  {
    StraysComeFromFailures(tables, log, faults, earlier, |log|);
    UpToIsInStep(tables, log, faults, earlier, |log|);
    assert log[..|log|] == log && faults[..|log|] == faults;
    assert NoStrays(RecordedUpTo(tables, log, faults, |log|));
  }
}
