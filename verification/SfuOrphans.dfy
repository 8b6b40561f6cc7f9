/** Objects that lost their id. Cleanup lets go of a room's lock before it deletes the id, so an occupied object can
    lose its name, and eviction and revocation, which find rooms by id, do not reach it. This module says exactly when
    they reach every object of a room. */
module SfuOrphans {
  import opened Identifiers
  import opened CallDirectory
  import opened SfuRoom
  import opened SfuRepository
  import opened SfuAccess

  /** An object that no id names and no revocation has flagged. */
  ghost predicate Orphaned(s: State, x: nat)
    requires x < |s.repo.objects|
  {
    var id := s.repo.objects[x].id;
    !s.repo.objects[x].revoked && (id in s.repo.rooms ==> s.repo.rooms[id] != x)
  }

  ghost predicate NoOrphanHolds(s: State, room: RoomId, user: UserId) {
    forall x: nat | IsObjectOf(s, x, room) && Orphaned(s, x) :: NobodyOf(s.repo.objects[x].participants, user)
  }

  ghost predicate NoUnrevokedHolds(s: State, room: RoomId, user: UserId) {
    forall x: nat | IsObjectOf(s, x, room) && !s.repo.objects[x].revoked ::
      NobodyOf(s.repo.objects[x].participants, user)
  }

  /** In every reachable state, a finished eviction has taken the user out of every object of the room that is not
      flagged by a revocation exactly when no orphan of the room holds the user. */
  lemma FinishedEvictionIsCompleteIff(s: State, t: TaskId, room: RoomId, user: UserId)
    requires Reachable(s) && t in s.tasks && s.tasks[t] == Remover(room, user, Evicted)
    ensures NoUnrevokedHolds(s, room, user) <==> NoOrphanHolds(s, room, user)
  {
    ReachableIsInv(s);
    assert TaskOk(s, t);
  }

  // ---------------------------------------------------------------------------------------------------
  // An eviction from its start to its end

  /** What the eviction of task `t` does when nothing else runs meanwhile. */
  function AfterEviction(s: State, t: TaskId): State
    requires t in s.tasks && s.tasks[t].Remover? && WellFormed(s.repo)
  {
    var Remover(room, user, _) := s.tasks[t];
    var repo :=
      if room in s.repo.rooms then
        var x := s.repo.rooms[room];
        WithParticipants(MarkDenied(s.repo, x, user), x, WithoutUser(s.repo.objects[x].participants, user))
      else s.repo;
    With(s.(repo := repo), t, Remover(room, user, Evicted))
  }

  predicate NamedRoomIsFree(s: State, room: RoomId) {
    room in s.repo.rooms ==> s.repo.rooms[room] !in s.locks
  }

  lemma UndisturbedEviction(s: State, t: TaskId)
    requires WellFormed(s.repo) && t in s.tasks && s.tasks[t].Remover? && s.tasks[t].removerAt == Denying
    requires NamedRoomIsFree(s, s.tasks[t].room)
    ensures Leads(s, t, AfterEviction(s, t))
  {
    var Remover(room, user, _) := s.tasks[t];
    if room in s.repo.rooms {
      var x := s.repo.rooms[room];
      var s1 := With(s, t, Remover(room, user, Marking(x)));
      LeadsByStep(s, t, s1);
      var s2 := With(s.(repo := MarkDenied(s.repo, x, user)), t, Remover(room, user, Finding));
      assert Next(s1, Step(t, true)) == s2;
      LeadsByStep(s1, t, s2);
      LeadsOn(s, t, s1, s2);
      EvictingLeads(s2, t, x);
      LeadsOn(s, t, s2, AfterEviction(s, t));
    } else {
      var s1 := With(s, t, Remover(room, user, Finding));
      LeadsByStep(s, t, s1);
      assert Next(s1, Step(t, true)) == AfterEviction(s, t);
      LeadsByStep(s1, t, AfterEviction(s, t));
      LeadsOn(s, t, s1, AfterEviction(s, t));
    }
  }

  lemma EvictingLeads(s: State, t: TaskId, x: nat)
    requires t in s.tasks && s.tasks[t].Remover? && s.tasks[t].removerAt == Finding
    requires Lookup(s.repo, s.tasks[t].room) == Some(x) && x < |s.repo.objects| && x !in s.locks
    ensures var rest := WithoutUser(s.repo.objects[x].participants, s.tasks[t].user);
      Leads(s, t, With(s.(repo := WithParticipants(s.repo, x, rest)), t, s.tasks[t].(removerAt := Evicted)))
  {
    var rest := WithoutUser(s.repo.objects[x].participants, s.tasks[t].user);
    var s1 := With(s, t, s.tasks[t].(removerAt := Evicting(x)));
    var s2 := With(s.(repo := WithParticipants(s.repo, x, rest)), t, s.tasks[t].(removerAt := Evicted));
    LeadsByStep(s, t, s1);
    assert Next(s1, Step(t, true)) == s2;
    LeadsByStep(s1, t, s2);
    LeadsOn(s, t, s1, s2);
  }

  /** An eviction that runs undisturbed reaches every object of the room that is not flagged exactly when, as it
      starts, no orphan of the room holds the user. */
  lemma EvictionReachesAllIff(s: State, t: TaskId)
    requires WellFormed(s.repo) && t in s.tasks && s.tasks[t].Remover? && s.tasks[t].removerAt == Denying
    requires NamedRoomIsFree(s, s.tasks[t].room)
    ensures Leads(s, t, AfterEviction(s, t))
    ensures NoUnrevokedHolds(AfterEviction(s, t), s.tasks[t].room, s.tasks[t].user) <==>
      NoOrphanHolds(s, s.tasks[t].room, s.tasks[t].user)
  {
    UndisturbedEviction(s, t);
    var room, user, s' := s.tasks[t].room, s.tasks[t].user, AfterEviction(s, t);
    if NoUnrevokedHolds(s', room, user) {
      forall x: nat | IsObjectOf(s, x, room) && Orphaned(s, x) ensures NobodyOf(s.repo.objects[x].participants, user) {
        assert IsObjectOf(s', x, room) && s'.repo.objects[x] == s.repo.objects[x];
      }
    }
    if NoOrphanHolds(s, room, user) {
      forall x: nat | IsObjectOf(s', x, room) && !s'.repo.objects[x].revoked
        ensures NobodyOf(s'.repo.objects[x].participants, user)
      {
        assert IsObjectOf(s, x, room);
        if !(room in s.repo.rooms && s.repo.rooms[room] == x) {
          assert Orphaned(s, x);
        }
      }
    }
  }

  /** Any orphan defeats eviction: whichever group member it holds may depart, and their eviction may finish, while
      they stay in the orphan. */
  lemma AnyOrphanEscapesEviction(s: State, x: nat, p: ParticipantId, user: UserId, c: ConversationId, t: TaskId)
    returns (s': State)
    requires Reachable(s) && x < |s.repo.objects| && Orphaned(s, x) && NamedRoomIsFree(s, s.repo.objects[x].id)
    requires p in s.repo.objects[x].participants && s.repo.objects[x].participants[p].user == Some(user)
    requires s.repo.objects[x].id in RoomsOf(s.directory, c)
    requires c in s.directory.conversations && s.directory.conversations[c].Group?
    requires user in s.directory.conversations[c].members && t !in s.tasks
    ensures Reachable(s') && t in s'.tasks && s'.tasks[t] == Remover(s.repo.objects[x].id, user, Evicted)
    ensures x < |s'.repo.objects| && s'.repo.objects[x] == s.repo.objects[x]
    ensures (s.repo.objects[x].id, user) in s'.directory.evicted
  {
    var room := s.repo.objects[x].id;
    ReachableIsInv(s);
    ReachNext(s, Transact(DepartGroup(c, user)));
    var s1 := s.(directory := Apply(s.directory, DepartGroup(c, user)));
    assert (room, user) in s1.directory.evicted;
    ReachNext(s1, Spawn(t, Remover(room, user, Denying)));
    var s2 := With(s1, t, Remover(room, user, Denying));
    UndisturbedEviction(s2, t);
    s' := AfterEviction(s2, t);
    ReachLeads(s2, t, s');
  }

  // ---------------------------------------------------------------------------------------------------
  // Cleanup lets go of a room's lock before it deletes the id, so an occupied object can lose its id. Eviction
  // finds rooms by id and does not reach such an object.

  lemma StartedCall(d: Directory)
    requires d == EMPTY.(conversations := map[0 := Group({1, 2})])
    ensures Apply(d, StartCall(0, 1, 7, false))
         == d.(sessions := map[7 := CallSession(0, 1, true, 3600, map[1 := Accepted, 2 := Pending])], issued := {7})
  {
    assert ExpireDue(d.sessions, 0) == map[];
    var d' := Apply(d, StartCall(0, 1, 7, false));
    assert d'.sessions[7].members == map[1 := Accepted, 2 := Pending];
    assert d'.sessions == map[7 := d'.sessions[7]];
  }

  lemma AnsweredCall(d: Directory, session: CallSession)
    requires session == CallSession(0, 1, true, 3600, map[1 := Accepted, 2 := Pending])
    requires d.sessions == map[7 := session] && d.now == 0
    ensures Apply(d, Respond(7, 2, true))
         == d.(sessions := map[7 := session.(members := map[1 := Accepted, 2 := Accepted])])
  {
    assert ExpireDue(d.sessions, 0) == d.sessions;
    assert session.members[2 := Accepted] == map[1 := Accepted, 2 := Accepted];
  }

  /** Users 1 and 2 are in a group whose call has room 7, and both accepted. */
  lemma CallWithTwoMembers() returns (s: State)
    ensures Reachable(s) && s.repo == NO_ROOMS && s.locks == map[] && s.tasks == map[]
    ensures Authorize(s.directory, 7, Some(1)) == Authorized && Authorize(s.directory, 7, Some(2)) == Authorized
    ensures 0 in s.directory.conversations && s.directory.conversations[0] == Group({1, 2})
    ensures 7 in s.directory.sessions && s.directory.sessions[7].conversation == 0
  {
    assert Run(START, []) == START;
    var d1 := EMPTY.(conversations := map[0 := Group({1, 2})]);
    ReachNext(START, Transact(CreateGroup(0, {1, 2})));
    var s1 := START.(directory := d1);
    assert Next(START, Transact(CreateGroup(0, {1, 2}))) == s1;
    StartedCall(d1);
    ReachNext(s1, Transact(StartCall(0, 1, 7, false)));
    var s2 := s1.(directory := Apply(d1, StartCall(0, 1, 7, false)));
    AnsweredCall(s2.directory, s2.directory.sessions[7]);
    ReachNext(s2, Transact(Respond(7, 2, true)));
    s := s2.(directory := Apply(s2.directory, Respond(7, 2, true)));
  }

  /** Connection 2 waits for the lock of the room that connection 1 is in. */
  lemma OneInsideOneWaiting() returns (s: State)
    ensures Reachable(s) && s.locks == map[] && s.tasks.Keys == {1, 2}
    ensures s.repo == Repo([RoomView(7, map[1 := Participant(Some(1), None)], false, {})], map[7 := 0], {})
    ensures s.tasks[2] == Joiner(7, Participant(Some(2), None), AwaitingLock(0))
    ensures 0 in s.directory.conversations && s.directory.conversations[0] == Group({1, 2})
    ensures 7 in s.directory.sessions && s.directory.sessions[7].conversation == 0
  {
    var s0 := CallWithTwoMembers();
    var first := Joiner(7, Participant(Some(1), None), Authorizing);
    ReachNext(s0, Spawn(1, first));
    var s1 := With(s0, 1, first);
    PermittedJoinSucceeds(s1, 1);
    var s2 := Admit(EnsureRoom(s1, 7), 1, 0);
    ReachLeads(s1, 1, s2);
    var second := Joiner(7, Participant(Some(2), None), Authorizing);
    ReachNext(s2, Spawn(2, second));
    var s3 := With(s2, 2, second);
    JoinerReachesLock(s3, 2);
    s := MoveJoiner(s3, 2, AwaitingLock(0));
    ReachLeads(s3, 2, s);
  }

  /** Then the cleaner of connection 1 takes the lock. */
  lemma CleanerHasTheLock() returns (s: State)
    ensures Reachable(s) && s.locks == map[] && s.tasks.Keys == {1, 2, 3}
    ensures s.repo == Repo([RoomView(7, map[1 := Participant(Some(1), None)], false, {})], map[7 := 0], {})
    ensures s.tasks[2] == Joiner(7, Participant(Some(2), None), AwaitingLock(0))
      && s.tasks[3] == Cleaner(7, 1, Cleaning(0))
    ensures 0 in s.directory.conversations && s.directory.conversations[0] == Group({1, 2})
    ensures 7 in s.directory.sessions && s.directory.sessions[7].conversation == 0
  {
    var s0 := OneInsideOneWaiting();
    ReachNext(s0, Spawn(3, Cleaner(7, 1, Looking)));
    var s1 := With(s0, 3, Cleaner(7, 1, Looking));
    ReachNext(s1, Step(3, true));
    s := With(s1, 3, Cleaner(7, 1, Cleaning(0)));
    assert Next(s1, Step(3, true)) == s;
  }

  /** The cleaner of connection 1 empties the room and lets go of it; connection 2 enters; the id is deleted. */
  lemma OccupiedRoomLosesItsId() returns (s: State)
    ensures Reachable(s) && s.tasks.Keys == {1, 2, 3}
    ensures s.repo == Repo([RoomView(7, map[2 := Participant(Some(2), None)], false, {})], map[], {})
    ensures 0 in s.directory.conversations && s.directory.conversations[0] == Group({1, 2})
    ensures 7 in s.directory.sessions && s.directory.sessions[7].conversation == 0
  {
    var s2 := CleanerHasTheLock();
    ReachNext(s2, Step(3, true));
    var s3 := With(s2.(repo := WithParticipants(s2.repo, 0, map[])), 3, Cleaner(7, 1, Deleting));
    assert WithoutSocket(s2.repo.objects[0].participants, 1) == map[];
    assert Next(s2, Step(3, true)) == s3;
    AdmittedJoinerGetsIn(s3, 2, 0);
    var s4 := Admit(s3, 2, 0);
    ReachLeads(s3, 2, s4);
    ReachNext(s4, Step(3, true));
    s := Next(s4, Step(3, true));
  }

  /** Orphans with people in them do come about, so eviction does not reach every object: here the eviction of user 2
      from room 7 has finished, and user 2 is still in a live object of room 7. */
  lemma EvictionMissesOrphans() returns (s: State, t: TaskId, x: nat)
    ensures Reachable(s) && t in s.tasks && s.tasks[t] == Remover(7, 2, Evicted)
    ensures x < |s.repo.objects| && s.repo.objects[x].id == 7 && !s.repo.objects[x].revoked
    ensures !NobodyOf(s.repo.objects[x].participants, 2)
  {
    var s0 := OccupiedRoomLosesItsId();
    t, x := 4, 0;
    s := AnyOrphanEscapesEviction(s0, x, 2, 2, 0, t);
    assert s.repo.objects[x].participants[2].user == Some(2);
  }

  // ---------------------------------------------------------------------------------------------------
  // A revocation from its start to its end

  function AfterRevocation(s: State, t: TaskId): State
    requires t in s.tasks && s.tasks[t].Revoker? && WellFormed(s.repo)
  {
    var room := s.tasks[t].room;
    var revoked := AfterRevoke(s.repo, room);
    if room in s.repo.rooms then
      var x := s.repo.rooms[room];
      With(s.(repo := WithParticipants(revoked, x, map[])), t, Revoker(room, Closed(Some(x))))
    else With(s.(repo := revoked), t, Revoker(room, Closed(None)))
  }

  lemma UndisturbedRevocation(s: State, t: TaskId)
    requires WellFormed(s.repo) && t in s.tasks && s.tasks[t].Revoker? && s.tasks[t].revokerAt == Revoking
    requires NamedRoomIsFree(s, s.tasks[t].room)
    ensures Leads(s, t, AfterRevocation(s, t))
  {
    var room := s.tasks[t].room;
    if room in s.repo.rooms {
      var x := s.repo.rooms[room];
      var s1 := With(s.(repo := AfterRevoke(s.repo, room)), t, Revoker(room, Closing(x)));
      LeadsByStep(s, t, s1);
      assert Next(s1, Step(t, true)) == AfterRevocation(s, t);
      LeadsByStep(s1, t, AfterRevocation(s, t));
      LeadsOn(s, t, s1, AfterRevocation(s, t));
    } else {
      LeadsByStep(s, t, AfterRevocation(s, t));
    }
  }

  /** A revocation that runs undisturbed empties every object of the room that was not flagged before exactly when,
      as it starts, every orphan of the room is empty. */
  lemma RevocationReachesAllIff(s: State, t: TaskId)
    requires WellFormed(s.repo) && t in s.tasks && s.tasks[t].Revoker? && s.tasks[t].revokerAt == Revoking
    requires NamedRoomIsFree(s, s.tasks[t].room)
    ensures Leads(s, t, AfterRevocation(s, t))
    ensures |AfterRevocation(s, t).repo.objects| == |s.repo.objects|
    ensures (forall x: nat | IsObjectOf(s, x, s.tasks[t].room) && !s.repo.objects[x].revoked ::
               AfterRevocation(s, t).repo.objects[x].participants == map[])
      <==> (forall x: nat | IsObjectOf(s, x, s.tasks[t].room) && Orphaned(s, x) ::
        s.repo.objects[x].participants == map[])
  {
    UndisturbedRevocation(s, t);
    var room, s' := s.tasks[t].room, AfterRevocation(s, t);
    forall x: nat | IsObjectOf(s, x, room) && !s.repo.objects[x].revoked
      ensures s'.repo.objects[x].participants == if Orphaned(s, x) then s.repo.objects[x].participants else map[]
    {}
  }

  /** Any orphan defeats revocation too: it keeps its flag down and its people in. */
  lemma AnyOrphanEscapesRevocation(s: State, x: nat, t: TaskId) returns (s': State)
    requires Reachable(s) && x < |s.repo.objects| && Orphaned(s, x) && NamedRoomIsFree(s, s.repo.objects[x].id)
    requires s.repo.objects[x].id in s.directory.revoked && t !in s.tasks
    ensures Reachable(s') && t in s'.tasks && s'.tasks[t].Revoker? && s'.tasks[t].revokerAt.Closed?
    ensures s'.tasks[t].room == s.repo.objects[x].id
    ensures x < |s'.repo.objects| && s'.repo.objects[x] == s.repo.objects[x]
  {
    var room := s.repo.objects[x].id;
    ReachableIsInv(s);
    ReachNext(s, Spawn(t, Revoker(room, Revoking)));
    var s1 := With(s, t, Revoker(room, Revoking));
    UndisturbedRevocation(s1, t);
    s' := AfterRevocation(s1, t);
    ReachLeads(s1, t, s');
  }

  /** Here the group of room 7 is deleted and the revocation has finished, and user 2 is still in a live object. */
  lemma RevocationMissesOrphans() returns (s: State, t: TaskId, x: nat)
    ensures Reachable(s) && t in s.tasks && s.tasks[t].Revoker? && s.tasks[t].room == 7 && s.tasks[t].revokerAt.Closed?
    ensures x < |s.repo.objects| && s.repo.objects[x].id == 7 && !s.repo.objects[x].revoked
    ensures s.repo.objects[x].participants != map[]
  {
    var s0 := OccupiedRoomLosesItsId();
    ReachNext(s0, Transact(DeleteGroup(0)));
    var s1 := s0.(directory := Apply(s0.directory, DeleteGroup(0)));
    assert 7 in RoomsOf(s0.directory, 0);
    t, x := 4, 0;
    s := AnyOrphanEscapesRevocation(s1, x, t);
    assert 2 in s.repo.objects[x].participants;
  }

  // ---------------------------------------------------------------------------------------------------
  // When deletions of the room find its object as the cleaner left it, eviction and revocation reach every object

  predicate Holds(at: JoinerAt, x: nat) {
    (at.Reauthorizing? || Admitted(at)) && at.x == x
  }

  /** `None` is about everybody, guests included. */
  predicate Concerns(whom: Option<UserId>, user: Option<UserId>) {
    whom.None? || user == whom
  }

  /** Nobody it is about is in the object, and no join of theirs holds it. */
  ghost predicate FreeOf(s: State, x: nat, whom: Option<UserId>)
    requires x < |s.repo.objects|
  {
    && (forall p <- s.repo.objects[x].participants :: !Concerns(whom, s.repo.objects[x].participants[p].user))
    && (forall t | t in s.tasks && s.tasks[t].Joiner? && Concerns(whom, s.tasks[t].who.user) ::
          !Holds(s.tasks[t].joinerAt, x))
  }

  ghost predicate OrphansFree(s: State, room: RoomId, whom: Option<UserId>) {
    forall x: nat | IsObjectOf(s, x, room) && Orphaned(s, x) :: FreeOf(s, x, whom)
  }

  /** A deletion of the room is quiet when the object it unmaps is free of those it is about. */
  ghost predicate QuietEvent(s: State, e: Event, room: RoomId, whom: Option<UserId>) {
    e.Step? && e.task in s.tasks && s.tasks[e.task].Cleaner? && s.tasks[e.task].cleanerAt.Deleting?
    && s.tasks[e.task].room == room && room in s.repo.rooms
    ==> s.repo.rooms[room] < |s.repo.objects| && FreeOf(s, s.repo.rooms[room], whom)
  }

  ghost predicate QuietRun(s: State, events: seq<Event>, room: RoomId, whom: Option<UserId>)
    decreases |events|
  {
    events == [] || (QuietEvent(s, events[0], room, whom) && QuietRun(Next(s, events[0]), events[1..], room, whom))
  }

  /** Joiners orphan nothing and go only to objects that their id names. */
  lemma JoinerOrphansNothing(s: State, t: TaskId, ok: bool, x: nat)
    requires Inv(s) && t in s.tasks && s.tasks[t].Joiner?
    requires x < |StepJoiner(s, t, ok).repo.objects| && Orphaned(StepJoiner(s, t, ok), x)
    ensures x < |s.repo.objects| && Orphaned(s, x) && StepJoiner(s, t, ok).repo.objects[x].id == s.repo.objects[x].id
  {}

  lemma JoinerBringsNobody(s: State, t: TaskId, ok: bool, x: nat, whom: Option<UserId>)
    requires Inv(s) && t in s.tasks && s.tasks[t].Joiner? && x < |s.repo.objects| && FreeOf(s, x, whom)
    ensures var s' := StepJoiner(s, t, ok);
      x < |s'.repo.objects|
      && forall p <- s'.repo.objects[x].participants :: !Concerns(whom, s'.repo.objects[x].participants[p].user)
  {}

  lemma JoinerGetsNoOrphan(s: State, t: TaskId, ok: bool, x: nat, whom: Option<UserId>)
    requires Inv(s) && t in s.tasks && s.tasks[t].Joiner?
    requires x < |s.repo.objects| && Orphaned(s, x) && FreeOf(s, x, whom)
    ensures var s' := StepJoiner(s, t, ok);
      forall o | o in s'.tasks && s'.tasks[o].Joiner? && Concerns(whom, s'.tasks[o].who.user) ::
        !Holds(s'.tasks[o].joinerAt, x)
  {
    assert TaskOk(s, t);
  }

  lemma JoinerKeepsOrphansFree(s: State, t: TaskId, ok: bool, room: RoomId, whom: Option<UserId>)
    requires Inv(s) && OrphansFree(s, room, whom) && t in s.tasks && s.tasks[t].Joiner?
    ensures OrphansFree(StepJoiner(s, t, ok), room, whom)
  {
    var s' := StepJoiner(s, t, ok);
    forall x: nat | IsObjectOf(s', x, room) && Orphaned(s', x) ensures FreeOf(s', x, whom) {
      JoinerOrphansNothing(s, t, ok, x);
      JoinerBringsNobody(s, t, ok, x, whom);
      JoinerGetsNoOrphan(s, t, ok, x, whom);
    }
  }

  lemma CleanerKeepsOrphansFree(s: State, t: TaskId, ok: bool, room: RoomId, whom: Option<UserId>)
    requires Inv(s) && OrphansFree(s, room, whom) && t in s.tasks && s.tasks[t].Cleaner?
    requires QuietEvent(s, Step(t, ok), room, whom)
    ensures OrphansFree(Next(s, Step(t, ok)), room, whom)
  {
    var s' := Next(s, Step(t, ok));
    assert TaskOk(s, t);
    forall x: nat | IsObjectOf(s', x, room) && Orphaned(s', x) ensures FreeOf(s', x, whom) {
      if Orphaned(s, x) { assert FreeOf(s, x, whom); }
    }
  }

  lemma OtherTaskKeepsOrphansFree(s: State, t: TaskId, ok: bool, room: RoomId, whom: Option<UserId>)
    requires Inv(s) && OrphansFree(s, room, whom) && t in s.tasks && (s.tasks[t].Remover? || s.tasks[t].Revoker?)
    ensures OrphansFree(Next(s, Step(t, ok)), room, whom)
  {
    var s' := Next(s, Step(t, ok));
    assert TaskOk(s, t);
    forall x: nat | IsObjectOf(s', x, room) && Orphaned(s', x) ensures FreeOf(s', x, whom) {
      if Orphaned(s, x) { assert FreeOf(s, x, whom); }
    }
  }

  lemma NextKeepsOrphansFree(s: State, e: Event, room: RoomId, whom: Option<UserId>)
    requires Inv(s) && OrphansFree(s, room, whom) && QuietEvent(s, e, room, whom)
    ensures OrphansFree(Next(s, e), room, whom)
  {
    if e.Step? && e.task in s.tasks {
      if s.tasks[e.task].Joiner? {
        JoinerKeepsOrphansFree(s, e.task, e.ok, room, whom);
      } else if s.tasks[e.task].Cleaner? {
        CleanerKeepsOrphansFree(s, e.task, e.ok, room, whom);
      } else {
        OtherTaskKeepsOrphansFree(s, e.task, e.ok, room, whom);
      }
    } else {
      var s' := Next(s, e);
      assert s'.repo == s.repo;
      forall x: nat | IsObjectOf(s', x, room) && Orphaned(s', x) ensures FreeOf(s', x, whom) {
        assert IsObjectOf(s, x, room) && Orphaned(s, x) && FreeOf(s, x, whom);
      }
    }
  }

  lemma {:induction false} QuietRunKeepsOrphansFree(s: State, events: seq<Event>, room: RoomId, whom: Option<UserId>)
    requires Inv(s) && OrphansFree(s, room, whom) && QuietRun(s, events, room, whom)
    ensures OrphansFree(Run(s, events), room, whom)
    decreases |events|
  {
    if events != [] {
      NextKeepsInv(s, events[0]);
      NextKeepsOrphansFree(s, events[0], room, whom);
      QuietRunKeepsOrphansFree(Next(s, events[0]), events[1..], room, whom);
    }
  }

  /** If each deletion of this room unmaps an object that is free of this user, a finished eviction excludes the user
      from every object of the room that no revocation has flagged, named or not. */
  lemma QuietEvictionIsComplete(events: seq<Event>, t: TaskId, room: RoomId, user: UserId)
    requires QuietRun(START, events, room, Some(user))
    requires t in Run(START, events).tasks && Run(START, events).tasks[t] == Remover(room, user, Evicted)
    ensures NoUnrevokedHolds(Run(START, events), room, user)
  {
    var s := Run(START, events);
    RunKeepsInv(START, events);
    QuietRunKeepsOrphansFree(START, events, room, Some(user));
    FinishedEvictionIsCompleteIff(s, t, room, user);
    forall x: nat | IsObjectOf(s, x, room) && Orphaned(s, x) ensures NobodyOf(s.repo.objects[x].participants, user) {
      assert FreeOf(s, x, Some(user));
    }
  }

  /** A flagged object has the revocation that flagged it. */
  ghost predicate Attends(s: State, t: TaskId, x: nat) {
    && t in s.tasks && x < |s.repo.objects|
    && (s.tasks[t] == Revoker(s.repo.objects[x].id, Closing(x))
      || s.tasks[t] == Revoker(s.repo.objects[x].id, Closed(Some(x))))
  }

  ghost predicate FlaggedAreAttended(s: State) {
    forall x: nat | x < |s.repo.objects| && s.repo.objects[x].revoked :: exists t :: Attends(s, t, x)
  }

  lemma RevokersMoveThemselves(s: State, e: Event, t: TaskId)
    requires t in s.tasks && s.tasks[t].Revoker? && !(e.Step? && e.task == t)
    ensures t in Next(s, e).tasks && Next(s, e).tasks[t] == s.tasks[t]
  {}

  lemma NextKeepsAttending(s: State, e: Event, t: TaskId, x: nat)
    requires Attends(s, t, x)
    ensures Attends(Next(s, e), t, x)
  {
    ObjectsKeepTheirIds(s, e, x);
    if e.Step? && e.task == t {
      assert Next(s, e) == StepRevoker(s, t);
    } else {
      RevokersMoveThemselves(s, e, t);
    }
  }

  ghost predicate Flagged(s: State, x: nat) {
    x < |s.repo.objects| && s.repo.objects[x].revoked
  }

  lemma JoinersFlagNothing(s: State, t: TaskId, ok: bool, x: nat)
    requires t in s.tasks && s.tasks[t].Joiner? && Flagged(StepJoiner(s, t, ok), x)
    ensures Flagged(s, x)
  {}

  lemma RemoversFlagNothing(s: State, t: TaskId, x: nat)
    requires t in s.tasks && s.tasks[t].Remover? && Flagged(StepRemover(s, t), x)
    ensures Flagged(s, x)
  {}

  lemma CleanersFlagNothing(s: State, t: TaskId, x: nat)
    requires t in s.tasks && s.tasks[t].Cleaner? && Flagged(StepCleaner(s, t), x)
    ensures Flagged(s, x)
  {}

  lemma RevokersAttendWhatTheyFlag(s: State, t: TaskId, x: nat)
    requires WellFormed(s.repo) && t in s.tasks && s.tasks[t].Revoker? && Flagged(StepRevoker(s, t), x)
      && !Flagged(s, x)
    ensures Attends(StepRevoker(s, t), t, x)
  {}

  lemma NewFlagIsAttended(s: State, e: Event, x: nat)
    requires Inv(s) && Flagged(Next(s, e), x) && !Flagged(s, x)
    ensures exists t :: Attends(Next(s, e), t, x)
  {
    if e.Step? && e.task in s.tasks {
      match s.tasks[e.task]
      case Joiner(_, _, _) => JoinersFlagNothing(s, e.task, e.ok, x);
      case Remover(_, _, _) => RemoversFlagNothing(s, e.task, x);
      case Cleaner(_, _, _) => CleanersFlagNothing(s, e.task, x);
      case Revoker(_, _) => RevokersAttendWhatTheyFlag(s, e.task, x);
    }
  }

  lemma NextKeepsAttended(s: State, e: Event)
    requires Inv(s) && FlaggedAreAttended(s)
    ensures FlaggedAreAttended(Next(s, e))
  {
    var s' := Next(s, e);
    forall x: nat | x < |s'.repo.objects| && s'.repo.objects[x].revoked ensures exists t :: Attends(s', t, x) {
      if x < |s.repo.objects| && s.repo.objects[x].revoked {
        var t :| Attends(s, t, x);
        NextKeepsAttending(s, e, t, x);
      } else {
        NewFlagIsAttended(s, e, x);
      }
    }
  }

  lemma {:induction false} RunKeepsAttended(s: State, events: seq<Event>)
    requires Inv(s) && FlaggedAreAttended(s)
    ensures FlaggedAreAttended(Run(s, events))
    decreases |events|
  {
    if events != [] {
      NextKeepsInv(s, events[0]);
      NextKeepsAttended(s, events[0]);
      RunKeepsAttended(Next(s, events[0]), events[1..]);
    }
  }

  /** If each deletion of this room unmaps a deserted object, then once a revocation of the room has ended and none is
      still closing an object, every object the room ever had is empty. */
  lemma QuietRevocationIsComplete(events: seq<Event>, t: TaskId, room: RoomId, x: nat)
    requires QuietRun(START, events, room, None)
    requires var s := Run(START, events);
      && t in s.tasks && s.tasks[t].Revoker? && s.tasks[t].room == room && s.tasks[t].revokerAt.Closed?
      && (forall o | o in s.tasks && s.tasks[o].Revoker? && s.tasks[o].room == room :: !s.tasks[o].revokerAt.Closing?)
      && IsObjectOf(s, x, room)
    ensures Run(START, events).repo.objects[x].participants == map[]
  {
    var s := Run(START, events);
    RunKeepsInv(START, events);
    QuietRunKeepsOrphansFree(START, events, room, None);
    RunKeepsAttended(START, events);
    assert TaskOk(s, t);
    if s.repo.objects[x].revoked {
      var o :| Attends(s, o, x);
      assert TaskOk(s, o);
    } else {
      assert Orphaned(s, x) && FreeOf(s, x, None);
      assert s.repo.objects[x].participants.Keys == {};
    }
  }
}
