/** Admission to media rooms, eviction of departed members and revocation of deleted groups, as one machine of
    interleaved steps. A task is preempted between any two accesses to shared state: the database, the
    repository's own lock, a room's lock, or a marker. Work done wholly inside a room's lock by a task that
    waits for nothing else that touches participants is one step. */
module SfuAccess {
  import opened Identifiers
  import opened CallDirectory
  import opened SfuRoom
  import opened SfuRepository

  /** Tasks; a joiner's task id is also the participant id of its connection. */
  type TaskId = ParticipantId

  /** How the first authorization let a joiner pass: the room of a call, or a room that is not a call's. */
  datatype Admission = AsMember | AsVisitor

  /** Where a joiner stands; `x` is the room object it obtained, which its id may no longer name. */
  datatype JoinerAt =
    | Authorizing
    | CheckingExistence(admission: Admission)
    | Creating(admission: Admission)
    | Getting(admission: Admission)
    | Reauthorizing(x: nat)
    | AwaitingLock(x: nat)
    | CheckingRevoked(x: nat)
    | CheckingDenied(x: nat)
    | CheckingPresenter(x: nat)
    | SettingUpPeer(x: nat)
    | RecheckingRevoked(x: nat)
    | RecheckingDenied(x: nat)
    | Adding(x: nat)
    | Joined(x: nat)
    | Failed

  datatype RemoverAt = Denying | Marking(x: nat) | Finding | Evicting(x: nat) | Evicted

  datatype RevokerAt = Revoking | Closing(x: nat) | Closed(emptied: Option<nat>)

  datatype CleanerAt = Looking | Cleaning(x: nat) | Deleting | Cleaned

  datatype Task =
    | Joiner(room: RoomId, who: Participant, joinerAt: JoinerAt)
    | Remover(room: RoomId, user: UserId, removerAt: RemoverAt)
    | Revoker(room: RoomId, revokerAt: RevokerAt)
    | Cleaner(room: RoomId, socket: ParticipantId, cleanerAt: CleanerAt)

  /** `locks` holds the room locks kept across steps; only joiners keep one. */
  datatype State = State(directory: Directory, repo: Repo, locks: map<nat, TaskId>, tasks: map<TaskId, Task>)

  const START := State(EMPTY, NO_ROOMS, map[], map[])

  datatype Event =
    | Transact(tx: Transaction)
    | Spawn(task: TaskId, program: Task)
    | Step(task: TaskId, ok: bool)
    | Abort(task: TaskId)

  predicate HoldsLock(at: JoinerAt) {
    at.CheckingRevoked? || at.CheckingDenied? || at.CheckingPresenter? || at.SettingUpPeer?
    || at.RecheckingRevoked? || at.RecheckingDenied? || at.Adding?
  }

  /** Past every database check, not yet in the room. */
  predicate Admitted(at: JoinerAt) {
    at.AwaitingLock? || HoldsLock(at)
  }

  function With(s: State, t: TaskId, task: Task): State {
    s.(tasks := s.tasks[t := task])
  }

  function MoveJoiner(s: State, t: TaskId, at: JoinerAt): State
    requires t in s.tasks && s.tasks[t].Joiner?
  {
    With(s, t, s.tasks[t].(joinerAt := at))
  }

  /** A joiner that gives up drops the lock it holds. */
  function GiveUp(s: State, t: TaskId): State
    requires t in s.tasks && s.tasks[t].Joiner?
  {
    var at := s.tasks[t].joinerAt;
    var unlocked := if HoldsLock(at) then s.(locks := s.locks - {at.x}) else s;
    MoveJoiner(unlocked, t, Failed)
  }

  /** Where the Join arm goes from `at`. `ok` is the outcome the model does not compute: whether a query
      succeeds, whether a meeting host admits a visitor, whether the peer connection can be built. */
  function JoinerGoesTo(s: State, room: RoomId, who: Participant, at: JoinerAt, ok: bool): JoinerAt {
    match at
    case Authorizing =>
      (match Authorize(s.directory, room, who.user)
       case Denied => Failed
       case Legacy => if ok then CheckingExistence(AsVisitor) else Failed
       case Authorized => if ok then CheckingExistence(AsMember) else Failed)
    case CheckingExistence(admission) => if room in s.repo.rooms then Getting(admission) else Creating(admission)
    case Creating(admission) => if CanCreate(s.repo, room) then Getting(admission) else Failed
    case Getting(admission) =>
      (match Lookup(s.repo, room)
       case None => Failed
       case Some(x) => if admission == AsMember then Reauthorizing(x) else AwaitingLock(x))
    case Reauthorizing(x) =>
      if ok && Authorize(s.directory, room, who.user) == Authorized then AwaitingLock(x) else Failed
    case AwaitingLock(x) => if x in s.locks then at else CheckingRevoked(x)
    case CheckingRevoked(x) => if IsRevoked(s, x) then Failed else CheckingDenied(x)
    case CheckingDenied(x) => if IsDenied(s, x, who.user) then Failed else CheckingPresenter(x)
    case CheckingPresenter(x) =>
      if x < |s.repo.objects|
         && (who.presenter.Some? ==> PresenterPresent(s.repo.objects[x].participants, who.user, who.presenter.value))
      then SettingUpPeer(x) else Failed
    case SettingUpPeer(x) => if ok then RecheckingRevoked(x) else Failed
    case RecheckingRevoked(x) => if IsRevoked(s, x) then Failed else RecheckingDenied(x)
    case RecheckingDenied(x) => if IsDenied(s, x, who.user) then Failed else Adding(x)
    case Adding(x) => if x < |s.repo.objects| then Joined(x) else Failed
    case Joined(_) => at
    case Failed => at
  }

  predicate IsRevoked(s: State, x: nat) {
    x < |s.repo.objects| ==> s.repo.objects[x].revoked
  }

  predicate IsDenied(s: State, x: nat, user: Option<UserId>) {
    x < |s.repo.objects| ==> user.Some? && user.value in s.repo.objects[x].denied
  }

  /** One step of the Join arm: the move, with the change to the repository or the locks that goes with it. */
  function StepJoiner(s: State, t: TaskId, ok: bool): State
    requires t in s.tasks && s.tasks[t].Joiner?
  {
    var Joiner(room, who, at) := s.tasks[t];
    var at' := JoinerGoesTo(s, room, who, at, ok);
    if at' == at then s
    else if at'.Failed? then GiveUp(s, t)
    else if at.Creating? then MoveJoiner(s.(repo := AfterCreate(s.repo, room)), t, at')
    else if at.AwaitingLock? then MoveJoiner(s.(locks := s.locks[at.x := t]), t, at')
    else if at.Adding? then
      var added := WithParticipants(s.repo, at.x, s.repo.objects[at.x].participants[t := who]);
      MoveJoiner(s.(repo := added, locks := s.locks - {at.x}), t, at')
    else MoveJoiner(s, t, at')
  }

  /** One step of `disconnect_user_from_sfu_rooms` for one room: find the entry, mark the user on it, find the
      room again, and empty it of the user under its lock. */
  function StepRemover(s: State, t: TaskId): State
    requires t in s.tasks && s.tasks[t].Remover?
  {
    var Remover(room, user, at) := s.tasks[t];
    match at
    case Denying =>
      With(s, t, s.tasks[t].(removerAt := match Lookup(s.repo, room) case Some(x) => Marking(x) case None => Finding))
    case Marking(x) =>
      var marked := if x < |s.repo.objects| then MarkDenied(s.repo, x, user) else s.repo;
      With(s.(repo := marked), t, s.tasks[t].(removerAt := Finding))
    case Finding =>
      With(s, t, s.tasks[t].(removerAt := match Lookup(s.repo, room) case Some(x) => Evicting(x) case None => Evicted))
    case Evicting(x) =>
      if x in s.locks || x >= |s.repo.objects| then s
      else
        var emptied := WithParticipants(s.repo, x, WithoutUser(s.repo.objects[x].participants, user));
        With(s.(repo := emptied), t, s.tasks[t].(removerAt := Evicted))
    case Evicted => s
  }

  /** One step of `revoke_and_close_sfu_rooms` for one room. */
  function StepRevoker(s: State, t: TaskId): State
    requires t in s.tasks && s.tasks[t].Revoker?
  {
    var Revoker(room, at) := s.tasks[t];
    match at
    case Revoking =>
      With(s.(repo := AfterRevoke(s.repo, room)), t,
           s.tasks[t].(revokerAt := match Lookup(s.repo, room) case Some(x) => Closing(x) case None => Closed(None)))
    case Closing(x) =>
      if x in s.locks || x >= |s.repo.objects| then s
      else With(s.(repo := WithParticipants(s.repo, x, map[])), t, s.tasks[t].(revokerAt := Closed(Some(x))))
    case Closed(_) => s
  }

  /** One step of `cleanup_participant_from_room`; it lets go of the room's lock before it deletes the id. */
  function StepCleaner(s: State, t: TaskId): State
    requires t in s.tasks && s.tasks[t].Cleaner?
  {
    var Cleaner(room, socket, at) := s.tasks[t];
    match at
    case Looking =>
      With(s, t, s.tasks[t].(cleanerAt := match Lookup(s.repo, room) case Some(x) => Cleaning(x) case None => Cleaned))
    case Cleaning(x) =>
      if x in s.locks || x >= |s.repo.objects| then s
      else
        var participants := s.repo.objects[x].participants;
        if socket !in participants then With(s, t, s.tasks[t].(cleanerAt := Cleaned))
        else
          var rest := WithoutSocket(participants, socket);
          With(s.(repo := WithParticipants(s.repo, x, rest)), t,
               s.tasks[t].(cleanerAt := if rest == map[] then Deleting else Cleaned))
    case Deleting => With(s.(repo := AfterDelete(s.repo, room)), t, s.tasks[t].(cleanerAt := Cleaned))
    case Cleaned => s
  }

  /** Room ids are fresh UUIDs: nobody has named the id of a call before the call starts. */
  predicate Unnamed(s: State, room: RoomId) {
    && room !in s.repo.rooms
    && (forall t :: t in s.tasks ==> s.tasks[t].room != room)
  }

  /** Tasks start at their first step. A remover runs for a room and user after their departure committed, a
      revoker for a room after its tombstone committed, and a connection whose join failed may try again. */
  predicate MaySpawn(s: State, t: TaskId, task: Task) {
    && (t in s.tasks ==> s.tasks[t].Joiner? && s.tasks[t].joinerAt == Failed && task.Joiner?)
    && (match task
        case Joiner(_, _, at) => at == Authorizing
        case Remover(room, user, at) => at == Denying && (room, user) in s.directory.evicted
        case Revoker(room, at) => at == Revoking && room in s.directory.revoked
        case Cleaner(_, _, at) => at == Looking)
  }

  function StepTask(s: State, t: TaskId, ok: bool): State
    requires t in s.tasks
  {
    match s.tasks[t]
    case Joiner(_, _, _) => StepJoiner(s, t, ok)
    case Remover(_, _, _) => StepRemover(s, t)
    case Revoker(_, _) => StepRevoker(s, t)
    case Cleaner(_, _, _) => StepCleaner(s, t)
  }

  /** A socket that closes aborts its join wherever it stands. */
  predicate MayAbort(s: State, t: TaskId) {
    t in s.tasks && s.tasks[t].Joiner? && !s.tasks[t].joinerAt.Joined?
  }

  function Next(s: State, e: Event): State {
    match e
    case Transact(tx) =>
      if tx.StartCall? && !Unnamed(s, tx.room) then s else s.(directory := Apply(s.directory, tx))
    case Spawn(t, task) => if MaySpawn(s, t, task) then With(s, t, task) else s
    case Step(t, ok) => if t in s.tasks then StepTask(s, t, ok) else s
    case Abort(t) => if MayAbort(s, t) then GiveUp(s, t) else s
  }

  function Run(s: State, events: seq<Event>): State
    decreases |events|
  {
    if events == [] then s else Run(Next(s, events[0]), events[1..])
  }

  // ---------------------------------------------------------------------------------------------------
  // The inductive invariant

  predicate JoinerOf(s: State, t: TaskId, user: UserId) {
    t in s.tasks && s.tasks[t].Joiner? && s.tasks[t].who.user == Some(user)
  }

  ghost predicate NobodyOf(participants: Participants, user: UserId) {
    forall p :: p in participants ==> participants[p].user != Some(user)
  }

  /** The user is not in object `x` and no joiner of theirs has got past the database with it. */
  ghost predicate Clean(s: State, x: nat, user: UserId) {
    && x < |s.repo.objects|
    && NobodyOf(s.repo.objects[x].participants, user)
    && (forall t :: JoinerOf(s, t, user) && Admitted(s.tasks[t].joinerAt) ==> s.tasks[t].joinerAt.x != x)
  }

  ghost predicate Guarded(s: State, x: nat, user: UserId) {
    x < |s.repo.objects| && (user in s.repo.objects[x].denied || Clean(s, x, user))
  }

  /** The user is not in object `x` and never will be. */
  ghost predicate Settled(s: State, x: nat, user: UserId) {
    && Guarded(s, x, user)
    && NobodyOf(s.repo.objects[x].participants, user)
    && (forall t :: JoinerOf(s, t, user) && s.tasks[t].joinerAt.Adding? ==> s.tasks[t].joinerAt.x != x)
  }

  predicate PastFlag(at: JoinerAt) {
    at.RecheckingDenied? || at.Adding?
  }

  /** Object `x` is empty and stays so: it is flagged, and no joiner is past reading the flag. */
  ghost predicate ShutDown(s: State, x: nat) {
    && x < |s.repo.objects|
    && s.repo.objects[x].revoked
    && s.repo.objects[x].participants == map[]
    && (forall t | t in s.tasks && s.tasks[t].Joiner? :: PastFlag(s.tasks[t].joinerAt) ==> s.tasks[t].joinerAt.x != x)
  }

  ghost predicate IsObjectOf(s: State, x: nat, room: RoomId) {
    x < |s.repo.objects| && s.repo.objects[x].id == room
  }

  ghost predicate JoinerOk(s: State, t: TaskId, room: RoomId, who: Participant, at: JoinerAt) {
    && ((at.CheckingExistence? || at.Creating? || at.Getting?) && at.admission == AsVisitor
        ==> room !in s.directory.issued)
    && (room in s.directory.issued && !at.Authorizing? && !at.Failed? ==> who.user.Some?)
    && (at.Reauthorizing? || Admitted(at) || at.Joined? ==> IsObjectOf(s, at.x, room))
    && (HoldsLock(at) ==> at.x in s.locks && s.locks[at.x] == t)
    && (who.presenter.Some? && (at.SettingUpPeer? || at.RecheckingRevoked? || at.RecheckingDenied? || at.Adding?)
        ==> PresenterPresent(s.repo.objects[at.x].participants, who.user, who.presenter.value))
  }

  ghost predicate RemoverOk(s: State, room: RoomId, user: UserId, at: RemoverAt) {
    && (room, user) in s.directory.evicted
    && (at.Marking? || at.Evicting? ==> IsObjectOf(s, at.x, room))
    && (room in s.repo.rooms ==>
          var x := s.repo.rooms[room];
          match at
          case Denying => true
          case Marking(y) => x == y || Clean(s, x, user)
          case Finding => Guarded(s, x, user)
          case Evicting(y) => if x == y then Guarded(s, x, user) else Settled(s, x, user)
          case Evicted => Settled(s, x, user))
  }

  ghost predicate RevokerOk(s: State, room: RoomId, at: RevokerAt) {
    && (!at.Revoking? ==> room in s.repo.revokedIds)
    && (at.Closing? ==> IsObjectOf(s, at.x, room) && s.repo.objects[at.x].revoked)
    && (at.Closed? && at.emptied.Some? ==> ShutDown(s, at.emptied.value))
  }

  ghost predicate TaskOk(s: State, t: TaskId)
    requires t in s.tasks
  {
    match s.tasks[t]
    case Joiner(room, who, at) => JoinerOk(s, t, room, who, at)
    case Remover(room, user, at) => RemoverOk(s, room, user, at)
    case Revoker(room, at) => RevokerOk(s, room, at)
    case Cleaner(room, _, at) => at.Cleaning? ==> IsObjectOf(s, at.x, room)
  }

  /** Whoever is in a room object joined that very object. */
  ghost predicate ObjectOk(s: State, x: nat)
    requires x < |s.repo.objects|
  {
    && SharesAttached(s.repo.objects[x].participants)
    && (forall p :: p in s.repo.objects[x].participants ==>
          p in s.tasks && s.tasks[p] == Joiner(s.repo.objects[x].id, s.repo.objects[x].participants[p], Joined(x)))
  }

  ghost predicate Inv(s: State) {
    && Consistent(s.directory)
    && WellFormed(s.repo)
    && (forall x: nat | x < |s.repo.objects| :: ObjectOk(s, x))
    && (forall t | t in s.tasks :: TaskOk(s, t))
  }

  // ---------------------------------------------------------------------------------------------------
  // What every step leaves to the tasks that did not take it

  ghost predicate MarkersGrow(s: State, s': State) {
    && s.directory.issued <= s'.directory.issued
    && s.directory.evicted <= s'.directory.evicted
    && s.repo.revokedIds <= s'.repo.revokedIds
    && |s.repo.objects| <= |s'.repo.objects|
    && (forall x: nat | x < |s.repo.objects| ::
          && s'.repo.objects[x].id == s.repo.objects[x].id
          && (s.repo.objects[x].revoked ==> s'.repo.objects[x].revoked)
          && s.repo.objects[x].denied <= s'.repo.objects[x].denied)
  }

  /** Once a user lost access to a room, what is known about its objects stays known. */
  ghost predicate EvictionsPersist(s: State, s': State) {
    forall x: nat, user | x < |s.repo.objects| && (s.repo.objects[x].id, user) in s.directory.evicted ::
      && (Clean(s, x, user) ==> Clean(s', x, user))
      && (Settled(s, x, user) ==> Settled(s', x, user))
  }

  ghost predicate ShutdownsPersist(s: State, s': State) {
    forall x: nat | ShutDown(s, x) :: ShutDown(s', x)
  }

  /** An id keeps naming its object, names nothing, or names a new object nobody holds yet. */
  ghost predicate MappingsAreFresh(s: State, s': State) {
    forall room | room in s'.repo.rooms ::
      || (room in s.repo.rooms && s'.repo.rooms[room] == s.repo.rooms[room])
      || (|s.repo.objects| <= s'.repo.rooms[room] && forall user :: Clean(s', s'.repo.rooms[room], user))
  }

  /** Only the holder of a room's lock changes who is in the room. */
  ghost predicate LocksRespected(s: State, s': State, t: TaskId) {
    forall x | x in s.locks && s.locks[x] != t && x < |s.repo.objects| ::
      && x in s'.locks && s'.locks[x] == s.locks[x]
      && x < |s'.repo.objects| && s'.repo.objects[x].participants == s.repo.objects[x].participants
  }

  ghost predicate NamedRoomsStayVisitable(s: State, s': State) {
    forall t | t in s.tasks :: s.tasks[t].room in s'.directory.issued ==> s.tasks[t].room in s.directory.issued
  }

  ghost predicate LeavesOthersBe(s: State, s': State, t: TaskId) {
    && MarkersGrow(s, s')
    && EvictionsPersist(s, s')
    && ShutdownsPersist(s, s')
    && MappingsAreFresh(s, s')
    && LocksRespected(s, s', t)
    && NamedRoomsStayVisitable(s, s')
    && (forall other | other in s.tasks && other != t :: other in s'.tasks && s'.tasks[other] == s.tasks[other])
    && (forall other | other in s'.tasks && other != t :: other in s.tasks)
  }

  lemma OthersStayOk(s: State, s': State, t: TaskId, other: TaskId)
    requires LeavesOthersBe(s, s', t)
    requires Inv(s) && WellFormed(s'.repo)
    requires other in s.tasks && other != t
    ensures TaskOk(s', other)
  {
    assert TaskOk(s, other);
    match s.tasks[other]
    case Joiner(room, who, at) =>
    case Remover(room, user, at) =>
      if room in s'.repo.rooms {
        var x := s'.repo.rooms[room];
        if x < |s.repo.objects| {
          assert Clean(s, x, user) ==> Clean(s', x, user);
        } else {
          assert Clean(s', x, user);
        }
      }
    case Revoker(room, at) =>
      if at.Closed? && at.emptied.Some? {
        assert ShutDown(s, at.emptied.value);
      }
    case Cleaner(room, socket, at) =>
  }

  /** A step keeps the invariant when it leaves the others be, its own task is fine, and so is every room. */
  lemma StepKeepsInv(s: State, s': State, t: TaskId)
    requires Inv(s) && LeavesOthersBe(s, s', t)
    requires Consistent(s'.directory) && WellFormed(s'.repo)
    requires t in s'.tasks ==> TaskOk(s', t)
    requires forall x: nat | x < |s'.repo.objects| :: ObjectOk(s', x)
    ensures Inv(s')
  {
    forall other | other in s'.tasks ensures TaskOk(s', other) {
      if other != t {
        OthersStayOk(s, s', t, other);
      }
    }
  }

  // ---------------------------------------------------------------------------------------------------
  // Each step keeps the invariant

  lemma TransactLeavesOthersBe(s: State, tx: Transaction, t: TaskId)
    requires Inv(s)
    ensures LeavesOthersBe(s, Next(s, Transact(tx)), t)
  {
    ApplyIsConsistent(s.directory, tx);
  }

  lemma TransactKeepsObjectsOk(s: State, tx: Transaction, x: nat)
    requires Inv(s) && x < |s.repo.objects|
    ensures ObjectOk(Next(s, Transact(tx)), x)
  {
    assert ObjectOk(s, x);
  }

  lemma TransactKeepsInv(s: State, tx: Transaction)
    requires Inv(s)
    ensures Inv(Next(s, Transact(tx)))
  {
    var s' := Next(s, Transact(tx));
    ApplyIsConsistent(s.directory, tx);
    forall x: nat | x < |s'.repo.objects| ensures ObjectOk(s', x) { TransactKeepsObjectsOk(s, tx, x); }
    forall t | t in s'.tasks ensures TaskOk(s', t) {
      TransactLeavesOthersBe(s, tx, t + 1);
      OthersStayOk(s, s', t + 1, t);
    }
  }

  lemma SpawnKeepsInv(s: State, t: TaskId, task: Task)
    requires Inv(s)
    ensures Inv(Next(s, Spawn(t, task)))
  {
    var s' := Next(s, Spawn(t, task));
    if MaySpawn(s, t, task) {
      assert t in s.tasks ==> TaskOk(s, t);
      forall x: nat | x < |s'.repo.objects| ensures ObjectOk(s', x) {
        assert ObjectOk(s, x);
      }
      StepKeepsInv(s, s', t);
    }
  }

  lemma GiveUpKeepsInv(s: State, t: TaskId)
    requires Inv(s) && MayAbort(s, t)
    ensures Inv(GiveUp(s, t))
  {
    var s' := GiveUp(s, t);
    assert TaskOk(s, t);
    forall x: nat | x < |s'.repo.objects| ensures ObjectOk(s', x) {
      assert ObjectOk(s, x);
    }
    StepKeepsInv(s, s', t);
  }

  /** The rest of the state is as the others left it: they are unaffected and every room is in order. */
  ghost predicate Harmless(s: State, s': State, t: TaskId) {
    && LeavesOthersBe(s, s', t)
    && s'.directory == s.directory
    && WellFormed(s'.repo)
    && (forall x: nat | x < |s'.repo.objects| :: ObjectOk(s', x))
  }

  lemma MovingLeavesOthersBe(s: State, t: TaskId, task: Task)
    requires Inv(s) && t in s.tasks && !s.tasks[t].Joiner? && !task.Joiner?
    ensures Harmless(s, With(s, t, task), t)
  {
    forall x: nat | x < |s.repo.objects| ensures ObjectOk(With(s, t, task), x) {
      assert ObjectOk(s, x);
    }
  }

  /** Taking people out of an unlocked room, with the shares of whoever goes. */
  lemma ShrinkingLeavesOthersBe(s: State, t: TaskId, task: Task, x: nat, rest: Participants)
    requires Inv(s) && t in s.tasks && !s.tasks[t].Joiner? && !task.Joiner?
    requires x < |s.repo.objects| && x !in s.locks
    requires rest.Items <= s.repo.objects[x].participants.Items && SharesAttached(rest)
    ensures Harmless(s, With(s.(repo := WithParticipants(s.repo, x, rest)), t, task), t)
  {
    var s' := With(s.(repo := WithParticipants(s.repo, x, rest)), t, task);
    forall p | p in rest ensures p in s.repo.objects[x].participants && s.repo.objects[x].participants[p] == rest[p] {
      assert (p, rest[p]) in rest.Items;
    }
    forall y: nat | y < |s'.repo.objects| ensures ObjectOk(s', y) {
      assert ObjectOk(s, y);
    }
    forall y: nat, user | y < |s.repo.objects| && (s.repo.objects[y].id, user) in s.directory.evicted
      ensures Clean(s, y, user) ==> Clean(s', y, user)
      ensures Settled(s, y, user) ==> Settled(s', y, user)
    {
      assert NobodyOf(s.repo.objects[y].participants, user) ==> NobodyOf(s'.repo.objects[y].participants, user);
    }
    forall y: nat | ShutDown(s, y) ensures ShutDown(s', y) {
      if y == x { assert rest.Keys == {}; }
    }
  }

  lemma MarkingLeavesOthersBe(s: State, t: TaskId, task: Task, x: nat, user: UserId)
    requires Inv(s) && t in s.tasks && !s.tasks[t].Joiner? && !task.Joiner? && x < |s.repo.objects|
    ensures Harmless(s, With(s.(repo := MarkDenied(s.repo, x, user)), t, task), t)
  {
    var s' := With(s.(repo := MarkDenied(s.repo, x, user)), t, task);
    forall y: nat | y < |s'.repo.objects| ensures ObjectOk(s', y) {
      assert ObjectOk(s, y);
    }
  }

  lemma DeletingLeavesOthersBe(s: State, t: TaskId, task: Task, room: RoomId)
    requires Inv(s) && t in s.tasks && !s.tasks[t].Joiner? && !task.Joiner?
    ensures Harmless(s, With(s.(repo := AfterDelete(s.repo, room)), t, task), t)
  {
    var s' := With(s.(repo := AfterDelete(s.repo, room)), t, task);
    forall y: nat | y < |s'.repo.objects| ensures ObjectOk(s', y) {
      assert ObjectOk(s, y);
    }
  }

  lemma RevokingLeavesOthersBe(s: State, t: TaskId, task: Task, room: RoomId)
    requires Inv(s) && t in s.tasks && !s.tasks[t].Joiner? && !task.Joiner?
    ensures Harmless(s, With(s.(repo := AfterRevoke(s.repo, room)), t, task), t)
  {
    var s' := With(s.(repo := AfterRevoke(s.repo, room)), t, task);
    forall y: nat | y < |s'.repo.objects| ensures ObjectOk(s', y) {
      assert ObjectOk(s, y);
    }
  }

  /** Nobody waits inside an unlocked room, so once the user is taken out they are out for good. */
  lemma EvictionSettles(s: State, t: TaskId, x: nat, user: UserId)
    requires Inv(s) && t in s.tasks && s.tasks[t].Remover? && x < |s.repo.objects| && x !in s.locks
    requires Guarded(s, x, user)
    ensures var rest := WithoutUser(s.repo.objects[x].participants, user);
      && rest.Items <= s.repo.objects[x].participants.Items
      && forall task: Task | !task.Joiner? ::
           Settled(With(s.(repo := WithParticipants(s.repo, x, rest)), t, task), x, user)
  {
    forall j | JoinerOf(s, j, user) && s.tasks[j].joinerAt.Adding? ensures s.tasks[j].joinerAt.x != x {
      assert TaskOk(s, j);
    }
  }

  /** Nobody is past the flag inside an unlocked room, so once it is flagged and emptied it stays empty. */
  lemma ClosingShutsDown(s: State, t: TaskId, x: nat, task: Task)
    requires Inv(s) && t in s.tasks && s.tasks[t].Revoker? && !task.Joiner?
    requires x < |s.repo.objects| && x !in s.locks && s.repo.objects[x].revoked
    ensures ShutDown(With(s.(repo := WithParticipants(s.repo, x, map[])), t, task), x)
  {
    forall j | j in s.tasks && s.tasks[j].Joiner? && PastFlag(s.tasks[j].joinerAt)
      ensures s.tasks[j].joinerAt.x != x
    {
      assert TaskOk(s, j);
    }
  }

  lemma RemoverIsHarmless(s: State, t: TaskId)
    requires Inv(s) && t in s.tasks && s.tasks[t].Remover? && StepRemover(s, t) != s
    ensures Harmless(s, StepRemover(s, t), t)
  {
    var Remover(room, user, at) := s.tasks[t];
    var task' := StepRemover(s, t).tasks[t];
    assert TaskOk(s, t);
    match at
    case Marking(x) => MarkingLeavesOthersBe(s, t, task', x, user);
    case Evicting(x) =>
      assert ObjectOk(s, x);
      ShrinkingLeavesOthersBe(s, t, task', x, WithoutUser(s.repo.objects[x].participants, user));
    case _ => MovingLeavesOthersBe(s, t, task');
  }

  lemma RemoverStaysOk(s: State, t: TaskId)
    requires Inv(s) && t in s.tasks && s.tasks[t].Remover? && StepRemover(s, t) != s
    ensures TaskOk(StepRemover(s, t), t)
  {
    var Remover(room, user, at) := s.tasks[t];
    assert TaskOk(s, t);
    if at.Evicting? && room in s.repo.rooms && s.repo.rooms[room] == at.x {
      EvictionSettles(s, t, at.x, user);
    }
  }

  lemma RevokerIsHarmless(s: State, t: TaskId)
    requires Inv(s) && t in s.tasks && s.tasks[t].Revoker? && StepRevoker(s, t) != s
    ensures Harmless(s, StepRevoker(s, t), t)
  {
    var Revoker(room, at) := s.tasks[t];
    var task' := StepRevoker(s, t).tasks[t];
    assert TaskOk(s, t);
    match at
    case Revoking => RevokingLeavesOthersBe(s, t, task', room);
    case Closing(x) => ShrinkingLeavesOthersBe(s, t, task', x, map[]);
    case Closed(_) =>
  }

  lemma RevokerStaysOk(s: State, t: TaskId)
    requires Inv(s) && t in s.tasks && s.tasks[t].Revoker? && StepRevoker(s, t) != s
    ensures TaskOk(StepRevoker(s, t), t)
  {
    assert TaskOk(s, t);
    var at := s.tasks[t].revokerAt;
    if at.Closing? {
      ClosingShutsDown(s, t, at.x, StepRevoker(s, t).tasks[t]);
    }
  }

  lemma CleanerIsHarmless(s: State, t: TaskId)
    requires Inv(s) && t in s.tasks && s.tasks[t].Cleaner? && StepCleaner(s, t) != s
    ensures Harmless(s, StepCleaner(s, t), t)
    ensures TaskOk(StepCleaner(s, t), t)
  {
    var Cleaner(room, socket, at) := s.tasks[t];
    var task' := StepCleaner(s, t).tasks[t];
    assert TaskOk(s, t);
    match at
    case Looking => MovingLeavesOthersBe(s, t, task');
    case Cleaning(x) =>
      assert ObjectOk(s, x);
      if socket in s.repo.objects[x].participants {
        ShrinkingLeavesOthersBe(s, t, task', x, WithoutSocket(s.repo.objects[x].participants, socket));
      } else {
        MovingLeavesOthersBe(s, t, task');
      }
    case Deleting => DeletingLeavesOthersBe(s, t, task', room);
    case Cleaned =>
  }

  lemma StepTaskKeepsInv(s: State, t: TaskId, ok: bool)
    requires Inv(s) && t in s.tasks && !s.tasks[t].Joiner?
    ensures Inv(StepTask(s, t, ok))
  {
    if StepTask(s, t, ok) != s {
      match s.tasks[t] {
        case Remover(_, _, _) => RemoverIsHarmless(s, t); RemoverStaysOk(s, t);
        case Revoker(_, _) => RevokerIsHarmless(s, t); RevokerStaysOk(s, t);
        case Cleaner(_, _, _) => CleanerIsHarmless(s, t);
      }
      StepKeepsInv(s, StepTask(s, t, ok), t);
    }
  }

  /** What a joiner must not do when it moves on: pass the database with an object it lost access to, pass the
      denial check while denied, or pass the flag while flagged. */
  ghost predicate MoveIsLawful(s: State, t: TaskId, at: JoinerAt)
    requires t in s.tasks && s.tasks[t].Joiner?
  {
    var Joiner(room, who, from) := s.tasks[t];
    && (Admitted(at) && !Admitted(from) && who.user.Some? ==> (room, who.user.value) !in s.directory.evicted)
    && (Admitted(at) && Admitted(from) ==> at.x == from.x)
    && (Admitted(at) ==> IsObjectOf(s, at.x, room))
    && (at.Adding? && who.user.Some? ==> at.x < |s.repo.objects| && who.user.value !in s.repo.objects[at.x].denied)
    && (at.RecheckingDenied? ==> !s.repo.objects[at.x].revoked)
    && (at.Adding? ==> from.RecheckingDenied?)
    && !from.Joined? && !at.Joined?
  }

  lemma LawfulMoveIsHarmless(s: State, t: TaskId, at: JoinerAt, locks: map<nat, TaskId>)
    requires Inv(s) && t in s.tasks && s.tasks[t].Joiner? && MoveIsLawful(s, t, at)
    requires forall x :: x in s.locks ==> x in locks && locks[x] == s.locks[x]
    ensures Harmless(s, MoveJoiner(s.(locks := locks), t, at), t)
  {
    var s' := MoveJoiner(s.(locks := locks), t, at);
    forall x: nat | x < |s'.repo.objects| ensures ObjectOk(s', x) {
      assert ObjectOk(s, x);
    }
    forall x: nat, user | x < |s.repo.objects| && (s.repo.objects[x].id, user) in s.directory.evicted
      ensures Clean(s, x, user) ==> Clean(s', x, user)
      ensures Settled(s, x, user) ==> Settled(s', x, user)
    {}
  }

  lemma CreatingIsHarmless(s: State, t: TaskId, ok: bool)
    requires Inv(s) && t in s.tasks && s.tasks[t].Joiner? && s.tasks[t].joinerAt.Creating?
    requires CanCreate(s.repo, s.tasks[t].room)
    ensures Harmless(s, StepJoiner(s, t, ok), t)
    ensures TaskOk(StepJoiner(s, t, ok), t)
  {
    var s' := StepJoiner(s, t, ok);
    var x := |s.repo.objects|;
    assert TaskOk(s, t);
    forall j | j in s.tasks && s.tasks[j].Joiner? ensures Admitted(s.tasks[j].joinerAt) ==> s.tasks[j].joinerAt.x != x {
      assert TaskOk(s, j);
    }
    forall y: nat | y < |s'.repo.objects| ensures ObjectOk(s', y) {
      if y < x { assert ObjectOk(s, y); }
    }
    forall user ensures Clean(s', x, user) {}
  }

  lemma AddingIsHarmless(s: State, t: TaskId, ok: bool)
    requires Inv(s) && t in s.tasks && s.tasks[t].Joiner? && s.tasks[t].joinerAt.Adding?
    ensures Harmless(s, StepJoiner(s, t, ok), t)
    ensures TaskOk(StepJoiner(s, t, ok), t)
  {
    var s' := StepJoiner(s, t, ok);
    var Joiner(room, who, at) := s.tasks[t];
    var x := at.x;
    assert TaskOk(s, t);
    forall y: nat | y < |s'.repo.objects| ensures ObjectOk(s', y) {
      assert ObjectOk(s, y);
      if y == x {
        JoinKeepsSharesAttached(s.repo.objects[x].participants, t, who);
      }
    }
    forall y: nat, user | y < |s.repo.objects| && (s.repo.objects[y].id, user) in s.directory.evicted
      ensures Clean(s, y, user) ==> Clean(s', y, user)
      ensures Settled(s, y, user) ==> Settled(s', y, user)
    {
      if y == x && who.user == Some(user) {
        assert JoinerOf(s, t, user);
      }
    }
    forall y: nat | ShutDown(s, y) ensures ShutDown(s', y) {}
  }

  /** A joiner moves on only where the checks let it. */
  lemma JoinerMovesLawfully(s: State, t: TaskId, ok: bool)
    requires Inv(s) && t in s.tasks && s.tasks[t].Joiner?
    ensures var Joiner(room, who, at) := s.tasks[t];
      var at' := JoinerGoesTo(s, room, who, at, ok);
      at' != at && !at'.Failed? && !at'.Joined? ==> MoveIsLawful(s, t, at')
  {
    var Joiner(room, who, at) := s.tasks[t];
    assert TaskOk(s, t);
    if who.user.Some? && (room, who.user.value) in s.directory.evicted {
      assert LockedOut(s.directory, room, who.user.value);
    }
  }

  lemma JoinerStaysOk(s: State, t: TaskId, ok: bool)
    requires Inv(s) && t in s.tasks && s.tasks[t].Joiner?
    requires var at := s.tasks[t].joinerAt; !at.Creating? && !at.Adding?
    requires StepJoiner(s, t, ok) != s && !StepJoiner(s, t, ok).tasks[t].joinerAt.Failed?
    ensures TaskOk(StepJoiner(s, t, ok), t)
  {
    assert TaskOk(s, t);
  }

  lemma JoinerMoveIsHarmless(s: State, t: TaskId, ok: bool)
    requires Inv(s) && t in s.tasks && s.tasks[t].Joiner?
    requires var at := s.tasks[t].joinerAt; !at.Creating? && !at.Adding?
    requires StepJoiner(s, t, ok) != s && !StepJoiner(s, t, ok).tasks[t].joinerAt.Failed?
    ensures Harmless(s, StepJoiner(s, t, ok), t)
  {
    JoinerMovesLawfully(s, t, ok);
    LawfulMoveIsHarmless(s, t, StepJoiner(s, t, ok).tasks[t].joinerAt, StepJoiner(s, t, ok).locks);
  }

  lemma StepJoinerKeepsInv(s: State, t: TaskId, ok: bool)
    requires Inv(s) && t in s.tasks && s.tasks[t].Joiner?
    ensures Inv(StepJoiner(s, t, ok))
  {
    var at := s.tasks[t].joinerAt;
    var s' := StepJoiner(s, t, ok);
    if s' != s {
      if s'.tasks[t].joinerAt.Failed? {
        GiveUpKeepsInv(s, t);
      } else {
        if at.Creating? {
          CreatingIsHarmless(s, t, ok);
        } else if at.Adding? {
          AddingIsHarmless(s, t, ok);
        } else {
          JoinerMoveIsHarmless(s, t, ok);
          JoinerStaysOk(s, t, ok);
        }
        StepKeepsInv(s, s', t);
      }
    }
  }

  lemma NextKeepsInv(s: State, e: Event)
    requires Inv(s)
    ensures Inv(Next(s, e))
  {
    match e
    case Transact(tx) => TransactKeepsInv(s, tx);
    case Spawn(t, task) => SpawnKeepsInv(s, t, task);
    case Step(t, ok) =>
      if t in s.tasks {
        if s.tasks[t].Joiner? { StepJoinerKeepsInv(s, t, ok); } else { StepTaskKeepsInv(s, t, ok); }
      }
    case Abort(t) => if MayAbort(s, t) { GiveUpKeepsInv(s, t); }
  }

  lemma {:induction false} RunKeepsInv(s: State, events: seq<Event>)
    requires Inv(s)
    ensures Inv(Run(s, events))
    decreases |events|
  {
    if events != [] {
      NextKeepsInv(s, events[0]);
      RunKeepsInv(Next(s, events[0]), events[1..]);
    }
  }

  // ---------------------------------------------------------------------------------------------------
  // What holds over whole runs

  ghost predicate Reachable(s: State) {
    exists events :: Run(START, events) == s
  }

  lemma {:induction false} RunAppend(s: State, before: seq<Event>, after: seq<Event>)
    ensures Run(s, before + after) == Run(Run(s, before), after)
    decreases |before|
  {
    if before == [] {
      assert [] + after == after;
    } else {
      assert (before + after)[1..] == before[1..] + after;
      RunAppend(Next(s, before[0]), before[1..], after);
    }
  }

  lemma ReachableIsInv(s: State)
    requires Reachable(s)
    ensures Inv(s)
  {
    var events :| Run(START, events) == s;
    RunKeepsInv(START, events);
  }

  predicate Finished(task: Task) {
    (task.Remover? && task.removerAt.Evicted?) || (task.Revoker? && task.revokerAt.Closed?)
  }

  lemma FinishedTaskStays(s: State, e: Event, t: TaskId)
    requires t in s.tasks && Finished(s.tasks[t])
    ensures t in Next(s, e).tasks && Next(s, e).tasks[t] == s.tasks[t]
  {}

  /** A finished eviction or revocation stays finished. */
  lemma {:induction false} FinishedTasksStay(s: State, events: seq<Event>, t: TaskId)
    requires t in s.tasks && Finished(s.tasks[t])
    ensures t in Run(s, events).tasks && Run(s, events).tasks[t] == s.tasks[t]
    decreases |events|
  {
    if events != [] {
      FinishedTaskStays(s, events[0], t);
      FinishedTasksStay(Next(s, events[0]), events[1..], t);
    }
  }

  lemma ObjectsKeepTheirIds(s: State, e: Event, x: nat)
    requires x < |s.repo.objects|
    ensures x < |Next(s, e).repo.objects| && Next(s, e).repo.objects[x].id == s.repo.objects[x].id
  {}

  ghost predicate NameExcludes(s: State, room: RoomId, user: UserId) {
    room in s.repo.rooms ==>
      s.repo.rooms[room] < |s.repo.objects| && NobodyOf(s.repo.objects[s.repo.rooms[room]].participants, user)
  }

  /** Once the eviction of a departed user from a call's room has finished, then in every continuation the
      object the repository holds under that id has no participant of that user. */
  lemma EvictionIsPermanent(s: State, events: seq<Event>, t: TaskId, room: RoomId, user: UserId)
    requires Reachable(s) && t in s.tasks && s.tasks[t] == Remover(room, user, Evicted)
    ensures NameExcludes(Run(s, events), room, user)
  {
    ReachableIsInv(s);
    RunKeepsInv(s, events);
    FinishedTasksStay(s, events, t);
    assert TaskOk(Run(s, events), t);
  }

  /** From the moment the repository revokes an id, no continuation maps it again. */
  lemma {:induction false} RevokedIdsStayUnmapped(s: State, events: seq<Event>, room: RoomId)
    requires Inv(s) && room in s.repo.revokedIds
    ensures room !in Run(s, events).repo.rooms
    decreases |events|
  {
    if events != [] {
      NextKeepsInv(s, events[0]);
      RevokedIdsStayUnmapped(Next(s, events[0]), events[1..], room);
    }
  }

  /** Once the close loop of a revocation has ended, the object it removed is empty in every continuation,
      whatever joiners still hold it. */
  lemma RevocationIsPermanent(s: State, events: seq<Event>, t: TaskId, room: RoomId, emptied: Option<nat>)
    requires Reachable(s) && t in s.tasks && s.tasks[t] == Revoker(room, Closed(emptied))
    ensures var s' := Run(s, events);
      && room !in s'.repo.rooms
      && (emptied.Some? ==> emptied.value < |s'.repo.objects| && s'.repo.objects[emptied.value].participants == map[])
  {
    ReachableIsInv(s);
    RunKeepsInv(s, events);
    FinishedTasksStay(s, events, t);
    assert TaskOk(Run(s, events), t);
  }

  /** In every reachable state each screen share's presenter is in the same room object, is no share, and has
      the same user; and a call's room never holds a guest. */
  lemma RoomsAreOrderly(s: State, x: nat, p: ParticipantId)
    requires Reachable(s) && x < |s.repo.objects| && p in s.repo.objects[x].participants
    ensures var who := s.repo.objects[x].participants[p];
      && (who.presenter.Some? ==> PresenterPresent(s.repo.objects[x].participants, who.user, who.presenter.value))
      && (s.repo.objects[x].id in s.directory.issued ==> who.user.Some?)
  {
    ReachableIsInv(s);
    assert ObjectOk(s, x);
    assert TaskOk(s, p);
  }

  /** A connection is in at most one room object. */
  lemma ConnectionIsInOneRoom(s: State, x: nat, y: nat, p: ParticipantId)
    requires Reachable(s) && x < |s.repo.objects| && y < |s.repo.objects|
    requires p in s.repo.objects[x].participants && p in s.repo.objects[y].participants
    ensures x == y
  {
    ReachableIsInv(s);
    assert ObjectOk(s, x) && ObjectOk(s, y);
  }

  // ---------------------------------------------------------------------------------------------------
  // Permitted joins succeed

  function Drive(s: State, t: TaskId, steps: nat): State
    decreases steps
  {
    if steps == 0 then s else Drive(Next(s, Step(t, true)), t, steps - 1)
  }

  lemma ReachNext(s: State, e: Event)
    requires Reachable(s)
    ensures Reachable(Next(s, e))
  {
    var events :| Run(START, events) == s;
    RunAppend(START, events, [e]);
    assert Run(Next(s, e), []) == Next(s, e);
    assert Run(START, events + [e]) == Next(s, e);
  }

  lemma {:induction false} ReachDrive(s: State, t: TaskId, steps: nat)
    requires Reachable(s)
    ensures Reachable(Drive(s, t, steps))
    decreases steps
  {
    if steps > 0 {
      ReachNext(s, Step(t, true));
      ReachDrive(Next(s, Step(t, true)), t, steps - 1);
    }
  }

  /** `s` lets the connection in: its room object is live and neither marker stands against it. */
  predicate LetsIn(s: State, who: Participant, x: nat) {
    && x < |s.repo.objects| && !IsRevoked(s, x) && !IsDenied(s, x, who.user)
    && (who.presenter.Some? ==> PresenterPresent(s.repo.objects[x].participants, who.user, who.presenter.value))
  }

  function NextCheck(at: JoinerAt): JoinerAt {
    match at
    case CheckingRevoked(x) => CheckingDenied(x)
    case CheckingDenied(x) => CheckingPresenter(x)
    case CheckingPresenter(x) => SettingUpPeer(x)
    case SettingUpPeer(x) => RecheckingRevoked(x)
    case RecheckingRevoked(x) => RecheckingDenied(x)
    case RecheckingDenied(x) => Adding(x)
    case _ => at
  }

  /** Task `t` alone, with every outcome favourable, takes `s` to `s'`. */
  ghost predicate Leads(s: State, t: TaskId, s': State) {
    exists steps :: Drive(s, t, steps) == s'
  }

  lemma LeadsByStep(s: State, t: TaskId, s': State)
    requires Next(s, Step(t, true)) == s'
    ensures Leads(s, t, s')
  {
    var n := 1;
    assert Drive(s', t, n - 1) == s';
    assert Drive(s, t, n) == s';
  }

  lemma {:induction false} DriveAppend(s: State, t: TaskId, m: nat, n: nat)
    ensures Drive(Drive(s, t, m), t, n) == Drive(s, t, m + n)
    decreases m
  {
    if m > 0 {
      DriveAppend(Next(s, Step(t, true)), t, m - 1, n);
    }
  }

  lemma LeadsOn(s: State, t: TaskId, s': State, s'': State)
    requires Leads(s, t, s') && Leads(s', t, s'')
    ensures Leads(s, t, s'')
  {
    var m :| Drive(s, t, m) == s';
    var n :| Drive(s', t, n) == s'';
    DriveAppend(s, t, m, n);
  }

  lemma CheckPasses(s: State, t: TaskId, at: JoinerAt)
    requires t in s.tasks && s.tasks[t].Joiner?
    requires HoldsLock(at) && !at.Adding? && LetsIn(s, s.tasks[t].who, at.x)
    ensures Leads(MoveJoiner(s, t, at), t, MoveJoiner(s, t, NextCheck(at)))
  {
    var here := MoveJoiner(s, t, at);
    assert JoinerGoesTo(here, s.tasks[t].room, s.tasks[t].who, at, true) == NextCheck(at);
    assert StepJoiner(here, t, true) == MoveJoiner(here, t, NextCheck(at)) == MoveJoiner(s, t, NextCheck(at));
    LeadsByStep(here, t, MoveJoiner(s, t, NextCheck(at)));
  }

  lemma {:induction false} ChecksPass(s: State, t: TaskId, at: JoinerAt)
    requires t in s.tasks && s.tasks[t].Joiner?
    requires HoldsLock(at) && LetsIn(s, s.tasks[t].who, at.x)
    ensures Leads(MoveJoiner(s, t, at), t, MoveJoiner(s, t, Adding(at.x)))
    decreases ChecksLeft(at)
  {
    if at.Adding? {
      assert Drive(MoveJoiner(s, t, at), t, 0) == MoveJoiner(s, t, at);
    } else {
      CheckPasses(s, t, at);
      ChecksPass(s, t, NextCheck(at));
      LeadsOn(MoveJoiner(s, t, at), t, MoveJoiner(s, t, NextCheck(at)), MoveJoiner(s, t, Adding(at.x)));
    }
  }

  function ChecksLeft(at: JoinerAt): nat {
    match at
    case CheckingRevoked(_) => 6
    case CheckingDenied(_) => 5
    case CheckingPresenter(_) => 4
    case SettingUpPeer(_) => 3
    case RecheckingRevoked(_) => 2
    case RecheckingDenied(_) => 1
    case _ => 0
  }

  function Admit(s: State, t: TaskId, x: nat): State
    requires t in s.tasks && s.tasks[t].Joiner? && x < |s.repo.objects|
  {
    var participants := s.repo.objects[x].participants[t := s.tasks[t].who];
    MoveJoiner(s.(repo := WithParticipants(s.repo, x, participants)), t, Joined(x))
  }

  /** A joiner past the database gets in when the room is free, not revoked, and does not deny its user. */
  lemma AdmittedJoinerGetsIn(s: State, t: TaskId, x: nat)
    requires t in s.tasks && s.tasks[t].Joiner? && s.tasks[t].joinerAt == AwaitingLock(x)
    requires x !in s.locks && LetsIn(s, s.tasks[t].who, x)
    ensures Leads(s, t, Admit(s, t, x))
  {
    var locked := s.(locks := s.locks[x := t]);
    var first := MoveJoiner(locked, t, CheckingRevoked(x));
    LeadsByStep(s, t, first);
    ChecksPass(locked, t, CheckingRevoked(x));
    var adding := MoveJoiner(locked, t, Adding(x));
    LeadsOn(s, t, first, adding);
    assert s.locks[x := t] - {x} == s.locks;
    assert StepJoiner(adding, t, true).tasks == Admit(s, t, x).tasks;
    LeadsByStep(adding, t, Admit(s, t, x));
    LeadsOn(s, t, adding, Admit(s, t, x));
  }

  /** The repository a joiner finds once it has made sure that its room exists. */
  function EnsureRoom(s: State, room: RoomId): State {
    if room in s.repo.rooms then s else s.(repo := AfterCreate(s.repo, room))
  }

  /** How the first authorization lets a joiner pass. */
  function AdmissionOf(s: State, t: TaskId): Admission
    requires t in s.tasks && s.tasks[t].Joiner?
  {
    if Authorize(s.directory, s.tasks[t].room, s.tasks[t].who.user) == Legacy then AsVisitor else AsMember
  }

  /** A joiner that has passed the database gets to look up its room, creating it if there is none. */
  lemma RoomIsEnsured(s: State, t: TaskId, admission: Admission, s1: State)
    requires WellFormed(s.repo) && t in s.tasks && s.tasks[t].Joiner?
    requires s.tasks[t].room !in s.repo.revokedIds && s1 == MoveJoiner(s, t, CheckingExistence(admission))
    ensures Leads(s1, t, MoveJoiner(EnsureRoom(s, s.tasks[t].room), t, Getting(admission)))
  {
    var room := s.tasks[t].room;
    var s' := EnsureRoom(s, room);
    if room !in s.repo.rooms {
      var s2 := MoveJoiner(s, t, Creating(admission));
      assert StepJoiner(s1, t, true) == s2;
      LeadsByStep(s1, t, s2);
      assert StepJoiner(s2, t, true) == MoveJoiner(s', t, Getting(admission));
      LeadsByStep(s2, t, MoveJoiner(s', t, Getting(admission)));
      LeadsOn(s1, t, s2, MoveJoiner(s', t, Getting(admission)));
    } else {
      assert StepJoiner(s1, t, true) == MoveJoiner(s', t, Getting(admission));
      LeadsByStep(s1, t, MoveJoiner(s', t, Getting(admission)));
    }
  }

  lemma JoinerReachesLock(s: State, t: TaskId)
    requires WellFormed(s.repo) && t in s.tasks && s.tasks[t].Joiner? && s.tasks[t].joinerAt == Authorizing
    requires Authorize(s.directory, s.tasks[t].room, s.tasks[t].who.user) != Denied
    requires s.tasks[t].room !in s.repo.revokedIds
    ensures var s' := EnsureRoom(s, s.tasks[t].room);
      Leads(s, t, MoveJoiner(s', t, AwaitingLock(s'.repo.rooms[s.tasks[t].room])))
  {
    var room, admission := s.tasks[t].room, AdmissionOf(s, t);
    var s' := EnsureRoom(s, room);
    var x := s'.repo.rooms[room];
    var s1 := MoveJoiner(s, t, CheckingExistence(admission));
    LeadsByStep(s, t, s1);
    RoomIsEnsured(s, t, admission, s1);
    LeadsOn(s, t, s1, MoveJoiner(s', t, Getting(admission)));
    if admission == AsMember { GetAndReauthorize(s', t, room, x); } else { GetAsVisitor(s', t, room, x); }
    LeadsOn(s, t, MoveJoiner(s', t, Getting(admission)), MoveJoiner(s', t, AwaitingLock(x)));
  }

  lemma GetAndReauthorize(s: State, t: TaskId, room: RoomId, x: nat)
    requires t in s.tasks && s.tasks[t].Joiner? && s.tasks[t].room == room
    requires room in s.repo.rooms && s.repo.rooms[room] == x
    requires Authorize(s.directory, room, s.tasks[t].who.user) == Authorized
    ensures Leads(MoveJoiner(s, t, Getting(AsMember)), t, MoveJoiner(s, t, AwaitingLock(x)))
  {
    var getting := MoveJoiner(s, t, Getting(AsMember));
    var again := MoveJoiner(s, t, Reauthorizing(x));
    assert StepJoiner(getting, t, true) == again;
    LeadsByStep(getting, t, again);
    assert StepJoiner(again, t, true) == MoveJoiner(s, t, AwaitingLock(x));
    LeadsByStep(again, t, MoveJoiner(s, t, AwaitingLock(x)));
    LeadsOn(getting, t, again, MoveJoiner(s, t, AwaitingLock(x)));
  }

  lemma GetAsVisitor(s: State, t: TaskId, room: RoomId, x: nat)
    requires t in s.tasks && s.tasks[t].Joiner? && s.tasks[t].room == room
    requires room in s.repo.rooms && s.repo.rooms[room] == x
    ensures Leads(MoveJoiner(s, t, Getting(AsVisitor)), t, MoveJoiner(s, t, AwaitingLock(x)))
  {
    var getting := MoveJoiner(s, t, Getting(AsVisitor));
    assert StepJoiner(getting, t, true) == MoveJoiner(s, t, AwaitingLock(x));
    LeadsByStep(getting, t, MoveJoiner(s, t, AwaitingLock(x)));
  }

  /** The checks refuse nobody they should not: an accepted member of a live call, or a visitor whom the host of a room
      that is no call's admits, ends up in the object their room names when they run undisturbed. */
  lemma PermittedJoinSucceeds(s: State, t: TaskId)
    requires WellFormed(s.repo) && t in s.tasks && s.tasks[t].Joiner? && s.tasks[t].joinerAt == Authorizing
    requires Authorize(s.directory, s.tasks[t].room, s.tasks[t].who.user) != Denied
    requires s.tasks[t].room !in s.repo.revokedIds
    requires var s' := EnsureRoom(s, s.tasks[t].room); var x := s'.repo.rooms[s.tasks[t].room];
      x !in s.locks && LetsIn(s', s.tasks[t].who, x)
    ensures var s' := EnsureRoom(s, s.tasks[t].room);
      Leads(s, t, Admit(s', t, s'.repo.rooms[s.tasks[t].room]))
  {
    JoinerReachesLock(s, t);
    var s' := EnsureRoom(s, s.tasks[t].room);
    var x := s'.repo.rooms[s.tasks[t].room];
    var waiting := MoveJoiner(s', t, AwaitingLock(x));
    AdmittedJoinerGetsIn(waiting, t, x);
    assert Admit(waiting, t, x) == Admit(s', t, x);
    LeadsOn(s, t, waiting, Admit(s', t, x));
  }

  lemma ReachLeads(s: State, t: TaskId, s': State)
    requires Reachable(s) && Leads(s, t, s')
    ensures Reachable(s')
  {
    var steps :| Drive(s, t, steps) == s';
    ReachDrive(s, t, steps);
  }
}
