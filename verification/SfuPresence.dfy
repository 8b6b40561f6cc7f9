/** Who comes into a room object and who goes out of it: each by one kind of step only, which over whole runs leaves
    its trace. */
module SfuPresence {
  import opened Identifiers
  import opened CallDirectory
  import opened SfuRoom
  import opened SfuRepository
  import opened SfuAccess

  ghost predicate Inside(s: State, x: nat, p: ParticipantId) {
    x < |s.repo.objects| && p in s.repo.objects[x].participants
  }

  // ---------------------------------------------------------------------------------------------------
  // Going

  /** The event is a step, in the free object, of the eviction of the connection's own user, of the cleanup of the
      connection or its presenter, or of the closing of the object. */
  ghost predicate TakesOut(s: State, e: Event, x: nat, p: ParticipantId)
    requires Inside(s, x, p)
  {
    var who := s.repo.objects[x].participants[p];
    && e.Step? && e.task in s.tasks && x !in s.locks
    && match s.tasks[e.task]
       case Joiner(_, _, _) => false
       case Remover(_, user, at) => at == Evicting(x) && who.user == Some(user)
       case Revoker(_, at) => at == Closing(x)
       case Cleaner(_, socket, at) =>
         at == Cleaning(x) && Inside(s, x, socket) && (p == socket || who.presenter == Some(socket))
  }

  lemma JoinersTakeNobodyOut(s: State, t: TaskId, ok: bool, x: nat, p: ParticipantId)
    requires Inv(s) && Inside(s, x, p) && t in s.tasks && s.tasks[t].Joiner?
    ensures Inside(StepJoiner(s, t, ok), x, p)
    ensures StepJoiner(s, t, ok).repo.objects[x].participants[p] == s.repo.objects[x].participants[p]
  {
    assert ObjectOk(s, x);
  }

  lemma RemoversTakeOut(s: State, t: TaskId, x: nat, p: ParticipantId)
    requires Inv(s) && Inside(s, x, p) && t in s.tasks && s.tasks[t].Remover?
    ensures !Inside(StepRemover(s, t), x, p) <==> TakesOut(s, Step(t, true), x, p)
    ensures Inside(StepRemover(s, t), x, p) ==>
      StepRemover(s, t).repo.objects[x].participants[p] == s.repo.objects[x].participants[p]
  {}

  lemma RevokersTakeOut(s: State, t: TaskId, x: nat, p: ParticipantId)
    requires Inv(s) && Inside(s, x, p) && t in s.tasks && s.tasks[t].Revoker?
    ensures !Inside(StepRevoker(s, t), x, p) <==> TakesOut(s, Step(t, true), x, p)
    ensures Inside(StepRevoker(s, t), x, p) ==>
      StepRevoker(s, t).repo.objects[x].participants[p] == s.repo.objects[x].participants[p]
  {}

  lemma CleanersTakeOut(s: State, t: TaskId, x: nat, p: ParticipantId)
    requires Inv(s) && Inside(s, x, p) && t in s.tasks && s.tasks[t].Cleaner?
    ensures !Inside(StepCleaner(s, t), x, p) <==> TakesOut(s, Step(t, true), x, p)
    ensures Inside(StepCleaner(s, t), x, p) ==>
      StepCleaner(s, t).repo.objects[x].participants[p] == s.repo.objects[x].participants[p]
  {}

  /** In every reachable state a connection leaves its object exactly by such a step, and is unchanged by all others.
      The step's task is about the object's own room; an eviction is that of a departed user. */
  lemma LeavesExactly(s: State, e: Event, x: nat, p: ParticipantId)
    requires Reachable(s) && Inside(s, x, p)
    ensures !Inside(Next(s, e), x, p) <==> TakesOut(s, e, x, p)
    ensures Inside(Next(s, e), x, p) ==>
      Next(s, e).repo.objects[x].participants[p] == s.repo.objects[x].participants[p]
    ensures TakesOut(s, e, x, p) ==>
      && s.tasks[e.task].room == s.repo.objects[x].id
      && (s.tasks[e.task].Remover? ==> (s.repo.objects[x].id, s.tasks[e.task].user) in s.directory.evicted)
      && (s.tasks[e.task].Revoker? ==> s.repo.objects[x].id in s.repo.revokedIds)
  {
    ReachableIsInv(s);
    if e.Step? && e.task in s.tasks {
      assert TaskOk(s, e.task);
      match s.tasks[e.task]
      case Joiner(_, _, _) => JoinersTakeNobodyOut(s, e.task, e.ok, x, p);
      case Remover(_, _, _) => RemoversTakeOut(s, e.task, x, p);
      case Revoker(_, _) => RevokersTakeOut(s, e.task, x, p);
      case Cleaner(_, _, _) => CleanersTakeOut(s, e.task, x, p);
    }
  }

  /** In particular an eviction takes nobody else out of any object. */
  lemma EvictionSparesOthers(s: State, t: TaskId, ok: bool, user: UserId, x: nat, p: ParticipantId)
    requires Reachable(s) && t in s.tasks && s.tasks[t].Remover? && s.tasks[t].user == user
    requires Inside(s, x, p) && s.repo.objects[x].participants[p].user != Some(user)
    ensures Inside(Next(s, Step(t, ok)), x, p)
    ensures Next(s, Step(t, ok)).repo.objects[x].participants[p] == s.repo.objects[x].participants[p]
  {
    LeavesExactly(s, Step(t, ok), x, p);
  }

  /** Task `t` has evicted the user of the connection `p`, cleaned it or its presenter up, or closed the object. */
  ghost predicate Responsible(s: State, t: TaskId, x: nat, p: ParticipantId, who: Participant) {
    && t in s.tasks && x < |s.repo.objects|
    && match s.tasks[t]
       case Joiner(_, _, _) => false
       case Remover(room, user, at) => room == s.repo.objects[x].id && at.Evicted? && who.user == Some(user)
       case Revoker(room, at) => room == s.repo.objects[x].id && at == Closed(Some(x))
       case Cleaner(room, socket, at) =>
         room == s.repo.objects[x].id && (at.Deleting? || at.Cleaned?) && (p == socket || who.presenter == Some(socket))
  }

  /** What has evicted, closed or cleaned up is as it was after any event, but that a cleanup may delete the id. */
  lemma DoneTasksStay(s: State, e: Event, t: TaskId)
    requires t in s.tasks && !s.tasks[t].Joiner?
    requires Finished(s.tasks[t])
             || (s.tasks[t].Cleaner? && (s.tasks[t].cleanerAt.Deleting? || s.tasks[t].cleanerAt.Cleaned?))
    ensures t in Next(s, e).tasks
    ensures Next(s, e).tasks[t] == s.tasks[t]
            || (s.tasks[t].Cleaner? && Next(s, e).tasks[t] == s.tasks[t].(cleanerAt := Cleaned))
  {}

  lemma ResponsibleNext(s: State, e: Event, t: TaskId, x: nat, p: ParticipantId, who: Participant)
    requires Responsible(s, t, x, p, who)
    ensures Responsible(Next(s, e), t, x, p, who)
  {
    ObjectsKeepTheirIds(s, e, x);
    DoneTasksStay(s, e, t);
  }

  lemma {:induction false} ResponsibleStay(s: State, events: seq<Event>, t: TaskId, x: nat, p: ParticipantId,
                                           who: Participant)
    requires Responsible(s, t, x, p, who)
    ensures Responsible(Run(s, events), t, x, p, who)
    decreases |events|
  {
    if events != [] {
      ResponsibleNext(s, events[0], t, x, p, who);
      ResponsibleStay(Next(s, events[0]), events[1..], t, x, p, who);
    }
  }

  lemma TakingOutIsResponsible(s: State, e: Event, x: nat, p: ParticipantId)
    requires Inv(s) && Inside(s, x, p) && TakesOut(s, e, x, p)
    ensures Responsible(Next(s, e), e.task, x, p, s.repo.objects[x].participants[p])
  {
    assert TaskOk(s, e.task);
  }

  /** Over every run: a connection that is no longer in its object has met the eviction of its user, its own or its
      presenter's cleanup, or the closing of the object. Whoever met none of them is there unchanged. */
  lemma {:induction false} WhoeverLeftMetARemoval(s: State, events: seq<Event>, x: nat, p: ParticipantId)
    requires Reachable(s) && Inside(s, x, p)
    requires var who := s.repo.objects[x].participants[p];
      forall t :: !Responsible(Run(s, events), t, x, p, who)
    ensures Inside(Run(s, events), x, p)
    ensures Run(s, events).repo.objects[x].participants[p] == s.repo.objects[x].participants[p]
    decreases |events|
  {
    if events != [] {
      var e := events[0];
      assert Run(s, events) == Run(Next(s, e), events[1..]);
      LeavesExactly(s, e, x, p);
      ReachableIsInv(s);
      if TakesOut(s, e, x, p) {
        TakingOutIsResponsible(s, e, x, p);
        ResponsibleStay(Next(s, e), events[1..], e.task, x, p, s.repo.objects[x].participants[p]);
        assert false;
      }
      ReachNext(s, e);
      WhoeverLeftMetARemoval(Next(s, e), events[1..], x, p);
    }
  }

  // ---------------------------------------------------------------------------------------------------
  // Coming

  lemma JoinersEnter(s: State, t: TaskId, ok: bool, x: nat, p: ParticipantId)
    requires Inv(s) && !Inside(s, x, p) && t in s.tasks && s.tasks[t].Joiner?
    ensures Inside(StepJoiner(s, t, ok), x, p) <==> t == p && s.tasks[p].joinerAt == Adding(x)
    ensures Inside(StepJoiner(s, t, ok), x, p) ==>
      StepJoiner(s, t, ok).repo.objects[x].participants[p] == s.tasks[p].who
  {
    assert TaskOk(s, t);
  }

  lemma OthersLetNobodyIn(s: State, t: TaskId, ok: bool, x: nat, p: ParticipantId)
    requires Inv(s) && !Inside(s, x, p) && t in s.tasks && !s.tasks[t].Joiner?
    ensures !Inside(StepTask(s, t, ok), x, p)
  {}

  /** In every reachable state a connection gets into an object exactly by the last step of its own join. */
  lemma EntersExactly(s: State, e: Event, x: nat, p: ParticipantId)
    requires Reachable(s) && !Inside(s, x, p)
    ensures Inside(Next(s, e), x, p) <==>
      e.Step? && e.task == p && p in s.tasks && s.tasks[p].Joiner? && s.tasks[p].joinerAt == Adding(x)
    ensures Inside(Next(s, e), x, p) ==> Next(s, e).repo.objects[x].participants[p] == s.tasks[p].who
  {
    ReachableIsInv(s);
    if e.Step? && e.task in s.tasks {
      if s.tasks[e.task].Joiner? {
        JoinersEnter(s, e.task, e.ok, x, p);
      } else {
        OthersLetNobodyIn(s, e.task, e.ok, x, p);
      }
    }
  }

  /** A joiner inside the lock is refused exactly when the flag is up at either reading of it, its user is denied at
      either reading, its presenter is not there, or the peer connection cannot be built. */
  lemma ChecksRefuseExactly(s: State, t: TaskId, ok: bool)
    requires Reachable(s) && t in s.tasks && s.tasks[t].Joiner? && HoldsLock(s.tasks[t].joinerAt)
    ensures s.tasks[t].joinerAt.x < |s.repo.objects|
    ensures var at, who := s.tasks[t].joinerAt, s.tasks[t].who;
      var view := s.repo.objects[at.x];
      Next(s, Step(t, ok)).tasks[t].joinerAt == Failed <==>
        || ((at.CheckingRevoked? || at.RecheckingRevoked?) && view.revoked)
        || ((at.CheckingDenied? || at.RecheckingDenied?) && who.user.Some? && who.user.value in view.denied)
        || (at.CheckingPresenter? && who.presenter.Some?
            && !PresenterPresent(view.participants, who.user, who.presenter.value))
        || (at.SettingUpPeer? && !ok)
  {
    ReachableIsInv(s);
    assert TaskOk(s, t);
  }

  /** The user accepted the call; if they no longer have, a departure or a deletion has taken it from them. */
  predicate HadAccepted(d: Directory, room: RoomId, user: UserId) {
    || (room in d.sessions && user in d.sessions[room].members && d.sessions[room].members[user] == Accepted)
    || (room, user) in d.evicted
    || room in d.revoked
  }

  lemma AcceptanceIsKept(d: Directory, tx: Transaction, room: RoomId, user: UserId)
    requires Consistent(d) && HadAccepted(d, room, user)
    ensures HadAccepted(CallDirectory.Apply(d, tx), room, user)
  {
    var d' := CallDirectory.Apply(d, tx);
    match tx
    case DepartGroup(c, u) =>
      if d' != d && room in d.sessions && d.sessions[room].conversation == c {
        assert room in RoomsOf(d, c);
      }
    case DeleteGroup(c) =>
      if d' != d && room in d.sessions && d.sessions[room].conversation == c {
        assert room in RoomsOf(d, c);
      }
    case _ => OtherTransactionsKeepAnswers(d, tx, room, user);
  }

  lemma OtherTransactionsKeepAnswers(d: Directory, tx: Transaction, room: RoomId, user: UserId)
    requires Consistent(d) && HadAccepted(d, room, user) && !tx.DepartGroup? && !tx.DeleteGroup?
    ensures HadAccepted(CallDirectory.Apply(d, tx), room, user)
  {}

  /** Every joiner of a call that got past the database, or into the room, is a user who had accepted it. */
  ghost predicate JoinersHadAccepted(s: State) {
    forall t | t in s.tasks && s.tasks[t].Joiner? && s.tasks[t].room in s.directory.issued
               && (Admitted(s.tasks[t].joinerAt) || s.tasks[t].joinerAt.Joined?) ::
      s.tasks[t].who.user.Some? && HadAccepted(s.directory, s.tasks[t].room, s.tasks[t].who.user.value)
  }

  /** A joiner that gets past the database with a call's room has just been authorized. */
  lemma PassingHasAccepted(s: State, t: TaskId, ok: bool)
    requires Inv(s) && JoinersHadAccepted(s) && t in s.tasks && s.tasks[t].Joiner?
    requires s.tasks[t].room in s.directory.issued
    requires var at := JoinerGoesTo(s, s.tasks[t].room, s.tasks[t].who, s.tasks[t].joinerAt, ok);
      Admitted(at) || at.Joined?
    ensures s.tasks[t].who.user.Some? && HadAccepted(s.directory, s.tasks[t].room, s.tasks[t].who.user.value)
  {
    assert TaskOk(s, t);
  }

  lemma JoinerMovesAlone(s: State, t: TaskId, ok: bool)
    requires t in s.tasks && s.tasks[t].Joiner?
    ensures var s' := StepJoiner(s, t, ok);
      && s'.directory == s.directory && s'.tasks.Keys == s.tasks.Keys
      && (forall o | o in s.tasks && o != t :: s'.tasks[o] == s.tasks[o])
      && s'.tasks[t] ==
           s.tasks[t].(joinerAt := JoinerGoesTo(s, s.tasks[t].room, s.tasks[t].who, s.tasks[t].joinerAt, ok))
  {}

  lemma StepKeepsAccepted(s: State, t: TaskId, ok: bool)
    requires Inv(s) && JoinersHadAccepted(s) && t in s.tasks && s.tasks[t].Joiner?
    ensures JoinersHadAccepted(StepJoiner(s, t, ok))
  {
    JoinerMovesAlone(s, t, ok);
    var at := JoinerGoesTo(s, s.tasks[t].room, s.tasks[t].who, s.tasks[t].joinerAt, ok);
    if s.tasks[t].room in s.directory.issued && (Admitted(at) || at.Joined?) { PassingHasAccepted(s, t, ok); }
  }

  lemma TransactionKeepsAccepted(s: State, tx: Transaction)
    requires Inv(s) && JoinersHadAccepted(s)
    ensures JoinersHadAccepted(Next(s, Transact(tx)))
  {
    var s' := Next(s, Transact(tx));
    forall t | t in s'.tasks && s'.tasks[t].Joiner? && s'.tasks[t].room in s'.directory.issued
               && (Admitted(s'.tasks[t].joinerAt) || s'.tasks[t].joinerAt.Joined?)
      ensures s'.tasks[t].who.user.Some? && HadAccepted(s'.directory, s'.tasks[t].room, s'.tasks[t].who.user.value)
    {
      assert s.tasks[t].room in s.directory.issued;
      AcceptanceIsKept(s.directory, tx, s.tasks[t].room, s.tasks[t].who.user.value);
    }
  }

  lemma OtherTasksKeepAccepted(s: State, t: TaskId, ok: bool)
    requires Inv(s) && JoinersHadAccepted(s) && t in s.tasks && !s.tasks[t].Joiner?
    ensures JoinersHadAccepted(StepTask(s, t, ok))
  {}

  lemma NextKeepsAccepted(s: State, e: Event)
    requires Inv(s) && JoinersHadAccepted(s)
    ensures JoinersHadAccepted(Next(s, e))
  {
    match e
    case Transact(tx) => TransactionKeepsAccepted(s, tx);
    case Step(t, ok) =>
      if t in s.tasks {
        if s.tasks[t].Joiner? { StepKeepsAccepted(s, t, ok); } else { OtherTasksKeepAccepted(s, t, ok); }
      }
    case _ =>
  }

  lemma {:induction false} RunKeepsAccepted(s: State, events: seq<Event>)
    requires Inv(s) && JoinersHadAccepted(s)
    ensures JoinersHadAccepted(Run(s, events))
    decreases |events|
  {
    if events != [] {
      NextKeepsInv(s, events[0]);
      NextKeepsAccepted(s, events[0]);
      RunKeepsAccepted(Next(s, events[0]), events[1..]);
    }
  }

  /** In every reachable state everybody in an object of a call's room is a user who accepted that call. */
  lemma InsidersHadAccepted(s: State, x: nat, p: ParticipantId)
    requires Reachable(s) && Inside(s, x, p) && s.repo.objects[x].id in s.directory.issued
    ensures var who := s.repo.objects[x].participants[p];
      who.user.Some? && HadAccepted(s.directory, s.repo.objects[x].id, who.user.value)
  {
    var events :| Run(START, events) == s;
    RunKeepsAccepted(START, events);
    ReachableIsInv(s);
    assert ObjectOk(s, x);
  }

  // ---------------------------------------------------------------------------------------------------
  // Names

  /** An id loses its object exactly by a cleanup's deletion or a revocation, and gets one, a new one, exactly by the
      creating step of a joiner of the room. */
  lemma NamesChangeExactly(s: State, e: Event, room: RoomId)
    requires Reachable(s)
    ensures room in s.repo.rooms && room !in Next(s, e).repo.rooms <==>
      room in s.repo.rooms && e.Step? && e.task in s.tasks
      && (s.tasks[e.task] == Revoker(room, Revoking)
          || (s.tasks[e.task].Cleaner? && s.tasks[e.task].room == room && s.tasks[e.task].cleanerAt.Deleting?))
    ensures room !in s.repo.rooms && room in Next(s, e).repo.rooms <==>
      room !in s.repo.rooms && room !in s.repo.revokedIds && e.Step? && e.task in s.tasks
      && s.tasks[e.task].Joiner? && s.tasks[e.task].room == room && s.tasks[e.task].joinerAt.Creating?
    ensures room in Next(s, e).repo.rooms ==>
      Next(s, e).repo.rooms[room] == if room in s.repo.rooms then s.repo.rooms[room] else |s.repo.objects|
  {}

  /** A cleanup goes on to delete the id exactly when it has taken its connection out and left the object empty. */
  lemma OnlyEmptiedObjectsAreDeleted(s: State, t: TaskId, ok: bool, x: nat)
    requires Reachable(s) && t in s.tasks && s.tasks[t].Cleaner? && s.tasks[t].cleanerAt == Cleaning(x)
    ensures Next(s, Step(t, ok)).tasks[t].cleanerAt == Deleting <==>
      x !in s.locks && Inside(s, x, s.tasks[t].socket)
      && Next(s, Step(t, ok)).repo.objects[x].participants == map[]
    ensures x !in s.locks ==>
      Next(s, Step(t, ok)).tasks[t].cleanerAt.Deleting? || Next(s, Step(t, ok)).tasks[t].cleanerAt.Cleaned?
  {
    ReachableIsInv(s);
    assert TaskOk(s, t);
  }

  lemma JoinersMarkNothing(s: State, t: TaskId, ok: bool, x: nat)
    requires t in s.tasks && s.tasks[t].Joiner? && x < |s.repo.objects|
    ensures x < |StepJoiner(s, t, ok).repo.objects|
    ensures StepJoiner(s, t, ok).repo.objects[x].revoked == s.repo.objects[x].revoked
    ensures StepJoiner(s, t, ok).repo.objects[x].denied == s.repo.objects[x].denied
  {}

  lemma CleanersMarkNothing(s: State, t: TaskId, x: nat)
    requires t in s.tasks && s.tasks[t].Cleaner? && x < |s.repo.objects|
    ensures x < |StepCleaner(s, t).repo.objects|
    ensures StepCleaner(s, t).repo.objects[x].revoked == s.repo.objects[x].revoked
    ensures StepCleaner(s, t).repo.objects[x].denied == s.repo.objects[x].denied
  {}

  lemma RemoversMark(s: State, t: TaskId, x: nat, user: UserId)
    requires Inv(s) && t in s.tasks && s.tasks[t].Remover? && x < |s.repo.objects|
    ensures x < |StepRemover(s, t).repo.objects|
    ensures StepRemover(s, t).repo.objects[x].revoked == s.repo.objects[x].revoked
    ensures user in StepRemover(s, t).repo.objects[x].denied <==>
      user in s.repo.objects[x].denied || s.tasks[t] == Remover(s.repo.objects[x].id, user, Marking(x))
  {
    assert TaskOk(s, t);
  }

  lemma RevokersMark(s: State, t: TaskId, x: nat)
    requires Inv(s) && t in s.tasks && s.tasks[t].Revoker? && x < |s.repo.objects|
    ensures x < |StepRevoker(s, t).repo.objects|
    ensures StepRevoker(s, t).repo.objects[x].denied == s.repo.objects[x].denied
    ensures StepRevoker(s, t).repo.objects[x].revoked <==>
      s.repo.objects[x].revoked || (s.tasks[t].revokerAt.Revoking? && Names(s, s.tasks[t].room, x))
    ensures Names(s, s.tasks[t].room, x) ==> s.repo.objects[x].id == s.tasks[t].room
  {}

  predicate Names(s: State, room: RoomId, x: nat) {
    room in s.repo.rooms && s.repo.rooms[room] == x
  }

  /** An object is flagged exactly by the revocation of the id that names it, and a user is marked on an object exactly
      by the marking step of that user's own eviction; neither is ever taken back. */
  lemma MarkersChangeExactly(s: State, e: Event, x: nat, user: UserId)
    requires Reachable(s) && x < |s.repo.objects|
    ensures x < |Next(s, e).repo.objects|
    ensures Next(s, e).repo.objects[x].revoked <==>
      s.repo.objects[x].revoked
      || (e.Step? && e.task in s.tasks && s.tasks[e.task] == Revoker(s.repo.objects[x].id, Revoking)
          && Names(s, s.repo.objects[x].id, x))
    ensures user in Next(s, e).repo.objects[x].denied <==>
      user in s.repo.objects[x].denied
      || (e.Step? && e.task in s.tasks && s.tasks[e.task] == Remover(s.repo.objects[x].id, user, Marking(x)))
  {
    ReachableIsInv(s);
    if e.Step? && e.task in s.tasks {
      match s.tasks[e.task]
      case Joiner(_, _, _) => JoinersMarkNothing(s, e.task, e.ok, x);
      case Cleaner(_, _, _) => CleanersMarkNothing(s, e.task, x);
      case Remover(_, _, _) => RemoversMark(s, e.task, x, user);
      case Revoker(_, _) => RevokersMark(s, e.task, x);
    }
  }

  // ---------------------------------------------------------------------------------------------------
  // Locks

  /** Every lock kept across steps belongs to a joiner inside its checks or its peer set-up. */
  ghost predicate LocksAreHeld(s: State) {
    forall x | x in s.locks :: HeldBy(s, x, s.locks[x])
  }

  ghost predicate HeldBy(s: State, x: nat, t: TaskId) {
    t in s.tasks && s.tasks[t].Joiner? && HoldsLock(s.tasks[t].joinerAt) && s.tasks[t].joinerAt.x == x
  }

  /** The step of a joiner leaves the locks of the others as they are, and its own with it or free. */
  lemma JoinerKeepsLocks(s: State, t: TaskId, ok: bool, x: nat)
    requires Inv(s) && LocksAreHeld(s) && t in s.tasks && s.tasks[t].Joiner? && x in StepJoiner(s, t, ok).locks
    ensures HeldBy(StepJoiner(s, t, ok), x, StepJoiner(s, t, ok).locks[x])
  {
    assert TaskOk(s, t);
    if x in s.locks { assert HeldBy(s, x, s.locks[x]); }
  }

  lemma GivingUpKeepsLocks(s: State, t: TaskId, x: nat)
    requires Inv(s) && LocksAreHeld(s) && t in s.tasks && s.tasks[t].Joiner? && x in GiveUp(s, t).locks
    ensures HeldBy(GiveUp(s, t), x, GiveUp(s, t).locks[x])
  {
    assert TaskOk(s, t) && HeldBy(s, x, s.locks[x]);
  }

  lemma OthersKeepLocks(s: State, e: Event, x: nat)
    requires LocksAreHeld(s) && x in Next(s, e).locks && !e.Abort?
    requires e.Step? && e.task in s.tasks ==> !s.tasks[e.task].Joiner?
    ensures HeldBy(Next(s, e), x, Next(s, e).locks[x])
  {
    assert Next(s, e).locks == s.locks;
    assert HeldBy(s, x, s.locks[x]);
  }

  lemma NextKeepsLocksHeld(s: State, e: Event)
    requires Inv(s) && LocksAreHeld(s)
    ensures LocksAreHeld(Next(s, e))
  {
    forall x | x in Next(s, e).locks ensures HeldBy(Next(s, e), x, Next(s, e).locks[x]) {
      if e.Step? && e.task in s.tasks && s.tasks[e.task].Joiner? {
        JoinerKeepsLocks(s, e.task, e.ok, x);
      } else if e.Abort? && MayAbort(s, e.task) {
        GivingUpKeepsLocks(s, e.task, x);
      } else if e.Abort? {
        assert HeldBy(s, x, s.locks[x]);
      } else {
        OthersKeepLocks(s, e, x);
      }
    }
  }

  lemma {:induction false} RunKeepsLocksHeld(s: State, events: seq<Event>)
    requires Inv(s) && LocksAreHeld(s)
    ensures LocksAreHeld(Run(s, events))
    decreases |events|
  {
    if events != [] {
      NextKeepsInv(s, events[0]);
      NextKeepsLocksHeld(s, events[0]);
      RunKeepsLocksHeld(Next(s, events[0]), events[1..]);
    }
  }

  /** In every reachable state a locked object is kept by a joiner that stands inside it, and is free once that joiner
      gives up: no lock is ever left behind. */
  lemma NoLockIsLeftBehind(s: State, x: nat)
    requires Reachable(s) && x in s.locks
    ensures HeldBy(s, x, s.locks[x])
    ensures x !in Next(s, Abort(s.locks[x])).locks
  {
    var events :| Run(START, events) == s;
    RunKeepsLocksHeld(START, events);
  }

  /** A join ends, and leaves no lock, where a query fails, the host turns the visitor away or the peer connection
      cannot be built. */
  lemma FailureEndsTheJoin(s: State, t: TaskId)
    requires Reachable(s) && t in s.tasks && s.tasks[t].Joiner?
    requires var at := s.tasks[t].joinerAt; at.Authorizing? || at.Reauthorizing? || at.SettingUpPeer?
    ensures var s' := Next(s, Step(t, false));
      s'.tasks[t].joinerAt == Failed && forall x <- s'.locks :: s'.locks[x] != t
  {
    var s' := Next(s, Step(t, false));
    assert s'.tasks[t].joinerAt == Failed;
    ReachNext(s, Step(t, false));
    forall x | x in s'.locks ensures s'.locks[x] != t { NoLockIsLeftBehind(s', x); }
  }
}
