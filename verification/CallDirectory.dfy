/** The database side of conversation calls: conversations with their members, call sessions with the
    answers of their members, and the tombstones left by deleted groups. Each handler is one transaction. */
module CallDirectory {
  import opened Identifiers

  const CALL_SESSION_TTL := 3600

  datatype Answer = Accepted | Pending | Declined

  /** A row of `call_sessions`, keyed by its unique SFU room, with its `call_session_members` rows. */
  datatype CallSession = CallSession(
    conversation: ConversationId,
    initiator: UserId,
    active: bool,
    expiresAt: int,
    members: map<UserId, Answer>)

  datatype Conversation = Direct(low: UserId, high: UserId) | Group(members: set<UserId>)

  /** `issued` and `evicted` are history: every room ever given to a call, and every (room, user) pair whose
      access a departure from the group has taken away. No handler reads them. */
  datatype Directory = Directory(
    conversations: map<ConversationId, Conversation>,
    sessions: map<RoomId, CallSession>,
    revoked: set<RoomId>,
    now: int,
    issued: set<RoomId>,
    evicted: set<(RoomId, UserId)>)

  const EMPTY := Directory(map[], map[], {}, 0, {}, {})

  datatype Authorization = Legacy | Authorized | Denied

  predicate IsCurrentMember(conversation: Conversation, user: UserId) {
    match conversation
    case Direct(low, high) => user == low || user == high
    case Group(members) => user in members
  }

  predicate HasAcceptedMembership(d: Directory, room: RoomId, user: UserId) {
    && room in d.sessions
    && var session := d.sessions[room];
    && session.active
    && session.expiresAt > d.now
    && user in session.members
    && session.members[user] == Accepted
    && session.conversation in d.conversations
    && IsCurrentMember(d.conversations[session.conversation], user)
  }

  function Classify(isRevoked: bool, isCallRoom: bool, user: Option<UserId>, accepted: bool): Authorization {
    if isRevoked then Denied
    else if !isCallRoom then Legacy
    else if user.Some? && accepted then Authorized
    else Denied
  }

  /** The answer to a connection that asks to join `room`; `None` is a guest. */
  function Authorize(d: Directory, room: RoomId, user: Option<UserId>): Authorization {
    Classify(room in d.revoked, room in d.sessions, user, user.Some? && HasAcceptedMembership(d, room, user.value))
  }

  datatype Transaction =
    | Tick(seconds: nat)
    | OpenDirect(conversation: ConversationId, low: UserId, high: UserId)
    | CreateGroup(conversation: ConversationId, members: set<UserId>)
    | AddMember(conversation: ConversationId, user: UserId)
    | DepartGroup(conversation: ConversationId, user: UserId)
    | DeleteGroup(conversation: ConversationId)
    | ExpireCalls
    | StartCall(conversation: ConversationId, caller: UserId, room: RoomId, meetingEnded: bool)
    | Respond(room: RoomId, user: UserId, accept: bool)
    | CancelCall(room: RoomId, user: UserId, othersPresent: bool)

  /** The call admits whoever accepts it. */
  predicate OpenAt(session: CallSession, now: int) {
    session.active && session.expiresAt > now
  }

  function ExpireDue(sessions: map<RoomId, CallSession>, now: int): map<RoomId, CallSession> {
    map room | room in sessions ::
      if sessions[room].expiresAt <= now then sessions[room].(active := false) else sessions[room]
  }

  function ExpireConversation(sessions: map<RoomId, CallSession>, conversation: ConversationId)
    : map<RoomId, CallSession>
  {
    map room | room in sessions ::
      if sessions[room].conversation == conversation then sessions[room].(active := false) else sessions[room]
  }

  function DeclineFor(session: CallSession, user: UserId): CallSession {
    if user in session.members then session.(members := session.members[user := Declined]) else session
  }

  function RoomsOf(d: Directory, conversation: ConversationId): set<RoomId> {
    set room | room in d.sessions && d.sessions[room].conversation == conversation
  }

  function Invitees(conversation: Conversation): set<UserId> {
    match conversation
    case Direct(low, high) => {low, high}
    case Group(members) => members
  }

  /** The caller has accepted; everyone else invited is asked. */
  function Opening(conversation: Conversation, id: ConversationId, caller: UserId, now: int): CallSession {
    var members := map user | user in Invitees(conversation) :: if user == caller then Accepted else Pending;
    CallSession(id, caller, true, now + CALL_SESSION_TTL, members)
  }

  /** The transaction of `start_call_session`; a conflict rolls everything back. */
  function StartCallStep(d: Directory, conversation: ConversationId, caller: UserId, room: RoomId,
                         meetingEnded: bool): Directory
  {
    if conversation !in d.conversations || !IsCurrentMember(d.conversations[conversation], caller)
       || room in d.issued then d
    else
      var due := ExpireDue(d.sessions, d.now);
      var sessions := if meetingEnded then ExpireConversation(due, conversation) else due;
      if exists other :: other in sessions && sessions[other].conversation == conversation && sessions[other].active
      then d
      else
        var session := Opening(d.conversations[conversation], conversation, caller, d.now);
        d.(sessions := sessions[room := session],
           issued := d.issued + {room})
  }

  /** One handler's transaction; a handler whose guard fails changes nothing. */
  function Apply(d: Directory, tx: Transaction): Directory {
    match tx
    case Tick(seconds) => d.(now := d.now + seconds)
    case OpenDirect(c, low, high) =>
      if c in d.conversations || low >= high then d else d.(conversations := d.conversations[c := Direct(low, high)])
    case CreateGroup(c, members) =>
      if c in d.conversations then d else d.(conversations := d.conversations[c := Group(members)])
    case AddMember(c, user) =>
      if c !in d.conversations || d.conversations[c].Direct? then d
      else d.(conversations := d.conversations[c := Group(d.conversations[c].members + {user})])
    case DepartGroup(c, user) =>
      if c !in d.conversations || d.conversations[c].Direct? || user !in d.conversations[c].members then d
      else
        d.(conversations := d.conversations[c := Group(d.conversations[c].members - {user})],
           sessions := (map room | room in d.sessions ::
             if d.sessions[room].conversation == c then DeclineFor(d.sessions[room], user) else d.sessions[room]),
           evicted := d.evicted + (set room | room in RoomsOf(d, c) :: (room, user)))
    case DeleteGroup(c) =>
      if c !in d.conversations || d.conversations[c].Direct? then d
      else
        // Deleting the conversation cascades to its call sessions.
        d.(conversations := d.conversations - {c},
           sessions := d.sessions - RoomsOf(d, c),
           revoked := d.revoked + RoomsOf(d, c))
    case ExpireCalls => d.(sessions := ExpireDue(d.sessions, d.now))
    case StartCall(c, caller, room, meetingEnded) => StartCallStep(d, c, caller, room, meetingEnded)
    case Respond(room, user, accept) =>
      var sessions := ExpireDue(d.sessions, d.now);
      if room !in sessions || !sessions[room].active || user !in sessions[room].members
         || sessions[room].members[user] != Pending then d
      else
        var answer := if accept then Accepted else Declined;
        d.(sessions := sessions[room := sessions[room].(members := sessions[room].members[user := answer])])
    case CancelCall(room, user, othersPresent) =>
      if room !in d.sessions || d.sessions[room].initiator != user || othersPresent then d
      else d.(sessions := d.sessions[room := d.sessions[room].(active := false)])
  }

  function ApplyAll(d: Directory, txs: seq<Transaction>): Directory
    decreases |txs|
  {
    if txs == [] then d else ApplyAll(Apply(d, txs[0]), txs[1..])
  }

  /** A user who once lost access to a call's room either never was in the call or has declined it for good. */
  ghost predicate LockedOut(d: Directory, room: RoomId, user: UserId) {
    && room in d.issued
    && (room in d.sessions && user in d.sessions[room].members ==> d.sessions[room].members[user] == Declined)
  }

  ghost predicate OneActiveCall(d: Directory) {
    forall r1, r2 | r1 in d.sessions && r2 in d.sessions ::
      d.sessions[r1].active && d.sessions[r2].active && d.sessions[r1].conversation == d.sessions[r2].conversation
      ==> r1 == r2
  }

  ghost predicate Consistent(d: Directory) {
    && d.sessions.Keys + d.revoked == d.issued
    && d.sessions.Keys !! d.revoked
    && (forall room :: room in d.sessions ==> d.sessions[room].conversation in d.conversations)
    && (forall room, user :: (room, user) in d.evicted ==> LockedOut(d, room, user))
    && OneActiveCall(d)
  }

  lemma ApplyIsConsistent(d: Directory, tx: Transaction)
    requires Consistent(d)
    ensures Consistent(Apply(d, tx))
    ensures d.issued <= Apply(d, tx).issued
    ensures d.evicted <= Apply(d, tx).evicted
    ensures d.revoked <= Apply(d, tx).revoked
  {
    match tx
    case StartCall(c, caller, room, meetingEnded) => StartCallIsConsistent(d, c, caller, room, meetingEnded);
    case DepartGroup(c, user) => DepartGroupIsConsistent(d, c, user);
    case Respond(room, user, accept) => RespondIsConsistent(d, room, user, accept);
    case _ =>
  }

  /** Ending calls, whichever they are, keeps everything else. */
  lemma EndingCallsIsConsistent(d: Directory, sessions: map<RoomId, CallSession>)
    requires Consistent(d) && sessions.Keys == d.sessions.Keys
    requires forall room | room in sessions ::
      sessions[room] == d.sessions[room] || sessions[room] == d.sessions[room].(active := false)
    ensures Consistent(d.(sessions := sessions))
  {
    var d' := d.(sessions := sessions);
    forall room, user | (room, user) in d'.evicted ensures LockedOut(d', room, user) {
      assert LockedOut(d, room, user);
    }
  }

  lemma OpeningCallIsConsistent(d: Directory, room: RoomId, session: CallSession)
    requires Consistent(d) && room !in d.issued && session.conversation in d.conversations
    requires forall other | other in d.sessions && d.sessions[other].conversation == session.conversation ::
      !d.sessions[other].active
    ensures Consistent(d.(sessions := d.sessions[room := session], issued := d.issued + {room}))
  {
    var d' := d.(sessions := d.sessions[room := session], issued := d.issued + {room});
    assert d'.sessions.Keys == d.sessions.Keys + {room};
    forall r, user | (r, user) in d'.evicted ensures LockedOut(d', r, user) {
      assert LockedOut(d, r, user);
    }
  }

  lemma StartCallIsConsistent(d: Directory, conversation: ConversationId, caller: UserId, room: RoomId,
                              meetingEnded: bool)
    requires Consistent(d)
    ensures var d' := StartCallStep(d, conversation, caller, room, meetingEnded);
      Consistent(d') && d.issued <= d'.issued && d.evicted == d'.evicted && d.revoked == d'.revoked
  {
    var d' := StartCallStep(d, conversation, caller, room, meetingEnded);
    if d' != d {
      var due := ExpireDue(d.sessions, d.now);
      var sessions := if meetingEnded then ExpireConversation(due, conversation) else due;
      assert due.Keys == d.sessions.Keys && sessions.Keys == due.Keys;
      EndingCallsIsConsistent(d, sessions);
      OpeningCallIsConsistent(d.(sessions := sessions), room, d'.sessions[room]);
    }
  }

  lemma DepartGroupIsConsistent(d: Directory, c: ConversationId, user: UserId)
    requires Consistent(d)
    ensures var d' := Apply(d, DepartGroup(c, user));
      Consistent(d') && d.issued == d'.issued && d.evicted <= d'.evicted && d.revoked == d'.revoked
  {
    var d' := Apply(d, DepartGroup(c, user));
    assert d'.sessions.Keys == d.sessions.Keys;
    forall room, u | (room, u) in d'.evicted ensures LockedOut(d', room, u) {
      if (room, u) in d.evicted {
        assert LockedOut(d, room, u);
      }
    }
  }

  lemma RespondIsConsistent(d: Directory, room: RoomId, user: UserId, accept: bool)
    requires Consistent(d)
    ensures var d' := Apply(d, Respond(room, user, accept));
      Consistent(d') && d.issued == d'.issued && d.evicted == d'.evicted && d.revoked == d'.revoked
  {
    var d' := Apply(d, Respond(room, user, accept));
    assert d'.sessions.Keys == d.sessions.Keys;
    forall r, u | (r, u) in d'.evicted ensures LockedOut(d', r, u) {
      assert LockedOut(d, r, u);
    }
  }

  lemma {:induction false} RunsAreConsistent(d: Directory, txs: seq<Transaction>)
    requires Consistent(d)
    ensures Consistent(ApplyAll(d, txs))
    ensures d.issued <= ApplyAll(d, txs).issued
    ensures d.evicted <= ApplyAll(d, txs).evicted
    ensures d.revoked <= ApplyAll(d, txs).revoked
    decreases |txs|
  {
    if txs != [] {
      ApplyIsConsistent(d, txs[0]);
      RunsAreConsistent(Apply(d, txs[0]), txs[1..]);
    }
  }

  /** A room once given to a call is never again open to whoever knows its name. */
  lemma IssuedRoomsAreNeverLegacy(before: seq<Transaction>, after: seq<Transaction>, room: RoomId, user: Option<UserId>)
    requires room in ApplyAll(EMPTY, before).issued
    ensures Authorize(ApplyAll(ApplyAll(EMPTY, before), after), room, user) != Legacy
  {
    RunsAreConsistent(EMPTY, before);
    RunsAreConsistent(ApplyAll(EMPTY, before), after);
  }

  /** Leaving or being removed takes away the group's existing calls forever, even after rejoining the group. */
  lemma DepartureIsFinal(before: seq<Transaction>, conversation: ConversationId, user: UserId,
                         after: seq<Transaction>, room: RoomId)
    requires var d := ApplyAll(EMPTY, before);
      && conversation in d.conversations && d.conversations[conversation].Group?
      && user in d.conversations[conversation].members
      && room in d.sessions && d.sessions[room].conversation == conversation
    ensures var d := Apply(ApplyAll(EMPTY, before), DepartGroup(conversation, user));
      Authorize(ApplyAll(d, after), room, Some(user)) == Denied
  {
    var d := ApplyAll(EMPTY, before);
    RunsAreConsistent(EMPTY, before);
    ApplyIsConsistent(d, DepartGroup(conversation, user));
    var d' := Apply(d, DepartGroup(conversation, user));
    assert (room, user) in d'.evicted;
    RunsAreConsistent(d', after);
    assert LockedOut(ApplyAll(d', after), room, user);
  }

  /** After a group is deleted, nobody is authorized for any of its calls in any later state. */
  lemma DeletionIsFinal(before: seq<Transaction>, conversation: ConversationId, after: seq<Transaction>,
                        room: RoomId, user: Option<UserId>)
    requires var d := ApplyAll(EMPTY, before);
      && conversation in d.conversations && d.conversations[conversation].Group?
      && room in d.sessions && d.sessions[room].conversation == conversation
    ensures var d := Apply(ApplyAll(EMPTY, before), DeleteGroup(conversation));
      Authorize(ApplyAll(d, after), room, user) == Denied
  {
    var d := ApplyAll(EMPTY, before);
    RunsAreConsistent(EMPTY, before);
    ApplyIsConsistent(d, DeleteGroup(conversation));
    RunsAreConsistent(Apply(d, DeleteGroup(conversation)), after);
  }

  /** In every reachable state a conversation has at most one call that still admits anyone. */
  lemma AtMostOneOpenCall(txs: seq<Transaction>, r1: RoomId, r2: RoomId, u1: UserId, u2: UserId)
    requires var d := ApplyAll(EMPTY, txs);
      && Authorize(d, r1, Some(u1)) == Authorized && Authorize(d, r2, Some(u2)) == Authorized
      && d.sessions[r1].conversation == d.sessions[r2].conversation
    ensures r1 == r2
  {
    RunsAreConsistent(EMPTY, txs);
  }

  /** A call that has just started admits its caller, and the others only once they accept. */
  lemma StartedCallAdmitsItsCaller(d: Directory, conversation: ConversationId, caller: UserId, room: RoomId,
                                   meetingEnded: bool, user: UserId)
    requires Consistent(d) && room !in d.issued
      && room in StartCallStep(d, conversation, caller, room, meetingEnded).issued
    ensures Authorize(StartCallStep(d, conversation, caller, room, meetingEnded), room, Some(user)) ==
            if user == caller then Authorized else Denied
  {
    assert room !in d.revoked && room !in d.sessions;
  }

  // ----- the handlers on the tables -----

  datatype Outcome<T> = Done(value: T) | Refused(status: nat)

  class CallTables {
    var conversations: map<ConversationId, Conversation>
    var sessions: map<RoomId, CallSession>
    var revoked: set<RoomId>
    ghost var issued: set<RoomId>
    ghost var evicted: set<(RoomId, UserId)>

    ghost function At(now: int): Directory
      reads this
    {
      Directory(conversations, sessions, revoked, now, issued, evicted)
    }

    method ExpireCallSessions(now: int)
      modifies this`sessions
      ensures sessions == ExpireDue(old(sessions), now)
    {
      sessions := map room | room in sessions ::
        if sessions[room].active && sessions[room].expiresAt <= now
        then sessions[room].(active := false)
        else sessions[room];
    }

    method ExpireEndedCalls(conversation: ConversationId)
      modifies this`sessions
      ensures sessions == ExpireConversation(old(sessions), conversation)
    {
      sessions := map room | room in sessions ::
        if sessions[room].active && sessions[room].conversation == conversation
        then sessions[room].(active := false) else sessions[room];
    }

    /** `room` is a new UUID, so no call ever had it. A conflict undoes the expiries. */
    method StartCallSession(conversation: ConversationId, caller: UserId, room: RoomId, meetingEnded: bool, now: int)
      returns (outcome: Outcome<RoomId>)
      requires room !in issued
      modifies this`sessions, this`issued
      ensures At(now) == StartCallStep(old(At(now)), conversation, caller, room, meetingEnded)
      ensures outcome.Done? <==> room in issued
      ensures outcome.Done? ==> outcome.value == room
      ensures outcome == Refused(404) <==> conversation !in conversations
      ensures outcome == Refused(403) <==>
        conversation in conversations && !IsCurrentMember(conversations[conversation], caller)
      ensures outcome == Refused(409) <==>
        && conversation in conversations && IsCurrentMember(conversations[conversation], caller) && !meetingEnded
        && exists r <- old(sessions) :: old(sessions)[r].conversation == conversation && OpenAt(old(sessions)[r], now)
      ensures outcome.Refused? ==> sessions == old(sessions) && outcome.status in {404, 403, 409}
    {
      if conversation !in conversations {
        return Refused(404);
      }
      if !IsCurrentMember(conversations[conversation], caller) {
        return Refused(403);
      }
      var begun := sessions;
      ExpireCallSessions(now);
      if meetingEnded {
        ExpireEndedCalls(conversation);
      }
      if exists other <- sessions :: sessions[other].conversation == conversation && sessions[other].active {
        sessions := begun;
        return Refused(409);
      }
      sessions := sessions[room := Opening(conversations[conversation], conversation, caller, now)];
      issued := issued + {room};
      return Done(room);
    }

    /** A member who accepts learns the room; one who declines does not. */
    method RespondToCallSession(room: RoomId, user: UserId, accept: bool, now: int)
      returns (outcome: Outcome<Option<RoomId>>)
      modifies this`sessions
      ensures At(now) == Apply(old(At(now)), Respond(room, user, accept))
      ensures outcome.Done? <==>
        && room in old(sessions) && OpenAt(old(sessions)[room], now)
        && user in old(sessions)[room].members && old(sessions)[room].members[user] == Pending
      ensures outcome.Done? ==>
        && room in sessions && user in sessions[room].members
        && sessions[room].members[user] == if accept then Accepted else Declined
      ensures forall r <- old(sessions) :: r in sessions && sessions[r].members.Keys == old(sessions)[r].members.Keys
      ensures forall r, u | r in old(sessions) && u in old(sessions)[r].members && (r != room || u != user) ::
        sessions[r].members[u] == old(sessions)[r].members[u]
      ensures outcome.Done? ==> outcome.value == if accept then Some(room) else None
      ensures outcome.Refused? ==> outcome.status == 404 && sessions == old(sessions)
    {
      var begun := sessions;
      ExpireCallSessions(now);
      if room !in sessions || !sessions[room].active || user !in sessions[room].members
         || sessions[room].members[user] != Pending {
        sessions := begun;
        return Refused(404);
      }
      var answer := if accept then Accepted else Declined;
      sessions := sessions[room := sessions[room].(members := sessions[room].members[user := answer])];
      return Done(if accept then Some(room) else None);
    }

    /** Only the initiator cancels, and only while nobody else is in the call's meeting. */
    method CancelCallSession(room: RoomId, user: UserId, othersPresent: bool, now: int)
      modifies this`sessions
      ensures room in old(sessions) ==> room in sessions && (sessions[room].active <==>
        old(sessions)[room].active && (old(sessions)[room].initiator != user || othersPresent))
      ensures forall r | r in old(sessions) && r != room :: r in sessions && sessions[r] == old(sessions)[r]
      ensures At(now) == Apply(old(At(now)), CancelCall(room, user, othersPresent))
    {
      if room in sessions && sessions[room].initiator == user && sessions[room].active && !othersPresent {
        sessions := sessions[room := sessions[room].(active := false)];
      }
    }

    /** `revoke_group_call_memberships`: the departed user's answers become refusals. */
    method RevokeGroupCallMemberships(conversation: ConversationId, user: UserId, now: int) returns (rooms: set<RoomId>)
      requires conversation in conversations && conversations[conversation].Group?
      requires user in conversations[conversation].members
      modifies this`conversations, this`sessions, this`evicted
      ensures At(now) == Apply(old(At(now)), DepartGroup(conversation, user))
      ensures forall room :: room in rooms <==>
        room in old(sessions) && old(sessions)[room].conversation == conversation
    {
      ghost var before := At(now);
      conversations := conversations[conversation := Group(conversations[conversation].members - {user})];
      rooms := set room | room in sessions && sessions[room].conversation == conversation;
      sessions := map room | room in sessions ::
        if sessions[room].conversation == conversation then DeclineFor(sessions[room], user) else sessions[room];
      evicted := evicted + set room | room in RoomsOf(before, conversation) :: (room, user);
    }
  }
}
