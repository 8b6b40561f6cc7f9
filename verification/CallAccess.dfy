/** Who may enter a call, over the history of the database: exactly what gives access, exactly what takes it away,
    and what is final. */
module CallAccess {
  import opened Identifiers
  import opened CallDirectory

  predicate Live(d: Directory, room: RoomId) {
    room in d.sessions && OpenAt(d.sessions[room], d.now)
  }

  predicate IsIn(d: Directory, room: RoomId, user: UserId) {
    Authorize(d, room, Some(user)) == Authorized
  }

  /** Whoever has been asked and has not declined belongs to the conversation. */
  ghost predicate AskedAreMembers(d: Directory) {
    forall room, user | room in d.sessions && user in d.sessions[room].members ::
      d.sessions[room].members[user] != Declined ==>
        && d.sessions[room].conversation in d.conversations
        && IsCurrentMember(d.conversations[d.sessions[room].conversation], user)
  }

  ghost predicate Sound(d: Directory) {
    Consistent(d) && AskedAreMembers(d)
  }

  predicate AskedIn(d: Directory, room: RoomId, user: UserId) {
    Live(d, room) && user in d.sessions[room].members && d.sessions[room].members[user] == Pending
  }

  /** No call of the conversation is open, or its meeting has ended. */
  ghost predicate MayStart(d: Directory, c: ConversationId, caller: UserId, room: RoomId, meetingEnded: bool) {
    && room !in d.issued && c in d.conversations && IsCurrentMember(d.conversations[c], caller)
    && (meetingEnded || forall other <- d.sessions :: !(d.sessions[other].conversation == c && Live(d, other)))
  }

  // ----- what one transaction does to one answer -----

  /** The session is the same call with the same people asked. */
  predicate SameCall(before: CallSession, after: CallSession) {
    && after.conversation == before.conversation && after.initiator == before.initiator
    && after.expiresAt == before.expiresAt && after.members.Keys == before.members.Keys
  }

  /** A call keeps its conversation, its initiator, its deadline and the people asked. An answer changes exactly when
      its member answers an open call that asked them, and to what they say; or when they depart from the group. */
  lemma AnswersChangeExactly(d: Directory, tx: Transaction, room: RoomId, user: UserId)
    requires Consistent(d) && room in d.sessions && room in Apply(d, tx).sessions
    ensures SameCall(d.sessions[room], Apply(d, tx).sessions[room])
    ensures user in d.sessions[room].members ==>
      Apply(d, tx).sessions[room].members[user] ==
        if tx == Respond(room, user, true) && AskedIn(d, room, user) then Accepted
        else if tx == Respond(room, user, false) && AskedIn(d, room, user) then Declined
        else if Departs(d, tx, d.sessions[room].conversation, user) then Declined
        else d.sessions[room].members[user]
  {
    if tx.StartCall? {
      StartKeepsAnswers(d, tx, room, user);
    } else if tx.Respond? {
      RespondAnswers(d, tx, room, user);
    } else {
      OthersAnswer(d, tx, room, user);
    }
  }

  lemma StartKeepsAnswers(d: Directory, tx: Transaction, room: RoomId, user: UserId)
    requires Consistent(d) && room in d.sessions && tx.StartCall?
    ensures room in Apply(d, tx).sessions && SameCall(d.sessions[room], Apply(d, tx).sessions[room])
    ensures Apply(d, tx).sessions[room].members == d.sessions[room].members
  {}

  lemma RespondAnswers(d: Directory, tx: Transaction, room: RoomId, user: UserId)
    requires room in d.sessions && tx.Respond?
    ensures room in Apply(d, tx).sessions && SameCall(d.sessions[room], Apply(d, tx).sessions[room])
    ensures user in d.sessions[room].members ==>
      Apply(d, tx).sessions[room].members[user] ==
        if tx.room == room && tx.user == user && AskedIn(d, room, user) then if tx.accept then Accepted else Declined
        else d.sessions[room].members[user]
  {}

  lemma OthersAnswer(d: Directory, tx: Transaction, room: RoomId, user: UserId)
    requires room in d.sessions && room in Apply(d, tx).sessions && !tx.StartCall? && !tx.Respond?
    ensures SameCall(d.sessions[room], Apply(d, tx).sessions[room])
    ensures user in d.sessions[room].members ==>
      Apply(d, tx).sessions[room].members[user] ==
        if Departs(d, tx, d.sessions[room].conversation, user) then Declined else d.sessions[room].members[user]
  {}

  predicate Departs(d: Directory, tx: Transaction, c: ConversationId, user: UserId) {
    tx == DepartGroup(c, user)
    && c in d.conversations && d.conversations[c].Group? && user in d.conversations[c].members
  }

  /** Belonging to a conversation: a direct one has its two people for good; a group gains whoever is added, loses
      whoever departs, and goes with its deletion. */
  lemma MembershipChangesExactly(d: Directory, tx: Transaction, c: ConversationId, user: UserId)
    ensures Belongs(Apply(d, tx), c, user) <==>
      if c !in d.conversations then
        (tx.CreateGroup? && tx.conversation == c && user in tx.members)
        || (tx.OpenDirect? && tx.conversation == c && tx.low < tx.high && (user == tx.low || user == tx.high))
      else if d.conversations[c].Direct? then user == d.conversations[c].low || user == d.conversations[c].high
      else tx != DeleteGroup(c) && (tx == AddMember(c, user) || (Belongs(d, c, user) && tx != DepartGroup(c, user)))
  {}

  predicate Belongs(d: Directory, c: ConversationId, user: UserId) {
    c in d.conversations && IsCurrentMember(d.conversations[c], user)
  }

  // ----- who is asked -----

  lemma StartKeepsAsked(d: Directory, tx: Transaction)
    requires Sound(d) && tx.StartCall?
    ensures AskedAreMembers(Apply(d, tx))
  {}

  lemma MembershipKeepsAsked(d: Directory, tx: Transaction)
    requires Sound(d) && (tx.DepartGroup? || tx.DeleteGroup? || tx.AddMember? || tx.CreateGroup? || tx.OpenDirect?)
    ensures AskedAreMembers(Apply(d, tx))
  {}

  lemma CallsKeepAsked(d: Directory, tx: Transaction)
    requires Sound(d) && (tx.Tick? || tx.ExpireCalls? || tx.Respond? || tx.CancelCall?)
    ensures AskedAreMembers(Apply(d, tx))
  {}

  lemma ApplyIsSound(d: Directory, tx: Transaction)
    requires Sound(d)
    ensures Sound(Apply(d, tx))
  {
    ApplyIsConsistent(d, tx);
    if tx.StartCall? {
      StartKeepsAsked(d, tx);
    } else if tx.Tick? || tx.ExpireCalls? || tx.Respond? || tx.CancelCall? {
      CallsKeepAsked(d, tx);
    } else {
      MembershipKeepsAsked(d, tx);
    }
  }

  lemma {:induction false} RunsAreSound(d: Directory, txs: seq<Transaction>)
    requires Sound(d)
    ensures Sound(ApplyAll(d, txs))
    decreases |txs|
  {
    if txs != [] {
      ApplyIsSound(d, txs[0]);
      RunsAreSound(Apply(d, txs[0]), txs[1..]);
    }
  }

  // ----- gaining and losing access -----

  /** The transaction that lets the user in: their own acceptance of an open call that asked them, or their own start
      of a call. */
  ghost predicate LetsIn(d: Directory, tx: Transaction, room: RoomId, user: UserId) {
    match tx
    case Respond(r, u, accept) => r == room && u == user && accept && AskedIn(d, room, user)
    case StartCall(c, caller, r, ended) => r == room && caller == user && MayStart(d, c, caller, r, ended)
    case _ => false
  }

  /** The transaction that takes access away: the deadline passes, the user departs, the group is deleted, the
      initiator cancels, or the conversation starts a new call once the meeting of this one has ended. */
  ghost predicate PutsOut(d: Directory, tx: Transaction, room: RoomId, user: UserId)
    requires room in d.sessions && d.sessions[room].conversation in d.conversations
  {
    var session := d.sessions[room];
    match tx
    case Tick(seconds) => d.now + seconds >= session.expiresAt
    case DepartGroup(c, u) => c == session.conversation && u == user && d.conversations[c].Group?
    case DeleteGroup(c) => c == session.conversation && d.conversations[c].Group?
    case CancelCall(r, u, othersPresent) => r == room && u == session.initiator && !othersPresent
    case StartCall(c, caller, r, ended) => c == session.conversation && ended && MayStart(d, c, caller, r, ended)
    case _ => false
  }

  lemma StartGains(d: Directory, tx: Transaction, room: RoomId, user: UserId)
    requires Sound(d) && !IsIn(d, room, user) && tx.StartCall?
    ensures IsIn(Apply(d, tx), room, user) <==> LetsIn(d, tx, room, user)
  {}

  lemma OthersGain(d: Directory, tx: Transaction, room: RoomId, user: UserId)
    requires Sound(d) && !IsIn(d, room, user) && !tx.StartCall?
    ensures IsIn(Apply(d, tx), room, user) <==> LetsIn(d, tx, room, user)
  {
    if room in d.sessions && room in Apply(d, tx).sessions { AnswersChangeExactly(d, tx, room, user); }
  }

  /** Access is gained exactly by the user's own acceptance or the user's own start of the call. */
  lemma AccessGainedExactly(d: Directory, tx: Transaction, room: RoomId, user: UserId)
    requires Sound(d) && !IsIn(d, room, user)
    ensures IsIn(Apply(d, tx), room, user) <==> LetsIn(d, tx, room, user)
  {
    if tx.StartCall? { StartGains(d, tx, room, user); } else { OthersGain(d, tx, room, user); }
  }

  /** Access is lost exactly by a transaction that ends the call or the user's membership. */
  lemma AccessLostExactly(d: Directory, tx: Transaction, room: RoomId, user: UserId)
    requires Sound(d) && IsIn(d, room, user)
    ensures !IsIn(Apply(d, tx), room, user) <==> PutsOut(d, tx, room, user)
  {}

  // ----- over whole histories -----

  lemma {:induction false} ApplyAllLast(d: Directory, txs: seq<Transaction>)
    requires txs != []
    ensures ApplyAll(d, txs) == Apply(ApplyAll(d, txs[..|txs| - 1]), txs[|txs| - 1])
    decreases |txs|
  {
    if |txs| > 1 {
      ApplyAllLast(Apply(d, txs[0]), txs[1..]);
      assert txs[1..][..|txs| - 2] == txs[..|txs| - 1][1..];
    }
  }

  /** The transaction at `k` let the user in, and they have stayed in since. */
  ghost predicate InSince(txs: seq<Transaction>, k: nat, room: RoomId, user: UserId) {
    && k < |txs| && LetsIn(ApplyAll(EMPTY, txs[..k]), txs[k], room, user)
    && forall j: nat | k < j <= |txs| :: IsIn(ApplyAll(EMPTY, txs[..j]), room, user)
  }

  lemma StillIn(txs: seq<Transaction>, k: nat, room: RoomId, user: UserId)
    requires txs != [] && InSince(txs[..|txs| - 1], k, room, user) && IsIn(ApplyAll(EMPTY, txs), room, user)
    ensures InSince(txs, k, room, user)
  {
    var init := txs[..|txs| - 1];
    assert init[..k] == txs[..k];
    forall j: nat | k < j <= |txs| ensures IsIn(ApplyAll(EMPTY, txs[..j]), room, user) {
      if j < |txs| { assert init[..j] == txs[..j]; } else { assert txs[..j] == txs; }
    }
  }

  /** Whoever may enter a call has started it or accepted it, and has been in ever since. */
  lemma {:induction false} AccessHasItsOrigin(txs: seq<Transaction>, room: RoomId, user: UserId)
    requires IsIn(ApplyAll(EMPTY, txs), room, user)
    ensures exists k :: InSince(txs, k, room, user)
    decreases |txs|
  {
    if txs != [] {
      var init := txs[..|txs| - 1];
      RunsAreSound(EMPTY, init);
      ApplyAllLast(EMPTY, txs);
      if IsIn(ApplyAll(EMPTY, init), room, user) {
        AccessHasItsOrigin(init, room, user);
        var k :| InSince(init, k, room, user);
        StillIn(txs, k, room, user);
      } else {
        AccessGainedExactly(ApplyAll(EMPTY, init), txs[|txs| - 1], room, user);
        assert txs[..|txs|] == txs;
        assert InSince(txs, |txs| - 1, room, user);
      }
    }
  }

  /** The user has declined, or was never asked. */
  lemma DecliningStays(d: Directory, tx: Transaction, room: RoomId, user: UserId)
    requires Consistent(d) && LockedOut(d, room, user)
    ensures LockedOut(Apply(d, tx), room, user)
  {
    ApplyIsConsistent(d, tx);
    if room in d.sessions && room in Apply(d, tx).sessions { AnswersChangeExactly(d, tx, room, user); }
  }

  lemma {:induction false} DecliningStaysForGood(d: Directory, txs: seq<Transaction>, room: RoomId, user: UserId)
    requires Consistent(d) && LockedOut(d, room, user)
    ensures Consistent(ApplyAll(d, txs)) && LockedOut(ApplyAll(d, txs), room, user)
    decreases |txs|
  {
    if txs != [] {
      ApplyIsConsistent(d, txs[0]);
      DecliningStays(d, txs[0], room, user);
      DecliningStaysForGood(Apply(d, txs[0]), txs[1..], room, user);
    }
  }

  /** Whoever declines a call is denied it in every later state. */
  lemma DecliningIsFinal(before: seq<Transaction>, room: RoomId, user: UserId, after: seq<Transaction>)
    requires AskedIn(ApplyAll(EMPTY, before), room, user)
    ensures var d := Apply(ApplyAll(EMPTY, before), Respond(room, user, false));
      Authorize(ApplyAll(d, after), room, Some(user)) == Denied
  {
    var d := ApplyAll(EMPTY, before);
    RunsAreConsistent(EMPTY, before);
    ApplyIsConsistent(d, Respond(room, user, false));
    DecliningStaysForGood(Apply(d, Respond(room, user, false)), after, room, user);
  }

  /** The call has been issued and is no longer open. */
  predicate Over(d: Directory, room: RoomId) {
    room in d.issued && !Live(d, room)
  }

  lemma {:induction false} OverStays(d: Directory, txs: seq<Transaction>, room: RoomId)
    requires Consistent(d) && Over(d, room)
    ensures Consistent(ApplyAll(d, txs)) && Over(ApplyAll(d, txs), room)
    decreases |txs|
  {
    if txs != [] {
      ApplyIsConsistent(d, txs[0]);
      OverStaysNext(d, txs[0], room);
      OverStays(Apply(d, txs[0]), txs[1..], room);
    }
  }

  lemma OverStaysNext(d: Directory, tx: Transaction, room: RoomId)
    requires Consistent(d) && Over(d, room)
    ensures Over(Apply(d, tx), room)
  {}

  /** A call that has ended, by its deadline, by being cancelled or by a newer one, is denied to everyone for good. */
  lemma EndedCallsStayEnded(before: seq<Transaction>, after: seq<Transaction>, room: RoomId, user: Option<UserId>)
    requires Over(ApplyAll(EMPTY, before), room)
    ensures Authorize(ApplyAll(ApplyAll(EMPTY, before), after), room, user) == Denied
  {
    RunsAreConsistent(EMPTY, before);
    OverStays(ApplyAll(EMPTY, before), after, room);
  }

  lemma {:induction false} DeadlineStays(d: Directory, txs: seq<Transaction>, room: RoomId, deadline: int)
    requires Consistent(d) && room in d.issued && (room in d.sessions ==> d.sessions[room].expiresAt == deadline)
    ensures var d' := ApplyAll(d, txs);
      Consistent(d') && room in d'.issued && (room in d'.sessions ==> d'.sessions[room].expiresAt == deadline)
    decreases |txs|
  {
    if txs != [] {
      ApplyIsConsistent(d, txs[0]);
      if room in d.sessions && room in Apply(d, txs[0]).sessions { AnswersChangeExactly(d, txs[0], room, 0); }
      DeadlineStays(Apply(d, txs[0]), txs[1..], room, deadline);
    }
  }

  /** A new call is open for an hour; it asks everybody in the conversation, and its caller has accepted. */
  lemma StartedCall(d: Directory, c: ConversationId, caller: UserId, room: RoomId, ended: bool, user: UserId)
    requires Consistent(d) && MayStart(d, c, caller, room, ended)
    ensures var d' := Apply(d, StartCall(c, caller, room, ended));
      && Live(d', room) && d'.sessions[room].expiresAt == d.now + 3600
      && d'.sessions[room].conversation == c && d'.sessions[room].initiator == caller
      && (user in d'.sessions[room].members <==> IsCurrentMember(d.conversations[c], user))
      && (IsIn(d', room, user) <==> user == caller)
      && (AskedIn(d', room, user) <==> user != caller && IsCurrentMember(d.conversations[c], user))
  {}

  /** An hour after it was started a call admits nobody, whatever happened meanwhile. */
  lemma CallsLastAnHour(before: seq<Transaction>, c: ConversationId, caller: UserId, room: RoomId, ended: bool,
                        after: seq<Transaction>, user: Option<UserId>)
    requires MayStart(ApplyAll(EMPTY, before), c, caller, room, ended)
    requires var d := ApplyAll(EMPTY, before);
      ApplyAll(Apply(d, StartCall(c, caller, room, ended)), after).now >= d.now + 3600
    ensures var d := ApplyAll(EMPTY, before);
      Authorize(ApplyAll(Apply(d, StartCall(c, caller, room, ended)), after), room, user) == Denied
  {
    var d := ApplyAll(EMPTY, before);
    RunsAreConsistent(EMPTY, before);
    ApplyIsConsistent(d, StartCall(c, caller, room, ended));
    DeadlineStays(Apply(d, StartCall(c, caller, room, ended)), after, room, d.now + 3600);
  }
}
