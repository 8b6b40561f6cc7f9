/** What a request does to a group, exactly: who gets in and on what terms, who goes, what roles and settings become,
    and which invitations there are; and what a password group keeps out over whole runs. */
module GroupRights {
  import opened Identifiers
  import opened Groups

  predicate Friends(w: World, a: UserId, b: UserId) {
    (a, b) in w.friendships || (b, a) in w.friendships
  }

  /** The tables hold each friendship once, the smaller user first. */
  ghost predicate Ordered(w: World) {
    forall pair <- w.friendships :: pair.0 < pair.1
  }

  /** The group's terms: an open group takes anyone, a password group whoever gives its password, the other two ask
      for friendship with every member, or with some member. */
  ghost predicate Welcome(w: World, id: ConversationId, u: UserId, password: Option<Secret>)
    requires id in w.groups
  {
    var g := w.groups[id];
    || g.policy == Open
    || (g.policy == Password && password.Some? && g.password == password)
    || (g.policy == FriendsOnly && forall m <- g.members :: m != u ==> Friends(w, u, m))
    || (g.policy == FriendsOfFriends && exists m <- g.members :: m != u && Friends(w, u, m))
  }

  lemma FriendsByPair(w: World, a: UserId, b: UserId)
    requires Ordered(w) && a != b
    ensures Friends(w, a, b) <==> AreFriends(w.friendships, a, b)
  {}

  lemma WelcomeIsTheRule(w: World, id: ConversationId, u: UserId, password: Option<Secret>)
    requires Ordered(w) && id in w.groups
    ensures Welcome(w, id, u, password) <==> Admits(w, w.groups[id], u, password)
  {
    forall m | m != u ensures Friends(w, u, m) <==> AreFriends(w.friendships, u, m) { FriendsByPair(w, u, m); }
  }

  predicate Administers(g: Group, u: UserId) {
    u in g.members && (g.members[u].role == Creator || g.members[u].role == Admin)
  }

  // ----- getting in -----

  ghost predicate Invited(w: World, i: InvitationId, u: UserId, id: ConversationId) {
    i in w.invitations && w.invitations[i] == Invitation(id, w.invitations[i].inviter, u, Pending)
  }

  /** The requests by which the user enters the group: joining or accepting an invitation on the group's terms, or
      being added by an admin on those terms, which a password group does not allow. */
  ghost predicate Enters(w: World, r: Request, id: ConversationId, u: UserId)
    requires id in w.groups
  {
    match r
    case Join(user, group, password, _) => user == u && group == id && Welcome(w, id, u, password)
    case Accept(user, i, password, _) => user == u && Invited(w, i, u, id) && Welcome(w, id, u, password)
    case AddMember(actor, group, target, _) =>
      target == u && group == id && u in w.users && Administers(w.groups[id], actor)
      && w.groups[id].policy != Password && Welcome(w, id, u, None)
    case _ => false
  }

  /** A user enters exactly by such a request, as a plain member from then on; nobody else comes or goes with them. */
  lemma EntersExactly(w: World, r: Request, id: ConversationId, u: UserId)
    requires Ordered(w) && id in w.groups && id in Apply(w, r).world.groups && u !in w.groups[id].members
    ensures u in Apply(w, r).world.groups[id].members <==> Enters(w, r, id, u)
    ensures Enters(w, r, id, u) ==>
      && (r.Join? || r.Accept? || r.AddMember?)
      && Apply(w, r).world.groups[id] == w.groups[id].(members := w.groups[id].members[u := Membership(Member, r.now)])
      && Apply(w, r).outcome == Done
  {
    match r
    case Join(_, _, password, _) => WelcomeIsTheRule(w, id, u, password);
    case Accept(_, _, password, _) => WelcomeIsTheRule(w, id, u, password);
    case AddMember(_, _, _, _) => WelcomeIsTheRule(w, id, u, None);
    case _ =>
  }

  /** The three answers of joining: no such group, not on these terms, or in; joining again changes nothing. */
  lemma JoiningAnswers(w: World, u: UserId, id: ConversationId, password: Option<Secret>, now: nat)
    requires Ordered(w)
    ensures var reply := Apply(w, Join(u, id, password, now));
      && (reply.outcome == Refused(404) <==> id !in w.groups)
      && (reply.outcome == Refused(403) <==>
            id in w.groups && u !in w.groups[id].members && !Welcome(w, id, u, password))
      && (reply.outcome == Done <==> id in w.groups && (u in w.groups[id].members || Welcome(w, id, u, password)))
      && (id in w.groups && u in w.groups[id].members ==> reply.world == w)
  {
    if id in w.groups { WelcomeIsTheRule(w, id, u, password); }
  }

  /** Accepting also asks for an invitation of one's own that is still pending; a refusal leaves it so. */
  lemma AcceptingAnswers(w: World, u: UserId, i: InvitationId, password: Option<Secret>, now: nat)
    requires Ordered(w) && (i in w.invitations ==> w.invitations[i].group in w.groups)
    ensures var reply := Apply(w, Accept(u, i, password, now));
      && (reply.outcome == Refused(404) <==> i !in w.invitations || !Invited(w, i, u, w.invitations[i].group))
      && (reply.outcome == Done <==>
            i in w.invitations && Invited(w, i, u, w.invitations[i].group)
            && (u in w.groups[w.invitations[i].group].members || Welcome(w, w.invitations[i].group, u, password)))
      && (reply.outcome == Done || reply.outcome == Refused(404) || reply.outcome == Refused(403))
  {
    if i in w.invitations { WelcomeIsTheRule(w, w.invitations[i].group, u, password); }
  }

  // ----- going -----

  /** The requests by which a member goes: leaving, which only the last one cannot, or being removed by an admin,
      which the creator cannot. */
  ghost predicate Goes(w: World, r: Request, id: ConversationId, u: UserId)
    requires id in w.groups
  {
    var g := w.groups[id];
    match r
    case Leave(user, group, _) => user == u && group == id && (u != g.creator || g.members.Keys != {u})
    case Remove(actor, group, target) => target == u && group == id && Administers(g, actor) && u != g.creator
    case _ => false
  }

  lemma LeavingSucceeds(w: World, u: UserId, id: ConversationId, rows: seq<Row>)
    requires Orderly(w) && id in w.groups && Lists(rows, w.groups[id]) && u in w.groups[id].members
    ensures LeaveStep(w, u, id, rows).outcome == Done <==>
      u != w.groups[id].creator || w.groups[id].members.Keys != {u}
    ensures LeaveStep(w, u, id, rows).outcome == Done ==>
      LeaveStep(w, u, id, rows).world.groups[id].members.Keys == w.groups[id].members.Keys - {u}
    ensures LeaveStep(w, u, id, rows).outcome == Done || LeaveStep(w, u, id, rows).outcome == Refused(409)
  {
    var next := SuccessorIsNextInLine(rows, u);
    var g := w.groups[id];
    if g.members.Keys != {u} {
      var other :| other in g.members && other != u;
      assert RowOf(g, other) in rows;
    } else {
      forall r | r in rows ensures r.user == u { assert r.user in g.members.Keys; }
    }
  }

  /** No other request takes anybody out of a group that it leaves, or changes when they joined. */
  lemma OthersStayWithoutDeparture(w: World, r: Request, id: ConversationId, u: UserId)
    requires id in w.groups && id in Apply(w, r).world.groups && u in w.groups[id].members
    requires !(r.Leave? && r.id == id) && !(r.Remove? && r.id == id)
    ensures u in Apply(w, r).world.groups[id].members
    ensures Apply(w, r).world.groups[id].members[u].joinedAt == w.groups[id].members[u].joinedAt
  {}

  lemma RemovalTakesOut(w: World, actor: UserId, id: ConversationId, target: UserId, u: UserId)
    requires id in w.groups && u in w.groups[id].members
    ensures u !in RemoveStep(w, actor, id, target).world.groups[id].members <==>
      target == u && Administers(w.groups[id], actor) && u != w.groups[id].creator
    ensures u in RemoveStep(w, actor, id, target).world.groups[id].members ==>
      RemoveStep(w, actor, id, target).world.groups[id].members[u] == w.groups[id].members[u]
    ensures target == u && Administers(w.groups[id], actor) && u != w.groups[id].creator ==>
      RemoveStep(w, actor, id, target).outcome == Done
      && RemoveStep(w, actor, id, target).world.groups[id].members.Keys == w.groups[id].members.Keys - {u}
  {}

  lemma LeaveTakesOut(w: World, user: UserId, id: ConversationId, rows: seq<Row>, u: UserId)
    requires Orderly(w) && id in w.groups && Lists(rows, w.groups[id]) && u in w.groups[id].members
    ensures u !in LeaveStep(w, user, id, rows).world.groups[id].members <==>
      user == u && (u != w.groups[id].creator || w.groups[id].members.Keys != {u})
    ensures u in LeaveStep(w, user, id, rows).world.groups[id].members ==>
      LeaveStep(w, user, id, rows).world.groups[id].members[u].joinedAt == w.groups[id].members[u].joinedAt
  {
    if user in w.groups[id].members { LeavingSucceeds(w, user, id, rows); }
  }

  /** A member goes exactly by such a request, alone; whoever stays keeps the time they joined. */
  lemma GoesExactly(w: World, r: Request, id: ConversationId, u: UserId)
    requires Orderly(w) && Faithful(w, r) && id in w.groups && id in Apply(w, r).world.groups
    requires u in w.groups[id].members
    ensures u !in Apply(w, r).world.groups[id].members <==> Goes(w, r, id, u)
    ensures Goes(w, r, id, u) ==>
      Apply(w, r).world.groups[id].members.Keys == w.groups[id].members.Keys - {u} && Apply(w, r).outcome == Done
    ensures !Goes(w, r, id, u) ==>
      Apply(w, r).world.groups[id].members[u].joinedAt == w.groups[id].members[u].joinedAt
  {
    if r.Leave? && r.id == id {
      LeaveTakesOut(w, r.user, id, r.rows, u);
      if r.user == u { LeavingSucceeds(w, u, id, r.rows); }
    } else if r.Remove? && r.id == id {
      RemovalTakesOut(w, r.actor, id, r.target, u);
    } else {
      OthersStayWithoutDeparture(w, r, id, u);
    }
  }

  // ----- roles and settings -----

  lemma RolesAfterLeave(w: World, user: UserId, id: ConversationId, rows: seq<Row>, u: UserId)
    requires Orderly(w) && id in w.groups && Lists(rows, w.groups[id])
    requires u in w.groups[id].members && u in LeaveStep(w, user, id, rows).world.groups[id].members
    ensures LeaveStep(w, user, id, rows).world.groups[id].members[u].role ==
      if user == w.groups[id].creator && GroupSuccessor(rows, user) == Some(u) then Creator
      else w.groups[id].members[u].role
  {
    var next := SuccessorIsNextInLine(rows, user);
  }

  lemma OthersKeepRoles(w: World, r: Request, id: ConversationId, u: UserId)
    requires id in w.groups && id in Apply(w, r).world.groups
    requires u in w.groups[id].members && u in Apply(w, r).world.groups[id].members
    requires !(r.Leave? && r.id == id) && !(r.SetRole? && r.id == id)
    ensures Apply(w, r).world.groups[id].members[u].role == w.groups[id].members[u].role
  {}

  /** The role a member has afterwards: what the creator says, or that of creator for whoever is next in line when the
      creator leaves, or what it was. */
  lemma RolesChangeExactly(w: World, r: Request, id: ConversationId, u: UserId)
    requires Orderly(w) && Faithful(w, r) && id in w.groups && id in Apply(w, r).world.groups
    requires u in w.groups[id].members && u in Apply(w, r).world.groups[id].members
    ensures Apply(w, r).world.groups[id].members[u].role ==
      if r.SetRole? && r.id == id && r.actor == w.groups[id].creator && r.target == u && u != r.actor
      then if r.admin then Admin else Member
      else if r.Leave? && r.id == id && r.user == w.groups[id].creator && GroupSuccessor(r.rows, r.user) == Some(u)
      then Creator
      else w.groups[id].members[u].role
  {
    if r.Leave? && r.id == id {
      RolesAfterLeave(w, r.user, id, r.rows, u);
    } else if !(r.SetRole? && r.id == id) {
      OthersKeepRoles(w, r, id, u);
    }
  }

  /** An update that an admin may make: something to change, a password of fitting length if one is given, one exactly
      where it is needed and never where it is not. */
  predicate MayUpdate(g: Group, actor: UserId, titled: bool, policy: Option<Policy>, password: Option<Secret>) {
    var next := if policy.Some? then policy.value else g.policy;
    && Administers(g, actor) && (titled || policy.Some? || password.Some?)
    && (password.Some? ==> next == Password && 8 <= |password.value| <= 256)
    && (next == Password && g.policy != Password ==> password.Some?)
  }

  lemma SettingsAfterUpdate(w: World, actor: UserId, id: ConversationId, titled: bool, policy: Option<Policy>,
                            password: Option<Secret>)
    requires id in w.groups && GroupOrderly(w.groups[id])
    ensures var g, g' := w.groups[id], UpdateStep(w, actor, id, titled, policy, password).world.groups[id];
      var updated := MayUpdate(g, actor, titled, policy, password);
      && g'.policy == (if updated && policy.Some? then policy.value else g.policy)
      && g'.password == (if g'.policy != Password then None
                         else if updated && password.Some? then password else g.password)
      && g'.creator == g.creator && g'.members == g.members
  {}

  lemma SettingsAfterLeave(w: World, user: UserId, id: ConversationId, rows: seq<Row>)
    requires Orderly(w) && id in w.groups && Lists(rows, w.groups[id])
    ensures var g, g' := w.groups[id], LeaveStep(w, user, id, rows).world.groups[id];
      && g'.policy == g.policy && g'.password == g.password
      && g'.creator == (if user == g.creator && GroupSuccessor(rows, user).Some?
                        then GroupSuccessor(rows, user).value else g.creator)
  {
    var next := SuccessorIsNextInLine(rows, user);
  }

  lemma OthersKeepSettings(w: World, r: Request, id: ConversationId)
    requires id in w.groups && id in Apply(w, r).world.groups
    requires !(r.Leave? && r.id == id) && !(r.Update? && r.id == id)
    ensures var g, g' := w.groups[id], Apply(w, r).world.groups[id];
      g'.policy == g.policy && g'.password == g.password && g'.creator == g.creator
  {}

  /** Policy and password afterwards: a password is kept until it is replaced or the policy drops it. The creator
      changes only by handing over. */
  lemma SettingsChangeExactly(w: World, r: Request, id: ConversationId)
    requires Orderly(w) && Faithful(w, r) && id in w.groups && id in Apply(w, r).world.groups
    ensures var g, g' := w.groups[id], Apply(w, r).world.groups[id];
      var updated := r.Update? && r.id == id && MayUpdate(g, r.actor, r.titled, r.newPolicy, r.password);
      && g'.policy == (if updated && r.newPolicy.Some? then r.newPolicy.value else g.policy)
      && g'.password == (if g'.policy != Password then None
                         else if updated && r.password.Some? then r.password else g.password)
      && g'.creator == (if r.Leave? && r.id == id && r.user == g.creator && GroupSuccessor(r.rows, r.user).Some?
                        then GroupSuccessor(r.rows, r.user).value else g.creator)
  {
    assert GroupOrderly(w.groups[id]);
    if r.Update? && r.id == id {
      SettingsAfterUpdate(w, r.actor, id, r.titled, r.newPolicy, r.password);
    } else if r.Leave? && r.id == id {
      SettingsAfterLeave(w, r.user, id, r.rows);
    } else {
      OthersKeepSettings(w, r, id);
    }
  }

  // ----- groups -----

  /** The people may found the group: a password exactly where it is needed, at most 100 others, each once. */
  ghost predicate MayFound(w: World, policy: Policy, password: Option<Secret>, creator: UserId, members: seq<UserId>) {
    && (password.Some? <==> policy == Password) && (password.Some? ==> 8 <= |password.value| <= 256)
    && |members| <= 100 && creator !in members && Distinct(members)
    && (forall m <- members :: Friends(w, creator, m))
    && (policy == FriendsOnly ==> forall a, b | a in members && b in members && a != b :: Friends(w, a, b))
  }

  lemma MayFoundIsTheRule(w: World, policy: Policy, password: Option<Secret>, creator: UserId, members: seq<UserId>)
    requires Ordered(w)
    ensures MayFound(w, policy, password, creator, members) <==>
      && PasswordFits(policy, password) && |members| <= MAX_INITIAL_MEMBERS && creator !in members && Distinct(members)
      && RequiredPairs(creator, members, policy) <= w.friendships
  {
    forall a, b | a != b ensures Friends(w, a, b) <==> AreFriends(w.friendships, a, b) { FriendsByPair(w, a, b); }
    if creator !in members && Distinct(members) {
      RequiredPairsMean(creator, members, policy, w.friendships);
      var people := set m | m in [creator] + members;
      assert forall m :: m in people <==> m == creator || m in members;
    }
  }

  /** A group comes by a founding that may be, with exactly its founder and the people named, and goes by an admin's
      deletion. */
  lemma GroupsComeAndGoExactly(w: World, r: Request, id: ConversationId)
    requires Ordered(w)
    ensures id in Apply(w, r).world.groups <==>
      if id in w.groups then !(r.Delete? && r.id == id && Administers(w.groups[id], r.actor))
      else r.Create? && r.id == id && MayFound(w, r.policy, r.password, r.creator, r.members)
    ensures id !in w.groups && id in Apply(w, r).world.groups ==>
      var g := Apply(w, r).world.groups[id];
      && g.creator == r.creator && g.policy == r.policy && g.password == r.password
      && forall u :: (u in g.members <==> u == r.creator || u in r.members)
           && (u in g.members ==> g.members[u] == Membership(if u == r.creator then Creator else Member, r.now))
  {
    if r.Create? { MayFoundIsTheRule(w, r.policy, r.password, r.creator, r.members); }
  }

  // ----- invitations -----

  /** An admin of a password group invites a user who is no member and has no invitation to it pending. */
  ghost predicate MayInvite(w: World, r: Request) {
    && r.Invite? && r.id in w.groups && Administers(w.groups[r.id], r.actor) && r.actor != r.invitee
    && r.invitee in w.users && w.groups[r.id].policy == Password && r.invitee !in w.groups[r.id].members
    && forall o <- w.invitations :: !Invited(w, o, r.invitee, r.id)
  }

  lemma NewInvitations(w: World, r: Request, i: InvitationId)
    requires i !in w.invitations
    ensures i in Apply(w, r).world.invitations <==> MayInvite(w, r) && r.invitation == i
    ensures i in Apply(w, r).world.invitations ==>
      Apply(w, r).world.invitations[i] == Invitation(r.id, r.actor, r.invitee, Pending)
  {
    if r.Invite? { InvitingAddsOne(w, r, i); } else { OthersInviteNobody(w, r, i); }
  }

  lemma InvitingAddsOne(w: World, r: Request, i: InvitationId)
    requires i !in w.invitations && r.Invite?
    ensures i in Apply(w, r).world.invitations <==> MayInvite(w, r) && r.invitation == i
    ensures i in Apply(w, r).world.invitations ==>
      Apply(w, r).world.invitations[i] == Invitation(r.id, r.actor, r.invitee, Pending)
  {
    assert PendingFor(w.invitations, r.id, r.invitee) <==> exists o <- w.invitations :: Invited(w, o, r.invitee, r.id);
  }

  lemma OthersInviteNobody(w: World, r: Request, i: InvitationId)
    requires i !in w.invitations && !r.Invite?
    ensures i !in Apply(w, r).world.invitations
  {}

  lemma DeletionDropsInvitations(w: World, r: Request, i: InvitationId)
    requires i in w.invitations && w.invitations[i].group in w.groups && r.Delete?
    ensures i in Apply(w, r).world.invitations <==> w.invitations[i].group in Apply(w, r).world.groups
    ensures i in Apply(w, r).world.invitations ==> Apply(w, r).world.invitations[i] == w.invitations[i]
  {}

  lemma AnswersResolve(w: World, r: Request, i: InvitationId)
    requires i in w.invitations && (r.Accept? || r.Decline?)
    ensures i in Apply(w, r).world.invitations && Apply(w, r).world.groups.Keys == w.groups.Keys
    ensures Apply(w, r).world.invitations[i] == w.invitations[i].(status :=
      if w.invitations[i].status == Pending && r.invitation == i && r.user == w.invitations[i].invitee then
        if r.Decline? then Declined else if Apply(w, r).outcome == Done then Accepted else Pending
      else w.invitations[i].status)
  {}

  lemma OthersKeepInvitations(w: World, r: Request, i: InvitationId)
    requires i in w.invitations && w.invitations[i].group in w.groups && !r.Accept? && !r.Decline? && !r.Delete?
    ensures w.invitations[i].group in Apply(w, r).world.groups
    ensures i in Apply(w, r).world.invitations && Apply(w, r).world.invitations[i] == w.invitations[i]
  {}

  /** An invitation comes from an admin of a password group to a user who is no member and has none pending; it is
      accepted or declined by its invitee alone while pending, and goes with its group. */
  lemma InvitationsChangeExactly(w: World, r: Request, i: InvitationId)
    requires Orderly(w)
    ensures i !in w.invitations ==>
      (i in Apply(w, r).world.invitations <==> MayInvite(w, r) && r.invitation == i)
    ensures i !in w.invitations && i in Apply(w, r).world.invitations ==>
      Apply(w, r).world.invitations[i] == Invitation(r.id, r.actor, r.invitee, Pending)
    ensures i in w.invitations ==>
      (i in Apply(w, r).world.invitations <==> w.invitations[i].group in Apply(w, r).world.groups)
    ensures i in w.invitations && i in Apply(w, r).world.invitations ==>
      Apply(w, r).world.invitations[i] == w.invitations[i].(status :=
        if w.invitations[i].status == Pending && (r.Accept? || r.Decline?) && r.invitation == i
           && r.user == w.invitations[i].invitee
        then if r.Decline? then Declined else if Apply(w, r).outcome == Done then Accepted else Pending
        else w.invitations[i].status)
  {
    if i !in w.invitations {
      NewInvitations(w, r, i);
    } else if r.Accept? || r.Decline? {
      AnswersResolve(w, r, i);
    } else if r.Delete? {
      DeletionDropsInvitations(w, r, i);
    } else {
      OthersKeepInvitations(w, r, i);
    }
  }

  // ----- answers -----

  predicate IsMember(w: World, id: ConversationId, u: UserId) {
    id in w.groups && u in w.groups[id].members
  }

  predicate Manages(w: World, id: ConversationId, u: UserId) {
    id in w.groups && Administers(w.groups[id], u)
  }

  /** What a request about members is told: 404 for a group, person or member that is not there, 403 to whoever may
      not, 409 or 400 for what the group's state or the request rules out. */
  lemma MemberAnswers(w: World, r: Request)
    requires Ordered(w) && Orderly(w) && Faithful(w, r)
    ensures r.AddMember? ==>
      Apply(w, r).outcome ==
        if r.id !in w.groups then Refused(404) else if !Manages(w, r.id, r.actor) then Refused(403)
        else if r.target !in w.users then Refused(404) else if IsMember(w, r.id, r.target) then Done
        else if w.groups[r.id].policy == Password then Refused(409)
        else if Welcome(w, r.id, r.target, None) then Done else Refused(403)
    ensures r.Remove? ==>
      Apply(w, r).outcome ==
        if r.id !in w.groups then Refused(404) else if !Manages(w, r.id, r.actor) then Refused(403)
        else if r.target == w.groups[r.id].creator then Refused(403)
        else if !IsMember(w, r.id, r.target) then Refused(404) else Done
    ensures r.Leave? ==>
      Apply(w, r).outcome ==
        if !IsMember(w, r.id, r.user) then Refused(404)
        else if r.user == w.groups[r.id].creator && w.groups[r.id].members.Keys == {r.user} then Refused(409) else Done
    ensures r.SetRole? ==>
      Apply(w, r).outcome ==
        if r.id !in w.groups then Refused(404) else if r.actor != w.groups[r.id].creator then Refused(403)
        else if r.target == r.actor then Refused(400) else if !IsMember(w, r.id, r.target) then Refused(404) else Done
  {
    match r
    case AddMember(_, id, target, _) => if id in w.groups { WelcomeIsTheRule(w, id, target, None); }
    case Leave(user, id, rows) => if IsMember(w, id, user) { LeavingSucceeds(w, user, id, rows); }
    case _ =>
  }

  /** What a request about the group or its invitations is told. */
  lemma GroupAnswers(w: World, r: Request)
    requires Ordered(w) && Orderly(w)
    ensures r.Create? ==>
      (Apply(w, r).outcome == Done <==>
        r.id !in w.groups && MayFound(w, r.policy, r.password, r.creator, r.members))
      && (Apply(w, r).outcome == Refused(403) <==>
            !MayFound(w, r.policy, r.password, r.creator, r.members)
            && MayFound(Befriended(w, r.creator, r.members), r.policy, r.password, r.creator, r.members))
    ensures r.Update? ==>
      (Apply(w, r).outcome == Done <==>
        r.id in w.groups && MayUpdate(w.groups[r.id], r.actor, r.titled, r.newPolicy, r.password))
      && (Apply(w, r).outcome == Refused(403) ==> r.id in w.groups && !Manages(w, r.id, r.actor))
      && (Apply(w, r).outcome == Refused(404) ==> r.id !in w.groups)
      && (Apply(w, r).outcome == Done || Apply(w, r).outcome.status in {400, 403, 404})
    ensures r.Delete? ==>
      Apply(w, r).outcome ==
        if r.id !in w.groups then Refused(404) else if Manages(w, r.id, r.actor) then Done else Refused(403)
    ensures r.Decline? ==>
      Apply(w, r).outcome ==
        if r.invitation in w.invitations && Invited(w, r.invitation, r.user, w.invitations[r.invitation].group)
        then Done else Refused(404)
    ensures r.Invite? && r.invitation !in w.invitations ==>
      Apply(w, r).outcome ==
        if r.invitee == r.actor then Refused(400) else if r.id !in w.groups then Refused(404)
        else if !Manages(w, r.id, r.actor) then Refused(403) else if w.groups[r.id].policy != Password then Refused(409)
        else if r.invitee !in w.users then Refused(404) else if IsMember(w, r.id, r.invitee) then Refused(409) else Done
  {
    if r.Create? { CreateAnswers(w, r); }
  }

  /** The world in which everybody named is friends with everybody else. */
  function Befriended(w: World, creator: UserId, members: seq<UserId>): World {
    var people := set m | m in [creator] + members;
    w.(friendships := set a, b | a in people && b in people && a < b :: (a, b))
  }

  lemma CreateAnswers(w: World, r: Request)
    requires Ordered(w) && r.Create?
    ensures Apply(w, r).outcome == Done <==>
      r.id !in w.groups && MayFound(w, r.policy, r.password, r.creator, r.members)
    ensures Apply(w, r).outcome == Refused(403) <==>
      !MayFound(w, r.policy, r.password, r.creator, r.members)
      && MayFound(Befriended(w, r.creator, r.members), r.policy, r.password, r.creator, r.members)
  {
    MayFoundIsTheRule(w, r.policy, r.password, r.creator, r.members);
    var w' := Befriended(w, r.creator, r.members);
    forall a, b | a in [r.creator] + r.members && b in [r.creator] + r.members && a != b ensures Friends(w', a, b) {
      assert (if a < b then (a, b) else (b, a)) in w'.friendships;
    }
    assert forall m <- r.members :: m in [r.creator] + r.members;
  }

  /** A refusal changes nothing. */
  lemma RefusalsChangeNothing(w: World, r: Request)
    requires Apply(w, r).outcome != Done
    ensures Apply(w, r).world == w
  {}

  // ----- friendships stay ordered -----

  lemma ApplyKeepsOrdered(w: World, r: Request)
    requires Ordered(w)
    ensures Ordered(Apply(w, r).world)
  {}

  lemma {:induction false} RunsKeepOrdered(w: World, rs: seq<Request>)
    requires Ordered(w)
    ensures Ordered(ApplyAll(w, rs))
    decreases |rs|
  {
    if rs != [] {
      RunsKeepOrdered(w, rs[..|rs| - 1]);
      ApplyKeepsOrdered(ApplyAll(w, rs[..|rs| - 1]), rs[|rs| - 1]);
    }
  }

  // ----- a password group over whole runs -----

  /** At request `k` the user, no member before, gave the group's password of that time themselves. */
  ghost predicate GavePassword(w: World, rs: seq<Request>, k: nat, id: ConversationId, u: UserId)
    requires k < |rs|
  {
    var before := ApplyAll(w, rs[..k]);
    && id in before.groups && u !in before.groups[id].members && before.groups[id].password.Some?
    && ((rs[k].Join? && rs[k].user == u && rs[k].id == id && rs[k].password == before.groups[id].password)
        || (rs[k].Accept? && rs[k].user == u && Invited(before, rs[k].invitation, u, id)
            && rs[k].password == before.groups[id].password))
  }

  /** The group exists throughout and always asks for a password. */
  ghost predicate AlwaysPassword(w: World, rs: seq<Request>, id: ConversationId) {
    forall k: nat | k <= |rs| :: id in ApplyAll(w, rs[..k]).groups && ApplyAll(w, rs[..k]).groups[id].policy == Password
  }

  /** While a group asks for a password, whoever is a member in the end and was not at the start gave, at some moment,
      the password of that moment. */
  lemma {:induction false} NobodyEntersWithoutThePassword(w: World, rs: seq<Request>, id: ConversationId, u: UserId)
    requires Ordered(w) && AlwaysPassword(w, rs, id)
    requires id in w.groups && u !in w.groups[id].members
    requires id in ApplyAll(w, rs).groups && u in ApplyAll(w, rs).groups[id].members
    ensures exists k: nat :: k < |rs| && GavePassword(w, rs, k, id, u)
    decreases |rs|
  {
    var n := |rs| - 1;
    var init := rs[..n];
    forall k: nat | k <= n
      ensures id in ApplyAll(w, init[..k]).groups && ApplyAll(w, init[..k]).groups[id].policy == Password
    {
      assert init[..k] == rs[..k];
    }
    assert init[..n] == init;
    RunsKeepOrdered(w, init);
    if u in ApplyAll(w, init).groups[id].members {
      NobodyEntersWithoutThePassword(w, init, id, u);
      var k: nat :| k < |init| && GavePassword(w, init, k, id, u);
      assert init[..k] == rs[..k];
      assert GavePassword(w, rs, k, id, u);
    } else {
      EntersExactly(ApplyAll(w, init), rs[n], id, u);
      assert GavePassword(w, rs, n, id, u);
    }
  }
}
