/** Group membership and ownership: every handler that changes a group, an invitation or a friendship, as one atomic
    step (each locks the group row), and what holds in every reachable state. */
module Groups {
  import opened Identifiers

  type InvitationId = nat
  /** A password, as bytes. Hashing and verifying are represented by keeping and comparing it. */
  type Secret = seq<bv8>

  datatype Policy = Open | Password | FriendsOnly | FriendsOfFriends

  datatype Role = Creator | Admin | Member

  datatype Membership = Membership(role: Role, joinedAt: nat)

  datatype Group = Group(creator: UserId, policy: Policy, password: Option<Secret>, members: map<UserId, Membership>)

  datatype InvitationStatus = Pending | Accepted | Declined

  datatype Invitation = Invitation(group: ConversationId, inviter: UserId, invitee: UserId, status: InvitationStatus)

  /** The tables; a friendship is the ordered pair of two different users, as its unique index has it. */
  datatype World = World(
    users: set<UserId>,
    friendships: set<(UserId, UserId)>,
    groups: map<ConversationId, Group>,
    invitations: map<InvitationId, Invitation>)

  const EMPTY := World({}, {}, map[], map[])

  /** HTTP status of a refusal. */
  datatype Outcome = Done | Refused(status: nat)

  datatype Reply = Reply(world: World, outcome: Outcome)

  const MAX_INITIAL_MEMBERS: nat := 100

  // ----- friendship -----

  function CanonicalPair(first: UserId, second: UserId): (UserId, UserId) {
    if first < second then (first, second) else (second, first)
  }

  predicate AreFriends(friendships: set<(UserId, UserId)>, a: UserId, b: UserId) {
    CanonicalPair(a, b) in friendships
  }

  predicate FriendsWithEvery(friendships: set<(UserId, UserId)>, candidate: UserId, members: set<UserId>) {
    forall m <- members :: m != candidate ==> AreFriends(friendships, candidate, m)
  }

  predicate FriendsWithAny(friendships: set<(UserId, UserId)>, candidate: UserId, members: set<UserId>) {
    exists m <- members :: m != candidate && AreFriends(friendships, candidate, m)
  }

  /** The query loop of `is_friends_with_every_member`, over the members in the order they were loaded. */
  method IsFriendsWithEveryMember(friendships: set<(UserId, UserId)>, candidate: UserId, memberIds: seq<UserId>)
    returns (ok: bool)
    ensures ok <==> FriendsWithEvery(friendships, candidate, set m | m in memberIds)
  {
    for i := 0 to |memberIds|
      invariant forall m <- memberIds[..i] :: m != candidate ==> AreFriends(friendships, candidate, m)
    {
      var m := memberIds[i];
      if m != candidate && !AreFriends(friendships, candidate, m) {
        assert m in (set x | x in memberIds);
        return false;
      }
    }
    assert memberIds[..|memberIds|] == memberIds;
    return true;
  }

  // ----- creating a group -----

  function PairsWith(user: UserId, others: seq<UserId>): set<(UserId, UserId)> {
    set o <- others :: CanonicalPair(user, o)
  }

  /** Each of the first `n` members paired with every later member. */
  function PairsFrom(members: seq<UserId>, n: nat): set<(UserId, UserId)>
    requires n <= |members|
  {
    if n == 0 then {} else PairsFrom(members, n - 1) + PairsWith(members[n - 1], members[n..])
  }

  function RequiredPairs(creator: UserId, members: seq<UserId>, policy: Policy): set<(UserId, UserId)> {
    PairsWith(creator, members) + if policy == FriendsOnly then PairsFrom(members, |members|) else {}
  }

  /** `required_initial_friendship_pairs`. */
  method RequiredInitialFriendshipPairs(creator: UserId, members: seq<UserId>, policy: Policy)
    returns (pairs: set<(UserId, UserId)>)
    ensures pairs == RequiredPairs(creator, members, policy)
  {
    pairs := set m <- members :: CanonicalPair(creator, m);
    if policy == FriendsOnly {
      for index := 0 to |members|
        invariant pairs == PairsWith(creator, members) + PairsFrom(members, index)
      {
        pairs := pairs + set other <- members[index + 1..] :: CanonicalPair(members[index], other);
      }
    }
  }

  predicate Distinct(s: seq<UserId>) {
    forall i, j | 0 <= i < j < |s| :: s[i] != s[j]
  }

  /** Everybody is friends with everybody else. */
  ghost predicate Clique(friendships: set<(UserId, UserId)>, people: set<UserId>) {
    forall a, b | a in people && b in people && a != b :: AreFriends(friendships, a, b)
  }

  ghost predicate PairsTwo(members: seq<UserId>, i: int, j: int, p: (UserId, UserId)) {
    0 <= i < j < |members| && p == CanonicalPair(members[i], members[j])
  }

  lemma PairsWithLater(members: seq<UserId>, i: nat, p: (UserId, UserId))
    requires i < |members|
    ensures p in PairsWith(members[i], members[i + 1..]) <==> exists j :: PairsTwo(members, i, j, p)
  {
    var later := members[i + 1..];
    if p in PairsWith(members[i], later) {
      var o :| o in later && p == CanonicalPair(members[i], o);
      var k :| 0 <= k < |later| && later[k] == o;
      assert PairsTwo(members, i, i + 1 + k, p);
    }
    if j :| PairsTwo(members, i, j, p) {
      assert later[j - i - 1] == members[j];
    }
  }

  lemma {:induction false} PairsFromIsAllPairs(members: seq<UserId>, n: nat, p: (UserId, UserId))
    requires n <= |members|
    ensures p in PairsFrom(members, n) <==> exists i, j :: i < n && PairsTwo(members, i, j, p)
    decreases n
  {
    if n > 0 {
      PairsFromIsAllPairs(members, n - 1, p);
      PairsWithLater(members, n - 1, p);
    }
  }

  lemma PairIsRequired(members: seq<UserId>, a: UserId, b: UserId)
    requires a in members && b in members && a != b
    ensures CanonicalPair(a, b) in PairsFrom(members, |members|)
  {
    var i :| 0 <= i < |members| && members[i] == a;
    var j :| 0 <= j < |members| && members[j] == b;
    PairsFromIsAllPairs(members, |members|, CanonicalPair(a, b));
    assert if i < j then PairsTwo(members, i, j, CanonicalPair(a, b)) else PairsTwo(members, j, i, CanonicalPair(a, b));
  }

  lemma PairsWithMean(user: UserId, others: seq<UserId>, friendships: set<(UserId, UserId)>)
    ensures PairsWith(user, others) <= friendships <==> forall o <- others :: AreFriends(friendships, user, o)
  {
    forall o | o in others ensures CanonicalPair(user, o) in PairsWith(user, others) {}
  }

  lemma PairsFromMean(members: seq<UserId>, friendships: set<(UserId, UserId)>)
    requires Distinct(members)
    ensures PairsFrom(members, |members|) <= friendships <==>
      forall a, b | a in members && b in members && a != b :: AreFriends(friendships, a, b)
  {
    if PairsFrom(members, |members|) <= friendships {
      forall a, b | a in members && b in members && a != b ensures AreFriends(friendships, a, b) {
        PairIsRequired(members, a, b);
      }
    }
    if forall a, b | a in members && b in members && a != b :: AreFriends(friendships, a, b) {
      forall p | p in PairsFrom(members, |members|) ensures p in friendships {
        PairsFromIsAllPairs(members, |members|, p);
        var i, j :| i < |members| && PairsTwo(members, i, j, p);
        assert AreFriends(friendships, members[i], members[j]);
      }
    }
  }

  /** For a friends-only group the required pairs are accepted exactly when the people form a clique; for any other
      policy, exactly when the creator is friends with each initial member. */
  lemma RequiredPairsMean(creator: UserId, members: seq<UserId>, policy: Policy, friendships: set<(UserId, UserId)>)
    requires Distinct(members) && creator !in members
    ensures policy == FriendsOnly ==>
      (RequiredPairs(creator, members, policy) <= friendships <==>
        Clique(friendships, set m | m in [creator] + members))
    ensures policy != FriendsOnly ==>
      (RequiredPairs(creator, members, policy) <= friendships <==>
        forall m <- members :: AreFriends(friendships, creator, m))
  {
    PairsWithMean(creator, members, friendships);
    PairsFromMean(members, friendships);
    var people := set m | m in [creator] + members;
    assert forall m :: m in people <==> m == creator || m in members;
    if Clique(friendships, people) {
      assert forall m <- members :: AreFriends(friendships, creator, m);
    }
    assert forall a, b :: AreFriends(friendships, a, b) == AreFriends(friendships, b, a);
  }

  predicate PasswordFits(policy: Policy, password: Option<Secret>) {
    if policy == Password then password.Some? && 8 <= |password.value| <= 256 else password.None?
  }

  /** `now` dates all the initial memberships. */
  function Founded(creator: UserId, policy: Policy, password: Option<Secret>, members: seq<UserId>, now: nat): Group {
    Group(creator, policy, password,
          map u | u in [creator] + members :: Membership(if u == creator then Creator else Member, now))
  }

  function CreateStep(w: World, id: ConversationId, creator: UserId, policy: Policy, password: Option<Secret>,
                      members: seq<UserId>, now: nat): Reply {
    if !PasswordFits(policy, password) || |members| > MAX_INITIAL_MEMBERS || creator in members
      || !Distinct(members) then
      Reply(w, Refused(400))
    else if !(RequiredPairs(creator, members, policy) <= w.friendships) then Reply(w, Refused(403))
    else if id in w.groups then Reply(w, Refused(500))
    else Reply(w.(groups := w.groups[id := Founded(creator, policy, password, members, now)]), Done)
  }

  // ----- joining -----

  /** `authorize_group_admission`. */
  predicate Admits(w: World, g: Group, candidate: UserId, password: Option<Secret>) {
    match g.policy
    case Open => true
    case Password => g.password.Some? && password == g.password
    case FriendsOnly => FriendsWithEvery(w.friendships, candidate, g.members.Keys)
    case FriendsOfFriends => FriendsWithAny(w.friendships, candidate, g.members.Keys)
  }

  function WithMember(g: Group, user: UserId, now: nat): Group {
    if user in g.members then g else g.(members := g.members[user := Membership(Member, now)])
  }

  function SetGroup(w: World, id: ConversationId, g: Group): World {
    w.(groups := w.groups[id := g])
  }

  function JoinStep(w: World, user: UserId, id: ConversationId, password: Option<Secret>, now: nat): Reply {
    if id !in w.groups then Reply(w, Refused(404))
    else
      var g := w.groups[id];
      if user in g.members then Reply(w, Done)
      else if !Admits(w, g, user, password) then Reply(w, Refused(403))
      else Reply(SetGroup(w, id, WithMember(g, user, now)), Done)
  }

  predicate IsAdmin(g: Group, user: UserId) {
    user in g.members && g.members[user].role != Member
  }

  /** The refusal of `require_group_admin_for_update`, if any. */
  function AdminRefusal(w: World, actor: UserId, id: ConversationId): Outcome {
    if id !in w.groups then Refused(404) else if !IsAdmin(w.groups[id], actor) then Refused(403) else Done
  }

  function AddMemberStep(w: World, actor: UserId, id: ConversationId, target: UserId, now: nat): Reply {
    var refusal := AdminRefusal(w, actor, id);
    if refusal != Done then Reply(w, refusal)
    else if target !in w.users then Reply(w, Refused(404))
    else
      var g := w.groups[id];
      if target in g.members then Reply(w, Done)
      else if g.policy == Password then Reply(w, Refused(409))
      else if !Admits(w, g, target, None) then Reply(w, Refused(403))
      else Reply(SetGroup(w, id, WithMember(g, target, now)), Done)
  }

  // ----- leaving -----

  /** A membership row, as `leave_group` loads it. */
  datatype Row = Row(user: UserId, role: Role, joinedAt: nat)

  function RowOf(g: Group, user: UserId): Row
    requires user in g.members
  {
    Row(user, g.members[user].role, g.members[user].joinedAt)
  }

  /** `rows` lists the members once each, in some order. */
  ghost predicate Lists(rows: seq<Row>, g: Group) {
    && (forall r <- rows :: r.user in g.members && r == RowOf(g, r.user))
    && (forall u <- g.members :: RowOf(g, u) in rows)
  }

  /** The first row that joined earliest, as `min_by_key` picks it. */
  function EarliestJoined(rows: seq<Row>): Option<Row>
    decreases |rows|
  {
    if rows == [] then None
    else
      var last := rows[|rows| - 1];
      match EarliestJoined(rows[..|rows| - 1])
      case None => Some(last)
      case Some(best) => if last.joinedAt < best.joinedAt then Some(last) else Some(best)
  }

  function Staying(rows: seq<Row>, leaving: UserId): seq<Row>
    decreases |rows|
  {
    if rows == [] then []
    else Staying(rows[..|rows| - 1], leaving) + if rows[|rows| - 1].user != leaving then [rows[|rows| - 1]] else []
  }

  function Admins(rows: seq<Row>): seq<Row>
    decreases |rows|
  {
    if rows == [] then []
    else Admins(rows[..|rows| - 1]) + if rows[|rows| - 1].role == Admin then [rows[|rows| - 1]] else []
  }

  /** `group_successor`. */
  function GroupSuccessor(rows: seq<Row>, leaving: UserId): Option<UserId> {
    var staying := Staying(rows, leaving);
    match EarliestJoined(Admins(staying))
    case Some(row) => Some(row.user)
    case None => match EarliestJoined(staying) case Some(row) => Some(row.user) case None => None
  }

  function HandedOver(g: Group, successor: UserId): Group
    requires successor in g.members
  {
    g.(creator := successor, members := g.members[successor := g.members[successor].(role := Creator)])
  }

  function WithoutMember(g: Group, user: UserId): Group {
    g.(members := g.members - {user})
  }

  function LeaveStep(w: World, user: UserId, id: ConversationId, rows: seq<Row>): Reply {
    if id !in w.groups then Reply(w, Refused(404))
    else
      var g := w.groups[id];
      if g.creator == user then
        match GroupSuccessor(rows, user)
        case None => Reply(w, Refused(409))
        case Some(successor) =>
          if successor !in g.members || user !in g.members then Reply(w, Refused(404))
          else Reply(SetGroup(w, id, WithoutMember(HandedOver(g, successor), user)), Done)
      else if user !in g.members then Reply(w, Refused(404))
      else Reply(SetGroup(w, id, WithoutMember(g, user)), Done)
  }

  function RemoveStep(w: World, actor: UserId, id: ConversationId, target: UserId): Reply {
    var refusal := AdminRefusal(w, actor, id);
    if refusal != Done then Reply(w, refusal)
    else
      var g := w.groups[id];
      if target == g.creator then Reply(w, Refused(403))
      else if target !in g.members then Reply(w, Refused(404))
      else Reply(SetGroup(w, id, WithoutMember(g, target)), Done)
  }

  // ----- running a group -----

  /** Only `Admin` and `Member` can be asked for. */
  function SetRoleStep(w: World, actor: UserId, id: ConversationId, target: UserId, admin: bool): Reply {
    if id !in w.groups then Reply(w, Refused(404))
    else
      var g := w.groups[id];
      if g.creator != actor then Reply(w, Refused(403))
      else if target == g.creator then Reply(w, Refused(400))
      else if target !in g.members then Reply(w, Refused(404))
      else
        var row := g.members[target].(role := if admin then Admin else Member);
        Reply(SetGroup(w, id, g.(members := g.members[target := row])), Done)
  }

  function UpdateStep(w: World, actor: UserId, id: ConversationId, titled: bool, policy: Option<Policy>,
                      password: Option<Secret>): Reply {
    var refusal := AdminRefusal(w, actor, id);
    if !titled && policy.None? && password.None? then Reply(w, Refused(400))
    else if password.Some? && !PasswordFits(Password, password) then Reply(w, Refused(400))
    else if refusal != Done then Reply(w, refusal)
    else
      var g := w.groups[id];
      var next := if policy.Some? then policy.value else g.policy;
      if next == Password && g.policy != Password && password.None? then Reply(w, Refused(400))
      else if next != Password && password.Some? then Reply(w, Refused(400))
      else
        var kept := if next != Password then None else if password.Some? then password else g.password;
        Reply(SetGroup(w, id, g.(policy := next, password := kept)), Done)
  }

  /** Deleting a group deletes its invitations with it. */
  function DeleteStep(w: World, actor: UserId, id: ConversationId): Reply {
    var refusal := AdminRefusal(w, actor, id);
    if refusal != Done then Reply(w, refusal)
    else
      var left := map i | i in w.invitations && w.invitations[i].group != id :: w.invitations[i];
      Reply(w.(groups := w.groups - {id}, invitations := left), Done)
  }

  // ----- invitations -----

  predicate PendingFor(invitations: map<InvitationId, Invitation>, id: ConversationId, invitee: UserId) {
    exists i <- invitations ::
      invitations[i].group == id && invitations[i].invitee == invitee && invitations[i].status == Pending
  }

  function InviteStep(w: World, actor: UserId, id: ConversationId, invitee: UserId, unused: InvitationId): Reply {
    var refusal := AdminRefusal(w, actor, id);
    if invitee == actor then Reply(w, Refused(400))
    else if refusal != Done then Reply(w, refusal)
    else if w.groups[id].policy != Password then Reply(w, Refused(409))
    else if invitee !in w.users then Reply(w, Refused(404))
    else if invitee in w.groups[id].members then Reply(w, Refused(409))
    else if PendingFor(w.invitations, id, invitee) then Reply(w, Done)
    else if unused in w.invitations then Reply(w, Refused(500))
    else Reply(w.(invitations := w.invitations[unused := Invitation(id, actor, invitee, Pending)]), Done)
  }

  predicate IsPendingFor(w: World, i: InvitationId, user: UserId) {
    i in w.invitations && w.invitations[i].invitee == user && w.invitations[i].status == Pending
  }

  function Resolved(w: World, i: InvitationId, status: InvitationStatus): World
    requires i in w.invitations
  {
    w.(invitations := w.invitations[i := w.invitations[i].(status := status)])
  }

  /** A wrong password leaves the invitation pending. */
  function AcceptStep(w: World, user: UserId, i: InvitationId, password: Option<Secret>, now: nat): Reply {
    if !IsPendingFor(w, i, user) then Reply(w, Refused(404))
    else
      var id := w.invitations[i].group;
      var joined := JoinStep(w, user, id, password, now);
      if joined.outcome != Done then joined else Reply(Resolved(joined.world, i, Accepted), Done)
  }

  function DeclineStep(w: World, user: UserId, i: InvitationId): Reply {
    if !IsPendingFor(w, i, user) then Reply(w, Refused(404)) else Reply(Resolved(w, i, Declined), Done)
  }

  // ----- runs -----

  datatype Request =
    | Register(user: UserId)
    | Befriend(first: UserId, second: UserId)
    | Unfriend(first: UserId, second: UserId)
    | Create(id: ConversationId, creator: UserId, policy: Policy, password: Option<Secret>,
             members: seq<UserId>, now: nat)
    | Join(user: UserId, id: ConversationId, password: Option<Secret>, now: nat)
    | AddMember(actor: UserId, id: ConversationId, target: UserId, now: nat)
    | Remove(actor: UserId, id: ConversationId, target: UserId)
    | Leave(user: UserId, id: ConversationId, rows: seq<Row>)
    | SetRole(actor: UserId, id: ConversationId, target: UserId, admin: bool)
    | Update(actor: UserId, id: ConversationId, titled: bool, newPolicy: Option<Policy>, password: Option<Secret>)
    | Delete(actor: UserId, id: ConversationId)
    | Invite(actor: UserId, id: ConversationId, invitee: UserId, invitation: InvitationId)
    | Accept(user: UserId, invitation: InvitationId, password: Option<Secret>, now: nat)
    | Decline(user: UserId, invitation: InvitationId)

  function Apply(w: World, r: Request): Reply {
    match r
    case Register(u) => Reply(w.(users := w.users + {u}), Done)
    case Befriend(a, b) =>
      if a == b then Reply(w, Refused(400)) else Reply(w.(friendships := w.friendships + {CanonicalPair(a, b)}), Done)
    case Unfriend(a, b) => Reply(w.(friendships := w.friendships - {CanonicalPair(a, b)}), Done)
    case Create(id, creator, policy, password, members, now) =>
      CreateStep(w, id, creator, policy, password, members, now)
    case Join(u, id, password, now) => JoinStep(w, u, id, password, now)
    case AddMember(actor, id, target, now) => AddMemberStep(w, actor, id, target, now)
    case Remove(actor, id, target) => RemoveStep(w, actor, id, target)
    case Leave(u, id, rows) => LeaveStep(w, u, id, rows)
    case SetRole(actor, id, target, admin) => SetRoleStep(w, actor, id, target, admin)
    case Update(actor, id, titled, policy, password) => UpdateStep(w, actor, id, titled, policy, password)
    case Delete(actor, id) => DeleteStep(w, actor, id)
    case Invite(actor, id, invitee, unused) => InviteStep(w, actor, id, invitee, unused)
    case Accept(u, i, password, now) => AcceptStep(w, u, i, password, now)
    case Decline(u, i) => DeclineStep(w, u, i)
  }

  /** The rows that a departing creator's group is loaded as really are its members. */
  ghost predicate Faithful(w: World, r: Request) {
    r.Leave? && r.id in w.groups ==> Lists(r.rows, w.groups[r.id])
  }

  function ApplyAll(w: World, rs: seq<Request>): World
    decreases |rs|
  {
    if rs == [] then w else Apply(ApplyAll(w, rs[..|rs| - 1]), rs[|rs| - 1]).world
  }

  ghost predicate FaithfulRun(w: World, rs: seq<Request>) {
    forall k | 0 <= k < |rs| :: Faithful(ApplyAll(w, rs[..k]), rs[k])
  }

  // ----- who follows a departing creator -----

  lemma {:induction false} EarliestIsEarliest(rows: seq<Row>)
    ensures EarliestJoined(rows) == None <==> rows == []
    ensures forall r <- rows ::
      EarliestJoined(rows).Some? && EarliestJoined(rows).value in rows
        && EarliestJoined(rows).value.joinedAt <= r.joinedAt
    decreases |rows|
  {
    if rows != [] {
      EarliestIsEarliest(rows[..|rows| - 1]);
      assert rows == rows[..|rows| - 1] + [rows[|rows| - 1]];
      assert rows[|rows| - 1] in rows;
    }
  }

  lemma {:induction false} StayingExactly(rows: seq<Row>, leaving: UserId, r: Row)
    ensures r in Staying(rows, leaving) <==> r in rows && r.user != leaving
    decreases |rows|
  {
    if rows != [] {
      StayingExactly(rows[..|rows| - 1], leaving, r);
      assert rows == rows[..|rows| - 1] + [rows[|rows| - 1]];
    }
  }

  lemma {:induction false} AdminsExactly(rows: seq<Row>, r: Row)
    ensures r in Admins(rows) <==> r in rows && r.role == Admin
    decreases |rows|
  {
    if rows != [] {
      AdminsExactly(rows[..|rows| - 1], r);
      assert rows == rows[..|rows| - 1] + [rows[|rows| - 1]];
    }
  }

  /** Row `r` stays and comes before every other staying row: admins first, then by joining. */
  ghost predicate NextInLine(rows: seq<Row>, leaving: UserId, r: Row) {
    && r in rows && r.user != leaving
    && forall o <- rows :: o.user != leaving ==>
      if r.role == Admin then o.role == Admin ==> r.joinedAt <= o.joinedAt
      else o.role != Admin && r.joinedAt <= o.joinedAt
  }

  /** Nobody follows exactly when nobody stays; otherwise it is the earliest admin, else the earliest member. */
  lemma SuccessorIsNextInLine(rows: seq<Row>, leaving: UserId) returns (next: Option<Row>)
    ensures next == None <==> forall r <- rows :: r.user == leaving
    ensures next == None ==> GroupSuccessor(rows, leaving) == None
    ensures next.Some? ==>
      NextInLine(rows, leaving, next.value) && GroupSuccessor(rows, leaving) == Some(next.value.user)
  {
    var staying := Staying(rows, leaving);
    forall r ensures r in staying <==> r in rows && r.user != leaving { StayingExactly(rows, leaving, r); }
    forall r ensures r in Admins(staying) <==> r in staying && r.role == Admin { AdminsExactly(staying, r); }
    EarliestIsEarliest(Admins(staying));
    EarliestIsEarliest(staying);
    next := if Admins(staying) != [] then EarliestJoined(Admins(staying)) else EarliestJoined(staying);
    if Admins(staying) != [] { assert Admins(staying)[0] in Admins(staying); }
    if staying != [] { assert staying[0] in staying; }
  }

  // ----- order in every reachable state -----

  /** Exactly one member has the role of creator, and is the creator; a password is there when the policy asks it. */
  ghost predicate GroupOrderly(g: Group) {
    && g.creator in g.members
    && (forall u <- g.members :: g.members[u].role == Creator <==> u == g.creator)
    && (g.password.Some? <==> g.policy == Password)
  }

  ghost predicate Orderly(w: World) {
    && (forall id <- w.groups :: GroupOrderly(w.groups[id]))
    && (forall i <- w.invitations ::
      w.invitations[i].group in w.groups && w.invitations[i].inviter != w.invitations[i].invitee)
    && OnePendingEach(w.invitations)
  }

  ghost predicate OnePendingEach(invitations: map<InvitationId, Invitation>) {
    forall i, j | i in invitations && j in invitations && i != j ::
      !(invitations[i].group == invitations[j].group && invitations[i].invitee == invitations[j].invitee
        && invitations[i].status == Pending && invitations[j].status == Pending)
  }

  lemma HandingOverIsOrderly(g: Group, successor: UserId)
    requires GroupOrderly(g) && successor in g.members && successor != g.creator
    ensures GroupOrderly(WithoutMember(HandedOver(g, successor), g.creator))
  {}

  lemma LeaveIsOrderly(w: World, user: UserId, id: ConversationId, rows: seq<Row>)
    requires Orderly(w) && (id in w.groups ==> Lists(rows, w.groups[id]))
    ensures Orderly(LeaveStep(w, user, id, rows).world)
  {
    if id in w.groups && w.groups[id].creator == user {
      var next := SuccessorIsNextInLine(rows, user);
      if next.Some? {
        HandingOverIsOrderly(w.groups[id], next.value.user);
      }
    }
  }

  lemma InviteIsOrderly(w: World, actor: UserId, id: ConversationId, invitee: UserId, unused: InvitationId)
    requires Orderly(w)
    ensures Orderly(InviteStep(w, actor, id, invitee, unused).world)
  {}

  lemma GroupChangeIsOrderly(w: World, id: ConversationId, g: Group)
    requires Orderly(w) && GroupOrderly(g)
    ensures Orderly(SetGroup(w, id, g))
  {}

  lemma AdmissionIsOrderly(w: World, id: ConversationId, user: UserId, now: nat)
    requires Orderly(w) && id in w.groups
    ensures Orderly(SetGroup(w, id, WithMember(w.groups[id], user, now)))
  {
    GroupChangeIsOrderly(w, id, WithMember(w.groups[id], user, now));
  }

  lemma ResolvingIsOrderly(w: World, i: InvitationId, status: InvitationStatus)
    requires Orderly(w) && i in w.invitations && status != Pending
    ensures Orderly(Resolved(w, i, status))
  {}

  lemma CreateIsOrderly(w: World, id: ConversationId, creator: UserId, policy: Policy, password: Option<Secret>,
                        members: seq<UserId>, now: nat)
    requires Orderly(w)
    ensures Orderly(CreateStep(w, id, creator, policy, password, members, now).world)
  {
    if PasswordFits(policy, password) {
      GroupChangeIsOrderly(w, id, Founded(creator, policy, password, members, now));
    }
  }

  lemma RemoveIsOrderly(w: World, actor: UserId, id: ConversationId, target: UserId)
    requires Orderly(w)
    ensures Orderly(RemoveStep(w, actor, id, target).world)
  {
    if id in w.groups && target != w.groups[id].creator {
      GroupChangeIsOrderly(w, id, WithoutMember(w.groups[id], target));
    }
  }

  lemma SetRoleIsOrderly(w: World, actor: UserId, id: ConversationId, target: UserId, admin: bool)
    requires Orderly(w)
    ensures Orderly(SetRoleStep(w, actor, id, target, admin).world)
  {}

  lemma UpdateIsOrderly(w: World, actor: UserId, id: ConversationId, titled: bool, policy: Option<Policy>,
                        password: Option<Secret>)
    requires Orderly(w)
    ensures Orderly(UpdateStep(w, actor, id, titled, policy, password).world)
  {}

  lemma DeleteIsOrderly(w: World, actor: UserId, id: ConversationId)
    requires Orderly(w)
    ensures Orderly(DeleteStep(w, actor, id).world)
  {}

  lemma ApplyIsOrderly(w: World, r: Request)
    requires Orderly(w) && Faithful(w, r)
    ensures Orderly(Apply(w, r).world)
  {
    match r
    case Create(id, creator, policy, password, members, now) =>
      CreateIsOrderly(w, id, creator, policy, password, members, now);
    case Join(u, id, _, now) => if id in w.groups { AdmissionIsOrderly(w, id, u, now); }
    case AddMember(_, id, target, now) => if id in w.groups { AdmissionIsOrderly(w, id, target, now); }
    case Remove(actor, id, target) => RemoveIsOrderly(w, actor, id, target);
    case Leave(u, id, rows) => LeaveIsOrderly(w, u, id, rows);
    case SetRole(actor, id, target, admin) => SetRoleIsOrderly(w, actor, id, target, admin);
    case Update(actor, id, titled, policy, password) => UpdateIsOrderly(w, actor, id, titled, policy, password);
    case Delete(actor, id) => DeleteIsOrderly(w, actor, id);
    case Invite(actor, id, invitee, unused) => InviteIsOrderly(w, actor, id, invitee, unused);
    case Accept(u, i, password, now) => AcceptIsOrderly(w, u, i, password, now);
    case Decline(u, i) => if i in w.invitations { ResolvingIsOrderly(w, i, Declined); }
    case _ =>
  }

  lemma AcceptIsOrderly(w: World, u: UserId, i: InvitationId, password: Option<Secret>, now: nat)
    requires Orderly(w)
    ensures Orderly(AcceptStep(w, u, i, password, now).world)
  {
    if i in w.invitations {
      AdmissionIsOrderly(w, w.invitations[i].group, u, now);
      var joined := JoinStep(w, u, w.invitations[i].group, password, now);
      assert joined.world.invitations == w.invitations;
      ResolvingIsOrderly(joined.world, i, Accepted);
    }
  }

  lemma RunPrefix(w: World, rs: seq<Request>)
    requires rs != [] && FaithfulRun(w, rs)
    ensures FaithfulRun(w, rs[..|rs| - 1]) && Faithful(ApplyAll(w, rs[..|rs| - 1]), rs[|rs| - 1])
  {
    var init := rs[..|rs| - 1];
    forall k | 0 <= k < |init| ensures Faithful(ApplyAll(w, init[..k]), init[k]) {
      assert init[..k] == rs[..k];
    }
  }

  /** In every reachable state each group has exactly one creator, who is a member: it is never memberless. */
  lemma {:induction false} RunsAreOrderly(w: World, rs: seq<Request>)
    requires Orderly(w) && FaithfulRun(w, rs)
    ensures Orderly(ApplyAll(w, rs))
    decreases |rs|
  {
    if rs != [] {
      RunPrefix(w, rs);
      RunsAreOrderly(w, rs[..|rs| - 1]);
      ApplyIsOrderly(ApplyAll(w, rs[..|rs| - 1]), rs[|rs| - 1]);
    }
  }

  // ----- who comes, who goes, who rules -----

  /** The request by which `u` may enter group `id`, with the admission rule met. */
  ghost predicate Admission(w: World, r: Request, id: ConversationId, u: UserId)
    requires id in w.groups
  {
    var g := w.groups[id];
    || (r.Join? && r.user == u && r.id == id && Admits(w, g, u, r.password))
    || (r.Accept? && IsPendingFor(w, r.invitation, u) && w.invitations[r.invitation].group == id && r.user == u
        && Admits(w, g, u, r.password))
    || (r.AddMember? && r.target == u && r.id == id && IsAdmin(g, r.actor) && g.policy != Password
      && Admits(w, g, u, None))
  }

  /** Nobody enters a group except through its admission rule, and nobody else enters at the same time. */
  lemma NewMembersWereAdmitted(w: World, r: Request, id: ConversationId, u: UserId)
    requires id in w.groups && id in Apply(w, r).world.groups
    requires u !in w.groups[id].members && u in Apply(w, r).world.groups[id].members
    ensures Admission(w, r, id, u)
    ensures Apply(w, r).world.groups[id].members.Keys == w.groups[id].members.Keys + {u}
  {}

  /** Nobody goes except by leaving, or by an admin's removal, which never reaches the creator. */
  lemma DeparturesWereDue(w: World, r: Request, id: ConversationId, u: UserId)
    requires id in w.groups && id in Apply(w, r).world.groups
    requires u in w.groups[id].members && u !in Apply(w, r).world.groups[id].members
    ensures
      || (r.Leave? && r.user == u && r.id == id)
      || (r.Remove? && r.target == u && r.id == id && IsAdmin(w.groups[id], r.actor) && u != w.groups[id].creator)
    ensures Apply(w, r).world.groups[id].members.Keys == w.groups[id].members.Keys - {u}
  {}

  lemma OnlyTwoKindsGrantRoles(w: World, r: Request, id: ConversationId, u: UserId)
    requires id in w.groups && id in Apply(w, r).world.groups
    requires u in w.groups[id].members && u in Apply(w, r).world.groups[id].members
    requires w.groups[id].members[u].role != Apply(w, r).world.groups[id].members[u].role
    ensures (r.SetRole? || r.Leave?) && r.id == id
  {}

  lemma RoleByLeaving(w: World, user: UserId, id: ConversationId, rows: seq<Row>, u: UserId)
    requires Orderly(w) && id in w.groups && Lists(rows, w.groups[id])
    requires u in w.groups[id].members && u in LeaveStep(w, user, id, rows).world.groups[id].members
    requires w.groups[id].members[u].role != LeaveStep(w, user, id, rows).world.groups[id].members[u].role
    ensures user == w.groups[id].creator && LeaveStep(w, user, id, rows).world.groups[id].creator == u
    ensures NextInLine(rows, user, RowOf(w.groups[id], u))
  {
    var next := SuccessorIsNextInLine(rows, user);
  }

  /** A role changes by the creator's word, never to or from creator, or else the creator leaves and the next in
      line takes over. */
  lemma RolesWereGranted(w: World, r: Request, id: ConversationId, u: UserId)
    requires Orderly(w) && Faithful(w, r) && id in w.groups && id in Apply(w, r).world.groups
    requires u in w.groups[id].members && u in Apply(w, r).world.groups[id].members
    requires w.groups[id].members[u].role != Apply(w, r).world.groups[id].members[u].role
    ensures
      || (r.SetRole? && r.id == id && r.actor == w.groups[id].creator && r.target == u && u != r.actor
          && Apply(w, r).world.groups[id].members[u].role == if r.admin then Admin else Member)
      || (r.Leave? && r.id == id && r.user == w.groups[id].creator && Apply(w, r).world.groups[id].creator == u
          && NextInLine(r.rows, r.user, RowOf(w.groups[id], u)))
  {
    OnlyTwoKindsGrantRoles(w, r, id, u);
    if r.Leave? {
      RoleByLeaving(w, r.user, id, r.rows, u);
    }
  }

  // ----- friends-only groups -----

  ghost predicate IsClique(w: World, id: ConversationId) {
    id in w.groups && w.groups[id].policy == FriendsOnly && Clique(w.friendships, w.groups[id].members.Keys)
  }

  lemma FoundedAsClique(w: World, id: ConversationId, creator: UserId, password: Option<Secret>, members: seq<UserId>,
                        now: nat)
    requires CreateStep(w, id, creator, FriendsOnly, password, members, now).outcome == Done
    ensures IsClique(CreateStep(w, id, creator, FriendsOnly, password, members, now).world, id)
  {
    RequiredPairsMean(creator, members, FriendsOnly, w.friendships);
    var g := Founded(creator, FriendsOnly, password, members, now);
    assert g.members.Keys == set m | m in [creator] + members;
  }

  /** The request neither gives the group another policy nor takes its id for a new group. */
  predicate KeepsPolicy(r: Request, id: ConversationId, policy: Policy) {
    && (r.Update? && r.id == id && r.newPolicy.Some? ==> r.newPolicy.value == policy)
    && (r.Create? ==> r.id != id)
  }

  predicate PartsMembers(w: World, r: Request, id: ConversationId)
    requires id in w.groups
  {
    r.Unfriend? && r.first != r.second && r.first in w.groups[id].members && r.second in w.groups[id].members
  }

  lemma CliqueGrows(friendships: set<(UserId, UserId)>, people: set<UserId>, u: UserId)
    requires Clique(friendships, people) && FriendsWithEvery(friendships, u, people)
    ensures Clique(friendships, people + {u})
  {}

  lemma PolicyIsKept(w: World, r: Request, id: ConversationId)
    requires id in w.groups && id in Apply(w, r).world.groups && KeepsPolicy(r, id, w.groups[id].policy)
    ensures Apply(w, r).world.groups[id].policy == w.groups[id].policy
  {}

  /** Of all steps that keep the policy, only unfriending between members breaks the clique. */
  lemma CliqueStep(w: World, r: Request, id: ConversationId)
    requires IsClique(w, id) && KeepsPolicy(r, id, FriendsOnly) && id in Apply(w, r).world.groups
    ensures IsClique(Apply(w, r).world, id) <==> !PartsMembers(w, r, id)
  {
    var after := Apply(w, r).world;
    var was, now := w.groups[id].members.Keys, after.groups[id].members.Keys;
    PolicyIsKept(w, r, id);
    if u :| u in now && u !in was {
      NewMembersWereAdmitted(w, r, id, u);
      CliqueGrows(w.friendships, was, u);
      assert after.friendships == w.friendships;
    } else if r.Unfriend? {
      assert now == was;
      if PartsMembers(w, r, id) {
        assert !AreFriends(after.friendships, r.first, r.second);
      } else {
        forall a, b | a in now && b in now && a != b ensures AreFriends(after.friendships, a, b) {
          assert AreFriends(w.friendships, a, b);
        }
      }
    } else {
      assert now <= was && w.friendships <= after.friendships;
      forall a, b | a in now && b in now && a != b ensures AreFriends(after.friendships, a, b) {
        assert AreFriends(w.friendships, a, b);
      }
    }
  }

  /** No request of the run changes the policy of group `id`, re-creates it, or unfriends two of its members. */
  ghost predicate QuietFor(w: World, rs: seq<Request>, id: ConversationId, policy: Policy) {
    forall k | 0 <= k < |rs| ::
      KeepsPolicy(rs[k], id, policy)
        && (id in ApplyAll(w, rs[..k]).groups ==> !PartsMembers(ApplyAll(w, rs[..k]), rs[k], id))
  }

  lemma QuietPrefix(w: World, rs: seq<Request>, id: ConversationId, policy: Policy)
    requires rs != [] && QuietFor(w, rs, id, policy)
    ensures QuietFor(w, rs[..|rs| - 1], id, policy)
  {
    var init := rs[..|rs| - 1];
    forall k | 0 <= k < |init|
      ensures KeepsPolicy(init[k], id, policy)
      ensures id in ApplyAll(w, init[..k]).groups ==> !PartsMembers(ApplyAll(w, init[..k]), init[k], id)
    {
      assert init[..k] == rs[..k] && init[k] == rs[k];
    }
  }

  lemma GroupsAppearByCreation(w: World, r: Request, id: ConversationId)
    requires id !in w.groups && id in Apply(w, r).world.groups
    ensures r.Create? && r.id == id
  {}

  /** A friends-only group that starts as a clique stays one, whatever joins, additions, acceptances, departures and
      removals happen, as long as it exists. */
  lemma {:induction false} CliqueForLife(w: World, rs: seq<Request>, id: ConversationId)
    requires IsClique(w, id) && QuietFor(w, rs, id, FriendsOnly)
    ensures id in ApplyAll(w, rs).groups ==> IsClique(ApplyAll(w, rs), id)
    decreases |rs|
  {
    if rs != [] && id in ApplyAll(w, rs).groups {
      var n := |rs| - 1;
      QuietPrefix(w, rs, id, FriendsOnly);
      CliqueForLife(w, rs[..n], id);
      var before := ApplyAll(w, rs[..n]);
      assert KeepsPolicy(rs[n], id, FriendsOnly);
      if id !in before.groups {
        GroupsAppearByCreation(before, rs[n], id);
      } else {
        CliqueStep(before, rs[n], id);
      }
    }
  }

  // ----- friends-of-friends groups -----

  ghost predicate Crosses(friendships: set<(UserId, UserId)>, part: set<UserId>, rest: set<UserId>) {
    exists a, b :: a in part && b in rest && AreFriends(friendships, a, b)
  }

  /** Connected: however the people are divided in two, some friendship crosses the divide. */
  ghost predicate Linked(friendships: set<(UserId, UserId)>, people: set<UserId>) {
    forall part | part < people && part != {} :: Crosses(friendships, part, people - part)
  }

  lemma Outsider(part: set<UserId>, people: set<UserId>) returns (x: UserId)
    requires part < people
    ensures x in people && x !in part
  {
    assert !(people <= part);
    x :| x in people && x !in part;
  }

  lemma LinkedGrows(friendships: set<(UserId, UserId)>, people: set<UserId>, u: UserId)
    requires Linked(friendships, people) && u !in people && FriendsWithAny(friendships, u, people)
    ensures Linked(friendships, people + {u})
  {
    var m :| m in people && m != u && AreFriends(friendships, u, m);
    var all := people + {u};
    forall part | part < all && part != {} ensures Crosses(friendships, part, all - part) {
      if (u in part) != (m in part) {
        assert AreFriends(friendships, m, u);
      } else {
        var inner := part * people;
        var x := Outsider(part, all);
        assert inner < people by { assert x in people || m !in inner; }
        assert inner != {} by { assert m in inner || inner == part; }
        assert Crosses(friendships, inner, people - inner);
        var a, b :| a in inner && b in people - inner && AreFriends(friendships, a, b);
        assert a in part && b in all - part;
      }
    }
  }

  lemma MoreFriendshipsStayLinked(friendships: set<(UserId, UserId)>, more: set<(UserId, UserId)>, people: set<UserId>)
    requires friendships <= more && Linked(friendships, people)
    ensures Linked(more, people)
  {
    forall part | part < people && part != {} ensures Crosses(more, part, people - part) {
      assert Crosses(friendships, part, people - part);
      var a, b :| a in part && b in people - part && AreFriends(friendships, a, b);
      assert AreFriends(more, a, b);
    }
  }

  ghost predicate IsLinked(w: World, id: ConversationId) {
    id in w.groups && w.groups[id].policy == FriendsOfFriends && Linked(w.friendships, w.groups[id].members.Keys)
  }

  lemma StarIsLinked(friendships: set<(UserId, UserId)>, centre: UserId, people: set<UserId>)
    requires centre in people && forall m <- people :: m != centre ==> AreFriends(friendships, centre, m)
    ensures Linked(friendships, people)
  {
    forall part | part < people && part != {} ensures Crosses(friendships, part, people - part) {
      if centre in part {
        var m := Outsider(part, people);
        assert AreFriends(friendships, centre, m);
      } else {
        var m :| m in part;
        assert AreFriends(friendships, m, centre);
      }
    }
  }

  lemma FoundedAsLinked(w: World, id: ConversationId, creator: UserId, password: Option<Secret>, members: seq<UserId>,
                        now: nat)
    requires CreateStep(w, id, creator, FriendsOfFriends, password, members, now).outcome == Done
    ensures IsLinked(CreateStep(w, id, creator, FriendsOfFriends, password, members, now).world, id)
  {
    RequiredPairsMean(creator, members, FriendsOfFriends, w.friendships);
    StarIsLinked(w.friendships, creator, Founded(creator, FriendsOfFriends, password, members, now).members.Keys);
  }

  predicate Departs(r: Request, id: ConversationId) {
    (r.Leave? || r.Remove?) && r.id == id
  }

  function Departing(r: Request): UserId
    requires r.Leave? || r.Remove?
  {
    if r.Leave? then r.user else r.target
  }

  /** However the others are divided with friends of `u` on both sides, some friendship crosses the divide. */
  ghost predicate Bridged(friendships: set<(UserId, UserId)>, people: set<UserId>, u: UserId) {
    forall part | part < people - {u} && part != {} ::
      FriendsWithAny(friendships, u, part) && FriendsWithAny(friendships, u, people - {u} - part)
      ==> Crosses(friendships, part, people - {u} - part)
  }

  /** A divide of the others with no friend of `u` on one side is crossed without `u`. */
  lemma OneSidedDivideIsCrossed(friendships: set<(UserId, UserId)>, people: set<UserId>, u: UserId, part: set<UserId>)
    requires Linked(friendships, people) && u in people && part < people - {u} && part != {}
    requires !FriendsWithAny(friendships, u, part) || !FriendsWithAny(friendships, u, people - {u} - part)
    ensures Crosses(friendships, part, people - {u} - part)
  {
    var rest := people - {u} - part;
    var x := Outsider(part, people - {u});
    if FriendsWithAny(friendships, u, part) {
      var more := part + {u};
      assert more < people && people - more == rest by { assert x !in more; }
      assert Crosses(friendships, more, people - more);
      var a, b :| a in more && b in rest && AreFriends(friendships, a, b);
      assert a in part;
    } else {
      assert part < people && u in people - part;
      assert Crosses(friendships, part, people - part);
      var a, b :| a in part && b in people - part && AreFriends(friendships, a, b);
      assert AreFriends(friendships, b, a);
      assert b in rest;
    }
  }

  /** Without `u` a connected group stays connected exactly when its divides between friends of `u` are bridged. */
  lemma LinkedWithoutExactly(friendships: set<(UserId, UserId)>, people: set<UserId>, u: UserId)
    requires Linked(friendships, people) && u in people
    ensures Linked(friendships, people - {u}) <==> Bridged(friendships, people, u)
  {
    if Bridged(friendships, people, u) {
      forall part | part < people - {u} && part != {} ensures Crosses(friendships, part, people - {u} - part) {
        if !FriendsWithAny(friendships, u, part) || !FriendsWithAny(friendships, u, people - {u} - part) {
          OneSidedDivideIsCrossed(friendships, people, u, part);
        }
      }
    }
  }

  /** Someone with at most one friend in the group never disconnects it by going. */
  lemma LooseEndsMayGo(friendships: set<(UserId, UserId)>, people: set<UserId>, u: UserId)
    requires Linked(friendships, people) && u in people
    requires forall m, n | m in people && n in people && m != u && n != u ::
      AreFriends(friendships, u, m) && AreFriends(friendships, u, n) ==> m == n
    ensures Linked(friendships, people - {u})
  {
    LinkedWithoutExactly(friendships, people, u);
  }

  /** A departure that succeeds keeps a friends-of-friends group connected exactly when it is bridged. */
  lemma DepartureStep(w: World, r: Request, id: ConversationId)
    requires IsLinked(w, id) && Departs(r, id) && Apply(w, r).outcome == Done
    ensures id in Apply(w, r).world.groups && Departing(r) in w.groups[id].members
    ensures IsLinked(Apply(w, r).world, id) <==> Bridged(w.friendships, w.groups[id].members.Keys, Departing(r))
  {
    var after := Apply(w, r).world;
    assert after.groups[id].members.Keys == w.groups[id].members.Keys - {Departing(r)};
    LinkedWithoutExactly(w.friendships, w.groups[id].members.Keys, Departing(r));
  }

  /** If the request is a departure from the group that succeeds, it is bridged. */
  ghost predicate DepartsBridged(w: World, r: Request, id: ConversationId) {
    Departs(r, id) && Apply(w, r).outcome == Done && id in w.groups ==>
      Bridged(w.friendships, w.groups[id].members.Keys, Departing(r))
  }

  /** However the people are divided between `x` and `y`, some other friendship crosses the divide. */
  ghost predicate Spanned(friendships: set<(UserId, UserId)>, people: set<UserId>, x: UserId, y: UserId) {
    forall part | part < people && part != {} && (x in part) != (y in part) ::
      Crosses(friendships - {CanonicalPair(x, y)}, part, people - part)
  }

  /** Without the friendship of two members a connected group stays connected exactly when they stay spanned. */
  lemma LinkedWithoutFriendship(friendships: set<(UserId, UserId)>, people: set<UserId>, x: UserId, y: UserId)
    requires Linked(friendships, people) && x in people && y in people && x != y
    ensures Linked(friendships - {CanonicalPair(x, y)}, people) <==> Spanned(friendships, people, x, y)
  {
    if Spanned(friendships, people, x, y) {
      forall part | part < people && part != {}
        ensures Crosses(friendships - {CanonicalPair(x, y)}, part, people - part) {
        if (x in part) == (y in part) {
          assert Crosses(friendships, part, people - part);
          var a, b :| a in part && b in people - part && AreFriends(friendships, a, b);
          assert CanonicalPair(a, b) != CanonicalPair(x, y);
        }
      }
    }
  }

  /** A departure is bridged, and members who are unfriended stay spanned. */
  ghost predicate KeepsLinks(w: World, r: Request, id: ConversationId) {
    && DepartsBridged(w, r, id)
    && (id in w.groups && PartsMembers(w, r, id) ==>
          Spanned(w.friendships, w.groups[id].members.Keys, r.first, r.second))
  }

  /** Of all steps that keep the policy, exactly these keep a friends-of-friends group connected. */
  lemma LinkedStep(w: World, r: Request, id: ConversationId)
    requires IsLinked(w, id) && KeepsPolicy(r, id, FriendsOfFriends) && id in Apply(w, r).world.groups
    ensures IsLinked(Apply(w, r).world, id) <==> KeepsLinks(w, r, id)
  {
    if Departs(r, id) && Apply(w, r).outcome == Done {
      DepartureStep(w, r, id);
    } else if PartsMembers(w, r, id) {
      LinkedWithoutFriendship(w.friendships, w.groups[id].members.Keys, r.first, r.second);
    } else {
      StayingStep(w, r, id);
    }
  }

  lemma StayingStep(w: World, r: Request, id: ConversationId)
    requires IsLinked(w, id) && KeepsPolicy(r, id, FriendsOfFriends) && !PartsMembers(w, r, id)
    requires !(Departs(r, id) && Apply(w, r).outcome == Done) && id in Apply(w, r).world.groups
    ensures IsLinked(Apply(w, r).world, id)
  {
    var after := Apply(w, r).world;
    var was, now := w.groups[id].members.Keys, after.groups[id].members.Keys;
    PolicyIsKept(w, r, id);
    if u :| u in now && u !in was {
      NewMembersWereAdmitted(w, r, id, u);
      LinkedGrows(w.friendships, was, u);
      assert after.friendships == w.friendships;
    } else {
      if u :| u in was && u !in now { DeparturesWereDue(w, r, id, u); }
      assert now == was;
      if r.Unfriend? {
        OutsideFriendshipsDoNotLink(w.friendships, was, r.first, r.second);
      } else {
        MoreFriendshipsStayLinked(w.friendships, after.friendships, was);
      }
    }
  }

  lemma OutsideFriendshipsDoNotLink(friendships: set<(UserId, UserId)>, people: set<UserId>, x: UserId, y: UserId)
    requires Linked(friendships, people) && (x == y || x !in people || y !in people)
    ensures Linked(friendships - {CanonicalPair(x, y)}, people)
  {
    forall part | part < people && part != {}
      ensures Crosses(friendships - {CanonicalPair(x, y)}, part, people - part) {
      assert Crosses(friendships, part, people - part);
      var a, b :| a in part && b in people - part && AreFriends(friendships, a, b);
      assert CanonicalPair(a, b) != CanonicalPair(x, y);
    }
  }

  /** A friends-of-friends group that starts connected stays connected in every run whose departures are bridged and
      whose unfriended members stay spanned; in particular in every run without either. */
  lemma {:induction false} LinkedForLife(w: World, rs: seq<Request>, id: ConversationId)
    requires IsLinked(w, id)
    requires forall k | 0 <= k < |rs| ::
      KeepsPolicy(rs[k], id, FriendsOfFriends) && KeepsLinks(ApplyAll(w, rs[..k]), rs[k], id)
    ensures id in ApplyAll(w, rs).groups ==> IsLinked(ApplyAll(w, rs), id)
    decreases |rs|
  {
    if rs != [] && id in ApplyAll(w, rs).groups {
      var n := |rs| - 1;
      forall k | 0 <= k < n
        ensures KeepsPolicy(rs[..n][k], id, FriendsOfFriends) && KeepsLinks(ApplyAll(w, rs[..n][..k]), rs[..n][k], id)
      {
        assert rs[..n][..k] == rs[..k] && rs[..n][k] == rs[k];
      }
      LinkedForLife(w, rs[..n], id);
      var before := ApplyAll(w, rs[..n]);
      assert KeepsPolicy(rs[n], id, FriendsOfFriends) && KeepsLinks(before, rs[n], id);
      if id !in before.groups {
        GroupsAppearByCreation(before, rs[n], id);
      } else {
        LinkedStep(before, rs[n], id);
      }
    }
  }

  // ----- a departure that disconnects -----

  ghost predicate Reachable(w: World) {
    exists rs :: FaithfulRun(EMPTY, rs) && ApplyAll(EMPTY, rs) == w
  }

  lemma ReachableNext(w: World, r: Request)
    requires Reachable(w) && Faithful(w, r)
    ensures Reachable(Apply(w, r).world)
  {
    var rs :| FaithfulRun(EMPTY, rs) && ApplyAll(EMPTY, rs) == w;
    var more := rs + [r];
    assert more[..|rs|] == rs;
    forall k | 0 <= k < |more| ensures Faithful(ApplyAll(EMPTY, more[..k]), more[k]) {
      if k < |rs| { assert more[..k] == rs[..k]; }
    }
    assert ApplyAll(EMPTY, more) == Apply(w, r).world;
  }

  /** Users 1, 2 and 3, of whom 2 is friends with the others. */
  lemma TwoFriendships() returns (w: World)
    ensures Reachable(w) && w == World({1, 2, 3}, {(1, 2), (2, 3)}, map[], map[])
  {
    assert FaithfulRun(EMPTY, []) && ApplyAll(EMPTY, []) == EMPTY;
    ReachableNext(EMPTY, Register(1));
    var w1 := World({1}, {}, map[], map[]);
    ReachableNext(w1, Register(2));
    var w2 := World({1, 2}, {}, map[], map[]);
    ReachableNext(w2, Register(3));
    var w3 := World({1, 2, 3}, {}, map[], map[]);
    ReachableNext(w3, Befriend(1, 2));
    var w4 := World({1, 2, 3}, {(1, 2)}, map[], map[]);
    ReachableNext(w4, Befriend(2, 3));
    w := World({1, 2, 3}, {(1, 2), (2, 3)}, map[], map[]);
    assert Apply(EMPTY, Register(1)).world == w1 && Apply(w1, Register(2)).world == w2;
    assert Apply(w2, Register(3)).world == w3 && Apply(w3, Befriend(1, 2)).world == w4;
    assert Apply(w4, Befriend(2, 3)).world == w;
  }

  function FoundedPair(): Group {
    Group(1, FriendsOfFriends, None, map[1 := Membership(Creator, 0), 2 := Membership(Member, 0)])
  }

  function ThreeMembers(): Group {
    FoundedPair().(members := FoundedPair().members[3 := Membership(Member, 0)])
  }

  lemma PairIsFounded(w: World)
    requires w == World({1, 2, 3}, {(1, 2), (2, 3)}, map[], map[])
    ensures CreateStep(w, 0, 1, FriendsOfFriends, None, [2], 0) == Reply(w.(groups := map[0 := FoundedPair()]), Done)
  {
    assert forall o :: o in [2] <==> o == 2;
    assert PairsWith(1, [2]) == {(1, 2)} by { assert CanonicalPair(1, 2) == (1, 2); }
    assert Founded(1, FriendsOfFriends, None, [2], 0).members == FoundedPair().members;
  }

  lemma ThirdJoins(w: World)
    requires w == World({1, 2, 3}, {(1, 2), (2, 3)}, map[0 := FoundedPair()], map[])
    ensures Apply(w, Join(3, 0, None, 0)).world == w.(groups := map[0 := ThreeMembers()])
  {
    assert 2 in FoundedPair().members.Keys && AreFriends(w.friendships, 3, 2);
    assert w.groups[0 := ThreeMembers()] == map[0 := ThreeMembers()];
  }

  lemma FoundingIsReachable(w: World)
    requires Reachable(w) && w == World({1, 2, 3}, {(1, 2), (2, 3)}, map[], map[])
    ensures Reachable(w.(groups := map[0 := FoundedPair()]))
  {
    PairIsFounded(w);
    ReachableNext(w, Create(0, 1, FriendsOfFriends, None, [2], 0));
  }

  lemma JoiningIsReachable(w: World)
    requires Reachable(w) && w == World({1, 2, 3}, {(1, 2), (2, 3)}, map[0 := FoundedPair()], map[])
    ensures Reachable(w.(groups := map[0 := ThreeMembers()]))
  {
    ThirdJoins(w);
    var join := Join(3, 0, None, 0);
    ReachableNext(w, join);
  }

  /** User 1 founds a friends-of-friends group with 2, and 3 joins as a friend of 2. */
  lemma ChainOfThree() returns (w: World)
    ensures Reachable(w) && w == World({1, 2, 3}, {(1, 2), (2, 3)}, map[0 := ThreeMembers()], map[])
  {
    var w0 := TwoFriendships();
    FoundingIsReachable(w0);
    JoiningIsReachable(w0.(groups := map[0 := FoundedPair()]));
    w := w0.(groups := map[0 := ThreeMembers()]);
  }

  lemma ReachableIsOrderly(w: World)
    requires Reachable(w)
    ensures Orderly(w)
  {
    var rs :| FaithfulRun(EMPTY, rs) && ApplyAll(EMPTY, rs) == w;
    RunsAreOrderly(EMPTY, rs);
  }

  lemma SecondLeaves(w: World, r: Request)
    requires w == World({1, 2, 3}, {(1, 2), (2, 3)}, map[0 := ThreeMembers()], map[])
    requires r == Leave(2, 0, [Row(1, Creator, 0), Row(2, Member, 0), Row(3, Member, 0)])
    ensures Faithful(w, r) && Apply(w, r).outcome == Done
  {}

  lemma ChainIsNotBridged(friendships: set<(UserId, UserId)>, people: set<UserId>)
    requires friendships == {(1, 2), (2, 3)} && people == {1, 2, 3}
    ensures Linked(friendships, people) && !Bridged(friendships, people, 2)
  {
    StarIsLinked(friendships, 2, people);
    var rest := people - {2} - {1};
    assert 3 in people - {2} && rest == {3};
    assert {1} < people - {2};
    assert AreFriends(friendships, 2, 1) && AreFriends(friendships, 2, 3) && !AreFriends(friendships, 1, 3);
    assert FriendsWithAny(friendships, 2, {1}) && FriendsWithAny(friendships, 2, rest);
    assert !Crosses(friendships, {1}, rest);
  }

  /** Departures that are not bridged do happen: when 2 leaves, 1 and 3 are left in the group and are not connected. */
  lemma DepartureCanDisconnect() returns (w: World, r: Request)
    ensures Reachable(w) && Orderly(w) && IsLinked(w, 0) && r.Leave? && Faithful(w, r) && Apply(w, r).outcome == Done
    ensures !Bridged(w.friendships, w.groups[0].members.Keys, Departing(r)) && !IsLinked(Apply(w, r).world, 0)
  {
    w := ChainOfThree();
    r := Leave(2, 0, [Row(1, Creator, 0), Row(2, Member, 0), Row(3, Member, 0)]);
    ReachableIsOrderly(w);
    SecondLeaves(w, r);
    ChainIsNotBridged(w.friendships, w.groups[0].members.Keys);
    DepartureStep(w, r, 0);
  }

  // ----- the handlers on the tables -----

  class GroupTables {
    var users: set<UserId>
    var friendships: set<(UserId, UserId)>
    var groups: map<ConversationId, Group>
    var invitations: map<InvitationId, Invitation>

    ghost function Contents(): World
      reads this
    {
      World(users, friendships, groups, invitations)
    }

    method CreateGroup(id: ConversationId, creator: UserId, policy: Policy, password: Option<Secret>,
                       members: seq<UserId>, now: nat)
      returns (outcome: Outcome)
      modifies this`groups
      ensures Reply(Contents(), outcome) == CreateStep(old(Contents()), id, creator, policy, password, members, now)
    {
      if !PasswordFits(policy, password) {
        return Refused(400);
      }
      var valid := ValidateInitialMembers(creator, members);
      if !valid {
        return Refused(400);
      }
      var befriended := ValidateFriendships(creator, members, policy);
      if !befriended {
        return Refused(403);
      }
      if id in groups {
        return Refused(500);
      }
      InsertGroup(id, creator, policy, password, members, now);
      return Done;
    }

    /** The group row first, then the creator's row and the initial members'. */
    method InsertGroup(id: ConversationId, creator: UserId, policy: Policy, password: Option<Secret>,
                       members: seq<UserId>, now: nat)
      requires creator !in members
      modifies this`groups
      ensures groups == old(groups)[id := Founded(creator, policy, password, members, now)]
    {
      var group := Group(creator, policy, password, map[]);
      groups := groups[id := group];
      var rows := map u | u in members :: Membership(Member, now);
      rows := rows[creator := Membership(Creator, now)];
      assert rows == Founded(creator, policy, password, members, now).members;
      groups := groups[id := group.(members := rows)];
    }

    method ValidateFriendships(creator: UserId, members: seq<UserId>, policy: Policy) returns (ok: bool)
      ensures ok <==> RequiredPairs(creator, members, policy) <= friendships
    {
      var required := RequiredInitialFriendshipPairs(creator, members, policy);
      ok := required == {} || required <= friendships;
    }

    /** The loop of `validate_initial_member_ids`. */
    static method ValidateInitialMembers(creator: UserId, members: seq<UserId>) returns (valid: bool)
      ensures valid <==> |members| <= MAX_INITIAL_MEMBERS && creator !in members && Distinct(members)
    {
      if |members| > MAX_INITIAL_MEMBERS {
        return false;
      }
      var unique: set<UserId> := {};
      for i := 0 to |members|
        invariant creator !in members[..i] && Distinct(members[..i])
        invariant forall u :: u in unique <==> u in members[..i]
      {
        if members[i] == creator || members[i] in unique {
          return false;
        }
        unique := unique + {members[i]};
        assert members[..i + 1] == members[..i] + [members[i]];
      }
      assert members[..|members|] == members;
      return true;
    }

    /** `authorize_group_admission` with its queries; `memberIds` is what loading the members returned. */
    method AuthorizeAdmission(g: Group, candidate: UserId, password: Option<Secret>, memberIds: seq<UserId>)
      returns (ok: bool)
      requires forall u :: u in memberIds <==> u in g.members
      ensures ok <==> Admits(Contents(), g, candidate, password)
    {
      match g.policy
      case Open => ok := true;
      case Password => ok := g.password.Some? && password.Some? && password.value == g.password.value;
      case FriendsOnly =>
        ok := IsFriendsWithEveryMember(friendships, candidate, memberIds);
        assert (set m | m in memberIds) == g.members.Keys;
      case FriendsOfFriends => ok := exists m <- memberIds :: m != candidate && AreFriends(friendships, candidate, m);
    }

    method JoinGroup(user: UserId, id: ConversationId, password: Option<Secret>, memberIds: seq<UserId>, now: nat)
      returns (outcome: Outcome)
      requires id in groups ==> forall u :: u in memberIds <==> u in groups[id].members
      modifies this`groups
      ensures Reply(Contents(), outcome) == JoinStep(old(Contents()), user, id, password, now)
    {
      if id !in groups {
        return Refused(404);
      }
      var g := groups[id];
      if user in g.members {
        return Done;
      }
      var admitted := AuthorizeAdmission(g, user, password, memberIds);
      if !admitted {
        return Refused(403);
      }
      groups := groups[id := WithMember(g, user, now)];
      return Done;
    }

    /** The successor becomes creator, in group and row, before the leaver's row goes; a refusal undoes it. */
    method LeaveGroup(user: UserId, id: ConversationId, rows: seq<Row>) returns (outcome: Outcome)
      requires Orderly(Contents()) && (id in groups ==> Lists(rows, groups[id]))
      modifies this`groups
      ensures Reply(Contents(), outcome) == LeaveStep(old(Contents()), user, id, rows)
      ensures Orderly(Contents())
    {
      LeaveIsOrderly(Contents(), user, id, rows);
      if id !in groups {
        return Refused(404);
      }
      var begun := groups;
      if groups[id].creator == user {
        ghost var next := SuccessorIsNextInLine(rows, user);
        var successor := GroupSuccessor(rows, user);
        if successor.None? {
          return Refused(409);
        }
        groups := groups[id := groups[id].(creator := successor.value)];
        var row := groups[id].members[successor.value];
        groups := groups[id := groups[id].(members := groups[id].members[successor.value := row.(role := Creator)])];
      }
      if user !in groups[id].members {
        groups := begun;
        return Refused(404);
      }
      groups := groups[id := groups[id].(members := groups[id].members - {user})];
      return Done;
    }

    method AcceptInvitation(user: UserId, i: InvitationId, password: Option<Secret>, memberIds: seq<UserId>, now: nat)
      returns (outcome: Outcome)
      requires (i in invitations && invitations[i].group in groups) ==>
                 forall u :: u in memberIds <==> u in groups[invitations[i].group].members
      modifies this`groups, this`invitations
      ensures Reply(Contents(), outcome) == AcceptStep(old(Contents()), user, i, password, now)
    {
      if i !in invitations || invitations[i].invitee != user || invitations[i].status != Pending {
        return Refused(404);
      }
      outcome := JoinGroup(user, invitations[i].group, password, memberIds, now);
      if outcome == Done {
        invitations := invitations[i := invitations[i].(status := Accepted)];
      }
    }

    /** `require_group_admin_for_update`. */
    method RequireAdmin(actor: UserId, id: ConversationId) returns (outcome: Outcome)
      ensures outcome == AdminRefusal(Contents(), actor, id)
    {
      if id !in groups {
        return Refused(404);
      }
      var members := groups[id].members;
      if actor !in members || members[actor].role == Member {
        return Refused(403);
      }
      return Done;
    }

    method AddMember(actor: UserId, id: ConversationId, target: UserId, memberIds: seq<UserId>, now: nat)
      returns (outcome: Outcome)
      requires id in groups ==> forall u :: u in memberIds <==> u in groups[id].members
      modifies this`groups
      ensures Reply(Contents(), outcome) == AddMemberStep(old(Contents()), actor, id, target, now)
    {
      outcome := RequireAdmin(actor, id);
      if outcome != Done {
        return;
      }
      if target !in users {
        return Refused(404);
      }
      var g := groups[id];
      if target !in g.members {
        if g.policy == Password {
          return Refused(409);
        }
        var admitted := AuthorizeAdmission(g, target, None, memberIds);
        if !admitted {
          return Refused(403);
        }
        groups := groups[id := WithMember(g, target, now)];
      }
    }

    method RemoveMember(actor: UserId, id: ConversationId, target: UserId) returns (outcome: Outcome)
      modifies this`groups
      ensures Reply(Contents(), outcome) == RemoveStep(old(Contents()), actor, id, target)
    {
      outcome := RequireAdmin(actor, id);
      if outcome != Done {
        return;
      }
      if target == groups[id].creator {
        return Refused(403);
      }
      if target !in groups[id].members {
        return Refused(404);
      }
      groups := groups[id := groups[id].(members := groups[id].members - {target})];
    }

    method UpdateMemberRole(actor: UserId, id: ConversationId, target: UserId, admin: bool) returns (outcome: Outcome)
      modifies this`groups
      ensures Reply(Contents(), outcome) == SetRoleStep(old(Contents()), actor, id, target, admin)
    {
      if id !in groups {
        return Refused(404);
      }
      var g := groups[id];
      if g.creator != actor {
        return Refused(403);
      }
      if target == g.creator {
        return Refused(400);
      }
      if target !in g.members {
        return Refused(404);
      }
      var row := g.members[target].(role := if admin then Admin else Member);
      groups := groups[id := g.(members := g.members[target := row])];
      return Done;
    }

    method UpdateGroup(actor: UserId, id: ConversationId, titled: bool, policy: Option<Policy>,
                       password: Option<Secret>)
      returns (outcome: Outcome)
      modifies this`groups
      ensures Reply(Contents(), outcome) == UpdateStep(old(Contents()), actor, id, titled, policy, password)
    {
      if !titled && policy.None? && password.None? {
        return Refused(400);
      }
      if password.Some? && !(8 <= |password.value| <= 256) {
        return Refused(400);
      }
      outcome := RequireAdmin(actor, id);
      if outcome != Done {
        return;
      }
      var g := groups[id];
      var next := if policy.Some? then policy.value else g.policy;
      if next == Password {
        if g.policy != Password && password.None? {
          return Refused(400);
        }
      } else if password.Some? {
        return Refused(400);
      }
      var kept := if next == Password then if password.Some? then password else g.password else None;
      groups := groups[id := g.(policy := next, password := kept)];
    }

    method DeleteGroup(actor: UserId, id: ConversationId) returns (outcome: Outcome)
      modifies this`groups, this`invitations
      ensures Reply(Contents(), outcome) == DeleteStep(old(Contents()), actor, id)
    {
      outcome := RequireAdmin(actor, id);
      if outcome == Done {
        groups := groups - {id};
        invitations := map i | i in invitations && invitations[i].group != id :: invitations[i];
      }
    }

    method CreateInvitation(actor: UserId, id: ConversationId, invitee: UserId, unused: InvitationId)
      returns (outcome: Outcome)
      modifies this`invitations
      ensures Reply(Contents(), outcome) == InviteStep(old(Contents()), actor, id, invitee, unused)
    {
      if invitee == actor {
        return Refused(400);
      }
      outcome := RequireAdmin(actor, id);
      if outcome != Done {
        return;
      }
      if groups[id].policy != Password {
        return Refused(409);
      }
      if invitee !in users {
        return Refused(404);
      }
      if invitee in groups[id].members {
        return Refused(409);
      }
      if !PendingFor(invitations, id, invitee) {
        if unused in invitations {
          return Refused(500);
        }
        invitations := invitations[unused := Invitation(id, actor, invitee, Pending)];
      }
    }

    method DeclineInvitation(user: UserId, i: InvitationId) returns (outcome: Outcome)
      modifies this`invitations
      ensures Reply(Contents(), outcome) == DeclineStep(old(Contents()), user, i)
    {
      if i !in invitations || invitations[i].invitee != user || invitations[i].status != Pending {
        return Refused(404);
      }
      invitations := invitations[i := invitations[i].(status := Declined)];
      return Done;
    }
  }
}
