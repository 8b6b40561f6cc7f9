/** The admin handlers as they interleave: each checks first and writes later, with no transaction around both, so
    other requests may write in between. What the tables' own constraints stop at write time changes nothing. */
module AdminRaces {
  import opened Identifiers
  import opened AdminRoles

  /** A foreign key or the primary key stops the write: the name is taken, the role is gone, or users still have it. */
  predicate Stopped(t: Tables, r: Request) {
    match r
    case CreateRole(name, _) => name in t.roles
    case UpdateRole(name, _) => name !in t.roles
    case DeleteRole(name) => name !in t.roles || exists u <- t.users :: t.users[u] == name
    case UpdateUser(user, role) => user !in t.users || role !in t.roles
  }

  /** What the request makes of users, roles and permissions. */
  function Written(t: Tables, r: Request): Tables {
    Effect(t, r).(sessions := t.sessions)
  }

  /** The write of a request that passed its check at some earlier time. */
  function Write(t: Tables, r: Request): Tables {
    if Stopped(t, r) then t else Written(t, r)
  }

  /** A request that passed its check, with whether the user's sessions end: that was read at the check too. */
  datatype Checked = Checked(action: Action, endsSessions: bool)

  function CheckedOn(t: Tables, a: Action): Checked {
    Checked(a, a.request.UpdateUser? && AppLogin !in RolePermissions(t.grants, a.request.role))
  }

  /** The write, and then the end of the sessions if the check said so. */
  function Committed(t: Tables, c: Checked): Tables {
    var written := Write(t, c.action.request);
    if c.endsSessions && c.action.request.UpdateUser? && !Stopped(t, c.action.request)
    then written.(sessions := t.sessions - {c.action.request.user})
    else written
  }

  /** A check that still holds is never stopped, and with what it reads now check and write are the atomic step. */
  lemma StillAllowedIsAtomic(t: Tables, a: Action)
    requires Guard(t, a.actor, a.request) == Done
    ensures Committed(t, CheckedOn(t, a)) == Apply(t, a.actor, a.request)
    ensures Write(t, a.request) == Apply(t, a.actor, a.request).(sessions := t.sessions)
  {}

  /** A moved user keeps their sessions exactly when the new role allowed login at the check, whatever it allows now. */
  lemma SessionsFollowTheCheck(earlier: Tables, t: Tables, a: Action)
    requires a.request.UpdateUser? && !Stopped(t, a.request)
    ensures a.request.user in Committed(t, CheckedOn(earlier, a)).sessions <==>
      a.request.user in t.sessions && AppLogin in RolePermissions(earlier.grants, a.request.role)
    ensures Permissions(Committed(t, CheckedOn(earlier, a)), a.request.user) ==
      RolePermissions(t.grants, a.request.role)
  {}

  lemma WriteIsSound(t: Tables, r: Request)
    requires Sound(t) && RespectsAdminRole(r)
    ensures Sound(Write(t, r))
  {
    if !Stopped(t, r) {
      match r
      case CreateRole(name, keys) => GrantsOf(t.grants, name, Parsed(keys), ADMIN_ROLE);
      case UpdateRole(name, keys) => if keys.Some? { GrantsOf(t.grants, name, Parsed(keys.value), ADMIN_ROLE); }
      case DeleteRole(name) => GrantsOf(t.grants, name, {}, ADMIN_ROLE);
      case UpdateUser(_, _) =>
    }
  }

  /** The request neither rewrites nor deletes the admin role, which no check lets pass. */
  predicate RespectsAdminRole(r: Request) {
    (r.UpdateRole? && r.newKeys.Some? ==> r.name != ADMIN_ROLE) && (r.DeleteRole? ==> r.name != ADMIN_ROLE)
  }

  // ----- two requests checked against the same tables -----

  predicate Moves(r: Request, u: UserId) {
    r.UpdateUser? && r.user == u
  }

  predicate Rewrites(r: Request, role: RoleName) {
    r.UpdateRole? && r.newKeys.Some? && r.name == role
  }

  /** The request moves the user or rewrites the role the user has. */
  predicate Reaches(t: Tables, r: Request, u: UserId) {
    u in t.users && (Moves(r, u) || Rewrites(r, t.users[u]))
  }

  /** What a role holds once both requests are through. */
  function RoleLeft(t: Tables, r: Request, o: Request, role: RoleName): set<Permission> {
    if Rewrites(r, role) then Parsed(r.newKeys.value)
    else if Rewrites(o, role) then Parsed(o.newKeys.value)
    else RolePermissions(t.grants, role)
  }

  /** What request `r`, which reaches the user, leaves the user with once the other request is through too. */
  function Left(t: Tables, r: Request, o: Request, u: UserId): set<Permission>
    requires u in t.users
  {
    RoleLeft(t, r, o, if Moves(r, u) then r.role else t.users[u])
  }

  /** Each request reaches the other's actor and leaves them short of something, and every other user who holds
      everything has a role that one of the requests rewrites. */
  ghost predicate LocksOut(t: Tables, a: Action, b: Action) {
    && Reaches(t, a.request, b.actor) && Left(t, a.request, b.request, b.actor) != ALL
    && Reaches(t, b.request, a.actor) && Left(t, b.request, a.request, a.actor) != ALL
    && forall u <- t.users :: u != a.actor && u != b.actor && Permissions(t, u) == ALL ==>
         Rewrites(a.request, t.users[u]) || Rewrites(b.request, t.users[u])
  }

  /** The user has the same role after the write, and the role the same permissions. */
  lemma UnreachedIsUnchanged(t: Tables, r: Request, u: UserId)
    requires Sound(t) && u in t.users && !Reaches(t, r, u)
    ensures u in Write(t, r).users && Write(t, r).users[u] == t.users[u]
    ensures Permissions(Write(t, r), u) == Permissions(t, u)
  {
    if !Stopped(t, r) {
      match r
      case CreateRole(name, keys) => GrantsOf(t.grants, name, Parsed(keys), t.users[u]);
      case UpdateRole(name, keys) => if keys.Some? { GrantsOf(t.grants, name, Parsed(keys.value), t.users[u]); }
      case DeleteRole(name) => GrantsOf(t.grants, name, {}, t.users[u]);
      case UpdateUser(_, _) =>
    }
  }

  lemma PassedRespectsAdminRole(t: Tables, a: Action)
    requires Sound(t) && Guard(t, a.actor, a.request) == Done
    ensures RespectsAdminRole(a.request)
  {}

  /** No check lets an actor reach themselves. */
  lemma NobodyReachesThemselves(t: Tables, a: Action)
    requires Guard(t, a.actor, a.request) == Done
    ensures !Reaches(t, a.request, a.actor)
  {}

  /** Whoever reaches a user with everything holds everything. */
  lemma ReachingNeedsAsMuch(t: Tables, a: Action, u: UserId)
    requires Guard(t, a.actor, a.request) == Done && Reaches(t, a.request, u)
    ensures Permissions(t, u) <= Permissions(t, a.actor)
  {}

  lemma HoldsAll(t: Tables, u: UserId)
    requires ALL <= Permissions(t, u)
    ensures Permissions(t, u) == ALL && u in t.users
  {
    assert AppLogin in ALL;
  }

  /** An actor with everything whom the other request does not reach still has everything. */
  lemma UnreachedActorStays(t: Tables, a: Action, b: Action, u: UserId)
    requires Sound(t) && Guard(t, a.actor, a.request) == Done && Guard(t, b.actor, b.request) == Done
    requires Permissions(t, u) == ALL && u in t.users && !Reaches(t, a.request, u) && !Reaches(t, b.request, u)
    ensures SomeoneHoldsAll(Write(Write(t, a.request), b.request))
  {
    var t1 := Write(t, a.request);
    PassedRespectsAdminRole(t, a);
    WriteIsSound(t, a.request);
    UnreachedIsUnchanged(t, a.request, u);
    UnreachedIsUnchanged(t1, b.request, u);
    assert Permissions(Write(t1, b.request), u) == ALL;
  }

  /** Two requests that both passed their checks on the same tables leave somebody with everything unless each
      reaches the other's actor. */
  lemma SafeUnlessBothReached(t: Tables, a: Action, b: Action)
    requires Sound(t) && SomeoneHoldsAll(t)
    requires Guard(t, a.actor, a.request) == Done && Guard(t, b.actor, b.request) == Done
    requires !Reaches(t, a.request, b.actor) || !Reaches(t, b.request, a.actor)
    ensures SomeoneHoldsAll(Write(Write(t, a.request), b.request))
  {
    var u :| Permissions(t, u) == ALL;
    HoldsAll(t, u);
    NobodyReachesThemselves(t, a);
    NobodyReachesThemselves(t, b);
    if Permissions(t, a.actor) == ALL && !Reaches(t, b.request, a.actor) {
      HoldsAll(t, a.actor);
      UnreachedActorStays(t, a, b, a.actor);
    } else if Permissions(t, b.actor) == ALL && !Reaches(t, a.request, b.actor) {
      HoldsAll(t, b.actor);
      UnreachedActorStays(t, a, b, b.actor);
    } else {
      if Reaches(t, a.request, u) { ReachingNeedsAsMuch(t, a, u); HoldsAll(t, a.actor); ReachingNeedsBack(t, a, b); }
      if Reaches(t, b.request, u) { ReachingNeedsAsMuch(t, b, u); HoldsAll(t, b.actor); ReachingNeedsBack(t, b, a); }
      UnreachedActorStays(t, a, b, u);
    }
  }

  /** An actor with everything is reached only by another who has everything. */
  lemma ReachingNeedsBack(t: Tables, a: Action, b: Action)
    requires Guard(t, b.actor, b.request) == Done && Permissions(t, a.actor) == ALL && Reaches(t, b.request, a.actor)
    ensures Permissions(t, b.actor) == ALL
  {
    ReachingNeedsAsMuch(t, b, a.actor);
    HoldsAll(t, b.actor);
  }

  // ----- when two such requests do lock everybody out -----

  ghost predicate BothReached(t: Tables, a: Action, b: Action) {
    && Sound(t) && Guard(t, a.actor, a.request) == Done && Guard(t, b.actor, b.request) == Done
    && Reaches(t, a.request, b.actor) && Reaches(t, b.request, a.actor)
  }

  /** The requests move different users and rewrite different roles, and neither is stopped. */
  lemma BothReachedDoNotClash(t: Tables, a: Action, b: Action)
    requires BothReached(t, a, b)
    ensures a.actor in t.users && b.actor in t.users && a.actor != b.actor
    ensures forall role :: !(Rewrites(a.request, role) && Rewrites(b.request, role))
    ensures Write(t, a.request) == Written(t, a.request)
    ensures Write(Written(t, a.request), b.request) == Written(Written(t, a.request), b.request)
  {}

  lemma RoleAfterBoth(t: Tables, a: Action, b: Action, role: RoleName)
    requires BothReached(t, a, b)
    ensures RolePermissions(Written(Written(t, a.request), b.request).grants, role) ==
      RoleLeft(t, a.request, b.request, role)
    ensures RoleLeft(t, a.request, b.request, role) == RoleLeft(t, b.request, a.request, role)
  {
    BothReachedDoNotClash(t, a, b);
    var t1 := Written(t, a.request);
    if a.request.UpdateRole? { GrantsOf(t.grants, a.request.name, Parsed(a.request.newKeys.value), role); }
    if b.request.UpdateRole? { GrantsOf(t1.grants, b.request.name, Parsed(b.request.newKeys.value), role); }
  }

  lemma UserAfterBoth(t: Tables, a: Action, b: Action, u: UserId)
    requires BothReached(t, a, b) && u in t.users
    ensures u in Written(Written(t, a.request), b.request).users
    ensures Written(Written(t, a.request), b.request).users[u] ==
      if Moves(a.request, u) then a.request.role else if Moves(b.request, u) then b.request.role else t.users[u]
    ensures Moves(a.request, u) ==> u == b.actor
    ensures Moves(b.request, u) ==> u == a.actor
  {
    BothReachedDoNotClash(t, a, b);
  }

  lemma ActorsAfterBoth(t: Tables, a: Action, b: Action)
    requires BothReached(t, a, b)
    ensures b.actor in t.users && a.actor in t.users
    ensures Permissions(Written(Written(t, a.request), b.request), b.actor) == Left(t, a.request, b.request, b.actor)
    ensures Permissions(Written(Written(t, a.request), b.request), a.actor) == Left(t, b.request, a.request, a.actor)
  {
    BothReachedDoNotClash(t, a, b);
    UserAfterBoth(t, a, b, a.actor);
    UserAfterBoth(t, a, b, b.actor);
    var after := Written(Written(t, a.request), b.request);
    RoleAfterBoth(t, a, b, after.users[a.actor]);
    RoleAfterBoth(t, a, b, after.users[b.actor]);
  }

  lemma OthersAfterBoth(t: Tables, a: Action, b: Action, u: UserId)
    requires BothReached(t, a, b) && u in t.users && u != a.actor && u != b.actor
    ensures Permissions(Written(Written(t, a.request), b.request), u) == RoleLeft(t, a.request, b.request, t.users[u])
    ensures Rewrites(a.request, t.users[u]) ==>
      RoleLeft(t, a.request, b.request, t.users[u]) == Left(t, a.request, b.request, b.actor)
    ensures Rewrites(b.request, t.users[u]) ==>
      RoleLeft(t, a.request, b.request, t.users[u]) == Left(t, b.request, a.request, a.actor)
  {
    BothReachedDoNotClash(t, a, b);
    UserAfterBoth(t, a, b, u);
    RoleAfterBoth(t, a, b, t.users[u]);
  }

  lemma NobodyAppears(t: Tables, r: Request)
    ensures Write(t, r).users.Keys == t.users.Keys
  {}

  lemma LockoutLocksOut(t: Tables, a: Action, b: Action)
    requires BothReached(t, a, b) && LocksOut(t, a, b)
    ensures !SomeoneHoldsAll(Write(Write(t, a.request), b.request))
  {
    var after := Write(Write(t, a.request), b.request);
    BothReachedDoNotClash(t, a, b);
    ActorsAfterBoth(t, a, b);
    NobodyAppears(t, a.request);
    NobodyAppears(Write(t, a.request), b.request);
    forall u ensures Permissions(after, u) != ALL {
      if u !in t.users {
        assert AppLogin in ALL;
      } else if u != a.actor && u != b.actor {
        OthersAfterBoth(t, a, b, u);
      }
    }
  }

  lemma NoLockoutOtherwise(t: Tables, a: Action, b: Action)
    requires BothReached(t, a, b) && !LocksOut(t, a, b)
    ensures SomeoneHoldsAll(Write(Write(t, a.request), b.request))
  {
    var after := Write(Write(t, a.request), b.request);
    BothReachedDoNotClash(t, a, b);
    ActorsAfterBoth(t, a, b);
    if Left(t, a.request, b.request, b.actor) == ALL {
      assert Permissions(after, b.actor) == ALL;
    } else if Left(t, b.request, a.request, a.actor) == ALL {
      assert Permissions(after, a.actor) == ALL;
    } else {
      var u :| u in t.users && u != a.actor && u != b.actor && Permissions(t, u) == ALL
               && !Rewrites(a.request, t.users[u]) && !Rewrites(b.request, t.users[u]);
      OthersAfterBoth(t, a, b, u);
      assert Permissions(after, u) == ALL;
    }
  }

  /** For every tables in which somebody holds everything and every two requests checked against them: nobody holds
      everything after both writes exactly when each request reaches the other's actor and leaves them short, and
      every other user with everything has a role that one of them rewrites. The order of the writes is no matter. */
  lemma TwoWritesLockOutExactly(t: Tables, a: Action, b: Action)
    requires Sound(t) && SomeoneHoldsAll(t)
    requires Guard(t, a.actor, a.request) == Done && Guard(t, b.actor, b.request) == Done
    ensures !SomeoneHoldsAll(Write(Write(t, a.request), b.request)) <==> LocksOut(t, a, b)
    ensures LocksOut(t, a, b) <==> LocksOut(t, b, a)
  {
    if BothReached(t, a, b) {
      if LocksOut(t, a, b) { LockoutLocksOut(t, a, b); } else { NoLockoutOtherwise(t, a, b); }
    } else {
      SafeUnlessBothReached(t, a, b);
    }
  }

  function AllGranted(role: RoleName): set<(RoleName, Permission)> {
    set p | p in ALL :: (role, p)
  }

  lemma AllGrantedHoldsAll(grants: set<(RoleName, Permission)>, role: RoleName)
    requires AllGranted(role) <= grants
    ensures RolePermissions(grants, role) == ALL
  {
    forall p | p in ALL ensures (role, p) in grants { assert (role, p) in AllGranted(role); }
  }

  /** Two admins who demote each other at the same time both pass their checks, and nobody holds everything then. */
  lemma CheckThenWriteCanLockOut() returns (t: Tables, a: Action, b: Action)
    ensures Sound(t) && SomeoneHoldsAll(t)
    ensures Guard(t, a.actor, a.request) == Done && Guard(t, b.actor, b.request) == Done
    ensures a.request.UpdateUser? && b.request.UpdateUser?
    ensures !SomeoneHoldsAll(Write(Write(t, a.request), b.request))
  {
    t := Tables(map[1 := ADMIN_ROLE, 2 := ADMIN_ROLE], map[ADMIN_ROLE := true, DEFAULT_ROLE := true],
                AllGranted(ADMIN_ROLE), {});
    a, b := Action(1, UpdateUser(2, DEFAULT_ROLE)), Action(2, UpdateUser(1, DEFAULT_ROLE));
    AllGrantedHoldsAll(t.grants, ADMIN_ROLE);
    assert RolePermissions(t.grants, DEFAULT_ROLE) == {};
    assert Permissions(t, 1) == ALL && Permissions(t, 2) == ALL;
    assert AppLogin in ALL;
    TwoWritesLockOutExactly(t, a, b);
  }

  lemma TwoRolesWithEverything(boss: RoleName) returns (t: Tables)
    requires boss != ADMIN_ROLE
    ensures Sound(t) && t.users == map[1 := boss, 2 := ADMIN_ROLE] && boss in t.roles
    ensures RolePermissions(t.grants, boss) == ALL && Permissions(t, 1) == ALL && Permissions(t, 2) == ALL
  {
    t := Tables(map[1 := boss, 2 := ADMIN_ROLE], map[ADMIN_ROLE := true, boss := false],
                AllGranted(ADMIN_ROLE) + AllGranted(boss), {});
    AllGrantedHoldsAll(t.grants, ADMIN_ROLE);
    AllGrantedHoldsAll(t.grants, boss);
  }

  /** Neither request need demote anyone by itself: one moves an admin to another role with everything, the other
      meanwhile empties that role. */
  lemma MoveAndRewriteLocksOut() returns (t: Tables, a: Action, b: Action)
    ensures Sound(t) && SomeoneHoldsAll(t)
    ensures Guard(t, a.actor, a.request) == Done && Guard(t, b.actor, b.request) == Done
    ensures forall u :: Permissions(Write(t, a.request), u) == Permissions(t, u)
    ensures !SomeoneHoldsAll(Write(Write(t, a.request), b.request))
  {
    var boss: RoleName := "boss";
    assert boss != ADMIN_ROLE by { assert |boss| != |ADMIN_ROLE|; }
    t := TwoRolesWithEverything(boss);
    a, b := Action(1, UpdateUser(2, boss)), Action(2, UpdateRole(boss, Some([])));
    MoveAndRewritePass(t, boss);
    EqualMoveChangesNothing(t, 2, boss);
    TwoWritesLockOutExactly(t, a, b);
  }

  ghost predicate BothHoldAll(t: Tables, boss: RoleName) {
    && Sound(t) && t.users == map[1 := boss, 2 := ADMIN_ROLE] && boss != ADMIN_ROLE && boss in t.roles
    && RolePermissions(t.grants, boss) == ALL && Permissions(t, 1) == ALL && Permissions(t, 2) == ALL
  }

  lemma MoveAndRewritePass(t: Tables, boss: RoleName)
    requires BothHoldAll(t, boss)
    ensures Guard(t, 1, UpdateUser(2, boss)) == Done && Guard(t, 2, UpdateRole(boss, Some([]))) == Done
    ensures SomeoneHoldsAll(t) && LocksOut(t, Action(1, UpdateUser(2, boss)), Action(2, UpdateRole(boss, Some([]))))
  {
    assert AppLogin in ALL && Parsed([]) == {};
  }

  lemma EqualMoveChangesNothing(t: Tables, user: UserId, role: RoleName)
    requires user in t.users && role in t.roles && Permissions(t, user) == RolePermissions(t.grants, role)
    ensures forall u :: Permissions(Write(t, UpdateUser(user, role)), u) == Permissions(t, u)
  {}

  // ----- runs of checks and writes -----

  /** `pending` are the requests that passed their checks and have not been written yet. */
  datatype System = System(tables: Tables, pending: map<nat, Checked>)

  datatype Event = Check(id: nat, action: Action) | Commit(id: nat)

  function Next(s: System, e: Event): System {
    match e
    case Check(id, a) =>
      if id !in s.pending && Guard(s.tables, a.actor, a.request) == Done
      then s.(pending := s.pending[id := CheckedOn(s.tables, a)])
      else s
    case Commit(id) =>
      if id in s.pending then System(Committed(s.tables, s.pending[id]), s.pending - {id}) else s
  }

  function Run(s: System, events: seq<Event>): System
    decreases |events|
  {
    if events == [] then s else Next(Run(s, events[..|events| - 1]), events[|events| - 1])
  }

  function Start(t: Tables): System {
    System(t, map[])
  }

  ghost predicate SystemSound(s: System) {
    Sound(s.tables) && forall id <- s.pending :: RespectsAdminRole(s.pending[id].action.request)
  }

  lemma NextIsSound(s: System, e: Event)
    requires SystemSound(s)
    ensures SystemSound(Next(s, e))
  {
    match e
    case Check(id, a) =>
      if Guard(s.tables, a.actor, a.request) == Done { PassedRespectsAdminRole(s.tables, a); }
    case Commit(id) =>
      if id in s.pending { WriteIsSound(s.tables, s.pending[id].action.request); }
  }

  /** However checks and writes interleave, roles referred to exist and the admin role keeps every permission. */
  lemma {:induction false} RacesStaySound(t: Tables, events: seq<Event>)
    requires Sound(t)
    ensures SystemSound(Run(Start(t), events))
    decreases |events|
  {
    if events != [] {
      RacesStaySound(t, events[..|events| - 1]);
      NextIsSound(Run(Start(t), events[..|events| - 1]), events[|events| - 1]);
    }
  }

  // ----- which writes lock everybody out -----

  /** What the request gives to the users it reaches. */
  function Given(t: Tables, r: Request): set<Permission>
    requires r.UpdateUser? || (r.UpdateRole? && r.newKeys.Some?)
  {
    if r.UpdateUser? then RolePermissions(t.grants, r.role) else Parsed(r.newKeys.value)
  }

  /** The write goes through, gives less than everything, and reaches everyone who holds everything. */
  ghost predicate Fatal(t: Tables, r: Request) {
    && !Stopped(t, r)
    && (r.UpdateUser? || (r.UpdateRole? && r.newKeys.Some?))
    && Given(t, r) != ALL
    && forall u <- t.users :: Permissions(t, u) == ALL ==> Reaches(t, r, u)
  }

  lemma ReachedGetsTheGiven(t: Tables, r: Request, u: UserId)
    requires Sound(t) && !Stopped(t, r) && Reaches(t, r, u)
    ensures Permissions(Write(t, r), u) == Given(t, r)
  {
    if r.UpdateRole? { GrantsOf(t.grants, r.name, Parsed(r.newKeys.value), t.users[u]); }
  }

  lemma FatalWriteLocksOut(t: Tables, r: Request)
    requires Sound(t) && Fatal(t, r)
    ensures !SomeoneHoldsAll(Write(t, r))
  {
    NobodyAppears(t, r);
    forall u ensures Permissions(Write(t, r), u) != ALL {
      if u !in t.users {
        assert AppLogin in ALL;
      } else if Reaches(t, r, u) {
        ReachedGetsTheGiven(t, r, u);
      } else {
        UnreachedIsUnchanged(t, r, u);
      }
    }
  }

  lemma OtherWritesDoNot(t: Tables, r: Request)
    requires Sound(t) && SomeoneHoldsAll(t) && !Fatal(t, r)
    ensures SomeoneHoldsAll(Write(t, r))
  {
    if !Stopped(t, r) {
      var u :| Permissions(t, u) == ALL;
      HoldsAll(t, u);
      if Reaches(t, r, u) && Given(t, r) == ALL {
        ReachedGetsTheGiven(t, r, u);
        assert Permissions(Write(t, r), u) == ALL;
      } else {
        var v :| v in t.users && Permissions(t, v) == ALL && !Reaches(t, r, v);
        UnreachedIsUnchanged(t, r, v);
        assert Permissions(Write(t, r), v) == ALL;
      }
    }
  }

  /** When somebody holds everything, nobody does after a write exactly when the write is fatal. */
  lemma WriteLocksOutExactly(t: Tables, r: Request)
    requires Sound(t) && SomeoneHoldsAll(t)
    ensures !SomeoneHoldsAll(Write(t, r)) <==> Fatal(t, r)
  {
    if Fatal(t, r) { FatalWriteLocksOut(t, r); } else { OtherWritesDoNot(t, r); }
  }

  /** A write whose check would still pass is never fatal. */
  lemma StillAllowedIsNotFatal(t: Tables, a: Action)
    requires Sound(t) && SomeoneHoldsAll(t) && Guard(t, a.actor, a.request) == Done
    ensures !Fatal(t, a.request)
  {
    StepKeepsSomeoneWithAll(t, a.actor, a.request);
    StillAllowedIsAtomic(t, a);
    SessionsDoNotMatter(Apply(t, a.actor, a.request), t.sessions);
    WriteLocksOutExactly(t, a.request);
  }

  lemma SessionsDoNotMatter(t: Tables, sessions: set<UserId>)
    ensures SomeoneHoldsAll(t.(sessions := sessions)) <==> SomeoneHoldsAll(t)
  {
    forall u ensures Permissions(t.(sessions := sessions), u) == Permissions(t, u) {}
  }

  ghost predicate FatalCommit(s: System, e: Event) {
    e.Commit? && e.id in s.pending && Fatal(s.tables, s.pending[e.id].action.request)
  }

  lemma NextLocksOutExactly(s: System, e: Event)
    requires SystemSound(s) && SomeoneHoldsAll(s.tables)
    ensures !SomeoneHoldsAll(Next(s, e).tables) <==> FatalCommit(s, e)
  {
    if e.Commit? && e.id in s.pending {
      var written := Write(s.tables, s.pending[e.id].action.request);
      WriteLocksOutExactly(s.tables, s.pending[e.id].action.request);
      SessionsDoNotMatter(written, Next(s, e).tables.sessions);
    }
  }

  /** Somebody holds everything after the first `k` events. */
  ghost predicate HoldsAfter(t: Tables, events: seq<Event>, k: nat)
    requires k <= |events|
  {
    SomeoneHoldsAll(Run(Start(t), events[..k]).tables)
  }

  ghost predicate FatalAt(t: Tables, events: seq<Event>, k: nat)
    requires k < |events|
  {
    FatalCommit(Run(Start(t), events[..k]), events[k])
  }

  ghost predicate SomeoneAlwaysHoldsAll(t: Tables, events: seq<Event>) {
    forall k: nat | k <= |events| :: HoldsAfter(t, events, k)
  }

  ghost predicate NoFatalCommit(t: Tables, events: seq<Event>) {
    forall k: nat | k < |events| :: !FatalAt(t, events, k)
  }

  lemma SamePrefix(t: Tables, events: seq<Event>, n: nat, k: nat)
    requires k <= n <= |events|
    ensures HoldsAfter(t, events[..n], k) == HoldsAfter(t, events, k)
    ensures k < n ==> FatalAt(t, events[..n], k) == FatalAt(t, events, k)
  {
    assert events[..n][..k] == events[..k];
  }

  lemma NoFatalCommitBefore(t: Tables, events: seq<Event>, n: nat)
    requires |events| == n + 1
    ensures NoFatalCommit(t, events) <==> NoFatalCommit(t, events[..n]) && !FatalAt(t, events, n)
  {
    forall k: nat | k < n ensures FatalAt(t, events[..n], k) == FatalAt(t, events, k) { SamePrefix(t, events, n, k); }
  }

  lemma SomeoneAlwaysBefore(t: Tables, events: seq<Event>, n: nat)
    requires |events| == n + 1
    ensures SomeoneAlwaysHoldsAll(t, events) <==> SomeoneAlwaysHoldsAll(t, events[..n]) && HoldsAfter(t, events, n + 1)
  {
    forall k: nat | k <= n ensures HoldsAfter(t, events[..n], k) == HoldsAfter(t, events, k) {
      SamePrefix(t, events, n, k);
    }
  }

  lemma HoldsNextUnlessFatal(t: Tables, events: seq<Event>, n: nat)
    requires Sound(t) && |events| == n + 1 && HoldsAfter(t, events, n)
    ensures HoldsAfter(t, events, n + 1) <==> !FatalAt(t, events, n)
  {
    RacesStaySound(t, events[..n]);
    assert events[..n + 1] == events;
    NextLocksOutExactly(Run(Start(t), events[..n]), events[n]);
  }

  /** Over every run of interleaved checks and writes somebody holds everything throughout exactly when no write of
      the run is fatal at the moment it happens. */
  lemma {:induction false} LockoutIsAFatalCommit(t: Tables, events: seq<Event>)
    requires Sound(t) && SomeoneHoldsAll(t)
    ensures SomeoneAlwaysHoldsAll(t, events) <==> NoFatalCommit(t, events)
    decreases |events|
  {
    if events == [] {
      assert HoldsAfter(t, events, 0) by { assert events[..0] == [] && Run(Start(t), []) == Start(t); }
    } else {
      var n := |events| - 1;
      LockoutIsAFatalCommit(t, events[..n]);
      NoFatalCommitBefore(t, events, n);
      SomeoneAlwaysBefore(t, events, n);
      if SomeoneAlwaysHoldsAll(t, events[..n]) {
        SamePrefix(t, events, n, n);
        HoldsNextUnlessFatal(t, events, n);
      }
    }
  }

  /** In particular somebody holds everything in the end when no write was fatal. */
  lemma SafeWritesNeverLockOut(t: Tables, events: seq<Event>)
    requires Sound(t) && SomeoneHoldsAll(t) && NoFatalCommit(t, events)
    ensures SomeoneHoldsAll(Run(Start(t), events).tables)
  {
    LockoutIsAFatalCommit(t, events);
    assert HoldsAfter(t, events, |events|);
    assert events[..|events|] == events;
  }

  // ----- three admins in a circle -----

  function ThreeAdmins(roles: map<UserId, RoleName>): Tables {
    Tables(roles, map[ADMIN_ROLE := true, DEFAULT_ROLE := true], AllGranted(ADMIN_ROLE), {})
  }

  lemma RolesOfThree(roles: map<UserId, RoleName>)
    requires forall u <- roles :: roles[u] == ADMIN_ROLE || roles[u] == DEFAULT_ROLE
    ensures Sound(ThreeAdmins(roles))
    ensures forall u :: Permissions(ThreeAdmins(roles), u) == if u in roles && roles[u] == ADMIN_ROLE then ALL else {}
  {
    AllGrantedHoldsAll(ThreeAdmins(roles).grants, ADMIN_ROLE);
    assert RolePermissions(ThreeAdmins(roles).grants, DEFAULT_ROLE) == {};
  }

  lemma DemotionPasses(roles: map<UserId, RoleName>, actor: UserId, user: UserId)
    requires forall u <- roles :: roles[u] == ADMIN_ROLE || roles[u] == DEFAULT_ROLE
    requires actor in roles && user in roles && actor != user && roles[actor] == ADMIN_ROLE
    ensures Guard(ThreeAdmins(roles), actor, UpdateUser(user, DEFAULT_ROLE)) == Done
  {
    RolesOfThree(roles);
    assert RolePermissions(ThreeAdmins(roles).grants, DEFAULT_ROLE) == {};
  }

  lemma DemotionDemotes(roles: map<UserId, RoleName>, user: UserId)
    requires user in roles
    ensures Write(ThreeAdmins(roles), UpdateUser(user, DEFAULT_ROLE)) == ThreeAdmins(roles[user := DEFAULT_ROLE])
  {}

  lemma LastDemotionIsFatal(roles: map<UserId, RoleName>, user: UserId)
    requires forall u <- roles :: roles[u] == if u == user then ADMIN_ROLE else DEFAULT_ROLE
    requires user in roles
    ensures Fatal(ThreeAdmins(roles), UpdateUser(user, DEFAULT_ROLE))
  {
    RolesOfThree(roles);
    assert RolePermissions(ThreeAdmins(roles).grants, DEFAULT_ROLE) == {} && AppLogin in ALL;
  }

  /** Each of three admins demotes the next. All three pass their checks on the same tables, no two of them would lock
      everybody out, and the three together do: the last write is fatal. */
  lemma CircleLocksOut() returns (t: Tables, a: Action, b: Action, c: Action)
    ensures Sound(t) && SomeoneHoldsAll(t)
    ensures Guard(t, a.actor, a.request) == Guard(t, b.actor, b.request) == Guard(t, c.actor, c.request) == Done
    ensures !LocksOut(t, a, b) && !LocksOut(t, b, c) && !LocksOut(t, a, c)
    ensures Fatal(Write(Write(t, a.request), b.request), c.request)
    ensures !SomeoneHoldsAll(Write(Write(Write(t, a.request), b.request), c.request))
  {
    var roles := map[1 := ADMIN_ROLE, 2 := ADMIN_ROLE, 3 := ADMIN_ROLE];
    t := ThreeAdmins(roles);
    a, b := Action(1, UpdateUser(2, DEFAULT_ROLE)), Action(2, UpdateUser(3, DEFAULT_ROLE));
    c := Action(3, UpdateUser(1, DEFAULT_ROLE));
    RolesOfThree(roles);
    assert Permissions(t, 1) == ALL;
    DemotionPasses(roles, 1, 2);
    DemotionPasses(roles, 2, 3);
    DemotionPasses(roles, 3, 1);
    DemotionDemotes(roles, 2);
    DemotionDemotes(roles[2 := DEFAULT_ROLE], 3);
    var left := roles[2 := DEFAULT_ROLE][3 := DEFAULT_ROLE];
    RolesOfThree(left);
    LastDemotionIsFatal(left, 1);
    FatalWriteLocksOut(ThreeAdmins(left), c.request);
  }

  // ----- races do not escalate -----

  ghost predicate Pooled(t: Tables, group: set<UserId>, permissions: set<Permission>) {
    forall p <- permissions :: HeldAmong(t, group, p)
  }

  /** What a pending request may hand out: only what the group held at the start. */
  ghost predicate HandsOutPooled(t: Tables, group: set<UserId>, now: Tables, r: Request) {
    match r
    case CreateRole(_, keys) => Pooled(t, group, Parsed(keys))
    case UpdateRole(_, keys) => keys.Some? ==> Pooled(t, group, Parsed(keys.value))
    case DeleteRole(_) => true
    case UpdateUser(_, role) => Pooled(t, group, RolePermissions(now.grants, role))
  }

  ghost predicate RolesContained(t: Tables, group: set<UserId>, now: Tables) {
    forall role ::
      Pooled(t, group, RolePermissions(now.grants, role) - RolePermissions(t.grants, role))
  }

  ghost predicate UsersContained(t: Tables, group: set<UserId>, now: Tables) {
    forall u <- now.users ::
      (u in t.users && now.users[u] == t.users[u]) || Pooled(t, group, RolePermissions(now.grants, now.users[u]))
  }

  ghost predicate Contained(t: Tables, group: set<UserId>, s: System) {
    && RolesContained(t, group, s.tables) && UsersContained(t, group, s.tables)
    && forall id <- s.pending ::
      s.pending[id].action.actor in group && HandsOutPooled(t, group, s.tables, s.pending[id].action.request)
  }

  lemma ContainedUser(t: Tables, group: set<UserId>, s: System, u: UserId, p: Permission)
    requires Contained(t, group, s) && p in Permissions(s.tables, u)
    ensures p in Permissions(t, u) || HeldAmong(t, group, p)
  {
    var role := s.tables.users[u];
    assert Pooled(t, group, RolePermissions(s.tables.grants, role) - RolePermissions(t.grants, role));
  }

  lemma GroupStaysPooled(t: Tables, group: set<UserId>, s: System, actor: UserId)
    requires Contained(t, group, s) && actor in group
    ensures Pooled(t, group, Permissions(s.tables, actor))
  {
    forall p | p in Permissions(s.tables, actor) ensures HeldAmong(t, group, p) {
      ContainedUser(t, group, s, actor, p);
    }
  }

  lemma CheckedHandsOutPooled(t: Tables, group: set<UserId>, s: System, a: Action)
    requires Contained(t, group, s) && a.actor in group && Guard(s.tables, a.actor, a.request) == Done
    ensures HandsOutPooled(t, group, s.tables, a.request)
  {
    GroupStaysPooled(t, group, s, a.actor);
  }

  /** What one write makes of a role: what it was, nothing, or what the request hands out. */
  lemma RoleAfterWrite(now: Tables, r: Request, role: RoleName)
    ensures var after := RolePermissions(Write(now, r).grants, role);
      || after == RolePermissions(now.grants, role) || after == {}
      || (r.CreateRole? && r.name == role && after == Parsed(r.keys))
      || (Rewrites(r, role) && after == Parsed(r.newKeys.value))
  {
    match r
    case CreateRole(name, keys) => GrantsOf(now.grants, name, Parsed(keys), role);
    case UpdateRole(name, keys) => if keys.Some? { GrantsOf(now.grants, name, Parsed(keys.value), role); }
    case DeleteRole(name) =>
      GrantsOf(now.grants, name, {}, role);
      if name == role { assert RolePermissions(WithoutGrants(now.grants, name), role) == {}; }
    case UpdateUser(_, _) =>
  }

  lemma PooledRoleStays(t: Tables, group: set<UserId>, now: Tables, r: Request, role: RoleName)
    requires HandsOutPooled(t, group, now, r) && Pooled(t, group, RolePermissions(now.grants, role))
    ensures Pooled(t, group, RolePermissions(Write(now, r).grants, role))
  {
    RoleAfterWrite(now, r, role);
  }

  lemma WriteKeepsContained(t: Tables, group: set<UserId>, s: System, id: nat)
    requires Contained(t, group, s) && id in s.pending
    ensures Contained(t, group, Next(s, Commit(id)))
  {
    var r := s.pending[id].action.request;
    var s' := Next(s, Commit(id));
    forall role
      ensures Pooled(t, group, RolePermissions(s'.tables.grants, role) - RolePermissions(t.grants, role))
    {
      RoleAfterWrite(s.tables, r, role);
      assert Pooled(t, group, RolePermissions(s.tables.grants, role) - RolePermissions(t.grants, role));
    }
    forall u | u in s'.tables.users
      ensures (u in t.users && s'.tables.users[u] == t.users[u])
              || Pooled(t, group, RolePermissions(s'.tables.grants, s'.tables.users[u]))
    {
      NobodyAppears(s.tables, r);
      if s'.tables.users[u] != s.tables.users[u] {
        PooledRoleStays(t, group, s.tables, r, r.role);
      } else if Pooled(t, group, RolePermissions(s.tables.grants, s.tables.users[u])) {
        PooledRoleStays(t, group, s.tables, r, s.tables.users[u]);
      }
    }
    forall o | o in s'.pending
      ensures s'.pending[o].action.actor in group && HandsOutPooled(t, group, s'.tables, s'.pending[o].action.request)
    {
      if s.pending[o].action.request.UpdateUser? {
        PooledRoleStays(t, group, s.tables, r, s.pending[o].action.request.role);
      }
    }
  }

  ghost predicate ActorsIn(events: seq<Event>, group: set<UserId>) {
    forall k | 0 <= k < |events| :: events[k].Check? ==> events[k].action.actor in group
  }

  lemma {:induction false} RacesStayContained(t: Tables, events: seq<Event>, group: set<UserId>)
    requires Sound(t) && ActorsIn(events, group)
    ensures Contained(t, group, Run(Start(t), events))
    decreases |events|
  {
    if events == [] {
      assert Run(Start(t), events) == Start(t);
    } else {
      var n := |events| - 1;
      var s, e := Run(Start(t), events[..n]), events[n];
      assert ActorsIn(events[..n], group);
      RacesStayContained(t, events[..n], group);
      match e
      case Check(id, a) =>
        if Guard(s.tables, a.actor, a.request) == Done { CheckedHandsOutPooled(t, group, s, a); }
      case Commit(id) =>
        if id in s.pending { WriteKeepsContained(t, group, s, id); }
    }
  }

  /** However the checks and writes of a group of admins interleave, nobody ends with a permission that neither they
      had at the start nor any of the group did. */
  lemma RacesDoNotEscalate(t: Tables, events: seq<Event>, group: set<UserId>, u: UserId, p: Permission)
    requires Sound(t) && ActorsIn(events, group)
    requires p in Permissions(Run(Start(t), events).tables, u)
    ensures p in Permissions(t, u) || HeldAmong(t, group, p)
  {
    RacesStayContained(t, events, group);
    ContainedUser(t, group, Run(Start(t), events), u, p);
  }

  // ----- races do not touch stronger users -----

  /** The user has their role, the role its permissions, and no pending request reaches the user. */
  ghost predicate Untouched(t: Tables, s: System, u: UserId) {
    && u in t.users && u in s.tables.users && s.tables.users[u] == t.users[u]
    && RolePermissions(s.tables.grants, t.users[u]) == RolePermissions(t.grants, t.users[u])
    && forall id <- s.pending :: !Reaches(s.tables, s.pending[id].action.request, u)
  }

  lemma NextLeavesUntouched(t: Tables, group: set<UserId>, s: System, e: Event, u: UserId, p: Permission)
    requires Sound(s.tables) && Contained(t, group, s) && Untouched(t, s, u)
    requires p in Permissions(t, u) && !HeldAmong(t, group, p) && (e.Check? ==> e.action.actor in group)
    ensures Untouched(t, Next(s, e), u)
  {
    match e
    case Check(id, a) =>
      GroupStaysPooled(t, group, s, a.actor);
      assert p in Permissions(s.tables, u);
      if Guard(s.tables, a.actor, a.request) == Done && Reaches(s.tables, a.request, u) {
        ReachingNeedsAsMuch(s.tables, a, u);
      }
    case Commit(id) =>
      if id in s.pending { UnreachedIsUnchanged(s.tables, s.pending[id].action.request, u); }
  }

  /** However they interleave, admins who together lack a permission of `u` cannot change what `u` may do. */
  lemma {:induction false} RacesLeaveStrongerUsers(t: Tables, events: seq<Event>, group: set<UserId>, u: UserId,
                                                   p: Permission)
    requires Sound(t) && ActorsIn(events, group)
    requires p in Permissions(t, u) && !HeldAmong(t, group, p)
    ensures Untouched(t, Run(Start(t), events), u)
    ensures Permissions(Run(Start(t), events).tables, u) == Permissions(t, u)
    decreases |events|
  {
    if events != [] {
      var n := |events| - 1;
      assert ActorsIn(events[..n], group);
      RacesLeaveStrongerUsers(t, events[..n], group, u, p);
      RacesStaySound(t, events[..n]);
      RacesStayContained(t, events[..n], group);
      NextLeavesUntouched(t, group, Run(Start(t), events[..n]), events[n], u, p);
    }
  }
}
