/** What an admin may do and what that does, exactly: the permission each request needs, the grounds on which it is
    refused, and everything that stays as it was. */
module AdminRights {
  import opened Identifiers
  import opened AdminRoles

  function Needed(r: Request): Permission {
    match r
    case UpdateUser(_, _) => AdminUsersManage
    case _ => AdminRolesManage
  }

  /** The keys are all known, and what they name the actor holds. */
  predicate MayGive(t: Tables, actor: UserId, keys: seq<string>) {
    forall k <- keys :: exists p <- ALL :: k == Key(p) && p in Permissions(t, actor)
  }

  predicate NoStrongerThan(t: Tables, actor: UserId, role: RoleName) {
    forall p | (role, p) in t.grants :: p in Permissions(t, actor)
  }

  /** The request is within the actor's rights: they may enter the panel and manage what it is about, hold all that
      changes hands, and touch neither themselves, their own role, the admin role nor a system role. */
  ghost predicate Rightful(t: Tables, actor: UserId, r: Request) {
    && AdminAccess in Permissions(t, actor) && Needed(r) in Permissions(t, actor)
    && match r
       case CreateRole(name, keys) => name !in t.roles && MayGive(t, actor, keys)
       case UpdateRole(name, keys) =>
         name in t.roles
         && (keys.Some? ==>
               && name != ADMIN_ROLE && name != t.users[actor]
               && MayGive(t, actor, keys.value) && NoStrongerThan(t, actor, name))
       case DeleteRole(name) =>
         name in t.roles && !t.roles[name] && NoStrongerThan(t, actor, name)
         && forall u <- t.users :: t.users[u] != name
       case UpdateUser(user, role) =>
         user in t.users && user != actor && role in t.roles
         && NoStrongerThan(t, actor, t.users[user]) && NoStrongerThan(t, actor, role)
  }

  lemma KeysAreDistinct(p: Permission, q: Permission)
    ensures Key(p) == Key(q) <==> p == q
    ensures FromKey(Key(p)) == Some(p)
  {
    assert Key(AppLogin)[1] != Key(AdminAccess)[1];
    assert |Key(AppLogin)| == 9 && |Key(MeetingsCreate)| == 15 && |Key(MessagesSend)| == 13;
    assert |Key(AdminAccess)| == 12 && |Key(AdminUsersManage)| == 18 && |Key(AdminRolesManage)| == 18;
    assert Key(AdminUsersManage)[6] == 'u' && Key(AdminRolesManage)[6] == 'r';
  }

  lemma GivingIsParsed(t: Tables, actor: UserId, keys: seq<string>)
    ensures MayGive(t, actor, keys) <==> KnownKeys(keys) && Parsed(keys) <= Permissions(t, actor)
  {
    forall p, q ensures Key(p) == Key(q) <==> p == q ensures FromKey(Key(p)) == Some(p) { KeysAreDistinct(p, q); }
    if MayGive(t, actor, keys) {
      forall k | k in keys ensures FromKey(k).Some? && FromKey(k).value in Permissions(t, actor) {
        var p :| p in ALL && k == Key(p) && p in Permissions(t, actor);
      }
    }
    if KnownKeys(keys) && Parsed(keys) <= Permissions(t, actor) {
      forall k | k in keys ensures exists p <- ALL :: k == Key(p) && p in Permissions(t, actor) {
        var p := FromKey(k).value;
        assert p in Parsed(keys) && p in ALL && k == Key(p);
      }
    }
  }

  lemma NoStrongerIsContained(t: Tables, actor: UserId, role: RoleName)
    ensures NoStrongerThan(t, actor, role) <==> RolePermissions(t.grants, role) <= Permissions(t, actor)
  {
    forall p ensures p in ALL { AllIsAll(p); }
  }

  /** A request is carried out exactly when it is rightful. */
  lemma AllowedExactly(t: Tables, actor: UserId, r: Request)
    requires Sound(t)
    ensures Guard(t, actor, r) == Done <==> Rightful(t, actor, r)
  {
    forall role ensures NoStrongerThan(t, actor, role) <==> RolePermissions(t.grants, role) <= Permissions(t, actor) {
      NoStrongerIsContained(t, actor, role);
    }
    match r
    case CreateRole(_, keys) => GivingIsParsed(t, actor, keys);
    case UpdateRole(_, keys) => if keys.Some? { GivingIsParsed(t, actor, keys.value); }
    case _ =>
  }

  lemma ParsedExactly(keys: seq<string>, p: Permission)
    ensures p in Parsed(keys) <==> Key(p) in keys
  {
    KeysAreDistinct(p, p);
    if p in Parsed(keys) {
      var k :| k in keys && FromKey(k) == Some(p);
      KnownKeyNames(k);
    }
  }

  lemma KnownKeyNames(k: string)
    requires FromKey(k).Some?
    ensures k == Key(FromKey(k).value)
  {}

  /** The grounds of a refusal, for an actor who may enter and manage what the request is about. */
  lemma RefusalGrounds(t: Tables, actor: UserId, r: Request)
    requires Sound(t)
    ensures Guard(t, actor, r) == Refused(401) <==> actor !in t.users
    ensures actor in t.users && !({AdminAccess, Needed(r)} <= Permissions(t, actor)) ==>
      Guard(t, actor, r) == Refused(403)
    ensures {AdminAccess, Needed(r)} <= Permissions(t, actor) ==>
      (Guard(t, actor, r) == Refused(404) <==>
        match r
        case CreateRole(_, _) => false
        case UpdateRole(name, _) => name !in t.roles
        case DeleteRole(name) => name !in t.roles
        case UpdateUser(user, _) => user != actor && user !in t.users)
    ensures {AdminAccess, Needed(r)} <= Permissions(t, actor) ==>
      (Guard(t, actor, r) == Refused(409) <==>
        match r
        case CreateRole(name, keys) => MayGive(t, actor, keys) && name in t.roles
        case DeleteRole(name) =>
          name in t.roles && !t.roles[name] && NoStrongerThan(t, actor, name)
          && exists u <- t.users :: t.users[u] == name
        case _ => false)
    ensures {AdminAccess, Needed(r)} <= Permissions(t, actor) ==>
      (Guard(t, actor, r) == Refused(400) <==>
        match r
        case CreateRole(_, keys) => !KnownKeys(keys)
        case UpdateRole(name, keys) =>
          name in t.roles && keys.Some? && (!KnownKeys(keys.value) || name == ADMIN_ROLE || name == t.users[actor])
        case DeleteRole(name) => name in t.roles && t.roles[name]
        case UpdateUser(user, role) => user == actor || (user in t.users && role !in t.roles))
    ensures Guard(t, actor, r).Done? || Guard(t, actor, r).status in {400, 401, 403, 404, 409}
  {
    forall role ensures NoStrongerThan(t, actor, role) <==> RolePermissions(t.grants, role) <= Permissions(t, actor) {
      NoStrongerIsContained(t, actor, role);
    }
    if r.CreateRole? { GivingIsParsed(t, actor, r.keys); }
  }

  // ----- what changes, and what does not -----

  /** Only a user who is moved has another role afterwards, only their sessions end, and only when the role they get
      does not allow login. */
  lemma UsersChangeExactly(t: Tables, actor: UserId, r: Request, u: UserId)
    requires Sound(t)
    ensures Apply(t, actor, r).users.Keys == t.users.Keys
    ensures u in t.users ==>
      Apply(t, actor, r).users[u] ==
        if r.UpdateUser? && r.user == u && Rightful(t, actor, r) then r.role else t.users[u]
    ensures u in Apply(t, actor, r).sessions <==>
      u in t.sessions
      && !(r.UpdateUser? && r.user == u && Rightful(t, actor, r) && AppLogin !in RolePermissions(t.grants, r.role))
  {
    AllowedExactly(t, actor, r);
  }

  /** Only the role a request names comes, goes or changes; it never becomes a system role, or ceases to be one. */
  lemma RolesChangeExactly(t: Tables, actor: UserId, r: Request, role: RoleName)
    requires Sound(t)
    ensures role in Apply(t, actor, r).roles <==>
      (role in t.roles && !(r == DeleteRole(role) && Rightful(t, actor, r)))
      || (r.CreateRole? && r.name == role && Rightful(t, actor, r))
    ensures role in Apply(t, actor, r).roles ==> Apply(t, actor, r).roles[role] == (role in t.roles && t.roles[role])
    ensures RolePermissions(Apply(t, actor, r).grants, role) ==
      if Rightful(t, actor, r) && r.CreateRole? && r.name == role then Parsed(r.keys)
      else if Rightful(t, actor, r) && r.UpdateRole? && r.name == role && r.newKeys.Some? then Parsed(r.newKeys.value)
      else if Rightful(t, actor, r) && r == DeleteRole(role) then {}
      else RolePermissions(t.grants, role)
  {
    AllowedExactly(t, actor, r);
    match r
    case CreateRole(name, keys) => GrantsOf(t.grants, name, Parsed(keys), role);
    case UpdateRole(name, keys) => if keys.Some? { GrantsOf(t.grants, name, Parsed(keys.value), role); }
    case DeleteRole(name) => GrantsOf(t.grants, name, {}, role);
    case UpdateUser(_, _) =>
  }

  // ----- over runs -----

  /** A group of admins of whom nobody may manage roles changes no role, and one of whom nobody may manage users moves
      no user and ends no session, however they cooperate. */
  lemma {:induction false} OnlyManagersManage(t: Tables, actions: seq<Action>, group: set<UserId>)
    requires Sound(t) && forall a <- actions :: a.actor in group
    ensures !HeldAmong(t, group, AdminRolesManage) || !HeldAmong(t, group, AdminAccess) ==>
      ApplyAll(t, actions).roles == t.roles && ApplyAll(t, actions).grants == t.grants
    ensures !HeldAmong(t, group, AdminUsersManage) || !HeldAmong(t, group, AdminAccess) ==>
      ApplyAll(t, actions).users == t.users && ApplyAll(t, actions).sessions == t.sessions
    decreases |actions|
  {
    if actions != [] {
      var init, last := actions[..|actions| - 1], actions[|actions| - 1];
      var before := ApplyAll(t, init);
      assert last in actions;
      assert forall a <- init :: a in actions;
      OnlyManagersManage(t, init, group);
      NoLockout(t, init);
      AllowedExactly(before, last.actor, last.request);
      if Rightful(before, last.actor, last.request) {
        NoEscalation(t, init, group, last.actor, AdminAccess);
        NoEscalation(t, init, group, last.actor, Needed(last.request));
        assert HeldAmong(t, group, AdminAccess) && HeldAmong(t, group, Needed(last.request));
      }
    }
  }
}
