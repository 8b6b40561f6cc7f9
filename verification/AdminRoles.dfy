/** Roles, their permissions, and the admin panel's changes to them. Each handler is one atomic step here: a guard
    read from the tables and then its writes. `AdminRaces` says what holds when other requests write in between. */
module AdminRoles {
  import opened Identifiers

  datatype Permission = AppLogin | MeetingsCreate | MessagesSend | AdminAccess | AdminUsersManage | AdminRolesManage

  const ALL: set<Permission> :=
    {AppLogin, MeetingsCreate, MessagesSend, AdminAccess, AdminUsersManage, AdminRolesManage}

  type RoleName = string

  const ADMIN_ROLE: RoleName := "admin"
  const DEFAULT_ROLE: RoleName := "user"

  function Key(p: Permission): string {
    match p
    case AppLogin => "app.login"
    case MeetingsCreate => "meetings.create"
    case MessagesSend => "messages.send"
    case AdminAccess => "admin.access"
    case AdminUsersManage => "admin.users.manage"
    case AdminRolesManage => "admin.roles.manage"
  }

  function FromKey(key: string): Option<Permission> {
    if key == Key(AppLogin) then Some(AppLogin)
    else if key == Key(MeetingsCreate) then Some(MeetingsCreate)
    else if key == Key(MessagesSend) then Some(MessagesSend)
    else if key == Key(AdminAccess) then Some(AdminAccess)
    else if key == Key(AdminUsersManage) then Some(AdminUsersManage)
    else if key == Key(AdminRolesManage) then Some(AdminRolesManage)
    else None
  }

  /** `users`, `roles` with their system flag, `role_permissions`, and the users who hold a refresh token. */
  datatype Tables = Tables(
    users: map<UserId, RoleName>,
    roles: map<RoleName, bool>,
    grants: set<(RoleName, Permission)>,
    sessions: set<UserId>)

  datatype Outcome = Done | Refused(status: nat)

  function RolePermissions(grants: set<(RoleName, Permission)>, role: RoleName): set<Permission> {
    set p | p in ALL && (role, p) in grants
  }

  function Permissions(t: Tables, user: UserId): set<Permission> {
    if user in t.users then RolePermissions(t.grants, t.users[user]) else {}
  }

  lemma AllIsAll(p: Permission)
    ensures p in ALL
  {}

  /** `authorize`. */
  function Authorize(t: Tables, actor: UserId, needed: Permission): Outcome {
    if actor !in t.users then Refused(401)
    else if {AdminAccess, needed} <= Permissions(t, actor) then Done
    else Refused(403)
  }

  /** `validate_permissions`: all keys must be known. */
  predicate KnownKeys(keys: seq<string>) {
    forall k <- keys :: FromKey(k).Some?
  }

  function Parsed(keys: seq<string>): set<Permission> {
    set k | k in keys && FromKey(k).Some? :: FromKey(k).value
  }

  datatype Request =
    | CreateRole(name: RoleName, keys: seq<string>)
    | UpdateRole(name: RoleName, newKeys: Option<seq<string>>)
    | DeleteRole(name: RoleName)
    | UpdateUser(user: UserId, role: RoleName)

  /** The first refusal of a handler's guards, or `Done`. */
  function Guard(t: Tables, actor: UserId, r: Request): Outcome {
    var authorized := Authorize(t, actor, if r.UpdateUser? then AdminUsersManage else AdminRolesManage);
    if authorized != Done then authorized
    else
      var held := Permissions(t, actor);
      match r
      case CreateRole(name, keys) =>
        if !KnownKeys(keys) then Refused(400)
        else if !(Parsed(keys) <= held) then Refused(403)
        else if name in t.roles then Refused(409)
        else Done
      case UpdateRole(name, keys) =>
        if name !in t.roles then Refused(404)
        else if keys.None? then Done
        else if !KnownKeys(keys.value) then Refused(400)
        else if name == ADMIN_ROLE || name == t.users[actor] then Refused(400)
        else if !(Parsed(keys.value) <= held) || !(RolePermissions(t.grants, name) <= held) then Refused(403)
        else Done
      case DeleteRole(name) =>
        if name !in t.roles then Refused(404)
        else if t.roles[name] then Refused(400)
        else if !(RolePermissions(t.grants, name) <= held) then Refused(403)
        else if exists u <- t.users :: t.users[u] == name then Refused(409)
        else Done
      case UpdateUser(user, role) =>
        if user == actor then Refused(400)
        else if user !in t.users then Refused(404)
        else if role !in t.roles then Refused(400)
        else if !(Permissions(t, user) <= held) || !(RolePermissions(t.grants, role) <= held) then Refused(403)
        else Done
  }

  function WithoutGrants(grants: set<(RoleName, Permission)>, role: RoleName): set<(RoleName, Permission)> {
    set g | g in grants && g.0 != role
  }

  function WithGrants(grants: set<(RoleName, Permission)>, role: RoleName, permissions: set<Permission>):
    set<(RoleName, Permission)>
  {
    WithoutGrants(grants, role) + set p | p in permissions :: (role, p)
  }

  /** The writes of a handler. */
  function Effect(t: Tables, r: Request): Tables {
    match r
    case CreateRole(name, keys) =>
      t.(roles := t.roles[name := false], grants := WithGrants(t.grants, name, Parsed(keys)))
    case UpdateRole(name, keys) =>
      if keys.None? then t else t.(grants := WithGrants(t.grants, name, Parsed(keys.value)))
    case DeleteRole(name) =>
      t.(roles := t.roles - {name}, grants := WithoutGrants(t.grants, name))
    case UpdateUser(user, role) =>
      var ends := AppLogin !in RolePermissions(t.grants, role);
      t.(users := t.users[user := role], sessions := if ends then t.sessions - {user} else t.sessions)
  }

  function Apply(t: Tables, actor: UserId, r: Request): Tables {
    if Guard(t, actor, r) == Done then Effect(t, r) else t
  }

  // ----- what holds of the tables -----

  /** Roles referred to exist; the admin role is a system role with every permission. */
  ghost predicate Sound(t: Tables) {
    && (forall u <- t.users :: t.users[u] in t.roles)
    && (forall g <- t.grants :: g.0 in t.roles)
    && ADMIN_ROLE in t.roles && t.roles[ADMIN_ROLE]
    && RolePermissions(t.grants, ADMIN_ROLE) == ALL
  }

  lemma GrantsOf(grants: set<(RoleName, Permission)>, role: RoleName, permissions: set<Permission>, other: RoleName)
    ensures RolePermissions(WithGrants(grants, role, permissions), other) ==
            if other == role then permissions else RolePermissions(grants, other)
    ensures other != role ==> RolePermissions(WithoutGrants(grants, role), other) == RolePermissions(grants, other)
  {
    forall p ensures p in ALL { AllIsAll(p); }
    forall p ensures (other, p) in WithGrants(grants, role, permissions) <==>
        (if other == role then p in permissions else (other, p) in grants)
    {
      if other == role && p in permissions { assert (role, p) in (set q | q in permissions :: (role, q)); }
    }
  }

  lemma ApplyIsSound(t: Tables, actor: UserId, r: Request)
    requires Sound(t)
    ensures Sound(Apply(t, actor, r))
  {
    if Guard(t, actor, r) == Done {
      match r
      case CreateRole(name, keys) => GrantsOf(t.grants, name, Parsed(keys), ADMIN_ROLE);
      case UpdateRole(name, keys) => if keys.Some? { GrantsOf(t.grants, name, Parsed(keys.value), ADMIN_ROLE); }
      case DeleteRole(name) => GrantsOf(t.grants, name, {}, ADMIN_ROLE);
      case UpdateUser(_, _) =>
    }
  }

  // ----- one step: no escalation, and respect for stronger users -----

  /** What a step does to any user's permissions: nothing, or they were all held by the actor and become some held
      by the actor. The actor's own never change. */
  lemma StepIsBounded(t: Tables, actor: UserId, r: Request, u: UserId)
    requires Sound(t)
    ensures Permissions(Apply(t, actor, r), u) <= Permissions(t, u) + Permissions(t, actor)
    ensures Permissions(Apply(t, actor, r), u) != Permissions(t, u) ==>
      u != actor && Permissions(t, u) <= Permissions(t, actor)
  {
    if Guard(t, actor, r) == Done && u in t.users {
      match r
      case CreateRole(name, keys) => GrantsOf(t.grants, name, Parsed(keys), t.users[u]);
      case UpdateRole(name, keys) => if keys.Some? { GrantsOf(t.grants, name, Parsed(keys.value), t.users[u]); }
      case DeleteRole(name) => GrantsOf(t.grants, name, {}, t.users[u]);
      case UpdateUser(_, _) =>
    }
  }

  /** Exactly the permissions asked for arrive: a role updated or created has them, a user updated has the role's. */
  lemma StepDoesWhatWasAsked(t: Tables, actor: UserId, r: Request)
    requires Guard(t, actor, r) == Done
    ensures r.CreateRole? ==> RolePermissions(Apply(t, actor, r).grants, r.name) == Parsed(r.keys)
    ensures r.UpdateRole? && r.newKeys.Some? ==>
      RolePermissions(Apply(t, actor, r).grants, r.name) == Parsed(r.newKeys.value)
    ensures r.UpdateUser? ==> Permissions(Apply(t, actor, r), r.user) == RolePermissions(t.grants, r.role)
    ensures r.UpdateUser? && AppLogin !in Permissions(Apply(t, actor, r), r.user) ==>
      r.user !in Apply(t, actor, r).sessions
  {
    match r
    case CreateRole(name, keys) => GrantsOf(t.grants, name, Parsed(keys), name);
    case UpdateRole(name, keys) => if keys.Some? { GrantsOf(t.grants, name, Parsed(keys.value), name); }
    case _ =>
  }

  ghost predicate SomeoneHoldsAll(t: Tables) {
    exists u :: Permissions(t, u) == ALL
  }

  /** Whoever takes permissions from a user with all of them has all of them too, and keeps them. */
  lemma StepKeepsSomeoneWithAll(t: Tables, actor: UserId, r: Request)
    requires Sound(t) && SomeoneHoldsAll(t)
    ensures SomeoneHoldsAll(Apply(t, actor, r))
  {
    var u :| Permissions(t, u) == ALL;
    StepIsBounded(t, actor, r, u);
    StepIsBounded(t, actor, r, actor);
    if Permissions(Apply(t, actor, r), u) != ALL {
      assert Permissions(t, actor) <= ALL;
      assert Permissions(Apply(t, actor, r), actor) == ALL;
    } else {
      assert Permissions(Apply(t, actor, r), u) == ALL;
    }
  }

  // ----- runs -----

  datatype Action = Action(actor: UserId, request: Request)

  function ApplyAll(t: Tables, actions: seq<Action>): Tables
    decreases |actions|
  {
    if actions == [] then t
    else
      var last := actions[|actions| - 1];
      Apply(ApplyAll(t, actions[..|actions| - 1]), last.actor, last.request)
  }

  /** The panel is never locked out: the admin role keeps everything, and if somebody once holds every permission,
      somebody always does. */
  lemma {:induction false} NoLockout(t: Tables, actions: seq<Action>)
    requires Sound(t)
    ensures Sound(ApplyAll(t, actions))
    ensures SomeoneHoldsAll(t) ==> SomeoneHoldsAll(ApplyAll(t, actions))
    decreases |actions|
  {
    if actions != [] {
      var before, last := ApplyAll(t, actions[..|actions| - 1]), actions[|actions| - 1];
      NoLockout(t, actions[..|actions| - 1]);
      ApplyIsSound(before, last.actor, last.request);
      if SomeoneHoldsAll(t) {
        StepKeepsSomeoneWithAll(before, last.actor, last.request);
      }
    }
  }

  /** What a group of people hold together. */
  ghost predicate HeldAmong(t: Tables, people: set<UserId>, p: Permission) {
    exists a :: a in people && p in Permissions(t, a)
  }

  /** However a group of admins cooperate, nobody ends with a permission that neither they had at the start nor any
      of the group did: in particular a permission that nobody holds is never gained. */
  lemma {:induction false} NoEscalation(t: Tables, actions: seq<Action>, group: set<UserId>, u: UserId, p: Permission)
    requires Sound(t) && forall a <- actions :: a.actor in group
    requires p in Permissions(ApplyAll(t, actions), u)
    ensures p in Permissions(t, u) || HeldAmong(t, group, p)
    decreases |actions|
  {
    if actions != [] {
      var init, last := actions[..|actions| - 1], actions[|actions| - 1];
      var before := ApplyAll(t, init);
      NoLockout(t, init);
      StepIsBounded(before, last.actor, last.request, u);
      assert last in actions;
      assert forall a <- init :: a in actions;
      if p in Permissions(before, u) {
        NoEscalation(t, init, group, u, p);
      } else {
        NoEscalation(t, init, group, last.actor, p);
      }
    }
  }

  /** A group of admins who together hold less than `u` cannot touch `u`, whatever they do. */
  lemma {:induction false} StrongerUsersAreUntouched(t: Tables, actions: seq<Action>, group: set<UserId>, u: UserId,
                                                     p: Permission)
    requires Sound(t) && forall a <- actions :: a.actor in group
    requires p in Permissions(t, u) && !HeldAmong(t, group, p)
    ensures Permissions(ApplyAll(t, actions), u) == Permissions(t, u)
    decreases |actions|
  {
    if actions != [] {
      var init, last := actions[..|actions| - 1], actions[|actions| - 1];
      var before := ApplyAll(t, init);
      assert last in actions;
      assert forall a <- init :: a in actions;
      StrongerUsersAreUntouched(t, init, group, u, p);
      NoLockout(t, init);
      StepIsBounded(before, last.actor, last.request, u);
      if Permissions(Apply(before, last.actor, last.request), u) != Permissions(before, u) {
        NoEscalation(t, init, group, last.actor, p);
      }
    }
  }

  // ----- the handlers on the tables -----

  class RoleTables {
    var users: map<UserId, RoleName>
    var roles: map<RoleName, bool>
    var grants: set<(RoleName, Permission)>
    var sessions: set<UserId>

    ghost function Contents(): Tables
      reads this
    {
      Tables(users, roles, grants, sessions)
    }

    /** Deletes the role's rows, then inserts the new ones. */
    method ReplacePermissions(role: RoleName, permissions: set<Permission>)
      modifies this`grants
      ensures grants == WithGrants(old(grants), role, permissions)
    {
      grants := set g | g in grants && g.0 != role;
      if permissions != {} {
        grants := grants + set p | p in permissions :: (role, p);
      }
    }

    /** The collecting iterator of `validate_permissions`, which stops at the first unknown key. */
    static method ValidatePermissions(keys: seq<string>) returns (permissions: Option<set<Permission>>)
      ensures permissions == if KnownKeys(keys) then Some(Parsed(keys)) else None
    {
      var known: set<Permission> := {};
      for i := 0 to |keys|
        invariant KnownKeys(keys[..i]) && known == Parsed(keys[..i])
      {
        var p := FromKey(keys[i]);
        if p.None? {
          assert keys[i] in keys;
          return None;
        }
        ParsedGrows(keys[..i], keys[i]);
        assert keys[..i + 1] == keys[..i] + [keys[i]];
        known := known + {p.value};
      }
      assert keys[..|keys|] == keys;
      return Some(known);
    }

    method CreateRole(actor: UserId, name: RoleName, keys: seq<string>) returns (outcome: Outcome)
      modifies this`roles, this`grants
      ensures outcome == Guard(old(Contents()), actor, Request.CreateRole(name, keys))
      ensures Contents() == Apply(old(Contents()), actor, Request.CreateRole(name, keys))
    {
      outcome := Authorize(Tables(users, roles, grants, sessions), actor, AdminRolesManage);
      if outcome != Done {
        return;
      }
      var permissions := ValidatePermissions(keys);
      if permissions.None? {
        return Refused(400);
      }
      if !(permissions.value <= RolePermissions(grants, users[actor])) {
        return Refused(403);
      }
      if name in roles {
        return Refused(409);
      }
      roles := roles[name := false];
      ReplacePermissions(name, permissions.value);
    }

    method UpdateRole(actor: UserId, name: RoleName, newKeys: Option<seq<string>>) returns (outcome: Outcome)
      modifies this`grants
      ensures outcome == Guard(old(Contents()), actor, Request.UpdateRole(name, newKeys))
      ensures Contents() == Apply(old(Contents()), actor, Request.UpdateRole(name, newKeys))
    {
      outcome := Authorize(Tables(users, roles, grants, sessions), actor, AdminRolesManage);
      if outcome != Done {
        return;
      }
      if name !in roles {
        return Refused(404);
      }
      if newKeys.Some? {
        var permissions := ValidatePermissions(newKeys.value);
        if permissions.None? || name == ADMIN_ROLE || name == users[actor] {
          return Refused(400);
        }
        var held := RolePermissions(grants, users[actor]);
        if !(permissions.value <= held) || !(RolePermissions(grants, name) <= held) {
          return Refused(403);
        }
        ReplacePermissions(name, permissions.value);
      }
    }

    method DeleteRole(actor: UserId, name: RoleName) returns (outcome: Outcome)
      modifies this`roles, this`grants
      ensures outcome == Guard(old(Contents()), actor, Request.DeleteRole(name))
      ensures Contents() == Apply(old(Contents()), actor, Request.DeleteRole(name))
    {
      outcome := Authorize(Tables(users, roles, grants, sessions), actor, AdminRolesManage);
      if outcome != Done {
        return;
      }
      if name !in roles {
        return Refused(404);
      }
      if roles[name] {
        return Refused(400);
      }
      if !(RolePermissions(grants, name) <= RolePermissions(grants, users[actor])) {
        return Refused(403);
      }
      if exists u <- users :: users[u] == name {
        return Refused(409);
      }
      roles := roles - {name};
      grants := set g | g in grants && g.0 != name;
    }

    method UpdateUser(actor: UserId, user: UserId, role: RoleName) returns (outcome: Outcome)
      modifies this`users, this`sessions
      ensures outcome == Guard(old(Contents()), actor, Request.UpdateUser(user, role))
      ensures Contents() == Apply(old(Contents()), actor, Request.UpdateUser(user, role))
    {
      outcome := Authorize(Tables(users, roles, grants, sessions), actor, AdminUsersManage);
      if outcome != Done {
        return;
      }
      if user == actor {
        return Refused(400);
      }
      if user !in users {
        return Refused(404);
      }
      if role !in roles {
        return Refused(400);
      }
      var held, news := RolePermissions(grants, users[actor]), RolePermissions(grants, role);
      if !(RolePermissions(grants, users[user]) <= held) || !(news <= held) {
        return Refused(403);
      }
      users := users[user := role];
      if AppLogin !in news {
        sessions := sessions - {user};
      }
    }
  }

  lemma ParsedGrows(keys: seq<string>, key: string)
    requires FromKey(key).Some?
    ensures Parsed(keys + [key]) == Parsed(keys) + {FromKey(key).value}
    ensures KnownKeys(keys + [key]) <==> KnownKeys(keys)
  {
    forall p | p in Parsed(keys) ensures p in Parsed(keys + [key]) {
      var k :| k in keys && FromKey(k) == Some(p);
      assert k in keys + [key];
    }
    assert key in keys + [key];
    assert forall k :: k in keys ==> k in keys + [key];
  }
}
