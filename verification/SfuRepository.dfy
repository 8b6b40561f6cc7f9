/** The in-memory room repository. Deleting a room and creating it again under the same id gives a different
    object, and a task may still hold the old one; `Repo` keeps every object ever created. */
module SfuRepository {
  import opened Identifiers
  import opened SfuRoom

  /** `objects` are all room objects in order of creation; `rooms` maps an id to the object it names now. */
  datatype Repo = Repo(objects: seq<RoomView>, rooms: map<RoomId, nat>, revokedIds: set<RoomId>)

  const NO_ROOMS := Repo([], map[], {})

  ghost predicate WellFormed(repo: Repo) {
    && (forall id :: id in repo.rooms ==> repo.rooms[id] < |repo.objects| && repo.objects[repo.rooms[id]].id == id)
    && repo.rooms.Keys !! repo.revokedIds
  }

  predicate CanCreate(repo: Repo, id: RoomId) {
    id !in repo.revokedIds && id !in repo.rooms
  }

  function AfterCreate(repo: Repo, id: RoomId): Repo {
    if CanCreate(repo, id) then
      repo.(objects := repo.objects + [RoomView(id, map[], false, {})], rooms := repo.rooms[id := |repo.objects|])
    else repo
  }

  function Lookup(repo: Repo, id: RoomId): Option<nat> {
    if id in repo.rooms then Some(repo.rooms[id]) else None
  }

  function AfterDelete(repo: Repo, id: RoomId): Repo {
    repo.(rooms := repo.rooms - {id})
  }

  /** One critical section: tombstone the id, unmap it, and flag the object it named. */
  function AfterRevoke(repo: Repo, id: RoomId): Repo {
    var unmapped := AfterDelete(repo, id).(revokedIds := repo.revokedIds + {id});
    if id in repo.rooms && repo.rooms[id] < |repo.objects| then
      var x := repo.rooms[id];
      unmapped.(objects := repo.objects[x := repo.objects[x].(revoked := true)])
    else unmapped
  }

  function MarkDenied(repo: Repo, x: nat, user: UserId): Repo
    requires x < |repo.objects|
  {
    repo.(objects := repo.objects[x := repo.objects[x].(denied := repo.objects[x].denied + {user})])
  }

  function WithParticipants(repo: Repo, x: nat, participants: Participants): Repo
    requires x < |repo.objects|
  {
    repo.(objects := repo.objects[x := repo.objects[x].(participants := participants)])
  }

  /** One more object, with the id mapped to it, is what creating gives. */
  lemma RepoGrows(before: Repo, after: Repo, id: RoomId)
    requires CanCreate(before, id) && after.revokedIds == before.revokedIds
    requires |after.objects| == |before.objects| + 1
      && after.objects[|before.objects|] == RoomView(id, map[], false, {})
    requires forall i | 0 <= i < |before.objects| :: after.objects[i] == before.objects[i]
    requires after.rooms.Keys == before.rooms.Keys + {id}
    requires forall other <- after.rooms ::
      after.rooms[other] == if other == id then |before.objects| else before.rooms[other]
    ensures after == AfterCreate(before, id)
  {
    assert after.objects == before.objects + [RoomView(id, map[], false, {})];
    assert after.rooms == before.rooms[id := |before.objects|];
  }

  /** The HashMap of room entries. An entry's two marker handles are the fields of the room object itself. */
  class InMemoryRoomRepository {
    var rooms: map<RoomId, Room>
    var revokedRoomIds: set<RoomId>
    ghost var created: seq<Room>

    ghost predicate Valid()
      reads this
    {
      && (forall i :: 0 <= i < |created| ==> created[i].serial == i)
      && (forall id :: id in rooms ==>
            && rooms[id].serial < |created|
            && created[rooms[id].serial] == rooms[id]
            && rooms[id].id == id)
      && rooms.Keys !! revokedRoomIds
    }

    ghost function View(): (repo: Repo)
      requires Valid()
      reads this, created
      ensures WellFormed(repo)
    {
      Repo(seq(|created|, i requires 0 <= i < |created| reads this, created => created[i].View()),
           map id | id in rooms :: rooms[id].serial,
           revokedRoomIds)
    }

    constructor ()
      ensures Valid() && View() == NO_ROOMS
    {
      rooms, revokedRoomIds, created := map[], {}, [];
    }

    method CreateRoom(id: RoomId) returns (ok: bool)
      requires Valid()
      modifies this
      ensures Valid()
      ensures ok == CanCreate(old(View()), id)
      ensures View() == AfterCreate(old(View()), id)
    {
      if id in revokedRoomIds || id in rooms {
        return false;
      }
      ghost var before := View();
      var room := new Room(id, |created|);
      rooms := rooms[id := room];
      created := created + [room];
      ok := true;
      RepoGrows(before, View(), id);
    }

    /** Hands out the object itself: whoever holds it keeps it after the id is deleted or reused. */
    method GetRoom(id: RoomId) returns (room: Room?)
      requires Valid()
      ensures room != null <==> id in rooms
      ensures room != null ==> Lookup(View(), id) == Some(room.serial) && created[room.serial] == room
      ensures room == null ==> Lookup(View(), id) == None
    {
      room := if id in rooms then rooms[id] else null;
    }

    method DeleteRoom(id: RoomId)
      requires Valid()
      modifies this`rooms
      ensures Valid()
      ensures View() == AfterDelete(old(View()), id)
    {
      ghost var before := View();
      rooms := rooms - {id};
      assert View().rooms == before.rooms - {id};
    }

    method RevokeRoom(id: RoomId) returns (room: Room?)
      requires Valid()
      modifies this`rooms, this`revokedRoomIds, (if id in rooms then {rooms[id]} else {})`revoked
      ensures Valid()
      ensures View() == AfterRevoke(old(View()), id)
      ensures room == if id in old(rooms) then old(rooms)[id] else null
    {
      ghost var before := View();
      room := if id in rooms then rooms[id] else null;
      rooms, revokedRoomIds := rooms - {id}, revokedRoomIds + {id};
      if room != null {
        room.revoked := true;
      }
      assert View().rooms == before.rooms - {id};
      assert View().objects == AfterRevoke(before, id).objects;
    }

    /** Marks the user on the room's shared denial set without taking the room's lock. */
    method DenyRoomUser(id: RoomId, user: UserId)
      requires Valid()
      modifies (if id in rooms then {rooms[id]} else {})`denied
      ensures Valid()
      ensures View() == if id in rooms then MarkDenied(old(View()), rooms[id].serial, user) else old(View())
    {
      ghost var before := View();
      if id in rooms {
        rooms[id].denied := rooms[id].denied + {user};
        assert View().objects == MarkDenied(before, rooms[id].serial, user).objects;
      } else {
        assert View().objects == before.objects;
      }
    }
  }
}
