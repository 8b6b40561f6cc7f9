/** A room of the media server: who is in it, which screen shares belong to whom, and the two access markers
    (revocation flag, denied users) that are shared with the repository. */
module SfuRoom {
  import opened Identifiers

  /** `presenter` is set for a screen share and names the connection that started it. */
  datatype Participant = Participant(user: Option<UserId>, presenter: Option<ParticipantId>)

  type Participants = map<ParticipantId, Participant>

  /** The value of a room object; the protocol model works on these. */
  datatype RoomView = RoomView(id: RoomId, participants: Participants, revoked: bool, denied: set<UserId>)

  /** What a screen share needs to be admitted: its presenter is here, signed in as the same user. */
  predicate PresenterPresent(participants: Participants, user: Option<UserId>, presenter: ParticipantId) {
    && presenter in participants
    && participants[presenter].presenter.None?
    && participants[presenter].user == user
  }

  ghost predicate SharesAttached(participants: Participants) {
    forall share | share in participants && participants[share].presenter.Some? ::
      PresenterPresent(participants, participants[share].user, participants[share].presenter.value)
  }

  function WithoutUser(participants: Participants, user: UserId): Participants {
    map p | p in participants && participants[p].user != Some(user) :: participants[p]
  }

  function WithoutSocket(participants: Participants, socket: ParticipantId): Participants {
    map p | p in participants && p != socket && participants[p].presenter != Some(socket) :: participants[p]
  }

  predicate ShouldForward(participants: Participants, sender: ParticipantId, receiver: ParticipantId) {
    && sender != receiver
    && (receiver in participants ==> participants[receiver].presenter.None?)
    && (sender in participants ==> participants[sender].presenter != Some(receiver))
  }

  function ScreenSharesOf(participants: Participants, owner: ParticipantId): set<ParticipantId> {
    set p | p in participants && participants[p].presenter == Some(owner)
  }

  function Audience(participants: Participants, sender: ParticipantId): set<ParticipantId> {
    set receiver | receiver in participants && ShouldForward(participants, sender, receiver)
  }

  function People(participants: Participants): set<ParticipantId> {
    set p | p in participants && participants[p].presenter.None?
  }

  /** Every removal keeps the shares attached: a presenter's shares go with the presenter, because they
      carry the presenter's user. */
  lemma RemovalsKeepSharesAttached(participants: Participants, user: UserId, socket: ParticipantId)
    requires SharesAttached(participants)
    ensures SharesAttached(WithoutUser(participants, user))
    ensures SharesAttached(WithoutSocket(participants, socket))
  {}

  lemma JoinKeepsSharesAttached(participants: Participants, p: ParticipantId, joining: Participant)
    requires SharesAttached(participants) && p !in participants
    requires joining.presenter.Some? ==> PresenterPresent(participants, joining.user, joining.presenter.value)
    ensures SharesAttached(participants[p := joining])
  {
    var joined := participants[p := joining];
    forall share | share in joined && joined[share].presenter.Some?
      ensures PresenterPresent(joined, joined[share].user, joined[share].presenter.value)
    {
      assert share != p ==>
        PresenterPresent(participants, participants[share].user, participants[share].presenter.value);
    }
  }

  /** With attached shares, a screen reaches every person except its presenter, who is in the room, and a
      person's own media reaches every other person; nothing is ever sent to a share. */
  lemma AudienceIsEveryoneElse(participants: Participants, sender: ParticipantId)
    requires SharesAttached(participants) && sender in participants
    ensures participants[sender].presenter.Some? ==>
      && participants[sender].presenter.value in People(participants)
      && Audience(participants, sender) == People(participants) - {participants[sender].presenter.value}
    ensures participants[sender].presenter.None? ==> Audience(participants, sender) == People(participants) - {sender}
  {}

  /** A room object. The repository shares its markers, which may change while the room's lock is held. */
  class Room {
    const id: RoomId
    /** Position among the rooms the repository ever created; only proofs use it. */
    ghost const serial: nat
    var participants: Participants
    var revoked: bool
    var denied: set<UserId>

    constructor (id: RoomId, ghost serial: nat)
      ensures this.id == id && this.serial == serial
      ensures View() == RoomView(id, map[], false, {})
    {
      this.id := id;
      this.serial := serial;
      participants, revoked, denied := map[], false, {};
    }

    ghost function View(): RoomView
      reads this
    {
      RoomView(id, participants, revoked, denied)
    }

    method AddParticipant(p: ParticipantId, joining: Participant)
      modifies this`participants
      ensures participants == old(participants)[p := joining]
    {
      participants := participants[p := joining];
    }

    method RemoveParticipant(p: ParticipantId)
      modifies this`participants
      ensures participants == old(participants) - {p}
    {
      participants := participants - {p};
    }

    /** The critical section of `cleanup_participant_from_room`: the socket leaves with its screen shares. */
    method CleanUpSocket(socket: ParticipantId) returns (removed: bool, empty: bool)
      modifies this`participants
      ensures removed == (socket in old(participants))
      ensures participants == if removed then WithoutSocket(old(participants), socket) else old(participants)
      ensures forall p :: p in participants <==>
        p in old(participants) && !(removed && (p == socket || old(participants)[p].presenter == Some(socket)))
      ensures forall p <- participants :: participants[p] == old(participants)[p]
      ensures empty == (removed && participants == map[])
      ensures old(SharesAttached(participants)) ==> SharesAttached(participants)
    {
      if socket !in participants {
        return false, false;
      }
      ghost var before := participants;
      RemoveParticipant(socket);
      var shares := ScreenSharesOf(participants, socket);
      ghost var all := shares;
      while shares != {}
        invariant shares <= all
        invariant participants == before - {socket} - (all - shares)
      {
        var share :| share in shares;
        RemoveParticipant(share);
        shares := shares - {share};
      }
      assert participants == WithoutSocket(before, socket);
      removed, empty := true, participants == map[];
    }

    /** The critical section of `disconnect_user_from_sfu_rooms`: every connection of the user leaves, and nobody
        else's. */
    method EvictUser(user: UserId)
      modifies this`participants
      ensures participants == WithoutUser(old(participants), user)
      ensures forall p :: p in participants <==> p in old(participants) && old(participants)[p].user != Some(user)
      ensures forall p <- participants :: participants[p] == old(participants)[p]
      ensures old(SharesAttached(participants)) ==> SharesAttached(participants)
    {
      ghost var before := participants;
      var leaving := set p | p in participants && participants[p].user == Some(user);
      ghost var all := leaving;
      while leaving != {}
        invariant leaving <= all
        invariant participants == before - (all - leaving)
      {
        var p :| p in leaving;
        RemoveParticipant(p);
        leaving := leaving - {p};
      }
      assert participants == WithoutUser(before, user);
    }

    /** The close loop of `revoke_and_close_sfu_rooms`. */
    method Close()
      modifies this`participants
      ensures participants == map[]
    {
      ghost var before := participants;
      var leaving := participants.Keys;
      while leaving != {}
        invariant leaving <= before.Keys
        invariant participants == before - (before.Keys - leaving)
      {
        var p :| p in leaving;
        RemoveParticipant(p);
        leaving := leaving - {p};
      }
      assert participants.Keys == {};
    }
  }
}
