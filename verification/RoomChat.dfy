/** The chat of a room: a bounded history of messages with room-scoped ids, quotes by id, and reaction toggling. */
module RoomChat {
  import opened Identifiers

  const CHAT_HISTORY_CAPACITY: nat := 500
  const MAX_CHAT_MESSAGE_REACTIONS: nat := 20

  type MessageId = nat

  datatype Reaction = Reaction(emoji: string, participants: seq<ParticipantId>)

  datatype Message = Message(id: MessageId, sender: ParticipantId, text: string, reactions: seq<Reaction>)

  datatype Chat = Chat(lastId: MessageId, history: seq<Message>)

  const EMPTY := Chat(0, [])

  /** The first index whose element satisfies `p`, as `position` and `find` search. */
  function Position<T>(s: seq<T>, p: T -> bool): (r: Option<nat>)
    ensures r.Some? ==> r.value < |s| && p(s[r.value]) && forall k | 0 <= k < r.value :: !p(s[k])
    ensures r.None? ==> forall k | 0 <= k < |s| :: !p(s[k])
    decreases |s|
  {
    if s == [] then None
    else
      match Position(s[..|s| - 1], p)
      case Some(k) => Some(k)
      case None => if p(s[|s| - 1]) then Some(|s| - 1) else None
  }

  // ----- reactions -----

  function Without<T>(s: seq<T>, k: nat): seq<T>
    requires k < |s|
  {
    s[..k] + s[k + 1..]
  }

  /** The participant's toggle among those who reacted with one emoji. */
  function ToggledIn(ids: seq<ParticipantId>, participant: ParticipantId): seq<ParticipantId> {
    match Position(ids, id => id == participant)
    case Some(j) => Without(ids, j)
    case None => ids + [participant]
  }

  /** `toggle_chat_reaction` on the reactions of one message; `None` when nothing changes. */
  function Toggled(reactions: seq<Reaction>, participant: ParticipantId, emoji: string): Option<seq<Reaction>> {
    match Position(reactions, (r: Reaction) => r.emoji == emoji)
    case Some(k) =>
      var ids := ToggledIn(reactions[k].participants, participant);
      if ids == [] then Some(Without(reactions, k))
      else Some(reactions[k := Reaction(reactions[k].emoji, ids)])
    case None =>
      if |reactions| < MAX_CHAT_MESSAGE_REACTIONS then Some(reactions + [Reaction(emoji, [participant])]) else None
  }

  ghost predicate Distinct(ids: seq<ParticipantId>) {
    forall i, j | 0 <= i < j < |ids| :: ids[i] != ids[j]
  }

  ghost predicate DistinctEmoji(reactions: seq<Reaction>) {
    forall i, j | 0 <= i < j < |reactions| :: reactions[i].emoji != reactions[j].emoji
  }

  ghost predicate Peopled(r: Reaction) {
    r.participants != [] && Distinct(r.participants)
  }

  /** At most 20 different emoji, and under each there are people, each once. */
  ghost predicate Tidy(reactions: seq<Reaction>) {
    && |reactions| <= MAX_CHAT_MESSAGE_REACTIONS
    && DistinctEmoji(reactions)
    && forall i | 0 <= i < |reactions| :: Peopled(reactions[i])
  }

  /** The relation that reactions stand for. */
  ghost predicate Reacted(reactions: seq<Reaction>, emoji: string, participant: ParticipantId) {
    exists k :: 0 <= k < |reactions| && reactions[k].emoji == emoji && participant in reactions[k].participants
  }

  lemma WithoutHasTheRest<T>(s: seq<T>, k: nat, x: T)
    requires k < |s| && forall i | 0 <= i < |s| && i != k :: s[i] != s[k]
    ensures x in Without(s, k) <==> x in s && x != s[k]
  {
    var rest := Without(s, k);
    if x in s && x != s[k] {
      var i :| 0 <= i < |s| && s[i] == x;
      assert rest[if i < k then i else i - 1] == x;
    }
    if x in rest {
      var i :| 0 <= i < |rest| && rest[i] == x;
      assert s[if i < k then i else i + 1] == x;
    }
  }

  lemma WithoutStaysDistinct(ids: seq<ParticipantId>, k: nat)
    requires k < |ids| && Distinct(ids)
    ensures Distinct(Without(ids, k))
  {}

  lemma ToggledInFlips(ids: seq<ParticipantId>, participant: ParticipantId, other: ParticipantId)
    requires Distinct(ids)
    ensures Distinct(ToggledIn(ids, participant))
    ensures other in ToggledIn(ids, participant) <==> (other in ids) != (other == participant)
  {
    match Position(ids, id => id == participant)
    case Some(j) =>
      WithoutHasTheRest(ids, j, other);
      WithoutStaysDistinct(ids, j);
    case None =>
  }

  /** With distinct emoji, what an emoji's position holds is the whole relation for that emoji. */
  lemma ReactedAt(reactions: seq<Reaction>, k: nat, participant: ParticipantId)
    requires DistinctEmoji(reactions) && k < |reactions|
    ensures Reacted(reactions, reactions[k].emoji, participant) <==> participant in reactions[k].participants
  {}

  lemma ReplacingFlips(reactions: seq<Reaction>, k: nat, ids: seq<ParticipantId>, e: string, p: ParticipantId)
    requires Tidy(reactions) && k < |reactions| && ids != [] && Distinct(ids)
    ensures var after := reactions[k := Reaction(reactions[k].emoji, ids)];
      Tidy(after) && (Reacted(after, e, p) <==> if e == reactions[k].emoji then p in ids else Reacted(reactions, e, p))
  {
    var after := reactions[k := Reaction(reactions[k].emoji, ids)];
    assert forall i | 0 <= i < |reactions| :: after[i].emoji == reactions[i].emoji;
    assert DistinctEmoji(after);
    if e == reactions[k].emoji {
      ReactedAt(after, k, p);
    } else {
      if i :| 0 <= i < |after| && after[i].emoji == e && p in after[i].participants {
        assert reactions[i] == after[i];
      }
      if i :| 0 <= i < |reactions| && reactions[i].emoji == e && p in reactions[i].participants {
        assert reactions[i] == after[i];
      }
    }
  }

  lemma RemovingStaysTidy(reactions: seq<Reaction>, k: nat)
    requires Tidy(reactions) && k < |reactions|
    ensures Tidy(Without(reactions, k))
  {
    var after := Without(reactions, k);
    forall i | 0 <= i < |after| ensures Peopled(after[i]) {
      assert Peopled(reactions[if i < k then i else i + 1]);
    }
    forall i, j | 0 <= i < j < |after| ensures after[i].emoji != after[j].emoji {
      assert reactions[if i < k then i else i + 1].emoji != reactions[if j < k then j else j + 1].emoji;
    }
  }

  lemma RemovingFlips(reactions: seq<Reaction>, k: nat, e: string, p: ParticipantId)
    requires Tidy(reactions) && k < |reactions|
    ensures Reacted(Without(reactions, k), e, p) <==> e != reactions[k].emoji && Reacted(reactions, e, p)
  {
    var after := Without(reactions, k);
    if i :| 0 <= i < |after| && after[i].emoji == e && p in after[i].participants {
      assert reactions[if i < k then i else i + 1] == after[i];
    }
    if e != reactions[k].emoji {
      if i :| 0 <= i < |reactions| && reactions[i].emoji == e && p in reactions[i].participants {
        assert after[if i < k then i else i - 1] == reactions[i];
      }
    }
  }

  lemma AppendingFlips(reactions: seq<Reaction>, emoji: string, participant: ParticipantId, e: string, p: ParticipantId)
    requires Tidy(reactions) && |reactions| < MAX_CHAT_MESSAGE_REACTIONS
    requires forall k | 0 <= k < |reactions| :: reactions[k].emoji != emoji
    ensures var after := reactions + [Reaction(emoji, [participant])];
      Tidy(after) && (Reacted(after, e, p) <==> Reacted(reactions, e, p) || (e == emoji && p == participant))
    ensures !Reacted(reactions, emoji, p)
  {
    var after := reactions + [Reaction(emoji, [participant])];
    assert after[|reactions|] == Reaction(emoji, [participant]);
    if i :| 0 <= i < |reactions| && reactions[i].emoji == e && p in reactions[i].participants {
      assert after[i] == reactions[i];
    }
  }

  /** A toggle that changes anything flips exactly one pair of emoji and participant and leaves the reactions tidy. */
  lemma ToggleFlipsOnePair(reactions: seq<Reaction>, participant: ParticipantId, emoji: string, e: string,
                           p: ParticipantId)
    requires Tidy(reactions) && Toggled(reactions, participant, emoji).Some?
    ensures Tidy(Toggled(reactions, participant, emoji).value)
    ensures Reacted(Toggled(reactions, participant, emoji).value, e, p) <==>
      (Reacted(reactions, e, p) != (e == emoji && p == participant))
  {
    match Position(reactions, (r: Reaction) => r.emoji == emoji)
    case Some(k) =>
      var ids := reactions[k].participants;
      assert Peopled(reactions[k]);
      ToggledInFlips(ids, participant, p);
      ReactedAt(reactions, k, p);
      if ToggledIn(ids, participant) == [] {
        RemovingStaysTidy(reactions, k);
        RemovingFlips(reactions, k, e, p);
      } else {
        ReplacingFlips(reactions, k, ToggledIn(ids, participant), e, p);
      }
    case None =>
      AppendingFlips(reactions, emoji, participant, e, p);
  }

  /** It changes nothing exactly when the emoji would be the twenty-first. */
  lemma ToggleRefusesExactly(reactions: seq<Reaction>, participant: ParticipantId, emoji: string)
    requires Tidy(reactions)
    ensures Toggled(reactions, participant, emoji).None? <==>
      |reactions| == MAX_CHAT_MESSAGE_REACTIONS && forall p :: !Reacted(reactions, emoji, p)
  {
    match Position(reactions, (r: Reaction) => r.emoji == emoji)
    case Some(k) =>
      assert Peopled(reactions[k]);
      assert Reacted(reactions, emoji, reactions[k].participants[0]);
    case None =>
  }

  /** Toggling twice always succeeds the second time and restores the relation. */
  lemma TogglingTwiceRestores(reactions: seq<Reaction>, participant: ParticipantId, emoji: string, e: string,
                              p: ParticipantId)
    requires Tidy(reactions) && Toggled(reactions, participant, emoji).Some?
    ensures var once := Toggled(reactions, participant, emoji).value;
      Toggled(once, participant, emoji).Some?
      && (Reacted(Toggled(once, participant, emoji).value, e, p) <==> Reacted(reactions, e, p))
  {
    var once := Toggled(reactions, participant, emoji).value;
    ToggleFlipsOnePair(reactions, participant, emoji, e, p);
    ToggleFlipsOnePair(reactions, participant, emoji, emoji, participant);
    ToggleRefusesExactly(once, participant, emoji);
    if Toggled(once, participant, emoji).None? {
      assert !Reacted(once, emoji, participant);
      GoneMeansRoom(reactions, participant, emoji);
    }
    ToggleFlipsOnePair(once, participant, emoji, e, p);
  }

  /** A toggle after which nobody has the emoji took it away, so there is room for it again. */
  lemma GoneMeansRoom(reactions: seq<Reaction>, participant: ParticipantId, emoji: string)
    requires Tidy(reactions) && Toggled(reactions, participant, emoji).Some?
    ensures var once := Toggled(reactions, participant, emoji).value;
      |once| < MAX_CHAT_MESSAGE_REACTIONS || exists p :: Reacted(once, emoji, p)
  {
    var once := Toggled(reactions, participant, emoji).value;
    match Position(reactions, (r: Reaction) => r.emoji == emoji)
    case Some(k) =>
      var ids := ToggledIn(reactions[k].participants, participant);
      if ids != [] {
        assert once[k].emoji == emoji && ids[0] in once[k].participants;
        assert Reacted(once, emoji, ids[0]);
      }
    case None =>
      assert once[|reactions|].emoji == emoji && participant in once[|reactions|].participants;
      assert Reacted(once, emoji, participant);
  }

  // ----- the history -----

  /** The message gets the next id; when the history is full its oldest message goes. */
  function Recorded(c: Chat, sender: ParticipantId, text: string): Chat {
    var kept := if |c.history| == CHAT_HISTORY_CAPACITY then c.history[1..] else c.history;
    Chat(c.lastId + 1, kept + [Message(c.lastId + 1, sender, text, [])])
  }

  function Find(history: seq<Message>, id: MessageId): Option<nat> {
    Position(history, (m: Message) => m.id == id)
  }

  function Reacting(c: Chat, id: MessageId, participant: ParticipantId, emoji: string): Chat {
    match Find(c.history, id)
    case None => c
    case Some(k) =>
      match Toggled(c.history[k].reactions, participant, emoji)
      case None => c
      case Some(reactions) => c.(history := c.history[k := c.history[k].(reactions := reactions)])
  }

  datatype Event =
    | Posted(sender: ParticipantId, text: string)
    | ReactedTo(id: MessageId, participant: ParticipantId, emoji: string)

  function Step(c: Chat, e: Event): Chat {
    match e
    case Posted(sender, text) => Recorded(c, sender, text)
    case ReactedTo(id, participant, emoji) => Reacting(c, id, participant, emoji)
  }

  function After(events: seq<Event>): Chat
    decreases |events|
  {
    if events == [] then EMPTY else Step(After(events[..|events| - 1]), events[|events| - 1])
  }

  /** Everything ever posted, oldest first. */
  function Posts(events: seq<Event>): seq<Event>
    decreases |events|
  {
    if events == [] then []
    else
      var before, last := Posts(events[..|events| - 1]), events[|events| - 1];
      if last.Posted? then before + [last] else before
  }

  function Oldest(n: nat): nat {
    if n <= CHAT_HISTORY_CAPACITY then 0 else n - CHAT_HISTORY_CAPACITY
  }

  /** The history is the last min(n, 500) of the n posts, with ids in a row, and every message's reactions are tidy. */
  ghost predicate IsTail(c: Chat, posts: seq<Event>) {
    && c.lastId == |posts| && |c.history| == |posts| - Oldest(|posts|)
    && forall k | 0 <= k < |c.history| :: IsPost(c.history[k], posts, Oldest(|posts|) + k)
  }

  ghost predicate IsPost(m: Message, posts: seq<Event>, n: nat) {
    && n < |posts| && posts[n].Posted?
    && m.id == n + 1 && m.sender == posts[n].sender && m.text == posts[n].text && Tidy(m.reactions)
  }

  lemma RecordingKeepsTail(c: Chat, posts: seq<Event>, sender: ParticipantId, text: string)
    requires IsTail(c, posts)
    ensures IsTail(Recorded(c, sender, text), posts + [Posted(sender, text)])
  {
    var more, after := posts + [Posted(sender, text)], Recorded(c, sender, text);
    var dropped := if |c.history| == CHAT_HISTORY_CAPACITY then 1 else 0;
    forall k | 0 <= k < |after.history| ensures IsPost(after.history[k], more, Oldest(|more|) + k) {
      if k < |after.history| - 1 {
        assert after.history[k] == c.history[k + dropped];
        assert IsPost(c.history[k + dropped], posts, Oldest(|posts|) + k + dropped);
      }
    }
  }

  lemma ReactingKeepsTail(c: Chat, posts: seq<Event>, id: MessageId, participant: ParticipantId, emoji: string)
    requires IsTail(c, posts)
    ensures IsTail(Reacting(c, id, participant, emoji), posts)
  {
    if Find(c.history, id).Some? {
      var k := Find(c.history, id).value;
      assert IsPost(c.history[k], posts, Oldest(|posts|) + k);
      if Toggled(c.history[k].reactions, participant, emoji).Some? {
        ToggleFlipsOnePair(c.history[k].reactions, participant, emoji, emoji, participant);
      }
    }
  }

  lemma {:induction false} HistoryIsTail(events: seq<Event>)
    ensures IsTail(After(events), Posts(events))
    decreases |events|
  {
    if events != [] {
      var init, last := events[..|events| - 1], events[|events| - 1];
      HistoryIsTail(init);
      match last
      case Posted(sender, text) => RecordingKeepsTail(After(init), Posts(init), sender, text);
      case ReactedTo(id, participant, emoji) => ReactingKeepsTail(After(init), Posts(init), id, participant, emoji);
    }
  }

  /** After n posts a quote by id finds a message exactly for the last 500 ids, and finds the post of that id. */
  lemma QuotesExactlyRecentIds(events: seq<Event>, id: MessageId)
    ensures var n := |Posts(events)|;
      Find(After(events).history, id).Some? <==> n - CHAT_HISTORY_CAPACITY < id <= n && id > 0
    ensures var found := Find(After(events).history, id);
      found.Some? ==> id > 0 && IsPost(After(events).history[found.value], Posts(events), id - 1)
  {
    HistoryIsTail(events);
    var history, posts := After(events).history, Posts(events);
    var first := Oldest(|posts|);
    if 0 < id && |posts| - CHAT_HISTORY_CAPACITY < id <= |posts| {
      assert IsPost(history[id - 1 - first], posts, first + (id - 1 - first));
    }
    if Find(history, id).Some? {
      var k := Find(history, id).value;
      assert IsPost(history[k], posts, first + k);
    }
  }

  lemma IdsDiffer(events: seq<Event>, j: nat, k: nat)
    requires j < |After(events).history| && k < |After(events).history|
    ensures After(events).history[j].id == After(events).history[k].id <==> j == k
  {
    HistoryIsTail(events);
    var history, posts := After(events).history, Posts(events);
    assert IsPost(history[j], posts, Oldest(|posts|) + j);
    assert IsPost(history[k], posts, Oldest(|posts|) + k);
  }

  function ReactionsAfter(m: Message, participant: ParticipantId, emoji: string): seq<Reaction> {
    match Toggled(m.reactions, participant, emoji)
    case Some(reactions) => reactions
    case None => m.reactions
  }

  /** A reaction changes the reactions of the one message with the id, if it is still there, and nothing else. */
  lemma ReactionTouchesOneMessage(events: seq<Event>, id: MessageId, participant: ParticipantId, emoji: string, k: nat)
    requires k < |After(events).history|
    ensures var before, after := After(events), Reacting(After(events), id, participant, emoji);
      && |after.history| == |before.history| && after.lastId == before.lastId
      && after.history[k] ==
           if before.history[k].id != id then before.history[k]
           else before.history[k].(reactions := ReactionsAfter(before.history[k], participant, emoji))
  {
    if Find(After(events).history, id).Some? {
      IdsDiffer(events, Find(After(events).history, id).value, k);
    }
  }

  // ----- what a message's reactions are -----

  /** The reactions to post `id` by the events that concern it: those that toggle a reaction to it once it is there. */
  function ReactionsTo(events: seq<Event>, id: MessageId): seq<Reaction>
    decreases |events|
  {
    if events == [] then []
    else
      var init, last := events[..|events| - 1], events[|events| - 1];
      var before := ReactionsTo(init, id);
      if last.ReactedTo? && last.id == id && id <= |Posts(init)| then
        match Toggled(before, last.participant, last.emoji)
        case Some(reactions) => reactions
        case None => before
      else before
  }

  lemma {:induction false} NotPostedHasNone(events: seq<Event>, id: MessageId)
    requires id > |Posts(events)|
    ensures ReactionsTo(events, id) == []
    decreases |events|
  {
    if events != [] { NotPostedHasNone(events[..|events| - 1], id); }
  }

  /** The messages that stay when another is posted are as they were. */
  lemma PostingKeepsMessages(c: Chat, sender: ParticipantId, text: string)
    requires |c.history| <= CHAT_HISTORY_CAPACITY
    ensures var history := Recorded(c, sender, text).history;
      && |history| == (if |c.history| < CHAT_HISTORY_CAPACITY then |c.history| + 1 else CHAT_HISTORY_CAPACITY)
      && history[..|history| - 1] == c.history[|c.history| + 1 - |history|..]
  {}

  /** Every message in the history has exactly the reactions that the events since its posting gave it: neither other
      messages nor the drop of the oldest touch them. */
  lemma {:induction false} HistoryHasItsReactions(events: seq<Event>, k: nat)
    requires k < |After(events).history|
    ensures After(events).history[k].reactions == ReactionsTo(events, After(events).history[k].id)
    decreases |events|
  {
    var init, last := events[..|events| - 1], events[|events| - 1];
    var before, after := After(init), After(events);
    HistoryIsTail(init);
    HistoryIsTail(events);
    var first := Oldest(|Posts(events)|);
    assert IsPost(after.history[k], Posts(events), first + k);
    match last
    case Posted(sender, text) =>
      PostingKeepsMessages(before, sender, text);
      if k < |after.history| - 1 {
        var j := k + |before.history| + 1 - |after.history|;
        assert after.history[k] == after.history[..|after.history| - 1][k] == before.history[j];
        HistoryHasItsReactions(init, j);
      } else {
        NotPostedHasNone(init, after.history[k].id);
      }
    case ReactedTo(id, participant, emoji) =>
      HistoryHasItsReactions(init, k);
      ReactionTouchesOneMessage(init, id, participant, emoji, k);
  }

  // ----- the order of reactions -----

  /** The reactions with other emoji, in order. */
  function Others(reactions: seq<Reaction>, emoji: string): seq<Reaction>
    decreases |reactions|
  {
    if reactions == [] then []
    else
      var rest, last := Others(reactions[..|reactions| - 1], emoji), reactions[|reactions| - 1];
      if last.emoji == emoji then rest else rest + [last]
  }

  lemma {:induction false} OthersOfConcat(a: seq<Reaction>, b: seq<Reaction>, emoji: string)
    ensures Others(a + b, emoji) == Others(a, emoji) + Others(b, emoji)
    decreases |b|
  {
    if b == [] {
      assert a + b == a;
    } else {
      assert (a + b)[..|a + b| - 1] == a + b[..|b| - 1];
      OthersOfConcat(a, b[..|b| - 1], emoji);
    }
  }

  lemma OthersAround(before: seq<Reaction>, middle: seq<Reaction>, after: seq<Reaction>, emoji: string)
    requires middle == [] || (|middle| == 1 && middle[0].emoji == emoji)
    ensures Others(before + middle + after, emoji) == Others(before, emoji) + Others(after, emoji)
  {
    OthersOfConcat(before + middle, after, emoji);
    OthersOfConcat(before, middle, emoji);
    assert middle != [] ==> middle[..0] == [];
  }

  /** The reaction at `k` gives way to `middle`, which is nothing or a reaction with the same emoji. */
  lemma OthersWhenReplaced(reactions: seq<Reaction>, k: nat, middle: seq<Reaction>)
    requires k < |reactions| && (middle == [] || (|middle| == 1 && middle[0].emoji == reactions[k].emoji))
    ensures Others(reactions[..k] + middle + reactions[k + 1..], reactions[k].emoji) ==
      Others(reactions, reactions[k].emoji)
  {
    assert reactions == reactions[..k] + [reactions[k]] + reactions[k + 1..];
    OthersAround(reactions[..k], [reactions[k]], reactions[k + 1..], reactions[k].emoji);
    OthersAround(reactions[..k], middle, reactions[k + 1..], reactions[k].emoji);
  }

  /** A toggle leaves the reactions with other emoji as they are and in order. */
  lemma TogglingKeepsOthers(reactions: seq<Reaction>, participant: ParticipantId, emoji: string)
    requires Toggled(reactions, participant, emoji).Some?
    ensures Others(Toggled(reactions, participant, emoji).value, emoji) == Others(reactions, emoji)
  {
    var after := Toggled(reactions, participant, emoji).value;
    match Position(reactions, (r: Reaction) => r.emoji == emoji)
    case Some(k) =>
      var ids := ToggledIn(reactions[k].participants, participant);
      var middle := if ids == [] then [] else [Reaction(emoji, ids)];
      OthersWhenReplaced(reactions, k, middle);
      assert after == reactions[..k] + middle + reactions[k + 1..];
    case None =>
      OthersOfConcat(reactions, [Reaction(emoji, [participant])], emoji);
      assert [Reaction(emoji, [participant])][..0] == [];
  }

  /** A reaction with a new emoji comes last, and one more participant comes last under the emoji; the others keep their
      order. */
  lemma TogglingKeepsOrder(reactions: seq<Reaction>, participant: ParticipantId, emoji: string, k: nat)
    requires Toggled(reactions, participant, emoji).Some? && k < |reactions|
    ensures var after := Toggled(reactions, participant, emoji).value;
      && (|after| > |reactions| ==> after == reactions + [Reaction(emoji, [participant])])
      && (|after| == |reactions| ==> after[k].emoji == reactions[k].emoji)
      && (|after| == |reactions| ==>
            after[k] == reactions[k]
            || GrowsOrShrinksBy(reactions[k].participants, after[k].participants, participant))
  {
    match Position(reactions, (r: Reaction) => r.emoji == emoji)
    case Some(j) => TogglingIn(reactions[j].participants, participant);
    case None =>
  }

  /** The participant is appended, or taken out from among the others. */
  ghost predicate GrowsOrShrinksBy(before: seq<ParticipantId>, after: seq<ParticipantId>, participant: ParticipantId) {
    || (participant !in before && after == before + [participant])
    || exists j :: 0 <= j < |before| && before[j] == participant && after == before[..j] + before[j + 1..]
  }

  lemma TogglingIn(ids: seq<ParticipantId>, participant: ParticipantId)
    ensures GrowsOrShrinksBy(ids, ToggledIn(ids, participant), participant)
  {
    match Position(ids, id => id == participant)
    case Some(j) => assert ids[j] == participant && ToggledIn(ids, participant) == ids[..j] + ids[j + 1..];
    case None =>
  }

  // ----- the room's chat state -----

  class ChatRoom {
    var lastChatMessageId: MessageId
    var chatHistory: seq<Message>
    ghost var events: seq<Event>

    ghost predicate Valid()
      reads this
    {
      Chat(lastChatMessageId, chatHistory) == After(events)
    }

    constructor ()
      ensures Valid() && events == []
    {
      lastChatMessageId, chatHistory, events := 0, [], [];
    }

    method RecordChatMessage(sender: ParticipantId, text: string) returns (recorded: Message)
      requires Valid()
      modifies this
      ensures Valid() && events == old(events) + [Posted(sender, text)]
      ensures recorded == Message(old(lastChatMessageId) + 1, sender, text, [])
        && chatHistory[|chatHistory| - 1..] == [recorded]
    {
      lastChatMessageId := lastChatMessageId + 1;
      recorded := Message(lastChatMessageId, sender, text, []);
      if |chatHistory| == CHAT_HISTORY_CAPACITY {
        chatHistory := chatHistory[1..];
      }
      chatHistory := chatHistory + [recorded];
      events := events + [Posted(sender, text)];
      assert events[..|events| - 1] == old(events);
    }

    /** The quoted message; shortening its text to an excerpt is not modelled. */
    method ChatReplyPreview(id: MessageId) returns (quoted: Option<Message>)
      requires Valid()
      ensures quoted.Some? <==> |Posts(events)| - CHAT_HISTORY_CAPACITY < id <= |Posts(events)| && id > 0
      ensures quoted.Some? ==> IsPost(quoted.value, Posts(events), id - 1)
    {
      QuotesExactlyRecentIds(events, id);
      var k := Find(chatHistory, id);
      quoted := if k.Some? then Some(chatHistory[k.value]) else None;
    }

    method ToggleChatReaction(id: MessageId, participant: ParticipantId, emoji: string)
      returns (reactions: Option<seq<Reaction>>)
      requires Valid()
      modifies this
      ensures Valid() && events == old(events) + [ReactedTo(id, participant, emoji)]
      ensures reactions == match Find(old(chatHistory), id)
                           case None => None
                           case Some(k) => Toggled(old(chatHistory)[k].reactions, participant, emoji)
    {
      events := events + [ReactedTo(id, participant, emoji)];
      assert events[..|events| - 1] == old(events);
      var found := Find(chatHistory, id);
      if found.None? {
        return None;
      }
      var message := chatHistory[found.value];
      var list := message.reactions;
      var index := Position(list, (r: Reaction) => r.emoji == emoji);
      if index.Some? {
        var ids := list[index.value].participants;
        var reactor := Position(ids, id => id == participant);
        if reactor.Some? {
          ids := Without(ids, reactor.value);
          list := if ids == [] then Without(list, index.value)
                  else list[index.value := Reaction(list[index.value].emoji, ids)];
        } else {
          list := list[index.value := Reaction(list[index.value].emoji, ids + [participant])];
        }
      } else if |list| < MAX_CHAT_MESSAGE_REACTIONS {
        list := list + [Reaction(emoji, [participant])];
      } else {
        return None;
      }
      chatHistory := chatHistory[found.value := message.(reactions := list)];
      return Some(list);
    }
  }
}
