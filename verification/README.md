# Verified models of the meeting server's cores

Dafny models of the parts of the server in which state, concurrency or arithmetic carry real obligations, with proofs
of what they promise. `dafny verify dfyconfig.toml` checks everything.

| file | what it models |
|---|---|
| `CallDirectory.dfy` | conversations, call sessions and tombstones in the database, one transaction per handler |
| `CallAccess.dfy` | who may enter a call over the history of the database |
| `SfuRoom.dfy`, `SfuRepository.dfy` | the room objects of the SFU and the repository that names them |
| `SfuAccess.dfy` | joins, evictions, revocations and cleanups of SFU rooms as interleaved steps over database, repository, room locks and markers |
| `SfuPresence.dfy` | who comes into a room object and who goes, and why, step by step and over runs; names, markers and locks |
| `SfuOrphans.dfy` | room objects that lost their id, and exactly when evictions and revocations reach every object |
| `MeetingRecorder.dfy` | the meeting recorder: two in-memory maps and two tables, with statements that may fail |
| `MeetingFaults.dfy` | what failures can and cannot leave behind in those tables |
| `PacketBuffer.dfy`, `Nack.dfy` | the RTP retransmission ring and the Generic NACK requests that read it |
| `GroupCode.dfy`, `GroupCodeInput.dfy`, `Text.dfy` | base-62 group codes by two algorithms, and the codes users type |
| `Groups.dfy` | group membership, ownership, invitations and friendship policies |
| `GroupRights.dfy` | what each request does to a group exactly, and password groups over runs |
| `AdminRoles.dfy` | roles, permissions and the admin panel's changes, one atomic step each |
| `AdminRights.dfy` | what an admin may do, on what grounds they are refused, and what stays as it was |
| `AdminRaces.dfy` | the same handlers as they interleave: a check now, a write later |
| `RateLimits.dfy` | sliding-window limits on chat and wrong passwords |
| `RoomChat.dfy` | bounded chat history, quotes and reactions |
| `LinkAttributes.dfy` | the HTML attribute scanner and the `<meta` scan of link previews |
| `Paging.dfy` | cursor paging of messages, links and attachments |

Handlers, buffers and loops that the server runs in place are classes and methods here. Each is proved to do what a
function on values says, and the promises are lemmas about those functions and their runs. Rooms, users and
connections are numbers; times are integers. A handler that answers with an error is modelled with its status and with
the rollback of its transaction.

## How the interleaved protocol is modelled

`SfuAccess.State` holds the database, the repository with all room objects ever created, the locks held across steps,
and a program counter per task. A joiner authorizes, checks that the room exists, creates it, gets the object,
authorizes again, waits for the lock, passes the checks with the peer set-up between them, and is added. A remover
marks and evicts a departed user, a revoker flags, unmaps and empties a room of a deleted group, and a cleaner takes a
closed connection out and then deletes the id of an emptied room after it let go of the lock. Any task may take the
next step, and new transactions, tasks and aborted joins may come at any time. A joiner may hold an object whose id has
been deleted and given to another object, which is why claims about eviction speak of the object that an id names now.

## Results that differ from what one might expect

- Eviction does not reach every object of a room. Cleanup lets go of the room's lock before it deletes the id, so an
  occupied object can lose its name, and a later eviction does not find it. An undisturbed eviction is complete exactly
  when no such orphan of the room holds the user as it starts (`SfuOrphans.EvictionReachesAllIff`); the same holds of
  every finished eviction in every reachable state (`SfuOrphans.FinishedEvictionIsCompleteIff`). Any occupied orphan
  can defeat it (`SfuOrphans.AnyOrphanEscapesEviction`), and orphans do come about (`SfuOrphans.EvictionMissesOrphans`).
  If every deletion of the room finds its object free of the user, there are none to miss
  (`SfuOrphans.QuietEvictionIsComplete`). Revocation is defeated in the same way, under the same condition
  (`SfuOrphans.RevocationReachesAllIff`), and complete when the room's deletions find their objects deserted
  (`SfuOrphans.QuietRevocationIsComplete`).
- A failed statement can leave a meeting's session open after its room has emptied. It happens exactly when an insert
  takes effect unseen, when neither the first participant nor the compensation is written, or when the last leave cannot
  write its updates (`MeetingFaults.StraysComeFromFailures`); the room's next join ends it. No failure rewrites what is
  in the tables already (`MeetingFaults.ThePastStays`).
- A sequence number stored twice within 512 packets costs the later packet its place early, because the ring evicts by
  number. `PacketBuffer.GetFindsExactlyKept` gives the exact condition, `PacketBuffer.RepeatedNumberIsEvictedEarly` the
  family of failures.
- The admin handlers check and write without one transaction around both. Escalation is impossible all the same
  (`AdminRaces.RacesDoNotEscalate`), but a lockout is not. A write is fatal when the tables do not stop it, it reaches
  everyone who holds everything (moves them or rewrites their role), and it gives them less. Over every run of
  interleaved checks and writes somebody holds everything throughout exactly when no write is fatal at the moment it
  happens (`AdminRaces.LockoutIsAFatalCommit`). A write whose check would still pass never is
  (`AdminRaces.StillAllowedIsNotFatal`), so re-checking at the write would do. For two requests checked against the same
  tables the condition can be read off at the check (`AdminRaces.TwoWritesLockOutExactly`), but looking at pairs is not
  enough: three admins can demote each other in a circle of which no two lock anybody out (`AdminRaces.CircleLocksOut`).
- Whether a moved user's sessions end is decided by what their new role allows when the request is checked, not when it
  is written (`AdminRaces.SessionsFollowTheCheck`).
- Checking a password and recording its failure are separate calls, so overlapping guesses exceed the limit, by at most
  one less than the guesses in flight together (`RateLimits.GuessesAreBounded`).
- A friends-of-friends group can fall apart when the member between two others leaves
  (`Groups.DepartureCanDisconnect`). A departure keeps it connected exactly when the divides between the leaver's
  friends are bridged by others (`Groups.DepartureStep`), so a leaver with at most one friend in the group never breaks
  it (`Groups.LooseEndsMayGo`).
- The comment in `parse_attributes` says its extra guard keeps malformed tags from looping forever. The loop ends
  without it: the guard's branch is never reached (`LinkAttributes.GuardIsIdle`, `LinkAttributes.ParseAttributes`).

## Model

| member | source | states |
|---|---|---|
| SfuAccess.EvictionIsPermanent | src/social/conversations.rs:1730-1750 | once the eviction of a departed user from a call's room has finished, in every continuation the object that the id names holds no connection of that user, whatever joins, cleanups and re-creations are interleaved |
| SfuAccess.RevocationIsPermanent | src/social/conversations.rs:1752-1775 | once the close loop has ended, in every continuation the id is unmapped and the object it removed is empty |
| SfuAccess.RevokedIdsStayUnmapped | src/sfu/repository.rs:64-111 | from the moment an id is revoked no interleaving maps it again |
| SfuAccess.RunKeepsInv | src/signaling/handler.rs:417-872 | the invariant over program counters, markers, locks, names and objects holds in every reachable state |
| SfuAccess.NextKeepsInv | src/signaling/handler.rs:417-872 | each step of any joiner, remover, revoker, cleaner, transaction or abort keeps the invariant |
| SfuAccess.FinishedTasksStay | src/social/conversations.rs:1730-1775 | a finished eviction or revocation is finished in every continuation |
| SfuAccess.RoomsAreOrderly | src/signaling/handler.rs:545-557 | in every reachable state a share's presenter is in the same object, signed in as the same user and no share, and call rooms hold no guests |
| SfuAccess.ConnectionIsInOneRoom | src/signaling/handler.rs:417-460 | a connection is in at most one room object |
| SfuAccess.AdmittedJoinerGetsIn | src/signaling/handler.rs:531-812 | a joiner past the database gets into a free, live room that does not deny its user |
| SfuAccess.PermittedJoinSucceeds | src/signaling/handler.rs:441-812 | an accepted member of a live call, or a visitor whom the host of another room admits, ends up in the room when undisturbed, created if need be |
| SfuPresence.LeavesExactly | src/social/conversations.rs:1730-1775 | in every reachable state a connection leaves its object exactly by a step, in the free object, of its own user's eviction, of its own or its presenter's cleanup, or of the closing of the revoked object; every other step leaves it unchanged |
| SfuPresence.EvictionSparesOthers | src/social/conversations.rs:1739-1749 | an eviction takes no connection of another user or of a guest out of any object |
| SfuPresence.WhoeverLeftMetARemoval | src/signaling/handler.rs:353-384 | over every run a connection is still in its object, unchanged, unless its user's eviction, its own or its presenter's cleanup, or the object's closing has been through |
| SfuPresence.EntersExactly | src/signaling/handler.rs:531-812 | in every reachable state a connection gets into an object exactly by the last step of its own join |
| SfuPresence.InsidersHadAccepted | src/signaling/handler.rs:441-530 | in every reachable state everybody in an object of a call's room is a user who accepted that call |
| SfuPresence.ChecksRefuseExactly | src/signaling/handler.rs:531-812 | inside the lock a join is refused exactly when the flag or the denial is there at either reading, the presenter is missing, or the peer set-up fails |
| SfuPresence.FailureEndsTheJoin | src/signaling/handler.rs:441-530 | a failing query, a host's refusal or a failing peer set-up ends the join, and it keeps no lock |
| SfuPresence.NoLockIsLeftBehind | src/signaling/handler.rs:531-812 | in every reachable state a locked object is held by a joiner inside its checks, and free once that joiner gives up |
| SfuPresence.NamesChangeExactly | src/sfu/repository.rs:64-111 | an id loses its object exactly by a cleanup's deletion or its revocation, and gets a new one exactly by a joiner's creating step |
| SfuPresence.OnlyEmptiedObjectsAreDeleted | src/signaling/handler.rs:367-376 | a cleanup goes on to delete the id exactly when it took its connection out and left the object empty |
| SfuPresence.MarkersChangeExactly | src/sfu/repository.rs:103-128 | an object is flagged exactly by the revocation of the id that names it, a user denied exactly by their own eviction, and neither is taken back |
| SfuOrphans.FinishedEvictionIsCompleteIff | src/social/conversations.rs:1730-1750 | in every reachable state with a finished eviction, the user is in no unflagged object of the room exactly when no orphan of the room holds them |
| SfuOrphans.EvictionReachesAllIff | src/social/conversations.rs:1730-1750 | an eviction that runs undisturbed reaches every unflagged object of the room exactly when no orphan of the room holds the user as it starts |
| SfuOrphans.AnyOrphanEscapesEviction | src/signaling/handler.rs:367-376 | from every reachable state with an orphan that holds a group member, that member may depart and their eviction finish while they stay in it |
| SfuOrphans.EvictionMissesOrphans | src/signaling/handler.rs:367-376 | such a state is reached: a concrete run after whose finished eviction the user is still in a live object of the room that lost its name |
| SfuOrphans.RevocationReachesAllIff | src/social/conversations.rs:1752-1775 | a revocation that runs undisturbed empties every object not flagged before exactly when every orphan of the room is empty as it starts |
| SfuOrphans.AnyOrphanEscapesRevocation | src/social/conversations.rs:1752-1775 | from every reachable state with an orphan of a tombstoned room, a revocation may finish and leave it unflagged with its people |
| SfuOrphans.RevocationMissesOrphans | src/signaling/handler.rs:367-376 | such a state is reached |
| SfuOrphans.QuietRevocationIsComplete | src/social/conversations.rs:1752-1775 | if each deletion of the room unmaps a deserted object, then once the room's revocations have closed, every object the room ever had is empty; deletions of other rooms are no matter |
| SfuOrphans.QuietEvictionIsComplete | src/signaling/handler.rs:353-384 | if each deletion of the room unmaps an object in which the user neither is nor is getting, a finished eviction excludes the user from every unrevoked object of the room; other users and rooms are no matter |
| SfuOrphans.OccupiedRoomLosesItsId | src/signaling/handler.rs:371-376 | a reachable state in which an occupied object is named by no id |
| SfuRepository.InMemoryRoomRepository.CreateRoom | src/sfu/repository.rs:64-87 | creates exactly when the id is neither mapped nor revoked, and adds one new unmarked object under it |
| SfuRepository.InMemoryRoomRepository.GetRoom | src/sfu/repository.rs:89-95 | hands out the very object that the id names, or nothing when it names none |
| SfuRepository.InMemoryRoomRepository.DeleteRoom | src/sfu/repository.rs:97-101 | unmaps the id and leaves every object, name and tombstone else as it was |
| SfuRepository.InMemoryRoomRepository.RevokeRoom | src/sfu/repository.rs:103-111 | tombstones and unmaps the id and flags the object it named, which it returns |
| SfuRepository.InMemoryRoomRepository.DenyRoomUser | src/sfu/repository.rs:113-128 | marks the user on the named object only, without its lock; an unmapped id changes nothing |
| SfuRoom.Room.CleanUpSocket | src/signaling/handler.rs:353-384 | takes out the connection with its screen shares and says whether the room is empty |
| SfuRoom.Room.EvictUser | src/social/conversations.rs:1739-1749 | a connection goes exactly when it is the user's, and all others stay as they are |
| SfuRoom.Room.Close | src/social/conversations.rs:1758-1775 | empties the room |
| SfuRoom.RemovalsKeepSharesAttached | src/sfu/room.rs:624-645 | removing a user or a connection with its shares keeps every remaining share attached to its presenter |
| SfuRoom.JoinKeepsSharesAttached | src/signaling/handler.rs:545-557 | adding a connection that passed the presenter check keeps shares attached |
| SfuRoom.AudienceIsEveryoneElse | src/sfu/room.rs:624-645 | a screen reaches every person but its presenter, and no media ever reaches a share |
| CallDirectory.RunsAreConsistent | src/social/call_sessions.rs:122-227 | over every run of transactions: issued rooms are call rooms or tombstoned, sessions belong to conversations, evicted users stay declined, and one call per conversation is active |
| CallDirectory.IssuedRoomsAreNeverLegacy | src/social/call_sessions.rs:592-607 | a room once given to a call never classifies as legacy in any later state |
| CallDirectory.DepartureIsFinal | src/social/conversations.rs:1693-1728 | leaving or being removed denies the group's existing calls forever, even after rejoining |
| CallDirectory.DeletionIsFinal | src/social/conversations.rs:936-963 | after a group is deleted its calls are denied to everyone in every later state |
| CallDirectory.AtMostOneOpenCall | src/social/call_sessions.rs:139-160 | at most one call of a conversation admits anyone |
| CallDirectory.StartedCallAdmitsItsCaller | src/social/call_sessions.rs:163-192 | a new call admits exactly its caller until others accept |
| CallAccess.AnswersChangeExactly | src/social/call_sessions.rs:437-513 | a call keeps its conversation, initiator, deadline and people; an answer changes exactly by its member's reply to an open call that asked them, to what they say, or to a refusal by their departure |
| CallAccess.AccessGainedExactly | src/social/call_sessions.rs:122-195 | a transaction gives a user access exactly when it is their own acceptance of an open call that asked them or their own start of a call |
| CallAccess.AccessLostExactly | src/social/call_sessions.rs:540-607 | access is lost exactly when the deadline passes, the user departs, the group is deleted, the initiator cancels, or a new call starts once the meeting has ended |
| CallAccess.AccessHasItsOrigin | src/social/call_sessions.rs:437-513 | over every run whoever may enter a call started or accepted it, and could enter ever since |
| CallAccess.DecliningIsFinal | src/social/call_sessions.rs:481-497 | whoever declines a call is denied it in every later state |
| CallAccess.EndedCallsStayEnded | src/social/call_sessions.rs:399-435 | a call that has ended in any way is denied to everyone in every later state |
| CallAccess.CallsLastAnHour | src/social/call_sessions.rs:39-39 | an hour after its start a call admits nobody, whatever happened meanwhile |
| CallAccess.StartedCall | src/social/call_sessions.rs:160-192 | a new call is open for an hour, admits its caller and asks exactly the others in the conversation |
| CallAccess.MembershipChangesExactly | src/social/conversations.rs:603-890 | who belongs to a conversation changes exactly by its creation, additions, departures and deletion |
| CallDirectory.CallTables.StartCallSession | src/social/call_sessions.rs:122-195 | expires, checks, inserts or rolls back, exactly as the transaction does |
| CallDirectory.CallTables.RespondToCallSession | src/social/call_sessions.rs:437-513 | a pending member of an active, unexpired call answers, and nobody else; the answer kept is theirs, all other answers stay, and only acceptance reveals the room |
| CallDirectory.CallTables.CancelCallSession | src/social/call_sessions.rs:399-435 | only the initiator cancels an active call, and only while nobody else is in its meeting |
| CallDirectory.CallTables.RevokeGroupCallMemberships | src/social/conversations.rs:1693-1728 | returns exactly the group's call rooms and makes the departed user's answers refusals |
| MeetingRecorder.FaultsNeverPutOutOfStep | src/social/meetings.rs:180-297 | whatever statements fail or lose their reply, after every event the maps are inverse, no live room is empty, its session is the one open session of the room, and live participants have open rows |
| MeetingRecorder.TablesAreOccupiedPeriods | src/social/meetings.rs:180-297 | when nothing fails the sessions are exactly the maximal stretches in which a room is occupied, in order, with their times |
| MeetingRecorder.SessionsOfARoomAreDisjoint | src/social/meetings.rs:180-297 | sessions of a room do not overlap |
| MeetingRecorder.RowsMatchOccupancy | src/social/meetings.rs:212-297 | every row lies inside its session, and a row is open exactly when its connection is in a room, whose open session it is in |
| MeetingRecorder.OpenRowsAreOccupants | src/social/meetings.rs:212-297 | a connection is in a room exactly when it has an open row, and then it has exactly one, in the open session of that room |
| MeetingRecorder.ApplyKeepsInStep | src/social/meetings.rs:180-297 | one join or leave with any outcome of its statements keeps maps and tables in step |
| MeetingFaults.FailedJoinLeavesNothingOpen | src/social/meetings.rs:228-246 | when a meeting's first participant cannot be recorded and the compensation is written, the new session ends at once and nothing of the room stays live or open |
| MeetingFaults.StraysComeFromFailures | src/social/meetings.rs:180-297 | over every run with any failures, no session is ever open without its room being live exactly when no event met one of the named failures |
| MeetingFaults.MildFailuresLeaveNothingOpen | src/social/meetings.rs:180-297 | without lost inserts, failed compensations or failed leaves the open sessions are exactly those of the live rooms, whatever participant rows fail |
| MeetingFaults.ThePastStays | src/social/meetings.rs:180-297 | whatever fails, an event only adds at most one session and one row of its own and ends, at its time, what was open |
| MeetingRecorder.MeetingTables.EndOpenSessions | src/social/meetings.rs:192-202 | on success no session of the room is open and every other session is as it was; a failed or illegal statement changes nothing; a lost reply is not success though it took effect |
| MeetingRecorder.MeetingTables.InsertSession | migrations/20261007000000_create_meeting_sessions/up.sql:2-12 | on success the new id is the one open session of the room and every other session is as it was; a failed statement, or one that would open a second, changes nothing |
| MeetingRecorder.Worker.StartLiveMeeting | src/social/meetings.rs:190-217 | makes the room live, ending what an earlier failure left open, exactly as the join step says for every pattern of failures |
| MeetingRecorder.Worker.RecordJoin | src/social/meetings.rs:180-252 | does to memory and tables, statement by statement, what the join step says for every pattern of failures |
| MeetingRecorder.Worker.RecordLeave | src/social/meetings.rs:255-297 | the same for a leave |
| MeetingRecorder.Worker.RunRecorder | src/social/meetings.rs:124-163 | the recorder loop keeps memory and tables in step over the whole log |
| PacketBuffer.GetFindsExactlyKept | src/sfu/packet_buffer.rs:36-55 | a number is found exactly when its last store is among the last 512 and no earlier store of it lost its slot after that, and the answer is that store's packet |
| PacketBuffer.DistinctStoresFillTheBuffer | src/sfu/packet_buffer.rs:36-55 | if any 512 consecutive stores are distinct, the buffer is exactly the last min(n, 512) stores, each under its own number |
| PacketBuffer.InOrderRequest | src/sfu/packet_buffer.rs:51-55 | on an in-order stream a request hits exactly when it names one of the last 512 packets, and gets that one |
| PacketBuffer.RepeatedNumberIsEvictedEarly | src/sfu/packet_buffer.rs:40-46 | two stores of one number within 512 evict the later packet early |
| PacketBuffer.SlotsOfRecentStores | src/sfu/packet_buffer.rs:40-54 | the ring slot of each of the last 512 stores holds its number |
| PacketBuffer.RtpPacketBuffer.Store | src/sfu/packet_buffer.rs:36-55 | the in-place update keeps the buffer equal to what the whole store history gives |
| PacketBuffer.RtpPacketBuffer.Get | src/sfu/packet_buffer.rs:58-61 | returns the packet of a kept store of the number, and nothing exactly when there is none |
| PacketBuffer.RtpPacketBuffer.GetMany | src/sfu/packet_buffer.rs:64-71 | returns, in the order of the requests, a kept packet of each requested number that has one, and nothing for the others |
| Nack.ExpansionIsExact | src/sfu/room.rs:1256-1267 | a NACK pair expands to its packet and, modulo 2^16, the i-th after it for each set bit i - 1: nothing else, no repeats, one more than the mask's bits (section 6.2.1 of RFC 4585) |
| Nack.RequestedSeqs | src/sfu/room.rs:1256-1267 | for a packet of any number of pairs: a number is requested exactly when some pair reports it lost, pair after pair and in the order of the window, and nothing else |
| Nack.Retransmit | src/sfu/room.rs:1279-1297 | resends the buffered packets of the local stream in order, and the misses are exactly the positions whose number has no kept store |
| Nack.ResentWereRequested | src/sfu/room.rs:1279-1290 | what is resent was requested by number, belongs to the stream, and was stored |
| Nack.HandleNack | src/sfu/room.rs:1254-1297 | what is sent again are exactly the kept packets of the local stream whose numbers some pair reports lost, and each request without a kept store is a miss |
| Nack.ResentInOrder | src/sfu/room.rs:1279-1290 | requests are answered in their order |
| Nack.InOrderFeedbackAnswer | src/sfu/room.rs:1256-1290 | on an in-order stream a whole feedback packet is answered with exactly the packets of the last 512 that some pair reports lost, each once for every pair that does |
| Nack.InOrderNackAnswer | src/sfu/room.rs:1256-1290 | on an in-order stream a pair is answered with exactly the packets of the last 512 that it reports lost, each once |
| GroupCode.GroupCodeFromUuid | src/social/conversations.rs:2145-2162 | the 22-round in-place division yields the code of the UUID's value, no step overflows its width, and the bytes end at zero |
| GroupCode.DivideBy62 | src/social/conversations.rs:2151-2158 | one pass leaves the quotient in the bytes and returns the remainder |
| GroupCode.UuidToBase62 | migrations/20261005000000_relax_group_code_derivation/up.sql:22-49 | the PL/pgSQL function yields the same code for every UUID |
| GroupCode.CodeReadsBack | src/social/conversations.rs:2145-2162 | a code is 22 alphanumerics that read back, digit by digit, as the UUID |
| GroupCode.CodeIsUnique | src/social/conversations.rs:2146-2162 | every 22-symbol text is the encoding of the number it reads as, so no other code has that value |
| GroupCode.CodesSortAsUuids | src/social/conversations.rs:2145-2162 | byte order of codes is UUID order, and codes are equal only for equal UUIDs |
| GroupCode.LeadingSymbolAtMost7 | src/social/conversations.rs:2145-2162 | the first symbol is at most 7 |
| GroupCode.UuidsFit | src/social/conversations.rs:2147-2150 | every 128-bit value is below 8 * 62^21, so 22 digits suffice |
| GroupCodeInput.GeneratedCodeIsUnderstood | src/social/conversations.rs:2164-2176 | a generated code, with any white space around it, normalises to itself |
| GroupCodeInput.AcceptedExactly | src/social/conversations.rs:2164-2176 | input is accepted exactly when trimmed it is a code, or lower-cased it is dash-joined alphanumeric runs of at most 80 characters |
| GroupCodeInput.StoredFormatsAreFixed | migrations/20261005000000_relax_group_code_derivation/up.sql:5-20 | the fixed points are exactly the two formats that the database stores |
| GroupCodeInput.NormalisingTwice | src/social/conversations.rs:2164-2176 | normalising is idempotent |
| Groups.RunsAreOrderly | src/social/conversations.rs:252-311 | in every reachable state each group has exactly one member with role creator, the creator itself, has a password exactly under the password policy, and one pending invitation per invitee |
| Groups.ApplyIsOrderly | src/social/conversations.rs:603-899 | each handler step keeps that order |
| Groups.SuccessorIsNextInLine | src/social/conversations.rs:892-899 | the successor is the earliest-joined admin who stays, else the earliest-joined member; none exactly when nobody stays |
| Groups.NewMembersWereAdmitted | src/social/conversations.rs:1574-1633 | nobody enters a group except by a request that meets its admission rule, one at a time |
| Groups.DeparturesWereDue | src/social/conversations.rs:773-890 | nobody goes except by leaving or by an admin's removal, which never reaches the creator |
| Groups.RolesWereGranted | src/social/conversations.rs:1178-1223 | a role changes only by the creator's word, or by succession |
| GroupRights.EntersExactly | src/social/conversations.rs:1574-1622 | a user enters a group exactly by joining or accepting on its terms (its password, friendship with all or with some), or by an admin's addition on those terms, never to a password group; as a plain member, alone |
| GroupRights.JoiningAnswers | src/social/conversations.rs:603-631 | joining succeeds exactly for members and on the group's terms, and is refused 404 and 403 otherwise |
| GroupRights.AcceptingAnswers | src/social/group_invitations.rs:162-196 | accepting succeeds exactly with one's own pending invitation and on the group's terms |
| GroupRights.NobodyEntersWithoutThePassword | src/social/conversations.rs:1583-1589 | over every run in which a group asks for a password, each new member gave the password of the moment themselves |
| GroupRights.GoesExactly | src/social/conversations.rs:773-890 | a member goes exactly by leaving, which only the last one cannot, or by an admin's removal, which the creator is spared |
| GroupRights.RolesChangeExactly | src/social/conversations.rs:1178-1223 | a role becomes what the creator says, or creator for the next in line when the creator leaves, and is kept otherwise |
| GroupRights.SettingsChangeExactly | src/social/conversations.rs:663-737 | policy and password change exactly by an admin's permissible update, the creator exactly by handing over |
| GroupRights.GroupsComeAndGoExactly | src/social/conversations.rs:252-311 | a group comes exactly by a permissible founding, with its founder and the people named, and goes exactly by an admin's deletion |
| GroupRights.InvitationsChangeExactly | src/social/group_invitations.rs:40-223 | an invitation comes exactly from an admin of a password group for a user who is no member and has none pending, and is resolved by its invitee alone |
| GroupRights.MemberAnswers | src/social/conversations.rs:739-890 | the answer, with its status, to every request about members |
| GroupRights.GroupAnswers | src/social/group_invitations.rs:40-117 | when foundings, updates, deletions and invitations succeed, and with what status they are refused |
| GroupRights.RefusalsChangeNothing | src/social/conversations.rs:603-890 | a refused request leaves everything as it was |
| Groups.CliqueForLife | src/social/conversations.rs:1611-1679 | a friends-only group that is a clique stays one over every run without unfriending among members or policy change |
| Groups.CliqueStep | src/social/conversations.rs:1611-1679 | of the steps that keep the policy exactly unfriending two members breaks the clique |
| Groups.FoundedAsClique | src/social/conversations.rs:1819-1877 | a group created friends-only starts as a clique |
| Groups.LinkedForLife | src/social/conversations.rs:1635-1659 | a friends-of-friends group stays connected over every run that keeps its policy and in which departures are bridged and unfriended members stay spanned, in particular without either |
| Groups.LinkedStep | src/social/conversations.rs:1635-1659 | of the steps that keep the policy, exactly unbridged departures and unspanned unfriendings disconnect the group |
| Groups.DepartureStep | src/social/conversations.rs:822-890 | a departure that succeeds keeps the group connected exactly when every divide of the others with friends of the leaver on both sides is crossed by a friendship |
| Groups.LooseEndsMayGo | src/social/conversations.rs:822-890 | a member with at most one friend in the group never disconnects it by going |
| Groups.LinkedWithoutFriendship | src/social/conversations.rs:1635-1659 | without a friendship of two members the group stays connected exactly when every divide between them is crossed by another |
| Groups.FoundedAsLinked | src/social/conversations.rs:1819-1877 | a group created friends-of-friends starts connected |
| Groups.DepartureCanDisconnect | src/social/conversations.rs:822-890 | a reachable group, founded and joined by the rules, whose middle member's unbridged departure leaves two people unconnected |
| Groups.RequiredPairsMean | src/social/conversations.rs:1858-1885 | the required pairs are accepted exactly when the people form a clique (friends-only) or a star around the creator |
| Groups.RequiredInitialFriendshipPairs | src/social/conversations.rs:1858-1877 | the loop computes exactly those pairs |
| Groups.IsFriendsWithEveryMember | src/social/conversations.rs:1661-1679 | the query loop decides friendship with every other member |
| Groups.GroupTables.CreateGroup | src/social/conversations.rs:252-311 | validates, checks friendships and inserts group and rows as the step says |
| Groups.GroupTables.JoinGroup | src/social/conversations.rs:603-631 | admits or refuses as the policy says; joining again changes nothing |
| Groups.GroupTables.LeaveGroup | src/social/conversations.rs:822-890 | hands the group over before the leaver's row goes, or undoes everything, and keeps the order |
| Groups.GroupTables.AddMember | src/social/conversations.rs:739-771 | an admin adds only whom the policy admits, never to a password group |
| Groups.GroupTables.RemoveMember | src/social/conversations.rs:773-820 | an admin removes any member but the creator |
| Groups.GroupTables.UpdateMemberRole | src/social/conversations.rs:1178-1223 | only the creator makes or unmakes admins, never of the creator |
| Groups.GroupTables.UpdateGroup | src/social/conversations.rs:663-737 | keeps or drops the password with the policy |
| Groups.GroupTables.DeleteGroup | src/social/conversations.rs:901-960 | an admin deletes the group with its invitations |
| Groups.GroupTables.CreateInvitation | src/social/group_invitations.rs:40-117 | only password groups invite, and at most one invitation per person is pending |
| Groups.GroupTables.AcceptInvitation | src/social/group_invitations.rs:162-196 | accepting needs the admission rule; a refusal leaves the invitation pending |
| Groups.GroupTables.DeclineInvitation | src/social/group_invitations.rs:198-223 | only the invitee declines, and only what is pending |
| AdminRoles.NoLockout | src/admin/roles.rs:101-262 | over every run of steps taken one at a time the admin role keeps every permission, and if someone holds all permissions someone always does |
| AdminRoles.NoEscalation | src/admin/mod.rs:59-62 | over every run of steps taken one at a time nobody ends with a permission that neither they nor any of the acting admins held |
| AdminRoles.StrongerUsersAreUntouched | src/admin/accounts.rs:201-212 | over every run of steps taken one at a time admins who together lack a permission cannot change anyone who has it |
| AdminRoles.StepIsBounded | src/admin/roles.rs:165-185 | a step leaves permissions within the old ones and the actor's, changes only users whose permissions the actor holds, and never the actor's own |
| AdminRoles.StepDoesWhatWasAsked | src/admin/roles.rs:274-298 | an accepted step gives exactly the permissions asked for, and a user without login is signed out |
| AdminRights.AllowedExactly | src/admin/mod.rs:59-97 | a request is carried out exactly when the actor may enter the panel and manage what it is about, holds all that changes hands, and touches neither themselves, their own role, the admin role nor a system role |
| AdminRights.RefusalGrounds | src/admin/roles.rs:101-262 | the grounds of each status of refusal |
| AdminRights.UsersChangeExactly | src/admin/accounts.rs:201-228 | only a user who is moved gets another role, and only their sessions end, exactly when that role does not allow login |
| AdminRights.RolesChangeExactly | src/admin/roles.rs:101-298 | only the role named comes, goes or changes, to exactly the permissions asked for, and its system flag never does |
| AdminRights.ParsedExactly | src/admin/roles.rs:422-433 | the permissions read from keys are exactly those whose keys are listed |
| AdminRights.OnlyManagersManage | src/admin/mod.rs:59-97 | over every run a group of whom nobody may manage roles changes no role, and one of whom nobody may manage users moves nobody and ends no session |
| AdminRaces.TwoWritesLockOutExactly | src/admin/accounts.rs:169-228 | for all tables and all two requests checked against them: nobody holds everything after both writes, in either order, exactly when each reaches the other's actor and leaves them short and every other holder has a role that one rewrites |
| AdminRaces.SafeUnlessBothReached | src/admin/roles.rs:165-185 | two checked requests leave someone with everything unless each reaches the other's actor |
| AdminRaces.WriteLocksOutExactly | src/admin/accounts.rs:201-228 | when somebody holds everything, nobody does after a write exactly when it is not stopped, reaches everyone who holds everything and gives them less |
| AdminRaces.LockoutIsAFatalCommit | src/admin/accounts.rs:169-228 | over every interleaving of checks and writes, somebody holds everything after every prefix exactly when no write is fatal at the moment it happens |
| AdminRaces.SafeWritesNeverLockOut | src/admin/accounts.rs:201-228 | after every interleaving without a fatal write somebody holds everything |
| AdminRaces.StillAllowedIsNotFatal | src/admin/roles.rs:165-185 | a write whose check would still pass is not fatal |
| AdminRaces.CircleLocksOut | src/admin/accounts.rs:169-228 | three admins who each demote the next pass their checks together, no two of the requests lock anybody out, and all three leave nobody with everything |
| AdminRaces.RacesDoNotEscalate | src/admin/mod.rs:59-62 | however checks and writes of a group of admins interleave, nobody ends with a permission that neither they nor any of the group held at the start |
| AdminRaces.RacesLeaveStrongerUsers | src/admin/accounts.rs:201-212 | however they interleave, admins who together lack a permission of a user cannot change what that user may do |
| AdminRaces.RacesStaySound | src/admin/roles.rs:165-185 | however they interleave, roles referred to exist and the admin role keeps every permission |
| AdminRaces.StillAllowedIsAtomic | src/admin/roles.rs:187-262 | a write whose check still passes, with what that check reads now, is the atomic step |
| AdminRaces.SessionsFollowTheCheck | src/admin/accounts.rs:192-240 | a moved user keeps their sessions exactly when the new role allowed login at the check, whatever it allows at the write |
| AdminRaces.CheckThenWriteCanLockOut | src/admin/accounts.rs:169-228 | an instance: two admins checked against the same tables demote each other until nobody holds every permission |
| AdminRaces.MoveAndRewriteLocksOut | src/admin/roles.rs:146-212 | another instance, in which the first write alone changes nobody's permissions |
| AdminRoles.RoleTables.CreateRole | src/admin/roles.rs:101-143 | guards in order, then inserts the role with exactly its permissions |
| AdminRoles.RoleTables.UpdateRole | src/admin/roles.rs:146-212 | guards in order, then replaces the role's permissions |
| AdminRoles.RoleTables.DeleteRole | src/admin/roles.rs:215-272 | refuses system, stronger and assigned roles, then deletes the role and its permissions |
| AdminRoles.RoleTables.UpdateUser | src/admin/accounts.rs:169-240 | guards in order, then sets the role and ends sessions without login |
| AdminRoles.RoleTables.ReplacePermissions | src/admin/roles.rs:274-298 | leaves the role with exactly the given permissions and other roles alone |
| AdminRoles.RoleTables.ValidatePermissions | src/admin/roles.rs:422-433 | accepts exactly lists of known keys and returns their set |
| RateLimits.AcceptedAreSpread | src/sfu/room.rs:481-496 | accepted actions k and k + limit are at least one window apart |
| RateLimits.RefusedAtExactlyLimit | src/signaling/handler.rs:387-400 | a refusal happens exactly when limit acceptances lie in the window, an acceptance exactly when fewer do |
| RateLimits.SlidingWindow.Allow | src/sfu/room.rs:481-496 | the deque answers as a count over all accepted actions would |
| RateLimits.DropExpired | src/sfu/room.rs:484-490 | popping expired times from the front leaves exactly those in the window |
| RateLimits.PasswordLimiter.FailedPasswordAttempts | src/social/meeting_rooms.rs:247-267 | another attempt is allowed exactly when fewer than 10 wrong passwords for the room lie in the last minute of the full log, whatever happens in other rooms |
| RateLimits.PasswordLimiter.Retain | src/social/meeting_rooms.rs:253-261 | every room keeps exactly its unexpired failures, and rooms without any go |
| RateLimits.GuessesAreBounded | src/social/meeting_rooms.rs:224-241 | if at most `most` guesses at a room are ever in flight together, the wrong passwords verified in a window and the guesses in flight are together at most the limit less one plus `most` |
| RateLimits.InFlightChangesExactly | src/social/meeting_rooms.rs:224-241 | a guess may be verified exactly when fewer than the limit were wrong in its window, and is in flight until it turns out |
| RoomChat.HistoryIsTail | src/sfu/room.rs:499-507 | after every run the history is the last min(n, 500) of the n posts with consecutive ids and tidy reactions |
| RoomChat.HistoryHasItsReactions | src/sfu/room.rs:499-564 | after every run each message in the history has exactly the reactions that the toggles since its posting gave it |
| RoomChat.PostingKeepsMessages | src/sfu/room.rs:499-507 | posting leaves the messages that stay as they were |
| RoomChat.QuotesExactlyRecentIds | src/sfu/room.rs:510-520 | a quote by id finds a message exactly for the last 500 ids, and the right one |
| RoomChat.ToggleFlipsOnePair | src/sfu/room.rs:524-564 | a successful toggle flips exactly one pair of emoji and participant and leaves emoji and reactors distinct, non-empty and at most 20 |
| RoomChat.TogglingKeepsOthers | src/sfu/room.rs:536-564 | reactions with other emoji stay as they are and in order |
| RoomChat.TogglingKeepsOrder | src/sfu/room.rs:536-564 | a new emoji comes last, a new participant comes last under it, and the others keep their order |
| RoomChat.ToggleRefusesExactly | src/sfu/room.rs:555-562 | a toggle is refused exactly when it would bring a twenty-first emoji |
| RoomChat.TogglingTwiceRestores | src/sfu/room.rs:524-564 | toggling twice always succeeds and restores the relation |
| RoomChat.ReactionTouchesOneMessage | src/sfu/room.rs:530-533 | a reaction changes the reactions of the one message with the id and nothing else |
| RoomChat.ChatRoom.RecordChatMessage | src/sfu/room.rs:499-507 | the message gets the next id and is last in the bounded history |
| RoomChat.ChatRoom.ChatReplyPreview | src/sfu/room.rs:510-520 | answers exactly for the last 500 ids with the message posted under that id |
| RoomChat.ChatRoom.ToggleChatReaction | src/sfu/room.rs:524-564 | the in-place edit is the toggle on the message found |
| LinkAttributes.ParseAttributes | src/social/link_previews.rs:393-441 | the loop ends on every input, reads all attributes in order, and never reaches its extra guard |
| LinkAttributes.GuardIsIdle | src/social/link_previews.rs:409-418 | whenever no equals sign follows a name, the name is not empty |
| LinkAttributes.WritingIsUnderstood | src/social/link_previews.rs:393-441 | scanning any writing of attributes, with any quotes closed or not, gaps, slashes, letter case and nameless values, gives exactly the map they mean |
| LinkAttributes.EveryTextIsWritten | src/social/link_previews.rs:393-441 | any text whatever is such a writing, so scanning any tag gives the map that its attributes mean |
| LinkAttributes.MeaningIsTheLast | src/social/link_previews.rs:393-441 | in that map each name has the value of its last attribute, and there are no other names |
| LinkAttributes.MeaningOfDistinctNames | src/social/link_previews.rs:393-441 | with distinct names that map has exactly the listed pairs |
| LinkAttributes.ScanMetadata | src/social/link_previews.rs:338-354 | the scan ends and gives the metadata of the tags scanned in order, and never slices a tag backwards |
| LinkAttributes.EveryTagIsScanned | src/social/link_previews.rs:338-344 | every occurrence of `<meta` with a closing bracket after it is a scanned tag or lies inside an earlier one |
| LinkAttributes.TagsAreTheSpans | src/social/link_previews.rs:340-345 | the scanned texts are exactly those between each tag's name and its first closing bracket |
| LinkAttributes.SpansFollowEachOther | src/social/link_previews.rs:338-354 | scanned tags come in order and do not overlap |
| LinkAttributes.DeclaredExactly | src/social/link_previews.rs:346-352 | a tag declares a key and content exactly when it has that content and the key is its property, or its name if it has no property |
| LinkAttributes.FirstDeclarationWins | src/social/link_previews.rs:346-352 | each key has the content of the first tag that declares it |
| Paging.EverythingExactlyOnce | src/social/messages.rs:717-736 | following the cursor to the end returns exactly what the first request could see, once and newest first, even when newer messages arrive meanwhile |
| Paging.FinitelyManyRequests | src/social/messages.rs:717-736 | as many requests as full pages fit are enough |
| Paging.PagesAreFull | src/social/shared_media.rs:269-276 | a page holds at most the limit, and exactly the limit when another follows, which is exactly when more are selected |
| Paging.ListedExactly | src/social/shared_media.rs:149-276 | the pages list a message exactly when it was there at the first request and has a link, or an attachment of the kind, if that was asked for |
| Paging.NothingComesTwice | src/social/shared_media.rs:224-276 | whatever happens to the table between requests, nothing comes twice and all comes newest first |
| Paging.WhatStaysComes | src/social/shared_media.rs:224-276 | whatever else happens, a message present at every request comes |
| Paging.AttachmentsExactlyOnce | src/social/shared_media.rs:149-222 | every attachment of a kind comes exactly once, message by message, never split across pages |
| Paging.MatchingExactly | src/social/shared_media.rs:149-222 | of a message exactly the attachments of the kind are listed, each as often as it is there |
| Paging.MatchingOfConcat | src/social/shared_media.rs:149-222 | they keep the message's order |
| Paging.PageCursor | src/social/shared_media.rs:269-276 | truncates the loaded sequences to those of the page and returns the page's cursor, which is there exactly when a row too many was loaded |

## Left out

- The Join arm and the eviction, revocation and cleanup loops run between one another's steps, so they are a state machine over values in `SfuAccess`; their critical sections are methods of `SfuRoom.Room` and the repository's methods are proved on its fields.
- WebRTC, SDP, ICE and RTCP transport, peer connections and their tasks: peer set-up is a step that may succeed or fail.
- Negotiated, pending and forwarded tracks: spawned tasks insert them without re-checking presence.
- SQL, HTTP, JSON, logging, metrics, storage, notifications and event publishing; tables are maps, sets and sequences.
- Password hashing, tokens and random ids: hashing is keeping and comparing, new ids are assumed unused.
- Room lock critical sections that reach nothing outside the room are one step of `SfuAccess`; those of a joiner are many.
- A request cancelled in the middle of an eviction or revocation loop; the loops over several rooms are one task per room.
- `close_abandoned_sessions`: the recorder starts from arbitrary tables instead, whose rows belong to earlier connections.
- The recorder assumes that each connection joins at most once and that times do not decrease, as the signaling loop guarantees.
- A row's user id and display name, missed and unread calls, and meeting history queries.
- `meeting_rooms.rs` admission policies, presence, profile and block rules: small finite case checks.
- Retransmission write errors and keyframe requests only count or log.
- Title, role name and description checks; `admin` list pages; unfriending and befriending beyond the accepted pair.
- The number of password checks in flight together: it is a parameter of `RateLimits.GuessesAreBounded`, which the server does not bound.
- Direct conversations are never deleted in the model; account deletion does not exist in the handlers modelled.
- The excerpt in a quote and the text cleaning, title and image rules of link previews.
- Read marks, `first_unread_sequence`, and paging by offset.
- Texts are sequences of characters; a length limit in bytes is compared only where all accepted characters are ASCII.
- SfuAccess.EvictionIsPermanent: speaks of the object that the id names, because objects that lost their id escape eviction; `SfuOrphans` says exactly when there are none.
- Paging.EverythingExactlyOnce: assumes that messages become visible in the order of their sequence numbers; they are taken at the insert, before the conversation's row is locked (src/social/messages.rs:130-151), so a lower number may appear after a higher one, and then `Paging.NothingComesTwice` and `Paging.WhatStaysComes` say what still holds.
- Paging.FinitelyManyRequests: makes the same assumption.
- Paging.AttachmentsExactlyOnce: makes the same assumption.
- Paging.ListedExactly: makes the same assumption.
- AdminRoles.NoLockout: holds for steps taken one at a time; `AdminRaces` says what remains of it when checks and writes interleave.
- AdminRoles.NoEscalation: holds for steps taken one at a time; `AdminRaces.RacesDoNotEscalate` has it for interleaved ones.
- AdminRoles.StrongerUsersAreUntouched: holds for steps taken one at a time; `AdminRaces.RacesLeaveStrongerUsers` has it for interleaved ones.
- The queries of one admin check are read together, and so are the statements of one write.
