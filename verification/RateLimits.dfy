/** Sliding-window rate limits: chat in a room, chat by one connection, and wrong meeting passwords per room. Times
    are milliseconds of a clock that never goes back. */
module RateLimits {
  type Time = nat

  const ROOM_CHAT_RATE_LIMIT: nat := 50
  const ROOM_CHAT_RATE_WINDOW: nat := 5_000
  const CHAT_RATE_LIMIT: nat := 10
  const CHAT_RATE_WINDOW: nat := 5_000
  const PASSWORD_ATTEMPT_LIMIT: nat := 10
  const PASSWORD_ATTEMPT_WINDOW: nat := 60_000

  predicate Ascending(times: seq<Time>) {
    forall i, j | 0 <= i <= j < |times| :: times[i] <= times[j]
  }

  predicate UpTo(times: seq<Time>, now: Time) {
    forall i | 0 <= i < |times| :: times[i] <= now
  }

  predicate AllExpired(times: seq<Time>, now: Time, window: nat) {
    forall i | 0 <= i < |times| :: now - times[i] >= window
  }

  predicate NoneExpired(times: seq<Time>, now: Time, window: nat) {
    forall i | 0 <= i < |times| :: now - times[i] < window
  }

  /** Those of the times that lie less than a window before `now`. */
  function Within(times: seq<Time>, now: Time, window: nat): seq<Time>
    decreases |times|
  {
    if times == [] then []
    else
      var earlier, last := Within(times[..|times| - 1], now, window), times[|times| - 1];
      if now - last < window then earlier + [last] else earlier
  }

  /** Their places in the list. */
  ghost function PlacesWithin(times: seq<Time>, now: Time, window: nat): set<nat> {
    set i: nat | i < |times| && now - times[i] < window
  }

  lemma {:induction false} WithinCounts(times: seq<Time>, now: Time, window: nat)
    ensures |Within(times, now, window)| == |PlacesWithin(times, now, window)|
    decreases |times|
  {
    if times == [] {
      assert PlacesWithin(times, now, window) == {};
    } else {
      var n := |times| - 1;
      WithinCounts(times[..n], now, window);
      assert PlacesWithin(times, now, window) ==
        PlacesWithin(times[..n], now, window) + if now - times[n] < window then {n} else {};
    }
  }

  // ----- the window as a deque -----

  lemma {:induction false} WithinOfConcat(a: seq<Time>, b: seq<Time>, now: Time, window: nat)
    ensures Within(a + b, now, window) == Within(a, now, window) + Within(b, now, window)
    decreases |b|
  {
    if b == [] {
      assert a + b == a;
    } else {
      assert (a + b)[..|a + b| - 1] == a + b[..|b| - 1];
      WithinOfConcat(a, b[..|b| - 1], now, window);
    }
  }

  lemma {:induction false} NothingLeft(times: seq<Time>, now: Time, window: nat)
    requires AllExpired(times, now, window)
    ensures Within(times, now, window) == []
    decreases |times|
  {
    if times != [] {
      NothingLeft(times[..|times| - 1], now, window);
    }
  }

  lemma {:induction false} EverythingLeft(times: seq<Time>, now: Time, window: nat)
    requires NoneExpired(times, now, window)
    ensures Within(times, now, window) == times
    decreases |times|
  {
    if times != [] {
      EverythingLeft(times[..|times| - 1], now, window);
    }
  }

  /** What is outside the window now is outside it later. */
  lemma {:induction false} WithinLater(times: seq<Time>, earlier: Time, now: Time, window: nat)
    requires earlier <= now
    ensures Within(Within(times, earlier, window), now, window) == Within(times, now, window)
    decreases |times|
  {
    if times != [] {
      var init, last := times[..|times| - 1], times[|times| - 1];
      WithinLater(init, earlier, now, window);
      if earlier - last < window {
        WithinOfConcat(Within(init, earlier, window), [last], now, window);
        assert [last][..0] == [];
      }
    }
  }

  lemma {:induction false} WithinIsPart(times: seq<Time>, now: Time, window: nat, bound: Time)
    requires Ascending(times) && UpTo(times, bound)
    ensures Ascending(Within(times, now, window)) && UpTo(Within(times, now, window), bound)
    decreases |times|
  {
    if times != [] {
      var n := |times| - 1;
      WithinIsPart(times[..n], now, window, times[n]);
      AppendAscending(Within(times[..n], now, window), times[n], times[n]);
    }
  }

  lemma AppendAscending(times: seq<Time>, last: Time, now: Time)
    requires Ascending(times) && UpTo(times, last) && last <= now
    ensures Ascending(times + [now]) && UpTo(times + [now], now) && UpTo(times, now)
  {}

  lemma CutIsWithin(dropped: seq<Time>, left: seq<Time>, now: Time, window: nat)
    requires Ascending(dropped + left) && AllExpired(dropped, now, window)
    requires left != [] ==> now - left[0] < window
    ensures Within(dropped + left, now, window) == left
  {
    forall k | 0 <= k < |left| ensures now - left[k] < window {
      var times := dropped + left;
      assert times[|dropped|] == left[0] && times[|dropped| + k] == left[k];
    }
    NothingLeft(dropped, now, window);
    EverythingLeft(left, now, window);
    WithinOfConcat(dropped, left, now, window);
  }

  /** The popping loop of all three limits: dropping expired times from the front of an ascending deque. */
  method DropExpired(times: seq<Time>, now: Time, window: nat) returns (left: seq<Time>)
    requires Ascending(times)
    ensures left == Within(times, now, window)
  {
    left := times;
    ghost var dropped: seq<Time> := [];
    while left != [] && now - left[0] >= window
      invariant dropped + left == times
      invariant AllExpired(dropped, now, window)
      decreases |left|
    {
      dropped := dropped + [left[0]];
      left := left[1..];
    }
    CutIsWithin(dropped, left, now, window);
  }

  // ----- a limit on accepted actions -----

  /** The times of the accepted calls: a call is accepted when fewer than `limit` accepted ones lie in its window. */
  function Accepted(calls: seq<Time>, limit: nat, window: nat): seq<Time>
    decreases |calls|
  {
    if calls == [] then []
    else
      var before, now := Accepted(calls[..|calls| - 1], limit, window), calls[|calls| - 1];
      if |Within(before, now, window)| < limit then before + [now] else before
  }

  lemma AcceptedAfterCall(calls: seq<Time>, now: Time, limit: nat, window: nat)
    ensures Accepted(calls + [now], limit, window) ==
            if |Within(Accepted(calls, limit, window), now, window)| < limit then Accepted(calls, limit, window) + [now]
            else Accepted(calls, limit, window)
  {
    assert (calls + [now])[..|calls|] == calls;
  }

  lemma {:induction false} AcceptedAscend(calls: seq<Time>, limit: nat, window: nat)
    requires Ascending(calls)
    ensures Ascending(Accepted(calls, limit, window))
    ensures calls != [] ==> UpTo(Accepted(calls, limit, window), calls[|calls| - 1])
    decreases |calls|
  {
    if calls != [] {
      var n := |calls| - 1;
      AcceptedAscend(calls[..n], limit, window);
      AppendAscending(Accepted(calls[..n], limit, window), if n > 0 then calls[n - 1] else calls[n], calls[n]);
    }
  }

  ghost predicate Spread(times: seq<Time>, limit: nat, window: nat) {
    forall k | 0 <= k && k + limit < |times| :: times[k + limit] - times[k] >= window
  }

  /** In an ascending list, what lies in the window is the end of the list. */
  lemma {:induction false} WithinIsSuffix(times: seq<Time>, now: Time, window: nat)
    requires Ascending(times)
    ensures |Within(times, now, window)| <= |times|
    ensures Within(times, now, window) == times[|times| - |Within(times, now, window)|..]
    decreases |times|
  {
    if times != [] {
      var init, last := times[..|times| - 1], times[|times| - 1];
      WithinIsSuffix(init, now, window);
      if now - last < window {
        var n := |Within(init, now, window)|;
        assert times[|times| - n - 1..] == init[|init| - n..] + [last];
      } else {
        assert AllExpired(init, now, window);
        NothingLeft(init, now, window);
        assert times[|times|..] == [];
      }
    }
  }

  lemma {:induction false} ExpiredBefore(times: seq<Time>, now: Time, window: nat, k: nat)
    requires Ascending(times) && k + |Within(times, now, window)| < |times|
    ensures now - times[k] >= window
    decreases |times|
  {
    var n := |times| - 1;
    if now - times[n] < window {
      ExpiredBefore(times[..n], now, window, k);
    } else {
      assert times[k] <= times[n];
    }
  }

  /** Accepted action k and accepted action k + limit are at least a window apart: no window ever holds more than
      `limit`. */
  lemma {:induction false} AcceptedAreSpread(calls: seq<Time>, limit: nat, window: nat)
    requires Ascending(calls)
    ensures Spread(Accepted(calls, limit, window), limit, window)
    decreases |calls|
  {
    if calls != [] {
      var init, now := calls[..|calls| - 1], calls[|calls| - 1];
      var before := Accepted(init, limit, window);
      AcceptedAreSpread(init, limit, window);
      AcceptedAscend(init, limit, window);
      if |Within(before, now, window)| < limit <= |before| {
        ExpiredBefore(before, now, window, |before| - limit);
      }
    }
  }

  /** A window of a spread list holds at most `limit`. */
  lemma WindowHoldsAtMost(times: seq<Time>, now: Time, limit: nat, window: nat)
    requires Ascending(times) && Spread(times, limit, window) && UpTo(times, now)
    ensures |Within(times, now, window)| <= limit
  {
    WithinIsSuffix(times, now, window);
    var k := |times| - |Within(times, now, window)|;
    if k + limit < |times| {
      assert now - times[k] >= window;
      InsideIsRecent(times, now, window, 0);
    }
  }

  lemma AcceptedUpTo(calls: seq<Time>, now: Time, limit: nat, window: nat)
    requires Ascending(calls) && UpTo(calls, now)
    ensures UpTo(Accepted(calls, limit, window), now)
  {
    AcceptedAscend(calls, limit, window);
  }

  /** A refusal finds exactly `limit` accepted actions in the window, an acceptance fewer. */
  lemma RefusedAtExactlyLimit(calls: seq<Time>, now: Time, limit: nat, window: nat)
    requires Ascending(calls) && UpTo(calls, now)
    ensures Accepted(calls + [now], limit, window) == Accepted(calls, limit, window) <==>
      |Within(Accepted(calls, limit, window), now, window)| == limit
    ensures Accepted(calls + [now], limit, window) == Accepted(calls, limit, window) + [now] <==>
      |Within(Accepted(calls, limit, window), now, window)| < limit
  {
    AcceptedAfterCall(calls, now, limit, window);
    AcceptedAreSpread(calls, limit, window);
    AcceptedAscend(calls, limit, window);
    AcceptedUpTo(calls, now, limit, window);
    WindowHoldsAtMost(Accepted(calls, limit, window), now, limit, window);
  }

  lemma {:induction false} InsideIsRecent(times: seq<Time>, now: Time, window: nat, k: nat)
    requires k < |Within(times, now, window)|
    ensures now - Within(times, now, window)[k] < window
    decreases |times|
  {
    var init := times[..|times| - 1];
    if k < |Within(init, now, window)| {
      InsideIsRecent(init, now, window, k);
    }
  }

  /** What the deque holds after the calls. */
  ghost function Deque(calls: seq<Time>, limit: nat, window: nat): seq<Time> {
    if calls == [] then [] else Within(Accepted(calls, limit, window), calls[|calls| - 1], window)
  }

  lemma DequeHasTheWindow(calls: seq<Time>, now: Time, limit: nat, window: nat)
    requires Ascending(calls) && UpTo(calls, now)
    ensures Ascending(Deque(calls, limit, window))
    ensures Within(Deque(calls, limit, window), now, window) == Within(Accepted(calls, limit, window), now, window)
  {
    if calls != [] {
      AcceptedAscend(calls, limit, window);
      WithinIsPart(Accepted(calls, limit, window), calls[|calls| - 1], window, now);
      WithinLater(Accepted(calls, limit, window), calls[|calls| - 1], now, window);
    }
  }

  lemma WithinAfterAccepting(accepted: seq<Time>, now: Time, window: nat)
    requires window > 0
    ensures Within(accepted + [now], now, window) == Within(accepted, now, window) + [now]
  {
    assert (accepted + [now])[..|accepted|] == accepted;
  }

  /** The step of one call, given what the window holds. */
  lemma CallStep(calls: seq<Time>, now: Time, limit: nat, window: nat, within: seq<Time>)
    requires window > 0 && Ascending(calls) && UpTo(calls, now)
    requires within == Within(Accepted(calls, limit, window), now, window)
    ensures Ascending(calls + [now])
    ensures Deque(calls + [now], limit, window) == if |within| < limit then within + [now] else within
    ensures Accepted(calls + [now], limit, window) ==
            if |within| < limit then Accepted(calls, limit, window) + [now] else Accepted(calls, limit, window)
  {
    AppendAscending(calls, now, now);
    AcceptedAfterCall(calls, now, limit, window);
    WithinAfterAccepting(Accepted(calls, limit, window), now, window);
  }

  /** `recent_chat_messages` with its limit; `calls` records the times of all calls, accepted or not. */
  class SlidingWindow {
    const limit: nat
    const window: nat
    var recent: seq<Time>
    ghost var calls: seq<Time>

    ghost predicate Valid()
      reads this
    {
      window > 0 && Ascending(calls) && recent == Deque(calls, limit, window)
    }

    /** The limit of a room. */
    constructor ForRoom()
      ensures Valid() && calls == [] && limit == ROOM_CHAT_RATE_LIMIT && window == ROOM_CHAT_RATE_WINDOW
    {
      limit, window := ROOM_CHAT_RATE_LIMIT, ROOM_CHAT_RATE_WINDOW;
      recent, calls := [], [];
    }

    /** The limit of one connection. */
    constructor ForConnection()
      ensures Valid() && calls == [] && limit == CHAT_RATE_LIMIT && window == CHAT_RATE_WINDOW
    {
      limit, window := CHAT_RATE_LIMIT, CHAT_RATE_WINDOW;
      recent, calls := [], [];
    }

    method Allow(now: Time) returns (ok: bool)
      requires Valid() && UpTo(calls, now)
      modifies this
      ensures Valid() && calls == old(calls) + [now]
      ensures ok <==> |PlacesWithin(Accepted(old(calls), limit, window), now, window)| < limit
      ensures Accepted(calls, limit, window) == Accepted(old(calls), limit, window) + if ok then [now] else []
    {
      DequeHasTheWindow(calls, now, limit, window);
      recent := DropExpired(recent, now, window);
      CallStep(calls, now, limit, window, recent);
      WithinCounts(Accepted(calls, limit, window), now, window);
      calls := calls + [now];
      if |recent| >= limit {
        return false;
      }
      recent := recent + [now];
      return true;
    }
  }

  // ----- wrong passwords, per room -----

  type RoomId = string

  /** One call of `failed_password_attempts`. */
  datatype Attempt = Attempt(room: RoomId, failed: bool, at: Time)

  /** The full log of one room's failures. */
  function Failures(attempts: seq<Attempt>, room: RoomId): seq<Time>
    decreases |attempts|
  {
    if attempts == [] then []
    else
      var last := attempts[|attempts| - 1];
      var before := Failures(attempts[..|attempts| - 1], room);
      if last.room == room && last.failed then before + [last.at] else before
  }

  predicate InOrder(attempts: seq<Attempt>) {
    forall i, j | 0 <= i <= j < |attempts| :: attempts[i].at <= attempts[j].at
  }

  lemma {:induction false} FailuresAscend(attempts: seq<Attempt>, room: RoomId)
    requires InOrder(attempts)
    ensures Ascending(Failures(attempts, room))
    ensures attempts != [] ==> UpTo(Failures(attempts, room), attempts[|attempts| - 1].at)
    decreases |attempts|
  {
    if attempts != [] {
      var n := |attempts| - 1;
      FailuresAscend(attempts[..n], room);
      var previous := if n > 0 then attempts[n - 1].at else attempts[n].at;
      AppendAscending(Failures(attempts[..n], room), previous, attempts[n].at);
    }
  }

  function Recent(failures: map<RoomId, seq<Time>>, room: RoomId): seq<Time> {
    if room in failures then failures[room] else []
  }

  ghost function RoomDeque(attempts: seq<Attempt>, room: RoomId): seq<Time> {
    if attempts == [] then []
    else Within(Failures(attempts, room), attempts[|attempts| - 1].at, PASSWORD_ATTEMPT_WINDOW)
  }

  ghost predicate NotAfter(attempts: seq<Attempt>, now: Time) {
    forall i | 0 <= i < |attempts| :: attempts[i].at <= now
  }

  lemma RoomDequeHasTheWindow(attempts: seq<Attempt>, now: Time, room: RoomId)
    requires InOrder(attempts) && NotAfter(attempts, now)
    ensures Ascending(RoomDeque(attempts, room))
    ensures Within(RoomDeque(attempts, room), now, PASSWORD_ATTEMPT_WINDOW)
            == Within(Failures(attempts, room), now, PASSWORD_ATTEMPT_WINDOW)
  {
    if attempts != [] {
      var last := attempts[|attempts| - 1].at;
      FailuresAscend(attempts, room);
      WithinIsPart(Failures(attempts, room), last, PASSWORD_ATTEMPT_WINDOW, now);
      WithinLater(Failures(attempts, room), last, now, PASSWORD_ATTEMPT_WINDOW);
    }
  }

  lemma RoomDequeAfterCall(attempts: seq<Attempt>, call: Attempt, room: RoomId)
    ensures var within := Within(Failures(attempts, room), call.at, PASSWORD_ATTEMPT_WINDOW);
      RoomDeque(attempts + [call], room) == if call.room == room && call.failed then within + [call.at] else within
  {
    assert (attempts + [call])[..|attempts|] == attempts;
    WithinOfConcat(Failures(attempts, room), [call.at], call.at, PASSWORD_ATTEMPT_WINDOW);
    EverythingLeft([call.at], call.at, PASSWORD_ATTEMPT_WINDOW);
  }

  /** Each room's deque holds what its full log has in the window of the last call. */
  ghost predicate Matches(failures: map<RoomId, seq<Time>>, attempts: seq<Attempt>) {
    forall room :: Recent(failures, room) == RoomDeque(attempts, room)
  }

  ghost predicate Trimmed(failures: map<RoomId, seq<Time>>, kept: map<RoomId, seq<Time>>, now: Time) {
    forall room :: Recent(kept, room) == Within(Recent(failures, room), now, PASSWORD_ATTEMPT_WINDOW)
  }

  function Recorded(kept: map<RoomId, seq<Time>>, call: Attempt): map<RoomId, seq<Time>> {
    kept[call.room := if call.failed then Recent(kept, call.room) + [call.at] else Recent(kept, call.room)]
  }

  lemma RecordedMatches(failures: map<RoomId, seq<Time>>, kept: map<RoomId, seq<Time>>, attempts: seq<Attempt>,
                        call: Attempt)
    requires InOrder(attempts) && NotAfter(attempts, call.at)
    requires Matches(failures, attempts) && Trimmed(failures, kept, call.at)
    ensures Matches(Recorded(kept, call), attempts + [call])
  {
    forall room ensures Recent(Recorded(kept, call), room) == RoomDeque(attempts + [call], room) {
      RoomDequeHasTheWindow(attempts, call.at, room);
      RoomDequeAfterCall(attempts, call, room);
      assert Recent(kept, room) == Within(Recent(failures, room), call.at, PASSWORD_ATTEMPT_WINDOW);
    }
  }

  ghost predicate AllAscending(failures: map<RoomId, seq<Time>>) {
    forall room <- failures :: Ascending(failures[room])
  }

  lemma DequesAscend(failures: map<RoomId, seq<Time>>, attempts: seq<Attempt>, now: Time)
    requires InOrder(attempts) && NotAfter(attempts, now) && Matches(failures, attempts)
    ensures AllAscending(failures)
  {
    forall room | room in failures ensures Ascending(failures[room]) {
      RoomDequeHasTheWindow(attempts, now, room);
      assert failures[room] == Recent(failures, room);
    }
  }

  lemma LogStaysInOrder(attempts: seq<Attempt>, call: Attempt)
    requires InOrder(attempts) && NotAfter(attempts, call.at)
    ensures InOrder(attempts + [call])
  {}

  /** How many failures the full log of the room has in the window before `now`. */
  ghost function FailuresWithin(attempts: seq<Attempt>, room: RoomId, now: Time): nat {
    |Within(Failures(attempts, room), now, PASSWORD_ATTEMPT_WINDOW)|
  }

  /** The wrong passwords given for the room in the window before `now`, by their place in the log. */
  ghost function RecentFailures(attempts: seq<Attempt>, room: RoomId, now: Time): set<nat> {
    set i: nat | i < |attempts| && attempts[i].room == room && attempts[i].failed
                 && now - attempts[i].at < PASSWORD_ATTEMPT_WINDOW
  }

  lemma {:induction false} FailuresAreCounted(attempts: seq<Attempt>, room: RoomId, now: Time)
    ensures FailuresWithin(attempts, room, now) == |RecentFailures(attempts, room, now)|
    decreases |attempts|
  {
    if attempts == [] {
      assert RecentFailures(attempts, room, now) == {};
    } else {
      var n := |attempts| - 1;
      var init, last := attempts[..n], attempts[n];
      var counts := last.room == room && last.failed && now - last.at < PASSWORD_ATTEMPT_WINDOW;
      FailuresAreCounted(init, room, now);
      assert RecentFailures(attempts, room, now) == RecentFailures(init, room, now) + if counts then {n} else {};
      if last.room == room && last.failed {
        WithinOfConcat(Failures(init, room), [last.at], now, PASSWORD_ATTEMPT_WINDOW);
        assert [last.at][..0] == [];
      }
    }
  }

  lemma AnswerCounts(failures: map<RoomId, seq<Time>>, attempts: seq<Attempt>, call: Attempt)
    requires Matches(failures, attempts + [call]) && call.room in failures
    ensures |failures[call.room]| == FailuresWithin(attempts + [call], call.room, call.at)
  {
    assert failures[call.room] == Recent(failures, call.room);
  }

  class PasswordLimiter {
    var failures: map<RoomId, seq<Time>>
    ghost var attempts: seq<Attempt>

    ghost predicate Valid()
      reads this
    {
      InOrder(attempts) && Matches(failures, attempts)
    }

    constructor ()
      ensures Valid() && attempts == []
    {
      failures, attempts := map[], [];
    }

    /** The `retain` call: expired times go, and so do rooms left without any. */
    method Retain(now: Time)
      requires AllAscending(failures)
      modifies this`failures
      ensures Trimmed(old(failures), failures, now)
      ensures forall room <- failures :: failures[room] != []
    {
      var kept: map<RoomId, seq<Time>> := map[];
      var todo := failures.Keys;
      while todo != {}
        invariant failures == old(failures) && todo <= failures.Keys
        invariant forall room <- kept :: kept[room] != []
        invariant forall room | room in todo :: Recent(kept, room) == []
        invariant forall room | room !in todo ::
          Recent(kept, room) == Within(Recent(failures, room), now, PASSWORD_ATTEMPT_WINDOW)
        decreases |todo|
      {
        var room :| room in todo;
        var times := DropExpired(failures[room], now, PASSWORD_ATTEMPT_WINDOW);
        if times != [] {
          kept := kept[room := times];
        }
        todo := todo - {room};
      }
      failures := kept;
    }

    /** The answer is that of a count over the room's full log, whatever happened in other rooms. */
    method FailedPasswordAttempts(room: RoomId, recordFailure: bool, now: Time) returns (allowed: bool)
      requires Valid() && NotAfter(attempts, now)
      modifies this
      ensures Valid() && attempts == old(attempts) + [Attempt(room, recordFailure, now)]
      ensures allowed <==> |RecentFailures(attempts, room, now)| < PASSWORD_ATTEMPT_LIMIT
    {
      ghost var before, call := failures, Attempt(room, recordFailure, now);
      DequesAscend(failures, attempts, now);
      Retain(now);
      RecordedMatches(before, failures, attempts, call);
      LogStaysInOrder(attempts, call);
      ghost var next := Recorded(failures, call);
      if room !in failures {
        failures := failures[room := []];
      }
      if recordFailure {
        failures := failures[room := failures[room] + [now]];
      }
      assert failures == next;
      AnswerCounts(failures, attempts, call);
      attempts := attempts + [call];
      FailuresAreCounted(attempts, room, now);
      allowed := |failures[room]| < PASSWORD_ATTEMPT_LIMIT;
    }
  }

  // ----- guesses that overlap -----

  /** What happens around the passwords of one room: a guess asks whether it may be verified, one that was allowed
      turns out wrong or right later, and other rooms use the limiter too. */
  datatype GuessEvent = Begun(at: Time) | Ended(wrong: bool, at: Time) | Elsewhere(call: Attempt)

  /** The limiter's log, and how many guesses at the room were allowed and have not turned out yet. */
  datatype Guessing = Guessing(attempts: seq<Attempt>, inFlight: nat)

  function TimeOf(e: GuessEvent): Time {
    if e.Elsewhere? then e.call.at else e.at
  }

  /** `check_password` in its two parts: the first call of the limiter, and the second after a wrong password. */
  ghost function AfterGuess(room: RoomId, g: Guessing, e: GuessEvent): Guessing {
    match e
    case Begun(at) =>
      var attempts := g.attempts + [Attempt(room, false, at)];
      var passes := FailuresWithin(attempts, room, at) < PASSWORD_ATTEMPT_LIMIT;
      Guessing(attempts, if passes then g.inFlight + 1 else g.inFlight)
    case Ended(wrong, at) =>
      if g.inFlight == 0 then g
      else Guessing(if wrong then g.attempts + [Attempt(room, true, at)] else g.attempts, g.inFlight - 1)
    case Elsewhere(call) => if call.room == room then g else g.(attempts := g.attempts + [call])
  }

  ghost function AfterGuesses(room: RoomId, events: seq<GuessEvent>): Guessing
    decreases |events|
  {
    if events == [] then Guessing([], 0)
    else AfterGuess(room, AfterGuesses(room, events[..|events| - 1]), events[|events| - 1])
  }

  lemma OneMoreCall(attempts: seq<Attempt>, call: Attempt, room: RoomId, now: Time)
    ensures FailuresWithin(attempts + [call], room, now) == FailuresWithin(attempts, room, now) +
      if call.room == room && call.failed && now - call.at < PASSWORD_ATTEMPT_WINDOW then 1 else 0
  {
    assert (attempts + [call])[..|attempts|] == attempts;
    WithinOfConcat(Failures(attempts, room), [call.at], now, PASSWORD_ATTEMPT_WINDOW);
    assert [call.at][..0] == [];
  }

  lemma {:induction false} WithinIsShorter(times: seq<Time>, now: Time, window: nat)
    ensures |Within(times, now, window)| <= |times|
    decreases |times|
  {
    if times != [] { WithinIsShorter(times[..|times| - 1], now, window); }
  }

  lemma FailuresExpire(attempts: seq<Attempt>, room: RoomId, earlier: Time, now: Time)
    requires earlier <= now
    ensures FailuresWithin(attempts, room, now) <= FailuresWithin(attempts, room, earlier)
  {
    WithinLater(Failures(attempts, room), earlier, now, PASSWORD_ATTEMPT_WINDOW);
    WithinIsShorter(Within(Failures(attempts, room), earlier, PASSWORD_ATTEMPT_WINDOW), now, PASSWORD_ATTEMPT_WINDOW);
  }

  /** Failures in the window and guesses in flight together. */
  ghost function Exposure(room: RoomId, g: Guessing, now: Time): nat {
    FailuresWithin(g.attempts, room, now) + g.inFlight
  }

  lemma GuessStepIsBounded(room: RoomId, g: Guessing, e: GuessEvent, most: nat)
    requires Exposure(room, g, TimeOf(e)) <= PASSWORD_ATTEMPT_LIMIT - 1 + most
    requires AfterGuess(room, g, e).inFlight <= most
    ensures Exposure(room, AfterGuess(room, g, e), TimeOf(e)) <= PASSWORD_ATTEMPT_LIMIT - 1 + most
  {
    match e
    case Begun(at) => OneMoreCall(g.attempts, Attempt(room, false, at), room, at);
    case Ended(wrong, at) => OneMoreCall(g.attempts, Attempt(room, true, at), room, at);
    case Elsewhere(call) => OneMoreCall(g.attempts, call, room, call.at);
  }

  ghost predicate InTime(events: seq<GuessEvent>, now: Time) {
    && (forall i, j | 0 <= i <= j < |events| :: TimeOf(events[i]) <= TimeOf(events[j]))
    && (forall i | 0 <= i < |events| :: TimeOf(events[i]) <= now)
  }

  ghost predicate AtMostInFlight(room: RoomId, events: seq<GuessEvent>, most: nat) {
    forall k | 0 <= k <= |events| :: AfterGuesses(room, events[..k]).inFlight <= most
  }

  lemma {:induction false} ExposureIsBounded(room: RoomId, events: seq<GuessEvent>, most: nat, now: Time)
    requires InTime(events, now) && AtMostInFlight(room, events, most)
    ensures Exposure(room, AfterGuesses(room, events), now) <= PASSWORD_ATTEMPT_LIMIT - 1 + most
    decreases |events|
  {
    if events != [] {
      var n := |events| - 1;
      var init, e := events[..n], events[n];
      assert events[..|events|] == events && AfterGuesses(room, events[..|events|]).inFlight <= most;
      forall k | 0 <= k <= n ensures AfterGuesses(room, init[..k]).inFlight <= most {
        assert init[..k] == events[..k];
      }
      ExposureIsBounded(room, init, most, TimeOf(e));
      GuessStepIsBounded(room, AfterGuesses(room, init), e, most);
      FailuresExpire(AfterGuesses(room, events).attempts, room, TimeOf(e), now);
    }
  }

  /** The guess that ends at `k` was in flight and wrong. */
  ghost predicate Wrong(room: RoomId, events: seq<GuessEvent>, k: nat) {
    k < |events| && events[k].Ended? && events[k].wrong && AfterGuesses(room, events[..k]).inFlight > 0
  }

  /** The wrong passwords verified at the room in the window before `now`. */
  ghost function WrongWithin(room: RoomId, events: seq<GuessEvent>, now: Time): set<nat> {
    set k: nat | k < |events| && Wrong(room, events, k) && now - events[k].at < PASSWORD_ATTEMPT_WINDOW
  }

  lemma WrongByLast(room: RoomId, events: seq<GuessEvent>, n: nat, now: Time)
    requires |events| == n + 1
    ensures WrongWithin(room, events, now) == WrongWithin(room, events[..n], now) +
      if Wrong(room, events, n) && now - events[n].at < PASSWORD_ATTEMPT_WINDOW then {n} else {}
  {
    forall k: nat | k < n ensures Wrong(room, events[..n], k) <==> Wrong(room, events, k) {
      assert events[..n][..k] == events[..k];
    }
  }

  /** The limiter counts exactly the wrong passwords verified. */
  lemma {:induction false} WrongAreCounted(room: RoomId, events: seq<GuessEvent>, now: Time)
    ensures FailuresWithin(AfterGuesses(room, events).attempts, room, now) == |WrongWithin(room, events, now)|
    decreases |events|
  {
    if events == [] {
      assert WrongWithin(room, events, now) == {};
    } else {
      var n := |events| - 1;
      var before, e := AfterGuesses(room, events[..n]), events[n];
      WrongAreCounted(room, events[..n], now);
      WrongByLast(room, events, n, now);
      match e
      case Begun(at) => OneMoreCall(before.attempts, Attempt(room, false, at), room, now);
      case Ended(_, at) => OneMoreCall(before.attempts, Attempt(room, true, at), room, now);
      case Elsewhere(call) => OneMoreCall(before.attempts, call, room, now);
    }
  }

  /** A guess comes to be in flight exactly when fewer than the limit were wrong in its window, and is no more when it
      ends. */
  lemma InFlightChangesExactly(room: RoomId, events: seq<GuessEvent>, e: GuessEvent)
    ensures AfterGuesses(room, events + [e]).inFlight ==
      if e.Begun? && |WrongWithin(room, events, e.at)| < PASSWORD_ATTEMPT_LIMIT
      then AfterGuesses(room, events).inFlight + 1
      else if e.Ended? && AfterGuesses(room, events).inFlight > 0 then AfterGuesses(room, events).inFlight - 1
      else AfterGuesses(room, events).inFlight
  {
    assert (events + [e])[..|events|] == events;
    if e.Begun? { WrongAreCounted(room, events, e.at); }
  }

  /** When at most `most` guesses at a room are ever in flight together, the wrong passwords verified in any window are
      at most the limit less one plus `most`, less those still in flight: one at a time gives exactly the limit. */
  lemma GuessesAreBounded(room: RoomId, events: seq<GuessEvent>, most: nat, now: Time)
    requires InTime(events, now) && AtMostInFlight(room, events, most)
    ensures |WrongWithin(room, events, now)| + AfterGuesses(room, events).inFlight <= PASSWORD_ATTEMPT_LIMIT - 1 + most
  {
    ExposureIsBounded(room, events, most, now);
    WrongAreCounted(room, events, now);
  }
}
