/**
 The poll loops of `src/http/router.rs`. The two functions there differ in
 path, header and interval only; the interval is a parameter here. Times are
 milliseconds since the loop started.
 */
module TaskPoll {
  import opened Wrappers
  import opened Bytes
  import opened Json
  import opened BlockReplay
  import C = UpstreamBlockCache

  const AIAPIDEV_POLL_INTERVAL: nat := 1_000
  const AIAPIDEV_OPENAI_IMAGE_POLL_INTERVAL: nat := 10_000
  const AIAPIDEV_MAX_POLL_TIME: nat := 450_000
  const AIAPIDEV_MAX_CONSECUTIVE_POLL_FAILURES: nat := 5

  /** One poll: a transport error, or a response whose body may fail to arrive. */
  datatype Attempt =
    | TransportError
    | Response(status: nat, contentType: bytes, body: Option<bytes>)

  datatype PollError =
    | UnusableUrl
    | TransportFailed
    | ReadFailed
    | Blocked(reply: Reply)
    | PassedThrough(status: nat, contentType: bytes, body: bytes)
    | Unparsable
    | TimedOut

  type PollEnd = Result<Value, PollError>

  const STATUS: bytes := "sta" + "tus"

  /** `is_aiapidev_terminal_status`. */
  predicate IsTerminalStatus(status: bytes) {
    || status == "succeeded" || status == "failed" || status == "error"
    || status == "cancelled" || status == "canceled" || status == "timeout"
  }

  /** `is_aiapidev_retryable_poll_status`. */
  predicate IsRetryableStatus(status: nat) {
    status == 408 || status == 425 || status == 429 || status == 500 || status == 502 || status == 503 || status == 504
  }

  predicate IsSuccess(status: nat) {
    200 <= status < 300
  }

  /** The task's status field, lower-cased; empty when it is missing or no string. */
  function TaskStatus(task: Value): bytes {
    if !task.Object? then []
    else
      match Lookup(task.members, STATUS)
      case Some(String(s)) => Lower(s)
      case _ => []
  }

  // --------------------------------------------------------------- specification

  /** A failure that counts: a transport error, or a retryable status whose body says nothing of a block. */
  predicate IsRetryableFailure(a: Attempt) {
    match a
    case TransportError => true
    case Response(status, _, body) =>
      !IsSuccess(status) && body.Some? && Classify(status, body.value).None? && IsRetryableStatus(status)
  }

  /** How many retryable failures in a row end just before attempt `k`. */
  function Streak(world: nat -> Attempt, k: nat): (n: nat)
    ensures n <= k
  {
    if k == 0 then 0
    else if IsRetryableFailure(world(k - 1)) then Streak(world, k - 1) + 1
    else 0
  }

  /** What a retryable failure is reported as when it is one too many. */
  function FailureEnd(a: Attempt): PollError
    requires IsRetryableFailure(a)
  {
    if a.TransportError? then TransportFailed else PassedThrough(a.status, a.contentType, a.body.value)
  }

  /** How attempt `a` ends the loop, if it does: `streak` counts it, `late` says the deadline has passed. */
  function Verdict(a: Attempt, streak: nat, late: bool, renumber: Renumber): Option<PollEnd> {
    if IsRetryableFailure(a) then
      if streak >= AIAPIDEV_MAX_CONSECUTIVE_POLL_FAILURES then
        Some(Err(FailureEnd(a)))
      else if late then Some(Err(TimedOut))
      else None
    else if !IsSuccess(a.status) then
      match a.body
      case None => Some(Err(ReadFailed))
      case Some(body) =>
        if Classify(a.status, body).Some? then Some(Err(Blocked(ReplyFor(a.status, a.contentType, body, renumber))))
        else Some(Err(PassedThrough(a.status, a.contentType, body)))
    else
      match (if a.body.Some? then Parse(a.body.value, renumber) else None)
      case None => Some(Err(Unparsable))
      case Some(task) =>
        if IsTerminalStatus(TaskStatus(task)) then Some(Ok(task))
        else if late then Some(Err(TimedOut))
        else None
  }

  predicate Late(clock: nat -> nat, k: nat) {
    clock(k) >= AIAPIDEV_MAX_POLL_TIME
  }

  function VerdictAt(world: nat -> Attempt, clock: nat -> nat, k: nat, renumber: Renumber): Option<PollEnd> {
    Verdict(world(k), Streak(world, k + 1), Late(clock, k), renumber)
  }

  /** `clock(k)` is read after attempt `k`; every sleep lasts at least the interval. */
  ghost predicate Sleeps(clock: nat -> nat, interval: nat) {
    forall k: nat :: clock(k + 1) >= clock(k) + interval
  }

  /** A run of `polls` attempts that the loop makes. */
  ghost predicate RunsFor(world: nat -> Attempt, clock: nat -> nat, polls: nat, renumber: Renumber) {
    && polls > 0 && VerdictAt(world, clock, polls - 1, renumber).Some?
    && forall k | 0 <= k < polls - 1 :: VerdictAt(world, clock, k, renumber) == None
  }

  // ------------------------------------------------------------------- the loop

  /** The entries once attempt `a` has ended the loop or not: only a block error is stored. */
  ghost function EntriesAfter(entries: C.Items, capacity: C.NonZero, ttl: nat, key: Option<bytes>, a: Attempt, now: nat,
        renumber: Renumber): C.Items
  {
    if key.Some? && a.Response? && !IsSuccess(a.status) && a.body.Some? && Storable(a.status, a.body.value) then
      C.AfterInsert(entries, capacity, ttl, key.value, CachedFor(a.status, a.contentType, a.body.value, renumber), now)
    else entries
  }

  /** The branch for a response outside 2xx; `failures` is the counter afterwards. */
  method UnsuccessfulResponse(response: Attempt, consecutiveFailures: nat, late: bool, now: nat,
                              cache: C.UpstreamBlockCache?, key: Option<bytes>, renumber: Renumber)
    returns (end: Option<PollEnd>, failures: nat)
    requires response.Response? && !IsSuccess(response.status)
    requires cache != null ==> cache.Valid()
    modifies if cache == null then {} else {cache}
    ensures IsRetryableFailure(response) ==> failures == consecutiveFailures + 1
    ensures end == Verdict(response, failures, late, renumber)
    ensures cache != null ==>
              && cache.Valid()
              && cache.entries ==
                 EntriesAfter(old(cache.entries), cache.capacity, cache.ttl, key, response, now, renumber)
  {
    failures := consecutiveFailures;
    if response.body.None? {
      return Some(Err(ReadFailed)), failures;
    }
    var status, contentType, body := response.status, response.contentType, response.body.value;
    var isBlockable := Classify(status, body).Some?;
    var stored := MaybeStore(cache, key, status, contentType, body, now, renumber);
    if isBlockable {
      var reply := RawResponse(ResponseStatus(status, body), status, contentType, body, renumber);
      return Some(Err(Blocked(reply))), failures;
    }
    if !IsRetryableStatus(status) {
      return Some(Err(PassedThrough(status, contentType, body))), failures;
    }
    failures := failures + 1;
    if failures >= AIAPIDEV_MAX_CONSECUTIVE_POLL_FAILURES {
      stored := MaybeStore(cache, key, status, contentType, body, now, renumber);
      return Some(Err(PassedThrough(status, contentType, body))), failures;
    }
    end := if late then Some(Err(TimedOut)) else None;
  }

  /** The branch for a transport error. */
  method FailedRequest(consecutiveFailures: nat, late: bool, ghost renumber: Renumber)
    returns (end: Option<PollEnd>, failures: nat)
    ensures failures == consecutiveFailures + 1 && end == Verdict(TransportError, failures, late, renumber)
  {
    failures := consecutiveFailures + 1;
    if failures >= AIAPIDEV_MAX_CONSECUTIVE_POLL_FAILURES {
      return Some(Err(TransportFailed)), failures;
    }
    end := if late then Some(Err(TimedOut)) else None;
  }

  /** The branch for a 2xx response, which resets the counter. */
  method SuccessfulResponse(response: Attempt, late: bool, renumber: Renumber) returns (end: Option<PollEnd>)
    requires response.Response? && IsSuccess(response.status)
    ensures end == Verdict(response, 0, late, renumber)
  {
    if response.body.None? {
      return Some(Err(Unparsable));
    }
    var task := Parse(response.body.value, renumber);
    if task.None? {
      return Some(Err(Unparsable));
    }
    if IsTerminalStatus(TaskStatus(task.value)) {
      return Some(Ok(task.value));
    }
    end := if late then Some(Err(TimedOut)) else None;
  }

  /** One attempt handled: its verdict, and the counter if the loop goes on. */
  method HandleAttempt(response: Attempt, consecutiveFailures: nat, late: bool, now: nat,
                       cache: C.UpstreamBlockCache?, key: Option<bytes>, renumber: Renumber)
    returns (end: Option<PollEnd>, failures: nat)
    requires cache != null ==> cache.Valid()
    modifies if cache == null then {} else {cache}
    ensures IsRetryableFailure(response) ==> failures == consecutiveFailures + 1
    ensures end.None? ==> IsRetryableFailure(response) || failures == 0
    ensures end == Verdict(response, failures, late, renumber)
    ensures cache != null ==>
              && cache.Valid()
              && cache.entries ==
                 EntriesAfter(old(cache.entries), cache.capacity, cache.ttl, key, response, now, renumber)
  {
    if response.TransportError? {
      end, failures := FailedRequest(consecutiveFailures, late, renumber);
    } else if !IsSuccess(response.status) {
      end, failures := UnsuccessfulResponse(response, consecutiveFailures, late, now, cache, key, renumber);
    } else {
      failures := 0;
      end := SuccessfulResponse(response, late, renumber);
    }
  }

  /**
   The loop: without a usable task URL there is no poll at all; else the first
   attempt with a verdict ends it, and only a block error touches the cache.
   */
  method PollTask(usable: bool, world: nat -> Attempt, clock: nat -> nat, interval: nat,
                  cache: C.UpstreamBlockCache?, key: Option<bytes>, renumber: Renumber)
    returns (end: PollEnd, polls: nat)
    requires interval > 0 && Sleeps(clock, interval)
    requires cache != null ==> cache.Valid()
    modifies if cache == null then {} else {cache}
    ensures if usable then
              RunsFor(world, clock, polls, renumber) && VerdictAt(world, clock, polls - 1, renumber) == Some(end)
            else polls == 0 && end == Err(UnusableUrl)
    ensures cache != null ==>
              && cache.Valid()
              && cache.entries ==
                 if polls == 0 then old(cache.entries)
                 else EntriesAfter(old(cache.entries), cache.capacity, cache.ttl, key,
                                   world(polls - 1), clock(polls - 1), renumber)
  {
    var consecutiveFailures := 0;
    polls := 0;
    while true
      invariant Streak(world, polls) == consecutiveFailures && (!usable ==> polls == 0)
      invariant forall k | 0 <= k < polls :: VerdictAt(world, clock, k, renumber) == None
      invariant cache != null ==> cache.Valid() && cache.entries == old(cache.entries)
      decreases AIAPIDEV_MAX_POLL_TIME - clock(polls)
    {
      if !usable {
        return Err(UnusableUrl), polls;
      }
      var response, now, k := world(polls), clock(polls), polls;
      var late := now >= AIAPIDEV_MAX_POLL_TIME;
      var ended;
      ended, consecutiveFailures := HandleAttempt(response, consecutiveFailures, late, now, cache, key, renumber);
      polls := polls + 1;
      VerdictNow(world, clock, k, consecutiveFailures, renumber);
      if ended.Some? {
        return ended.value, polls;
      }
      ContinuesBeforeDeadline(world, clock, k, renumber);
      assert clock(k + 1) >= now + interval;
    }
  }

  /** The counter need be right only where it is looked at. */
  lemma VerdictNow(world: nat -> Attempt, clock: nat -> nat, k: nat, failures: nat, renumber: Renumber)
    requires IsRetryableFailure(world(k)) ==> failures == Streak(world, k) + 1
    ensures VerdictAt(world, clock, k, renumber) == Verdict(world(k), failures, Late(clock, k), renumber)
  {
  }

  // ------------------------------------------------------------- what it promises

  predicate FiveFailures(world: nat -> Attempt, k: nat) {
    forall j | k <= j < k + 5 :: IsRetryableFailure(world(j))
  }

  lemma {:induction false} StreakCounts(world: nat -> Attempt, k: nat, n: nat)
    requires n <= k
    ensures Streak(world, k) >= n <==> forall j | k - n <= j < k :: IsRetryableFailure(world(j))
    decreases n
  {
    if n == 0 {
    } else {
      StreakCounts(world, k - 1, n - 1);
      if forall j | k - n <= j < k :: IsRetryableFailure(world(j)) {
        assert IsRetryableFailure(world(k - 1));
      }
    }
  }

  lemma FiveFailuresStreak(world: nat -> Attempt, k: nat)
    ensures FiveFailures(world, k) <==> Streak(world, k + 5) >= 5
  {
    StreakCounts(world, k + 5, 5);
  }

  /** A failure with streak five or more ends the loop. */
  lemma StreakEnds(world: nat -> Attempt, clock: nat -> nat, k: nat, renumber: Renumber)
    requires k > 0 && Streak(world, k) >= 5
    ensures IsRetryableFailure(world(k - 1))
    ensures VerdictAt(world, clock, k - 1, renumber) == Some(Err(FailureEnd(world(k - 1))))
  {
  }

  /** Five retryable failures in a row, of either kind, are the last five polls. */
  lemma FiveFailuresEnd(world: nat -> Attempt, clock: nat -> nat, polls: nat, k: nat, renumber: Renumber)
    requires RunsFor(world, clock, polls, renumber) && k + 5 <= polls && FiveFailures(world, k)
    ensures k + 5 == polls
    ensures var a := world(polls - 1);
            IsRetryableFailure(a) && VerdictAt(world, clock, polls - 1, renumber) == Some(Err(FailureEnd(a)))
  {
    FiveFailuresStreak(world, k);
    StreakEnds(world, clock, k + 5, renumber);
    assert k + 4 < polls - 1 ==> VerdictAt(world, clock, k + 4, renumber) == None;
  }

  /** Only five in a row end the loop with a retryable failure, unless time has run out. */
  lemma OnlyFiveFailuresEnd(world: nat -> Attempt, clock: nat -> nat, polls: nat, renumber: Renumber)
    requires RunsFor(world, clock, polls, renumber) && IsRetryableFailure(world(polls - 1))
    ensures VerdictAt(world, clock, polls - 1, renumber) == Some(Err(TimedOut))
            || (polls >= 5 && FiveFailures(world, polls - 5))
  {
    if VerdictAt(world, clock, polls - 1, renumber) != Some(Err(TimedOut)) {
      FiveFailuresStreak(world, polls - 5);
    }
  }

  /** Any 2xx resets the counter that transport and status failures share. */
  lemma SuccessResets(world: nat -> Attempt, k: nat)
    requires world(k).Response? && IsSuccess(world(k).status)
    ensures Streak(world, k + 1) == 0 && Streak(world, k + 5) <= 4
  {
    StreakCounts(world, k + 5, 5);
    assert !IsRetryableFailure(world(k));
  }

  /** An answer that ends the loop whatever came before it: anything but a retryable failure or an unfinished task. */
  function Settled(a: Attempt, renumber: Renumber): Option<PollEnd> {
    if IsRetryableFailure(a) then None else Verdict(a, 0, false, renumber)
  }

  predicate IsTerminal(a: Attempt, task: Value, renumber: Renumber) {
    && a.Response? && IsSuccess(a.status) && a.body.Some? && Parse(a.body.value, renumber) == Some(task)
    && IsTerminalStatus(TaskStatus(task))
  }

  ghost predicate FirstSettled(world: nat -> Attempt, k: nat, renumber: Renumber) {
    Settled(world(k), renumber).Some? && forall j | 0 <= j < k :: Settled(world(j), renumber).None?
  }

  /** Attempt `k` is made: no earlier one was answered past the deadline, and no five in a row failed. */
  ghost predicate IsReached(world: nat -> Attempt, clock: nat -> nat, k: nat) {
    && (forall j | 0 <= j < k :: !Late(clock, j))
    && (forall j: nat | j + 5 <= k :: !FiveFailures(world, j))
  }

  /** An attempt without a settled answer has a verdict if it is late or the fifth failure in a row. */
  lemma UnsettledVerdict(world: nat -> Attempt, clock: nat -> nat, k: nat, renumber: Renumber)
    requires Settled(world(k), renumber).None?
    ensures VerdictAt(world, clock, k, renumber).Some? <==> Late(clock, k) || Streak(world, k + 1) >= 5
  {
  }

  /** A settled answer is the verdict, late or not. */
  lemma SettledVerdict(world: nat -> Attempt, clock: nat -> nat, k: nat, renumber: Renumber)
    requires Settled(world(k), renumber).Some?
    ensures VerdictAt(world, clock, k, renumber) == Settled(world(k), renumber)
    ensures forall task ::
              VerdictAt(world, clock, k, renumber) == Some(Ok(task)) <==> IsTerminal(world(k), task, renumber)
  {
  }

  /**
   Over every run, the first settled answer is what the loop returns exactly when
   its attempt is reached; a terminal task there is the only success, even past
   the deadline. Otherwise the loop ends before it, in a timeout or with a
   retryable failure.
   */
  lemma FirstSettledDecides(world: nat -> Attempt, clock: nat -> nat, polls: nat, k: nat, renumber: Renumber)
    requires RunsFor(world, clock, polls, renumber) && FirstSettled(world, k, renumber)
    ensures polls <= k + 1
    ensures polls == k + 1 <==> IsReached(world, clock, k)
    ensures polls == k + 1 ==> VerdictAt(world, clock, polls - 1, renumber) == Settled(world(k), renumber)
    ensures forall task :: VerdictAt(world, clock, polls - 1, renumber) == Some(Ok(task)) <==>
                           IsReached(world, clock, k) && IsTerminal(world(k), task, renumber)
  {
    SettledVerdict(world, clock, k, renumber);
    if polls < k + 1 {
      assert Settled(world(polls - 1), renumber).None?;
      UnsettledVerdict(world, clock, polls - 1, renumber);
      if !Late(clock, polls - 1) {
        FiveFailuresStreak(world, polls - 5);
      }
    } else {
      forall j | 0 <= j < k ensures !Late(clock, j) {
        UnsettledVerdict(world, clock, j, renumber);
      }
      forall j: nat | j + 5 <= k ensures !FiveFailures(world, j) {
        FiveFailuresStreak(world, j);
        UnsettledVerdict(world, clock, j + 4, renumber);
      }
    }
  }

  /** What an insertion puts in is hit until it expires. */
  lemma InsertedIsHit(entries: C.Items, capacity: C.NonZero, ttl: nat, key: bytes, response: C.CachedBlockResponse,
        now: nat, later: nat)
    requires later < now + ttl
    ensures C.Hit(C.AfterInsert(entries, capacity, ttl, key, response, now), key, later) == Some(response)
  {
  }

  /**
   Over every run, the cache changes only when the loop returns a block error,
   and then what it replays until it expires is that very reply exactly when
   the body is stable; the store at the fifth failure never stores anything.
   */
  lemma LoopReplaysItsReply(world: nat -> Attempt, clock: nat -> nat, polls: nat, entries: C.Items,
        capacity: C.NonZero, ttl: nat, key: bytes, later: nat, renumber: Renumber)
    requires RunsFor(world, clock, polls, renumber) && Renumbers(renumber) && later < clock(polls - 1) + ttl
    ensures var a := world(polls - 1);
            var end := VerdictAt(world, clock, polls - 1, renumber).value;
            var after := EntriesAfter(entries, capacity, ttl, Some(key), a, clock(polls - 1), renumber);
            && (after != entries ==> end.Err? && end.error.Blocked?)
            && (end.Err? && end.error.Blocked? && |a.body.value| <= MAX_UPSTREAM_BLOCK_CACHE_BODY_BYTES ==>
                  && C.Hit(after, key, later).Some?
                  && (Replay(C.Hit(after, key, later).value, renumber) == end.error.reply <==>
                      Stable(a.status, a.body.value, renumber)))
  {
    var a := world(polls - 1);
    if a.Response? && !IsSuccess(a.status) && a.body.Some? && Classify(a.status, a.body.value).Some? {
      InsertedIsHit(entries, capacity, ttl, key, CachedFor(a.status, a.contentType, a.body.value, renumber),
                    clock(polls - 1), later);
      ReplayIsReply(a.status, a.contentType, a.body.value, renumber);
    }
  }

  // -------------------------------------------------------------------- bounds

  lemma {:induction false} ClockGrows(clock: nat -> nat, interval: nat, k: nat)
    requires Sleeps(clock, interval)
    ensures clock(k) >= k * interval
  {
    if k == 0 {
    } else {
      ClockGrows(clock, interval, k - 1);
      assert clock(k - 1 + 1) >= clock(k - 1) + interval;
    }
  }

  /** A poll that is followed by another one was answered before the deadline. */
  lemma ContinuesBeforeDeadline(world: nat -> Attempt, clock: nat -> nat, k: nat, renumber: Renumber)
    requires VerdictAt(world, clock, k, renumber) == None
    ensures clock(k) < AIAPIDEV_MAX_POLL_TIME
  {
  }

  lemma PollsBounded(world: nat -> Attempt, clock: nat -> nat, polls: nat, interval: nat, renumber: Renumber)
    requires RunsFor(world, clock, polls, renumber) && Sleeps(clock, interval)
    ensures polls >= 2 ==> (polls - 2) * interval < AIAPIDEV_MAX_POLL_TIME
  {
    if polls >= 2 {
      ContinuesBeforeDeadline(world, clock, polls - 2, renumber);
      ClockGrows(clock, interval, polls - 2);
    }
  }

  /** At most 451 polls a second apart, and at most 46 ten seconds apart. */
  lemma MaxPolls(world: nat -> Attempt, clock: nat -> nat, polls: nat, renumber: Renumber)
    requires RunsFor(world, clock, polls, renumber)
    ensures Sleeps(clock, AIAPIDEV_POLL_INTERVAL) ==> polls <= 451
    ensures Sleeps(clock, AIAPIDEV_OPENAI_IMAGE_POLL_INTERVAL) ==> polls <= 46
  {
    if Sleeps(clock, AIAPIDEV_POLL_INTERVAL) {
      PollsBounded(world, clock, polls, AIAPIDEV_POLL_INTERVAL, renumber);
    }
    if Sleeps(clock, AIAPIDEV_OPENAI_IMAGE_POLL_INTERVAL) {
      PollsBounded(world, clock, polls, AIAPIDEV_OPENAI_IMAGE_POLL_INTERVAL, renumber);
    }
  }
}
