/**
 How a poll loop ends, told of the answers it got: with the statuses, words and
 times of the source, and without the functions that decide one answer.
 */
module PollOutcome {
  import opened Wrappers
  import opened Bytes
  import opened Json
  import opened JsonPointer
  import opened JsonEdit
  import opened ReplyShape
  import opened TaskPoll
  import B = BlockReplay

  // ------------------------------------------------------------- one answer

  /** `s` is `word`, in any letter case. */
  predicate IsWord(s: bytes, word: bytes) {
    |s| == |word| && StandsAt(s, word, 0)
  }

  /** The words for a task that will not change any more. */
  predicate IsFinal(s: bytes) {
    || IsWord(s, "succeeded") || IsWord(s, "failed") || IsWord(s, "error")
    || IsWord(s, "cancelled") || IsWord(s, "canceled") || IsWord(s, "timeout")
  }

  predicate Finished(task: Value) {
    match Node(task, ["status"])
    case Some(String(s)) => IsFinal(s)
    case _ => false
  }

  predicate Answers(a: Attempt) {
    a.Response? && 200 <= a.status < 300
  }

  predicate Refuses(a: Attempt) {
    a.Response? && !(200 <= a.status < 300)
  }

  predicate IsTask(a: Attempt, task: Value, renumber: Renumber) {
    Answers(a) && a.body.Some? && Parse(a.body.value, renumber) == Some(task)
  }

  /** A task that is not finished yet. */
  predicate Unfinished(a: Attempt, renumber: Renumber) {
    && Answers(a) && a.body.Some? && Parse(a.body.value, renumber).Some?
    && !Finished(Parse(a.body.value, renumber).value)
  }

  /** A failure worth another try. */
  predicate Fails(a: Attempt, refusal: bytes) {
    || a.TransportError?
    || (&& a.body.Some? && !IsBlock(a.status, a.body.value, refusal)
        && a.status in {408, 425, 429, 500, 502, 503, 504})
  }

  /** The five attempts before `n` all failed. */
  predicate FiveBefore(world: nat -> Attempt, n: nat, refusal: bytes) {
    n >= 5 && forall j | n - 5 <= j < n :: Fails(world(j), refusal)
  }

  /** More than seven and a half minutes have passed after attempt `k`. */
  predicate PastDeadline(clock: nat -> nat, k: nat) {
    clock(k) >= 450_000
  }

  /** How the last answer ends the loop: `five` says it is the fifth failure in a row, `late` that time is up. */
  ghost predicate Outcome(end: PollEnd, a: Attempt, five: bool, late: bool, refusal: bytes, renumber: Renumber) {
    match end
    case Ok(task) => IsTask(a, task, renumber) && Finished(task)
    case Err(TransportFailed) => a.TransportError? && five
    case Err(ReadFailed) => Refuses(a) && a.body.None?
    case Err(Blocked(reply)) =>
      && Refuses(a) && a.body.Some? && IsBlock(a.status, a.body.value, refusal)
      && reply == B.ReplyFor(a.status, a.contentType, a.body.value, renumber)
    case Err(PassedThrough(status, contentType, body)) =>
      && a == Response(status, contentType, Some(body)) && Refuses(a) && !IsBlock(status, body, refusal)
      && (five || !Fails(a, refusal))
    case Err(Unparsable) => Answers(a) && (a.body.None? || Parse(a.body.value, renumber).None?)
    case Err(TimedOut) => late && (Unfinished(a, renumber) || (Fails(a, refusal) && !five))
    case Err(UnusableUrl) => false
  }

  // ------------------------------------------------------------------ proofs

  lemma WordIs(s: bytes, word: bytes)
    requires NoCapitals(word)
    ensures IsWord(s, word) <==> Lower(s) == word
  {
    if IsWord(s, word) {
      assert forall k | 0 <= k < |word| :: SameLetter(s[0 + k], word[k]);
    }
    if Lower(s) == word {
      forall k | 0 <= k < |word| ensures SameLetter(s[0 + k], word[k]) {
        assert Lower(s)[k] == word[k];
      }
    }
  }

  lemma StatusWords()
    ensures NoCapitals("succeeded") && NoCapitals("failed") && NoCapitals("error")
    ensures NoCapitals("cancelled") && NoCapitals("canceled") && NoCapitals("timeout")
  {
  }

  lemma FinalIs(s: bytes)
    ensures IsFinal(s) <==> IsTerminalStatus(Lower(s))
  {
    StatusWords();
    WordIs(s, "succeeded");
    WordIs(s, "failed");
    WordIs(s, "error");
    WordIs(s, "cancelled");
    WordIs(s, "canceled");
    WordIs(s, "timeout");
  }

  lemma NoWordIsEmpty()
    ensures !IsTerminalStatus([])
  {
  }

  lemma StatusName()
    ensures "status" == STATUS && NotAnIndex("status")
  {
  }

  lemma StatusNode(task: Value, name: bytes)
    requires name == STATUS && NotAnIndex(name)
    ensures Node(task, [name]) == if task.Object? then Lookup(task.members, STATUS) else None
  {
    if task.Array? {
      ArrayHasNoSuchChild(task.items, name);
    }
  }

  lemma FinishedIs(task: Value)
    ensures Finished(task) <==> IsTerminalStatus(TaskStatus(task))
  {
    StatusName();
    StatusNode(task, "status");
    NoWordIsEmpty();
    if task.Object? && Lookup(task.members, STATUS).Some? && Lookup(task.members, STATUS).value.String? {
      FinalIs(Lookup(task.members, STATUS).value.s);
    }
  }

  lemma FailsIs(a: Attempt, refusal: bytes)
    requires IsRefusal(refusal)
    ensures Fails(a, refusal) <==> IsRetryableFailure(a)
  {
    if a.Response? && a.body.Some? {
      BlockIsClassified(a.status, a.body.value, refusal);
    }
  }

  lemma FiveIs(world: nat -> Attempt, n: nat, refusal: bytes)
    requires IsRefusal(refusal)
    ensures FiveBefore(world, n, refusal) <==> Streak(world, n) >= 5
  {
    forall j: nat ensures Fails(world(j), refusal) <==> IsRetryableFailure(world(j)) {
      FailsIs(world(j), refusal);
    }
    if n >= 5 {
      StreakCounts(world, n, 5);
    }
  }

  lemma OutcomeOfAnswer(a: Attempt, streak: nat, late: bool, end: PollEnd, refusal: bytes, renumber: Renumber)
    requires Answers(a) && !IsRetryableFailure(a) && !Fails(a, refusal)
    requires a.body.Some? && Parse(a.body.value, renumber).Some? ==>
               var task := Parse(a.body.value, renumber).value; Finished(task) <==> IsTerminalStatus(TaskStatus(task))
    ensures Verdict(a, streak, late, renumber) == Some(end) <==>
            Outcome(end, a, streak >= 5, late, refusal, renumber)
    ensures Verdict(a, streak, late, renumber) == None <==> !late && Unfinished(a, renumber)
  {
  }

  lemma OutcomeOfFailure(a: Attempt, streak: nat, late: bool, end: PollEnd, refusal: bytes, renumber: Renumber)
    requires !Answers(a) && (Fails(a, refusal) <==> IsRetryableFailure(a))
    requires a.Response? && a.body.Some? ==>
               (B.Classify(a.status, a.body.value).Some? <==> IsBlock(a.status, a.body.value, refusal))
    ensures Verdict(a, streak, late, renumber) == Some(end) <==>
            Outcome(end, a, streak >= 5, late, refusal, renumber)
    ensures Verdict(a, streak, late, renumber) == None <==> !late && Fails(a, refusal) && streak < 5
  {
  }

  /** The model's decision on one answer is the table above. */
  lemma VerdictIsOutcome(a: Attempt, streak: nat, late: bool, end: PollEnd, refusal: bytes, renumber: Renumber)
    requires IsRefusal(refusal)
    ensures Verdict(a, streak, late, renumber) == Some(end) <==>
            Outcome(end, a, streak >= 5, late, refusal, renumber)
    ensures Verdict(a, streak, late, renumber) == None <==>
            !late && (Unfinished(a, renumber) || (Fails(a, refusal) && streak < 5))
  {
    FailsIs(a, refusal);
    if Answers(a) {
      if a.body.Some? && Parse(a.body.value, renumber).Some? {
        FinishedIs(Parse(a.body.value, renumber).value);
      }
      OutcomeOfAnswer(a, streak, late, end, refusal, renumber);
    } else {
      if a.Response? && a.body.Some? {
        BlockIsClassified(a.status, a.body.value, refusal);
      }
      OutcomeOfFailure(a, streak, late, end, refusal, renumber);
    }
  }

  // ------------------------------------------------------------- main result

  /** After attempt `k` the loop sleeps and asks again. */
  predicate GoesOn(world: nat -> Attempt, clock: nat -> nat, k: nat, refusal: bytes, renumber: Renumber) {
    && !PastDeadline(clock, k)
    && (Unfinished(world(k), renumber) || (Fails(world(k), refusal) && !FiveBefore(world, k + 1, refusal)))
  }

  lemma VerdictAtIs(world: nat -> Attempt, clock: nat -> nat, k: nat, end: PollEnd, refusal: bytes, renumber: Renumber)
    requires IsRefusal(refusal)
    ensures VerdictAt(world, clock, k, renumber) == Some(end) <==>
            Outcome(end, world(k), FiveBefore(world, k + 1, refusal), PastDeadline(clock, k), refusal, renumber)
    ensures VerdictAt(world, clock, k, renumber) == None <==> GoesOn(world, clock, k, refusal, renumber)
  {
    FiveIs(world, k + 1, refusal);
    VerdictIsOutcome(world(k), Streak(world, k + 1), Late(clock, k), end, refusal, renumber);
  }

  /**
   The loop makes `polls` attempts and returns `end` exactly when every attempt
   but the last found an unfinished task or failed short of five in a row, none
   of them past the deadline, and the last one has the outcome `end`.
   */
  lemma LoopEnds(world: nat -> Attempt, clock: nat -> nat, polls: nat, end: PollEnd, refusal: bytes,
        renumber: Renumber)
    requires IsRefusal(refusal) && polls > 0
    ensures RunsFor(world, clock, polls, renumber) && VerdictAt(world, clock, polls - 1, renumber) == Some(end)
            <==>
            && (forall k | 0 <= k < polls - 1 :: GoesOn(world, clock, k, refusal, renumber))
            && Outcome(end, world(polls - 1), FiveBefore(world, polls, refusal), PastDeadline(clock, polls - 1),
                       refusal, renumber)
  {
    forall k: nat | k < polls
      ensures VerdictAt(world, clock, k, renumber) == None <==> GoesOn(world, clock, k, refusal, renumber)
    {
      VerdictAtIs(world, clock, k, end, refusal, renumber);
    }
    VerdictAtIs(world, clock, polls - 1, end, refusal, renumber);
  }
}
