/**
 What `fetch` of `src/cache.rs` answers. Forwards: from every reached state each
 caller can be served, and with what. Backwards: over every run, where the
 answer of a caller comes from.
 */
module FetchAnswers {
  import opened Wrappers
  import opened Bytes
  import opened MemoryCache
  import opened FetchService

  // ------------------------------------------------------------------ forwards

  /**
   The reply that a caller is due, if the disk answers `answer`, a fetch that is
   still to come comes to `outcome`, and the caller does not run out of time.
   */
  function Due(m: Machine, url: bytes, pc: CallerPc, answer: DiskAnswer, outcome: Outcome): Reply {
    match pc
    case AtMemory => if url in m.memory then Image(m.memory[url], true) else DueFromDisk(m, url, answer, outcome)
    case AtDisk => DueFromDisk(m, url, answer, outcome)
    case Warming(value) => Image(value, true)
    case Looking => DueFromOrigin(m, url, outcome)
    case Inserting => DueFromOrigin(m, url, outcome)
    case Spawning(t) => DueFromTask(m, t, outcome)
    case Joining(t) => DueFromTask(m, t, outcome)
    case Subscribed(t, _) => DueFromTask(m, t, outcome)
    case Waiting(t, _) => DueFromTask(m, t, outcome)
    case Woken(t) => DueFromTask(m, t, outcome)
    case Expired(t) => if t in m.tasks && m.tasks[t].result.Some? then ReplyOf(m.tasks[t].result.value) else WaitTimeout
    case DirectFetch => ReplyOf(outcome)
    case Storing(value) => Image(value, false)
    case Saving(value) => Image(value, false)
    case Done(reply, _) => reply
    case Cancelled => WaitTimeout
  }

  function DueFromDisk(m: Machine, url: bytes, answer: DiskAnswer, outcome: Outcome): Reply {
    match answer
    case Found(value) => Image(value, true)
    case Broken(message) => FetchError(message)
    case Missing => DueFromOrigin(m, url, outcome)
  }

  /** Whether it joins a task, starts one or finds no room for one. */
  function DueFromOrigin(m: Machine, url: bytes, outcome: Outcome): Reply {
    if url in m.inflight then DueFromTask(m, m.inflight[url], outcome) else ReplyOf(outcome)
  }

  function DueFromTask(m: Machine, t: nat, outcome: Outcome): Reply {
    if t in m.tasks then ReplyOf(FinalOutcome(m.tasks[t], outcome)) else WaitTimeout
  }

  /** How far a caller is from its answer; a waiting one depends on its task. */
  function Rank(pc: CallerPc): nat {
    match pc
    case AtMemory => 9
    case AtDisk => 8
    case Looking => 7
    case Inserting => 6
    case Spawning(_) => 5
    case Joining(_) => 4
    case DirectFetch => 4
    case Subscribed(_, _) => 3
    case Storing(_) => 3
    case Saving(_) => 2
    case Waiting(_, _) => 1
    case Warming(_) => 1
    case Woken(_) => 1
    case Expired(_) => 1
    case _ => 0
  }

  function NextAction(pc: CallerPc, answer: DiskAnswer, outcome: Outcome, admitted: bool, newTask: nat): CallerAction
    requires Rank(pc) > 0 && !pc.Waiting?
  {
    match pc
    case AtMemory => ProbeMemory
    case AtDisk => ProbeDisk(answer)
    case Warming(_) => Warm(admitted)
    case Looking => LookUp
    case Inserting => Insert(newTask)
    case Spawning(_) => Spawn
    case Joining(_) => Subscribe
    case DirectFetch => FetchDirectly(outcome)
    case Storing(_) => StoreMemory(admitted)
    case Saving(_) => StoreDisk
    case _ => ReadResult
  }

  ghost predicate Nearer(m: Machine, m': Machine, c: nat, answer: DiskAnswer, outcome: Outcome)
    requires c in m.callers
  {
    && c in m'.callers && m'.callers[c].url == m.callers[c].url
    && Rank(m'.callers[c].pc) < Rank(m.callers[c].pc) && !m'.callers[c].pc.Cancelled?
    && Due(m', m.callers[c].url, m'.callers[c].pc, answer, outcome)
       == Due(m, m.callers[c].url, m.callers[c].pc, answer, outcome)
  }

  lemma ProbeNearer(cfg: Config, m: Machine, c: nat, answer: DiskAnswer, outcome: Outcome, admitted: bool,
        newTask: nat)
    requires Inv(cfg, m) && c in m.callers && newTask !in m.tasks && m.callers[c].pc.AtMemory?
    ensures var next := ActCaller(cfg, m, c, NextAction(m.callers[c].pc, answer, outcome, admitted, newTask));
            next.Some? && Nearer(m, next.value, c, answer, outcome)
  {
  }

  lemma DiskNearer(cfg: Config, m: Machine, c: nat, answer: DiskAnswer, outcome: Outcome, admitted: bool,
        newTask: nat)
    requires Inv(cfg, m) && c in m.callers && newTask !in m.tasks && m.callers[c].pc.AtDisk?
    ensures var next := ActCaller(cfg, m, c, NextAction(m.callers[c].pc, answer, outcome, admitted, newTask));
            next.Some? && Nearer(m, next.value, c, answer, outcome)
  {
  }

  lemma WarmNearer(cfg: Config, m: Machine, c: nat, answer: DiskAnswer, outcome: Outcome, admitted: bool,
        newTask: nat)
    requires Inv(cfg, m) && c in m.callers && newTask !in m.tasks && m.callers[c].pc.Warming?
    ensures var next := ActCaller(cfg, m, c, NextAction(m.callers[c].pc, answer, outcome, admitted, newTask));
            next.Some? && Nearer(m, next.value, c, answer, outcome)
  {
  }

  lemma LookNearer(cfg: Config, m: Machine, c: nat, answer: DiskAnswer, outcome: Outcome, admitted: bool,
        newTask: nat)
    requires Inv(cfg, m) && c in m.callers && newTask !in m.tasks && m.callers[c].pc.Looking?
    ensures var next := ActCaller(cfg, m, c, NextAction(m.callers[c].pc, answer, outcome, admitted, newTask));
            next.Some? && Nearer(m, next.value, c, answer, outcome)
  {
  }

  lemma InsertJoinNearer(cfg: Config, m: Machine, c: nat, answer: DiskAnswer, outcome: Outcome, admitted: bool,
        newTask: nat)
    requires Inv(cfg, m) && c in m.callers && newTask !in m.tasks && m.callers[c].pc.Inserting?
             && m.callers[c].url in m.inflight
    ensures var next := ActCaller(cfg, m, c, NextAction(m.callers[c].pc, answer, outcome, admitted, newTask));
            next.Some? && Nearer(m, next.value, c, answer, outcome)
  {
    assert ActCaller(cfg, m, c, Insert(newTask)) == Some(Move(m, c, Joining(m.inflight[m.callers[c].url])));
  }

  lemma InsertFullNearer(cfg: Config, m: Machine, c: nat, answer: DiskAnswer, outcome: Outcome, admitted: bool,
        newTask: nat)
    requires Inv(cfg, m) && c in m.callers && newTask !in m.tasks && m.callers[c].pc.Inserting?
             && m.callers[c].url !in m.inflight && |m.inflight| >= cfg.maxInflight
    ensures var next := ActCaller(cfg, m, c, NextAction(m.callers[c].pc, answer, outcome, admitted, newTask));
            next.Some? && Nearer(m, next.value, c, answer, outcome)
  {
    assert ActCaller(cfg, m, c, Insert(newTask)) == Some(Move(m, c, DirectFetch));
  }

  lemma InsertNewNearer(cfg: Config, m: Machine, c: nat, answer: DiskAnswer, outcome: Outcome, admitted: bool,
        newTask: nat)
    requires Inv(cfg, m) && c in m.callers && newTask !in m.tasks && m.callers[c].pc.Inserting?
             && m.callers[c].url !in m.inflight && |m.inflight| < cfg.maxInflight
    ensures var next := ActCaller(cfg, m, c, NextAction(m.callers[c].pc, answer, outcome, admitted, newTask));
            next.Some? && Nearer(m, next.value, c, answer, outcome)
  {
    assert ActCaller(cfg, m, c, Insert(newTask)) == Some(Inserted(m, c, newTask));
  }

  lemma SpawnNearer(cfg: Config, m: Machine, c: nat, answer: DiskAnswer, outcome: Outcome, admitted: bool,
        newTask: nat)
    requires Inv(cfg, m) && c in m.callers && newTask !in m.tasks && m.callers[c].pc.Spawning?
    ensures var next := ActCaller(cfg, m, c, NextAction(m.callers[c].pc, answer, outcome, admitted, newTask));
            next.Some? && Nearer(m, next.value, c, answer, outcome)
  {
    assert CallerOk(m, m.callers[c], c) && TaskOk(m, m.callers[c].pc.task);
  }

  lemma SubscribeNearer(cfg: Config, m: Machine, c: nat, answer: DiskAnswer, outcome: Outcome, admitted: bool,
        newTask: nat)
    requires Inv(cfg, m) && c in m.callers && newTask !in m.tasks && m.callers[c].pc.Joining?
    ensures var next := ActCaller(cfg, m, c, NextAction(m.callers[c].pc, answer, outcome, admitted, newTask));
            next.Some? && Nearer(m, next.value, c, answer, outcome)
  {
    assert CallerOk(m, m.callers[c], c) && TaskOk(m, m.callers[c].pc.task);
  }

  lemma ReadNearer(cfg: Config, m: Machine, c: nat, answer: DiskAnswer, outcome: Outcome, admitted: bool,
        newTask: nat)
    requires Inv(cfg, m) && c in m.callers && newTask !in m.tasks && m.callers[c].pc.Subscribed?
    ensures var next := ActCaller(cfg, m, c, NextAction(m.callers[c].pc, answer, outcome, admitted, newTask));
            next.Some? && Nearer(m, next.value, c, answer, outcome)
  {
    assert CallerOk(m, m.callers[c], c) && TaskOk(m, m.callers[c].pc.task);
  }

  lemma WokenNearer(cfg: Config, m: Machine, c: nat, answer: DiskAnswer, outcome: Outcome, admitted: bool,
        newTask: nat)
    requires Inv(cfg, m) && c in m.callers && newTask !in m.tasks && m.callers[c].pc.Woken?
    ensures var next := ActCaller(cfg, m, c, NextAction(m.callers[c].pc, answer, outcome, admitted, newTask));
            next.Some? && Nearer(m, next.value, c, answer, outcome)
  {
    assert CallerOk(m, m.callers[c], c) && TaskOk(m, m.callers[c].pc.task);
  }

  lemma ExpiredNearer(cfg: Config, m: Machine, c: nat, answer: DiskAnswer, outcome: Outcome, admitted: bool,
        newTask: nat)
    requires Inv(cfg, m) && c in m.callers && newTask !in m.tasks && m.callers[c].pc.Expired?
    ensures var next := ActCaller(cfg, m, c, NextAction(m.callers[c].pc, answer, outcome, admitted, newTask));
            next.Some? && Nearer(m, next.value, c, answer, outcome)
  {
    assert CallerOk(m, m.callers[c], c) && TaskOk(m, m.callers[c].pc.task);
  }

  lemma FetchNearer(cfg: Config, m: Machine, c: nat, answer: DiskAnswer, outcome: Outcome, admitted: bool,
        newTask: nat)
    requires Inv(cfg, m) && c in m.callers && newTask !in m.tasks && m.callers[c].pc.DirectFetch?
    ensures var next := ActCaller(cfg, m, c, NextAction(m.callers[c].pc, answer, outcome, admitted, newTask));
            next.Some? && Nearer(m, next.value, c, answer, outcome)
  {
  }

  lemma StoreNearer(cfg: Config, m: Machine, c: nat, answer: DiskAnswer, outcome: Outcome, admitted: bool,
        newTask: nat)
    requires Inv(cfg, m) && c in m.callers && newTask !in m.tasks
    requires m.callers[c].pc.Storing? || m.callers[c].pc.Saving?
    ensures var next := ActCaller(cfg, m, c, NextAction(m.callers[c].pc, answer, outcome, admitted, newTask));
            next.Some? && Nearer(m, next.value, c, answer, outcome)
  {
  }

  lemma StepNearerToAnswer(cfg: Config, m: Machine, c: nat, answer: DiskAnswer, outcome: Outcome, admitted: bool,
        newTask: nat)
    requires Inv(cfg, m) && c in m.callers && newTask !in m.tasks
    requires Rank(m.callers[c].pc) > 0 && !m.callers[c].pc.Waiting?
    ensures var next := ActCaller(cfg, m, c, NextAction(m.callers[c].pc, answer, outcome, admitted, newTask));
            next.Some? && Nearer(m, next.value, c, answer, outcome)
  {
    match m.callers[c].pc
    case AtMemory => ProbeNearer(cfg, m, c, answer, outcome, admitted, newTask);
    case AtDisk => DiskNearer(cfg, m, c, answer, outcome, admitted, newTask);
    case Warming(_) => WarmNearer(cfg, m, c, answer, outcome, admitted, newTask);
    case Looking => LookNearer(cfg, m, c, answer, outcome, admitted, newTask);
    case Inserting =>
      if m.callers[c].url in m.inflight {
        InsertJoinNearer(cfg, m, c, answer, outcome, admitted, newTask);
      } else if |m.inflight| >= cfg.maxInflight {
        InsertFullNearer(cfg, m, c, answer, outcome, admitted, newTask);
      } else {
        InsertNewNearer(cfg, m, c, answer, outcome, admitted, newTask);
      }
    case Spawning(_) => SpawnNearer(cfg, m, c, answer, outcome, admitted, newTask);
    case Joining(_) => SubscribeNearer(cfg, m, c, answer, outcome, admitted, newTask);
    case Subscribed(_, _) => ReadNearer(cfg, m, c, answer, outcome, admitted, newTask);
    case Woken(_) => WokenNearer(cfg, m, c, answer, outcome, admitted, newTask);
    case Expired(_) => ExpiredNearer(cfg, m, c, answer, outcome, admitted, newTask);
    case DirectFetch => FetchNearer(cfg, m, c, answer, outcome, admitted, newTask);
    case Storing(_) => StoreNearer(cfg, m, c, answer, outcome, admitted, newTask);
    case Saving(_) => StoreNearer(cfg, m, c, answer, outcome, admitted, newTask);
  }

  lemma {:induction false} FreshTask(tasks: map<nat, Task>) returns (t: nat)
    ensures t !in tasks && forall s | s in tasks :: s < t
    decreases |tasks|
  {
    t := 0;
    if tasks != map[] {
      assert tasks.Keys != {};
      var s :| s in tasks;
      assert (tasks - {s}).Keys == tasks.Keys - {s};
      var u := FreshTask(tasks - {s});
      t := if u <= s then s + 1 else u;
      forall r | r in tasks ensures r < t {
        assert r == s || r in tasks - {s};
      }
    }
  }

  lemma {:induction false} ServedFrom(cfg: Config, m: Machine, c: nat, answer: DiskAnswer, outcome: Outcome,
        admitted: bool)
    returns (events: seq<Event>, end: Machine)
    requires Inv(cfg, m) && c in m.callers && !m.callers[c].pc.Cancelled?
    ensures RunAll(cfg, m, events) == Some(end) && c in end.callers && end.callers[c].pc.Done?
    ensures end.callers[c].pc.reply == Due(m, m.callers[c].url, m.callers[c].pc, answer, outcome)
    decreases Rank(m.callers[c].pc)
  {
    var pc := m.callers[c].pc;
    if pc.Done? {
      events, end := [], m;
    } else if pc.Waiting? {
      assert CallerOk(m, m.callers[c], c);
      events, end := WaiterIsServedFrom(cfg, m, c, pc.task, outcome);
    } else {
      var newTask := FreshTask(m.tasks);
      var e := Act(c, NextAction(pc, answer, outcome, admitted, newTask));
      StepNearerToAnswer(cfg, m, c, answer, outcome, admitted, newTask);
      StepKeeps(cfg, m, e);
      var rest;
      rest, end := ServedFrom(cfg, Step(cfg, m, e).value, c, answer, outcome, admitted);
      RunFrom(cfg, m, e, rest);
      events := [e] + rest;
    }
  }

  /**
   From every reached state and at every point of `fetch`, a caller that was not
   dropped can be answered, with what it is due: what memory holds, what the
   disk answers, what the task in flight for its URL publishes, and what a fetch
   comes to when there is no such task, whether it has room to start one or
   fetches by itself.
   */
  lemma CallerIsServed(cfg: Config, before: seq<Event>, m: Machine, c: nat, answer: DiskAnswer, outcome: Outcome)
    returns (events: seq<Event>, end: Machine)
    requires Reached(cfg, before, m) && c in m.callers && !m.callers[c].pc.Cancelled?
    ensures RunAll(cfg, m, events) == Some(end) && c in end.callers && end.callers[c].pc.Done?
    ensures end.callers[c].pc.reply == Due(m, m.callers[c].url, m.callers[c].pc, answer, outcome)
  {
    ReachedInv(cfg, before, m);
    events, end := ServedFrom(cfg, m, c, answer, outcome, true);
  }

  /** The steps of a caller that finds `inflight` full. */
  function DirectSteps(c: nat, outcome: Outcome, admitted: bool): seq<Event> {
    [Act(c, Insert(0)), Act(c, FetchDirectly(outcome))]
    + if outcome.Ok? then [Act(c, StoreMemory(admitted)), Act(c, StoreDisk)] else []
  }

  /** The memory afterwards: an image is put there if it is admitted. */
  function Warmed(memory: map<bytes, CachedInlineData>, url: bytes, outcome: Outcome, admitted: bool)
    : map<bytes, CachedInlineData>
  {
    if outcome.Ok? && admitted then memory[url := outcome.value] else memory
  }

  lemma MovedTwice(m: Machine, c: nat, pc: CallerPc, pc': CallerPc)
    requires c in m.callers
    ensures Move(Move(m, c, pc), c, pc') == Move(m, c, pc')
  {
  }

  lemma TwoSteps(cfg: Config, m: Machine, e: Event, m1: Machine, f: Event, m2: Machine, rest: seq<Event>)
    requires Step(cfg, m, e) == Some(m1) && Step(cfg, m1, f) == Some(m2)
    ensures RunAll(cfg, m, [e, f] + rest) == RunAll(cfg, m2, rest)
  {
    assert [e, f] + rest == [e] + ([f] + rest);
    RunFrom(cfg, m, e, [f] + rest);
    RunFrom(cfg, m1, f, rest);
  }

  lemma StoresAndAnswers(cfg: Config, m: Machine, c: nat, value: CachedInlineData, admitted: bool)
    requires c in m.callers && m.callers[c].pc == Storing(value)
    ensures var warm := m.(memory := Warmed(m.memory, m.callers[c].url, Ok(value), admitted));
            RunAll(cfg, m, [Act(c, StoreMemory(admitted)), Act(c, StoreDisk)]) ==
            Some(Move(warm, c, Done(Image(value, false), Direct)))
  {
    var e, f := Act(c, StoreMemory(admitted)), Act(c, StoreDisk);
    var warm := PutMemory(m, m.callers[c].url, value, admitted);
    var saving := Move(warm, c, Saving(value));
    MovedTwice(warm, c, Saving(value), Done(Image(value, false), Direct));
    assert Step(cfg, m, e) == Some(saving);
    assert Step(cfg, saving, f) == Some(Move(saving, c, Done(Image(value, false), Direct)));
    TwoSteps(cfg, m, e, saving, f, Move(warm, c, Done(Image(value, false), Direct)), []);
    assert [e, f] + [] == [e, f];
  }

  /** Insert in vain, then fetch. */
  lemma FetchesDirectly(cfg: Config, m: Machine, c: nat, outcome: Outcome, rest: seq<Event>)
    requires c in m.callers && m.callers[c].pc.Inserting?
    requires m.callers[c].url !in m.inflight && |m.inflight| >= cfg.maxInflight
    ensures RunAll(cfg, m, [Act(c, Insert(0)), Act(c, FetchDirectly(outcome))] + rest) ==
            RunAll(cfg, Move(Record(m, m.callers[c].url, outcome), c, AfterDirect(outcome)), rest)
  {
    var insert, fetch := Act(c, Insert(0)), Act(c, FetchDirectly(outcome));
    var m1, recorded := Move(m, c, DirectFetch), Record(m, m.callers[c].url, outcome);
    assert Step(cfg, m, insert) == Some(m1);
    assert Record(m1, m.callers[c].url, outcome) == Move(recorded, c, DirectFetch);
    MovedTwice(recorded, c, DirectFetch, AfterDirect(outcome));
    TwoSteps(cfg, m, insert, m1, fetch, Move(recorded, c, AfterDirect(outcome)), rest);
  }

  /**
   A caller that comes to insert a task and finds the URL in no task and
   `inflight` full, as it always is with a limit of zero, fetches by itself: it
   is answered by what that comes to, and an image is put into memory if it is
   admitted there; no task is touched.
   */
  lemma FullIsFetchedDirectly(cfg: Config, m: Machine, c: nat, outcome: Outcome, admitted: bool)
    requires c in m.callers && m.callers[c].pc.Inserting?
    requires m.callers[c].url !in m.inflight && |m.inflight| >= cfg.maxInflight
    ensures var url := m.callers[c].url;
            RunAll(cfg, m, DirectSteps(c, outcome, admitted)) ==
            Some(m.(memory := Warmed(m.memory, url, outcome, admitted),
                    callers := m.callers[c := Caller(url, Done(ReplyOf(outcome), Direct))],
                    fetched := m.fetched + if outcome.Ok? then {(url, outcome.value)} else {}))
  {
    var url := m.callers[c].url;
    match outcome {
      case Ok(value) =>
        var recorded := Record(m, url, outcome);
        var storing := Move(recorded, c, Storing(value));
        FetchesDirectly(cfg, m, c, outcome, [Act(c, StoreMemory(admitted)), Act(c, StoreDisk)]);
        StoresAndAnswers(cfg, storing, c, value, admitted);
        var answered := Caller(url, Done(ReplyOf(outcome), Direct));
        assert m.callers[c := Caller(url, Storing(value))][c := answered] == m.callers[c := answered];
      case Err(message) =>
        FetchesDirectly(cfg, m, c, outcome, []);
        assert m.fetched + {} == m.fetched;
    }
  }

  /** So for a caller that has yet to look `inflight` up. */
  lemma LookingIsFetchedDirectly(cfg: Config, m: Machine, c: nat, outcome: Outcome, admitted: bool)
    requires c in m.callers && m.callers[c].pc.Looking?
    requires m.callers[c].url !in m.inflight && |m.inflight| >= cfg.maxInflight
    ensures RunAll(cfg, m, [Act(c, LookUp)] + DirectSteps(c, outcome, admitted)) ==
            RunAll(cfg, Move(m, c, Inserting), DirectSteps(c, outcome, admitted))
    ensures var end := RunAll(cfg, m, [Act(c, LookUp)] + DirectSteps(c, outcome, admitted));
            && end.Some? && c in end.value.callers && end.value.callers[c].pc == Done(ReplyOf(outcome), Direct)
            && end.value.memory == Warmed(m.memory, m.callers[c].url, outcome, admitted)
  {
    assert Step(cfg, m, Act(c, LookUp)) == Some(Move(m, c, Inserting));
    RunFrom(cfg, m, Act(c, LookUp), DirectSteps(c, outcome, admitted));
    FullIsFetchedDirectly(cfg, Move(m, c, Inserting), c, outcome, admitted);
  }

  // ------------------------------------------------------------------- the task

  function TaskSteps(t: nat, outcome: Outcome, admitted: bool): seq<Event> {
    [Run(t, FetchDone(outcome)), Run(t, Publish)] + ([Run(t, NotifyWaiters), Run(t, Remove)]
    + if outcome.Ok? then [Run(t, TaskStoreMemory(admitted)), Run(t, TaskStoreDisk)] else [])
  }

  lemma TaskPublishes(cfg: Config, m: Machine, t: nat, outcome: Outcome, rest: seq<Event>)
    requires t in m.tasks && m.tasks[t].pc.Running?
    ensures RunAll(cfg, m, [Run(t, FetchDone(outcome)), Run(t, Publish)] + rest) ==
            RunAll(cfg, SetTask(Record(m, m.tasks[t].url, outcome), t,
                                m.tasks[t].(pc := Published, result := Some(outcome))), rest)
  {
    var task, recorded := m.tasks[t], Record(m, m.tasks[t].url, outcome);
    var m1 := SetTask(recorded, t, task.(pc := Fetched(outcome)));
    var m2 := SetTask(recorded, t, task.(pc := Published, result := Some(outcome)));
    assert m1.tasks[t := task.(pc := Published, result := Some(outcome))] == m2.tasks;
    assert Step(cfg, m, Run(t, FetchDone(outcome))) == Some(m1);
    assert Step(cfg, m1, Run(t, Publish)) == Some(m2);
    TwoSteps(cfg, m, Run(t, FetchDone(outcome)), m1, Run(t, Publish), m2, rest);
  }

  lemma TaskLeaves(cfg: Config, m: Machine, t: nat, outcome: Outcome, rest: seq<Event>)
    requires t in m.tasks && m.tasks[t].pc.Published? && m.tasks[t].result == Some(outcome)
    ensures var task := m.tasks[t].(generation := m.tasks[t].generation + 1);
            RunAll(cfg, m, [Run(t, NotifyWaiters), Run(t, Remove)] + rest) ==
            RunAll(cfg, SetTask(m, t, task.(pc := if outcome.Ok? then Removed else Finished))
                        .(inflight := m.inflight - {m.tasks[t].url}), rest)
  {
    var task := m.tasks[t].(generation := m.tasks[t].generation + 1);
    var left := task.(pc := if outcome.Ok? then Removed else Finished);
    var m1 := SetTask(m, t, task.(pc := Notified));
    var m2 := SetTask(m, t, left).(inflight := m.inflight - {m.tasks[t].url});
    assert m1.tasks[t := left] == m2.tasks;
    assert Step(cfg, m, Run(t, NotifyWaiters)) == Some(m1);
    assert Step(cfg, m1, Run(t, Remove)) == Some(m2);
    TwoSteps(cfg, m, Run(t, NotifyWaiters), m1, Run(t, Remove), m2, rest);
  }

  lemma TaskStores(cfg: Config, m: Machine, t: nat, value: CachedInlineData, admitted: bool)
    requires t in m.tasks && m.tasks[t].pc.Removed? && m.tasks[t].result == Some(Ok(value))
    ensures RunAll(cfg, m, [Run(t, TaskStoreMemory(admitted)), Run(t, TaskStoreDisk)]) ==
            Some(SetTask(m.(memory := Warmed(m.memory, m.tasks[t].url, Ok(value), admitted)), t,
                         m.tasks[t].(pc := Finished)))
  {
    var task := m.tasks[t];
    var warm := PutMemory(m, task.url, value, admitted);
    var m1, m2 := SetTask(warm, t, task.(pc := InMemory)), SetTask(warm, t, task.(pc := Finished));
    assert m1.tasks[t := task.(pc := Finished)] == m2.tasks;
    assert Step(cfg, m, Run(t, TaskStoreMemory(admitted))) == Some(m1);
    assert Step(cfg, m1, Run(t, TaskStoreDisk)) == Some(m2);
    TwoSteps(cfg, m, Run(t, TaskStoreMemory(admitted)), m1, Run(t, TaskStoreDisk), m2, []);
    assert [Run(t, TaskStoreMemory(admitted)), Run(t, TaskStoreDisk)] + [] ==
           [Run(t, TaskStoreMemory(admitted)), Run(t, TaskStoreDisk)];
  }

  /**
   A running task can go on to its end by itself: its result is what the fetch
   came to, its waiters are notified once, its URL leaves `inflight`, an image is
   put into memory if it is admitted there, and no caller is touched.
   */
  lemma TaskRunsToItsEnd(cfg: Config, m: Machine, t: nat, outcome: Outcome, admitted: bool)
    requires t in m.tasks && m.tasks[t].pc.Running?
    ensures var end := RunAll(cfg, m, TaskSteps(t, outcome, admitted));
            && end.Some? && t in end.value.tasks
            && end.value.tasks[t] == Task(m.tasks[t].url, Finished, Some(outcome), m.tasks[t].generation + 1)
            && end.value.inflight == m.inflight - {m.tasks[t].url}
            && end.value.memory == Warmed(m.memory, m.tasks[t].url, outcome, admitted)
            && end.value.callers == m.callers
  {
    var url := m.tasks[t].url;
    var m1 := SetTask(Record(m, url, outcome), t, m.tasks[t].(pc := Published, result := Some(outcome)));
    var stores := if outcome.Ok? then [Run(t, TaskStoreMemory(admitted)), Run(t, TaskStoreDisk)] else [];
    TaskPublishes(cfg, m, t, outcome, [Run(t, NotifyWaiters), Run(t, Remove)] + stores);
    TaskLeaves(cfg, m1, t, outcome, stores);
    var task := m1.tasks[t].(generation := m1.tasks[t].generation + 1);
    var m2 := SetTask(m1, t, task.(pc := if outcome.Ok? then Removed else Finished)).(inflight := m1.inflight - {url});
    assert RunAll(cfg, m, TaskSteps(t, outcome, admitted)) == RunAll(cfg, m2, stores);
    if outcome.Ok? {
      TaskStores(cfg, m2, t, outcome.value, admitted);
    }
  }

  // ----------------------------------------------------------------- backwards

  /** The state before the `i`-th event. */
  function StateAt(cfg: Config, events: seq<Event>, i: nat): Option<Machine>
    requires i <= |events|
  {
    RunAll(cfg, INITIAL, events[..i])
  }

  /** The `i`-th event is `e`, and the process has not been restarted since. */
  ghost predicate HappenedAt(events: seq<Event>, i: nat, e: Event) {
    i < |events| && events[i] == e && forall j | i < j < |events| :: !events[j].Restart?
  }

  ghost predicate Happened(events: seq<Event>, e: Event) {
    exists i :: HappenedAt(events, i, e)
  }

  /** It probed memory when the URL was there. */
  ghost predicate HitMemory(cfg: Config, events: seq<Event>, c: nat, url: bytes, reply: Reply) {
    exists i: nat ::
      && HappenedAt(events, i, Act(c, ProbeMemory)) && StateAt(cfg, events, i).Some?
      && var m := StateAt(cfg, events, i).value; url in m.memory && reply == Image(m.memory[url], true)
  }

  /** It ran out of time, and then read that its task had no result yet. */
  ghost predicate RanOutOfTime(cfg: Config, events: seq<Event>, c: nat, t: nat) {
    && Happened(events, Act(c, TimeOut))
    && exists i: nat ::
         && HappenedAt(events, i, Act(c, ReadResult)) && StateAt(cfg, events, i).Some?
         && var m := StateAt(cfg, events, i).value; t in m.tasks && m.tasks[t].result.None?
  }

  /** What a caller's point in the program says about what it did. */
  ghost predicate Earned(cfg: Config, events: seq<Event>, c: nat, caller: Caller) {
    match caller.pc
    case Warming(value) => Happened(events, Act(c, ProbeDisk(Found(value))))
    case Storing(value) => Happened(events, Act(c, FetchDirectly(Ok(value))))
    case Saving(value) => Happened(events, Act(c, FetchDirectly(Ok(value))))
    case Expired(_) => Happened(events, Act(c, TimeOut))
    case Done(reply, Cache) => HitMemory(cfg, events, c, caller.url, reply) || HitDisk(events, c, reply)
    case Done(reply, Direct) => FetchedItself(events, c, reply)
    case Done(reply, Joined(t)) => reply == WaitTimeout ==> RanOutOfTime(cfg, events, c, t)
    case _ => true
  }

  /** The disk answered its probe with this image, or with this error. */
  ghost predicate HitDisk(events: seq<Event>, c: nat, reply: Reply) {
    match reply
    case Image(value, fromCache) => fromCache && Happened(events, Act(c, ProbeDisk(Found(value))))
    case FetchError(message) => Happened(events, Act(c, ProbeDisk(Broken(message))))
    case _ => false
  }

  /** The reply is what its own fetch came to. */
  ghost predicate FetchedItself(events: seq<Event>, c: nat, reply: Reply) {
    match reply
    case Image(value, fromCache) => !fromCache && Happened(events, Act(c, FetchDirectly(Ok(value))))
    case FetchError(message) => Happened(events, Act(c, FetchDirectly(Err(message))))
    case _ => false
  }

  lemma JustHappened(events: seq<Event>, e: Event)
    ensures HappenedAt(events + [e], |events|, e) && Happened(events + [e], e)
  {
    assert HappenedAt(events + [e], |events|, e);
  }

  lemma HappenedStays(events: seq<Event>, e: Event, f: Event)
    requires Happened(events, f) && !e.Restart?
    ensures Happened(events + [e], f)
  {
    var i :| HappenedAt(events, i, f);
    assert HappenedAt(events + [e], i, f);
  }

  lemma StateStays(cfg: Config, events: seq<Event>, e: Event, i: nat)
    requires i <= |events|
    ensures StateAt(cfg, events + [e], i) == StateAt(cfg, events, i)
  {
    assert (events + [e])[..i] == events[..i];
  }

  lemma HitMemoryStays(cfg: Config, events: seq<Event>, e: Event, c: nat, url: bytes, reply: Reply)
    requires HitMemory(cfg, events, c, url, reply) && !e.Restart?
    ensures HitMemory(cfg, events + [e], c, url, reply)
  {
    var i: nat :|
      && HappenedAt(events, i, Act(c, ProbeMemory)) && StateAt(cfg, events, i).Some?
      && var m := StateAt(cfg, events, i).value; url in m.memory && reply == Image(m.memory[url], true);
    StateStays(cfg, events, e, i);
    assert HappenedAt(events + [e], i, Act(c, ProbeMemory));
  }

  lemma RanOutStays(cfg: Config, events: seq<Event>, e: Event, c: nat, t: nat)
    requires RanOutOfTime(cfg, events, c, t) && !e.Restart?
    ensures RanOutOfTime(cfg, events + [e], c, t)
  {
    HappenedStays(events, e, Act(c, TimeOut));
    var i: nat :|
      && HappenedAt(events, i, Act(c, ReadResult)) && StateAt(cfg, events, i).Some?
      && var m := StateAt(cfg, events, i).value; t in m.tasks && m.tasks[t].result.None?;
    StateStays(cfg, events, e, i);
    assert HappenedAt(events + [e], i, Act(c, ReadResult));
  }

  lemma EarnedStays(cfg: Config, events: seq<Event>, e: Event, c: nat, caller: Caller)
    requires Earned(cfg, events, c, caller) && !e.Restart?
    ensures Earned(cfg, events + [e], c, caller)
  {
    match caller.pc
    case Warming(value) => HappenedStays(events, e, Act(c, ProbeDisk(Found(value))));
    case Storing(value) => HappenedStays(events, e, Act(c, FetchDirectly(Ok(value))));
    case Saving(value) => HappenedStays(events, e, Act(c, FetchDirectly(Ok(value))));
    case Expired(_) => HappenedStays(events, e, Act(c, TimeOut));
    case Done(reply, origin) => AnswerStays(cfg, events, e, c, caller, reply, origin);
    case _ =>
  }

  lemma AnswerStays(cfg: Config, events: seq<Event>, e: Event, c: nat, caller: Caller, reply: Reply, origin: Origin)
    requires caller.pc == Done(reply, origin) && Earned(cfg, events, c, caller) && !e.Restart?
    ensures Earned(cfg, events + [e], c, caller)
  {
    match origin {
      case Cache =>
        if HitMemory(cfg, events, c, caller.url, reply) {
          HitMemoryStays(cfg, events, e, c, caller.url, reply);
        } else {
          HitDiskStays(events, e, c, reply);
        }
      case Direct => FetchedItselfStays(events, e, c, reply);
      case Joined(t) =>
        if reply == WaitTimeout {
          RanOutStays(cfg, events, e, c, t);
        }
    }
  }

  lemma HitDiskStays(events: seq<Event>, e: Event, c: nat, reply: Reply)
    requires HitDisk(events, c, reply) && !e.Restart?
    ensures HitDisk(events + [e], c, reply)
  {
    match reply
    case Image(value, _) => HappenedStays(events, e, Act(c, ProbeDisk(Found(value))));
    case FetchError(message) => HappenedStays(events, e, Act(c, ProbeDisk(Broken(message))));
  }

  lemma FetchedItselfStays(events: seq<Event>, e: Event, c: nat, reply: Reply)
    requires FetchedItself(events, c, reply) && !e.Restart?
    ensures FetchedItself(events + [e], c, reply)
  {
    match reply
    case Image(value, _) => HappenedStays(events, e, Act(c, FetchDirectly(Ok(value))));
    case FetchError(message) => HappenedStays(events, e, Act(c, FetchDirectly(Err(message))));
  }

  /** Nobody but the caller itself moves it on. */
  lemma OthersStay(cfg: Config, m: Machine, e: Event, c: nat)
    requires Step(cfg, m, e).Some? && !e.Restart? && c in Step(cfg, m, e).value.callers
    requires !(e.Act? && e.caller == c)
    ensures c in m.callers ==> Step(cfg, m, e).value.callers[c] == m.callers[c]
    ensures c !in m.callers ==> Step(cfg, m, e).value.callers[c].pc == AtMemory
  {
    match e
    case Act(d, a) => ActMovesItself(cfg, m, d, a, c);
    case Run(t, a) => RunMovesNobody(cfg, m, t, a);
    case _ =>
  }

  lemma ActMovesItself(cfg: Config, m: Machine, d: nat, a: CallerAction, c: nat)
    requires d in m.callers && ActCaller(cfg, m, d, a).Some? && c != d
    ensures var m' := ActCaller(cfg, m, d, a).value;
            m'.callers.Keys == m.callers.Keys && (c in m.callers ==> m'.callers[c] == m.callers[c])
  {
    assert m.callers.Keys + {d} == m.callers.Keys;
  }

  lemma RunMovesNobody(cfg: Config, m: Machine, t: nat, a: TaskAction)
    requires t in m.tasks && RunTask(cfg, m, t, a).Some?
    ensures RunTask(cfg, m, t, a).value.callers == m.callers
  {
  }

  // ------------------------------------------------- each step earns what it leads to

  lemma ProbeMemoryEarns(cfg: Config, events: seq<Event>, m: Machine, c: nat)
    requires RunAll(cfg, INITIAL, events) == Some(m) && c in m.callers && ActCaller(cfg, m, c, ProbeMemory).Some?
    ensures var m' := ActCaller(cfg, m, c, ProbeMemory).value;
            c in m'.callers && Earned(cfg, events + [Act(c, ProbeMemory)], c, m'.callers[c])
  {
    var e := Act(c, ProbeMemory);
    JustHappened(events, e);
    StateStays(cfg, events, e, |events|);
    assert events[..|events|] == events;
    assert m.callers[c].pc.AtMemory?;
    var url := m.callers[c].url;
    if url in m.memory {
      assert HitMemory(cfg, events + [e], c, url, Image(m.memory[url], true));
    }
  }

  lemma ProbeDiskEarns(cfg: Config, events: seq<Event>, m: Machine, c: nat, answer: DiskAnswer)
    requires c in m.callers && ActCaller(cfg, m, c, ProbeDisk(answer)).Some?
    ensures var m' := ActCaller(cfg, m, c, ProbeDisk(answer)).value;
            c in m'.callers && Earned(cfg, events + [Act(c, ProbeDisk(answer))], c, m'.callers[c])
  {
    JustHappened(events, Act(c, ProbeDisk(answer)));
  }

  lemma FetchEarns(cfg: Config, events: seq<Event>, m: Machine, c: nat, outcome: Outcome)
    requires c in m.callers && ActCaller(cfg, m, c, FetchDirectly(outcome)).Some?
    ensures var m' := ActCaller(cfg, m, c, FetchDirectly(outcome)).value;
            c in m'.callers && Earned(cfg, events + [Act(c, FetchDirectly(outcome))], c, m'.callers[c])
  {
    JustHappened(events, Act(c, FetchDirectly(outcome)));
  }

  /** The steps with an image at hand go on with that image. */
  lemma ImageEarns(cfg: Config, events: seq<Event>, m: Machine, c: nat, a: CallerAction)
    requires c in m.callers && ActCaller(cfg, m, c, a).Some? && (a.Warm? || a.StoreMemory? || a.StoreDisk?)
    requires Earned(cfg, events, c, m.callers[c])
    ensures var m' := ActCaller(cfg, m, c, a).value;
            c in m'.callers && Earned(cfg, events + [Act(c, a)], c, m'.callers[c])
  {
    EarnedStays(cfg, events, Act(c, a), c, m.callers[c]);
  }

  lemma TimeOutEarns(cfg: Config, events: seq<Event>, m: Machine, c: nat)
    requires c in m.callers && ActCaller(cfg, m, c, TimeOut).Some?
    ensures var m' := ActCaller(cfg, m, c, TimeOut).value;
            c in m'.callers && Earned(cfg, events + [Act(c, TimeOut)], c, m'.callers[c])
  {
    JustHappened(events, Act(c, TimeOut));
  }

  /** No outcome of a fetch is a timeout of the wait. */
  lemma ReadEarns(cfg: Config, events: seq<Event>, m: Machine, c: nat)
    requires RunAll(cfg, INITIAL, events) == Some(m) && c in m.callers && ActCaller(cfg, m, c, ReadResult).Some?
    requires Earned(cfg, events, c, m.callers[c])
    ensures var m' := ActCaller(cfg, m, c, ReadResult).value;
            c in m'.callers && Earned(cfg, events + [Act(c, ReadResult)], c, m'.callers[c])
  {
    var e, pc := Act(c, ReadResult), m.callers[c].pc;
    JustHappened(events, e);
    StateStays(cfg, events, e, |events|);
    assert events[..|events|] == events;
    if pc.Expired? && m.tasks[pc.task].result.None? {
      HappenedStays(events, e, Act(c, TimeOut));
      assert RanOutOfTime(cfg, events + [e], c, pc.task);
    }
  }

  lemma OtherEarns(cfg: Config, events: seq<Event>, m: Machine, c: nat, a: CallerAction)
    requires c in m.callers && ActCaller(cfg, m, c, a).Some?
    requires a.LookUp? || a.Insert? || a.Spawn? || a.Subscribe? || a.Wake? || a.Cancel?
    ensures var m' := ActCaller(cfg, m, c, a).value;
            c in m'.callers && Earned(cfg, events + [Act(c, a)], c, m'.callers[c])
  {
  }

  lemma ActEarns(cfg: Config, events: seq<Event>, m: Machine, c: nat, a: CallerAction)
    requires RunAll(cfg, INITIAL, events) == Some(m) && c in m.callers && ActCaller(cfg, m, c, a).Some?
    requires Earned(cfg, events, c, m.callers[c])
    ensures var m' := ActCaller(cfg, m, c, a).value;
            c in m'.callers && Earned(cfg, events + [Act(c, a)], c, m'.callers[c])
  {
    match a
    case ProbeMemory => ProbeMemoryEarns(cfg, events, m, c);
    case ProbeDisk(answer) => ProbeDiskEarns(cfg, events, m, c, answer);
    case FetchDirectly(outcome) => FetchEarns(cfg, events, m, c, outcome);
    case Warm(_) => ImageEarns(cfg, events, m, c, a);
    case StoreMemory(_) => ImageEarns(cfg, events, m, c, a);
    case StoreDisk => ImageEarns(cfg, events, m, c, a);
    case TimeOut => TimeOutEarns(cfg, events, m, c);
    case ReadResult => ReadEarns(cfg, events, m, c);
    case _ => OtherEarns(cfg, events, m, c, a);
  }

  lemma {:induction false} RunAppend(cfg: Config, m: Machine, events: seq<Event>, e: Event)
    ensures RunAll(cfg, m, events + [e]) ==
            match RunAll(cfg, m, events) case Some(end) => Step(cfg, end, e) case None => None
    decreases |events|
  {
    if events == [] {
      assert [] + [e] == [e] && [e][1..] == [];
    } else {
      assert (events + [e])[0] == events[0] && (events + [e])[1..] == events[1..] + [e];
      if Step(cfg, m, events[0]).Some? {
        RunAppend(cfg, Step(cfg, m, events[0]).value, events[1..], e);
      }
    }
  }

  lemma {:induction false} AllEarned(cfg: Config, events: seq<Event>, m: Machine, c: nat)
    requires RunAll(cfg, INITIAL, events) == Some(m) && c in m.callers
    ensures Earned(cfg, events, c, m.callers[c])
    decreases |events|
  {
    var n := |events| - 1;
    var prev, e := events[..n], events[n];
    assert events == prev + [e];
    RunAppend(cfg, INITIAL, prev, e);
    var before := RunAll(cfg, INITIAL, prev).value;
    if e.Act? && e.caller == c {
      AllEarned(cfg, prev, before, c);
      ActEarns(cfg, prev, before, c, e.action);
    } else {
      OthersStay(cfg, before, e, c);
      if c in before.callers {
        AllEarned(cfg, prev, before, c);
        EarnedStays(cfg, prev, e, c, before.callers[c]);
      }
    }
  }

  /**
   Over every run, where an answer comes from: one out of a cache is what memory
   held when the caller probed it, or what the disk answered its probe; one of a
   fetch of its own is what that came to; one of a task is what the task
   published; and a timeout is answered only after the caller's own time had run
   out and its task then had no result.
   */
  lemma AnswersAreEarned(cfg: Config, events: seq<Event>, m: Machine, c: nat)
    requires Reached(cfg, events, m) && c in m.callers && m.callers[c].pc.Done?
    ensures var url, reply := m.callers[c].url, m.callers[c].pc.reply;
            match m.callers[c].pc.origin
            case Cache => HitMemory(cfg, events, c, url, reply) || HitDisk(events, c, reply)
            case Direct => FetchedItself(events, c, reply)
            case Joined(t) =>
              if reply == WaitTimeout then RanOutOfTime(cfg, events, c, t)
              else t in m.tasks && m.tasks[t].url == url && m.tasks[t].result.Some?
                   && reply == ReplyOf(m.tasks[t].result.value)
    ensures m.callers[c].pc.reply == WaitTimeout ==>
              m.callers[c].pc.origin.Joined? && Happened(events, Act(c, TimeOut))
  {
    AllEarned(cfg, events, m, c);
    AnswersArePublished(cfg, events, m, c);
  }
}
