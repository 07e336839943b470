/**
 The single-flight fetch of `src/cache.rs` with the background bridge on. Each
 action below is one region under a lock or one await of the source; any
 number of callers and tasks interleave. `Notify::notified()` remembers the
 generation at its creation, and `notify_waiters()` starts the next one. What
 the disk cache answers is an input here; `SharedDirectory` says where it
 comes from.
 */
module FetchService {
  import opened Wrappers
  import opened Bytes
  import opened MemoryCache

  datatype Config = Config(maxInflight: nat)

  type Images = set<(bytes, CachedInlineData)>

  type Outcome = Result<CachedInlineData, bytes>

  datatype TaskPc =
    | NotSpawned(creator: nat)    // inserted by a caller that has yet to spawn it
    | Running                     // in direct_fetch
    | Fetched(outcome: Outcome)   // about to lock the result
    | Published                   // result written, waiters not yet notified
    | Notified                    // about to remove itself from `inflight`
    | Removed                     // about to store in the caches
    | InMemory                    // memory done, disk to do
    | Finished

  datatype Task = Task(url: bytes, pc: TaskPc, result: Option<Outcome>, generation: nat)

  /** What `DiskCache::get` gives: `Broken` is its error, which `fetch` passes on. */
  datatype DiskAnswer = Missing | Broken(message: bytes) | Found(value: CachedInlineData)

  datatype Reply =
    | Image(value: CachedInlineData, fromCache: bool)
    | FetchError(message: bytes)
    | WaitTimeout
    | FinishedWithoutResult

  datatype Origin = Cache | Joined(task: nat) | Direct

  datatype CallerPc =
    | AtMemory
    | AtDisk
    | Warming(value: CachedInlineData)   // disk hit, to be put into memory
    | Looking
    | Inserting
    | Spawning(task: nat)
    | Joining(task: nat)
    | Subscribed(task: nat, seen: nat)   // holds `notified()`, result not yet looked at
    | Waiting(task: nat, seen: nat)
    | Woken(task: nat)
    | Expired(task: nat)
    | DirectFetch
    | Storing(value: CachedInlineData)
    | Saving(value: CachedInlineData)
    | Done(reply: Reply, origin: Origin)
    | Cancelled

  datatype Caller = Caller(url: bytes, pc: CallerPc)

  /** `fetched` records every success of `direct_fetch` so far, `readBack` every image found on disk. */
  datatype Machine = Machine(
    memory: map<bytes, CachedInlineData>,
    inflight: map<bytes, nat>,
    tasks: map<nat, Task>,
    callers: map<nat, Caller>,
    fetched: Images,
    readBack: Images)

  const INITIAL := Machine(map[], map[], map[], map[], {}, {})

  datatype CallerAction =
    | ProbeMemory
    | ProbeDisk(answer: DiskAnswer)
    | Warm(admitted: bool)
    | LookUp
    | Insert(newTask: nat)
    | Spawn
    | Subscribe
    | ReadResult
    | Wake
    | TimeOut
    | FetchDirectly(outcome: Outcome)
    | StoreMemory(admitted: bool)
    | StoreDisk
    | Cancel

  datatype TaskAction =
    | FetchDone(outcome: Outcome)
    | Publish
    | NotifyWaiters
    | Remove
    | TaskStoreMemory(admitted: bool)
    | TaskStoreDisk

  /** Any cached entry may be evicted at any time, and the process may be restarted. */
  datatype Event =
    | Call(caller: nat, url: bytes)
    | Act(caller: nat, action: CallerAction)
    | Run(task: nat, step: TaskAction)
    | EvictMemory(url: bytes)
    | Restart

  // ------------------------------------------------------------- single updates

  function Move(m: Machine, c: nat, pc: CallerPc): Machine
    requires c in m.callers
  {
    m.(callers := m.callers[c := m.callers[c].(pc := pc)])
  }

  function SetTask(m: Machine, t: nat, task: Task): Machine {
    m.(tasks := m.tasks[t := task])
  }

  /** `MemoryCache::set`, which may refuse the value. */
  function PutMemory(m: Machine, url: bytes, value: CachedInlineData, admitted: bool): Machine {
    if admitted then m.(memory := m.memory[url := value]) else m
  }

  function Record(m: Machine, url: bytes, outcome: Outcome): Machine {
    if outcome.Ok? then m.(fetched := m.fetched + {(url, outcome.value)}) else m
  }

  function RecordRead(m: Machine, url: bytes, answer: DiskAnswer): Machine {
    if answer.Found? then m.(readBack := m.readBack + {(url, answer.value)}) else m
  }

  function AfterProbe(answer: DiskAnswer): CallerPc {
    match answer
    case Missing => Looking
    case Broken(message) => Done(FetchError(message), Cache)
    case Found(value) => Warming(value)
  }

  /** `published_result`. */
  function ReplyOf(outcome: Outcome): Reply {
    match outcome
    case Ok(value) => Image(value, false)
    case Err(message) => FetchError(message)
  }

  // -------------------------------------------------------------------- callers

  function ReadOr(m: Machine, t: nat, otherwise: CallerPc): CallerPc
    requires t in m.tasks
  {
    match m.tasks[t].result
    case Some(outcome) => Done(ReplyOf(outcome), Joined(t))
    case None => otherwise
  }

  /** The steps that only look, from the caller's point of view. */
  function Look(cfg: Config, m: Machine, url: bytes, pc: CallerPc, a: CallerAction): Option<CallerPc> {
    match (pc, a)
    case (AtMemory, ProbeMemory) => Some(if url in m.memory then Done(Image(m.memory[url], true), Cache) else AtDisk)
    case (Looking, LookUp) => Some(if url in m.inflight then Joining(m.inflight[url]) else Inserting)
    // A dropped request stops at an await; between insertion and subscription there is none.
    case (_, Cancel) => if pc.Spawning? || pc.Joining? || pc.Done? then None else Some(Cancelled)
    case _ => LookAtTask(m, pc, a)
  }

  /** `wait_for_task`. */
  function LookAtTask(m: Machine, pc: CallerPc, a: CallerAction): Option<CallerPc> {
    if !(pc.Joining? || pc.Subscribed? || pc.Waiting? || pc.Woken? || pc.Expired?) || pc.task !in m.tasks then None
    else
      var t := pc.task;
      match (pc, a)
      case (Joining(_), Subscribe) => Some(Subscribed(t, m.tasks[t].generation))
      case (Subscribed(_, seen), ReadResult) => Some(ReadOr(m, t, Waiting(t, seen)))
      case (Waiting(_, seen), Wake) => if m.tasks[t].generation == seen then None else Some(Woken(t))
      case (Waiting(_, _), TimeOut) => Some(Expired(t))
      case (Woken(_), ReadResult) => Some(ReadOr(m, t, Done(FinishedWithoutResult, Joined(t))))
      case (Expired(_), ReadResult) => Some(ReadOr(m, t, Done(WaitTimeout, Joined(t))))
      case _ => None
  }

  /** One step of `fetch` or `wait_for_task`; `None` when the caller is not at that point. */
  function ActCaller(cfg: Config, m: Machine, c: nat, a: CallerAction): Option<Machine>
    requires c in m.callers
  {
    var url, pc := m.callers[c].url, m.callers[c].pc;
    match a
    case ProbeDisk(answer) =>
      if !pc.AtDisk? then None else Some(Move(RecordRead(m, url, answer), c, AfterProbe(answer)))
    case Warm(admitted) =>
      if !pc.Warming? then None
      else Some(Move(PutMemory(m, url, pc.value, admitted), c, Done(Image(pc.value, true), Cache)))
    case Insert(newTask) =>
      if !pc.Inserting? then None
      else if url in m.inflight then Some(Move(m, c, Joining(m.inflight[url])))
      else if |m.inflight| >= cfg.maxInflight then Some(Move(m, c, DirectFetch))
      else if newTask in m.tasks then None
      else Some(Inserted(m, c, newTask))
    case Spawn =>
      if !pc.Spawning? || pc.task !in m.tasks then None
      else Some(Move(SetTask(m, pc.task, m.tasks[pc.task].(pc := Running)), c, Joining(pc.task)))
    case FetchDirectly(outcome) =>
      if !pc.DirectFetch? then None
      else Some(Move(Record(m, url, outcome), c, AfterDirect(outcome)))
    case StoreMemory(admitted) =>
      if !pc.Storing? then None
      else Some(Move(PutMemory(m, url, pc.value, admitted), c, Saving(pc.value)))
    case StoreDisk =>
      if !pc.Saving? then None
      else Some(Move(m, c, Done(Image(pc.value, false), Direct)))
    case _ =>
      var pc' :- Look(cfg, m, url, pc, a);
      Some(Move(m, c, pc'))
  }

  function AfterDirect(outcome: Outcome): CallerPc {
    match outcome
    case Ok(value) => Storing(value)
    case Err(message) => Done(FetchError(message), Direct)
  }

  /** A new task under the caller's URL, yet to be spawned. */
  function Inserted(m: Machine, c: nat, t: nat): Machine
    requires c in m.callers
  {
    var url := m.callers[c].url;
    Move(SetTask(m, t, Task(url, NotSpawned(c), None, 0)).(inflight := m.inflight[url := t]), c, Spawning(t))
  }

  // ---------------------------------------------------------------------- tasks

  /** One step of the spawned task. */
  function RunTask(cfg: Config, m: Machine, t: nat, a: TaskAction): Option<Machine>
    requires t in m.tasks
  {
    var task := m.tasks[t];
    match (task.pc, a)
    case (Running, FetchDone(outcome)) =>
      Some(SetTask(Record(m, task.url, outcome), t, task.(pc := Fetched(outcome))))
    case (Fetched(outcome), Publish) => Some(SetTask(m, t, task.(pc := Published, result := Some(outcome))))
    case (Published, NotifyWaiters) => Some(SetTask(m, t, task.(pc := Notified, generation := task.generation + 1)))
    // `remove(&url)` takes out whatever entry the URL has.
    case (Notified, Remove) =>
      Some(SetTask(m, t, task.(pc := if task.result.Some? && task.result.value.Ok? then Removed else Finished))
           .(inflight := m.inflight - {task.url}))
    case (Removed, TaskStoreMemory(admitted)) =>
      if task.result.None? || task.result.value.Err? then None
      else Some(SetTask(PutMemory(m, task.url, task.result.value.value, admitted), t, task.(pc := InMemory)))
    case (InMemory, TaskStoreDisk) =>
      if task.result.None? || task.result.value.Err? then None
      else Some(SetTask(m, t, task.(pc := Finished)))
    case _ => None
  }

  function Step(cfg: Config, m: Machine, e: Event): Option<Machine> {
    match e
    case Call(c, url) => if c in m.callers then None else Some(m.(callers := m.callers[c := Caller(url, AtMemory)]))
    case Act(c, a) => if c in m.callers then ActCaller(cfg, m, c, a) else None
    case Run(t, a) => if t in m.tasks then RunTask(cfg, m, t, a) else None
    case EvictMemory(url) => Some(m.(memory := m.memory - {url}))
    case Restart => Some(Machine(map[], map[], map[], map[], m.fetched, m.readBack))
  }

  function RunAll(cfg: Config, m: Machine, events: seq<Event>): Option<Machine>
    decreases |events|
  {
    if events == [] then Some(m)
    else
      var next :- Step(cfg, m, events[0]);
      RunAll(cfg, next, events[1..])
  }

  // ----------------------------------------------------------------- invariants

  /** From its insertion until it removes itself. */
  predicate InFlight(pc: TaskPc) {
    pc.NotSpawned? || pc.Running? || pc.Fetched? || pc.Published? || pc.Notified?
  }

  predicate HasPublished(pc: TaskPc) {
    pc.Published? || pc.Notified? || pc.Removed? || pc.InMemory? || pc.Finished?
  }

  predicate HasNotified(pc: TaskPc) {
    HasPublished(pc) && !pc.Published?
  }

  predicate Genuine(m: Machine, url: bytes, outcome: Outcome) {
    outcome.Ok? ==> (url, outcome.value) in m.fetched
  }

  ghost predicate TaskOk(m: Machine, t: nat)
    requires t in m.tasks
  {
    var task := m.tasks[t];
    && (task.result.Some? <==> HasPublished(task.pc))
    && task.generation == (if HasNotified(task.pc) then 1 else 0)
    && (task.result.Some? ==> Genuine(m, task.url, task.result.value))
    && (task.pc.Fetched? ==> Genuine(m, task.url, task.pc.outcome))
    && (task.pc.Removed? || task.pc.InMemory? ==> task.result.value.Ok?)
    && (InFlight(task.pc) ==> task.url in m.inflight && m.inflight[task.url] == t)
    && (task.pc.NotSpawned? ==> task.pc.creator in m.callers && m.callers[task.pc.creator].pc == Spawning(t))
  }

  /** What a caller's point in the program says about the task it deals with, and about its image. */
  ghost predicate CallerOk(m: Machine, caller: Caller, c: nat) {
    var url := caller.url;
    match caller.pc
    case Warming(value) => (url, value) in m.readBack
    case Storing(value) => (url, value) in m.fetched
    case Saving(value) => (url, value) in m.fetched
    case Spawning(t) => TaskFor(m, t, url) && m.tasks[t].pc == NotSpawned(c)
    case Joining(t) => TaskFor(m, t, url)
    case Subscribed(t, seen) => TaskFor(m, t, url) && (seen == 0 || m.tasks[t].result.Some?)
    case Waiting(t, seen) => TaskFor(m, t, url) && seen == 0
    case Woken(t) => TaskFor(m, t, url) && m.tasks[t].result.Some?
    case Expired(t) => TaskFor(m, t, url)
    case Done(reply, origin) =>
      && reply != FinishedWithoutResult
      && (reply.Image? ==> (url, reply.value) in if origin.Cache? then m.fetched + m.readBack else m.fetched)
      && (origin.Joined? && reply != WaitTimeout ==>
            TaskFor(m, origin.task, url) && m.tasks[origin.task].result.Some?
            && reply == ReplyOf(m.tasks[origin.task].result.value))
    case _ => true
  }

  predicate TaskFor(m: Machine, t: nat, url: bytes) {
    t in m.tasks && m.tasks[t].url == url
  }

  ghost predicate InflightOk(cfg: Config, m: Machine) {
    && |m.inflight| <= cfg.maxInflight
    && forall url | url in m.inflight :: TaskFor(m, m.inflight[url], url) && InFlight(m.tasks[m.inflight[url]].pc)
  }

  ghost predicate MemoryOk(m: Machine) {
    forall url | url in m.memory :: (url, m.memory[url]) in m.fetched + m.readBack
  }

  ghost predicate Inv(cfg: Config, m: Machine) {
    && InflightOk(cfg, m) && MemoryOk(m)
    && (forall t | t in m.tasks :: TaskOk(m, t))
    && (forall c | c in m.callers :: CallerOk(m, m.callers[c], c))
  }

  // --------------------------------------------------- what single updates keep

  /** Later states know more: tasks keep their URL and their result, and successes stay recorded. */
  ghost predicate Grows(m: Machine, m': Machine) {
    && m.fetched <= m'.fetched && m.readBack <= m'.readBack
    && forall t | t in m.tasks ::
         && t in m'.tasks && m'.tasks[t].url == m.tasks[t].url
         && (m.tasks[t].result.Some? ==> m'.tasks[t].result == m.tasks[t].result)
  }

  lemma CallerOkGrows(m: Machine, m': Machine, caller: Caller, c: nat)
    requires Grows(m, m') && CallerOk(m, caller, c)
    requires caller.pc.Spawning? ==> m'.tasks[caller.pc.task].pc == m.tasks[caller.pc.task].pc
    ensures CallerOk(m', caller, c)
  {
  }

  lemma MoveKeeps(cfg: Config, m: Machine, c: nat, pc: CallerPc)
    requires Inv(cfg, m) && c in m.callers && !m.callers[c].pc.Spawning?
    requires CallerOk(m, Caller(m.callers[c].url, pc), c)
    ensures Inv(cfg, Move(m, c, pc))
  {
    var m' := Move(m, c, pc);
    forall i | i in m'.callers ensures CallerOk(m', m'.callers[i], i) {
      CallerOkGrows(m, m', m'.callers[i], i);
    }
    forall t | t in m'.tasks ensures TaskOk(m', t) {
      assert TaskOk(m, t);
    }
  }

  lemma RecordKeeps(cfg: Config, m: Machine, url: bytes, outcome: Outcome)
    requires Inv(cfg, m)
    ensures Inv(cfg, Record(m, url, outcome)) && Genuine(Record(m, url, outcome), url, outcome)
  {
    var m' := Record(m, url, outcome);
    forall c | c in m'.callers ensures CallerOk(m', m'.callers[c], c) {
      CallerOkGrows(m, m', m'.callers[c], c);
    }
    forall t | t in m'.tasks ensures TaskOk(m', t) {
      assert TaskOk(m, t);
    }
  }

  lemma RecordReadKeeps(cfg: Config, m: Machine, url: bytes, answer: DiskAnswer)
    requires Inv(cfg, m)
    ensures Inv(cfg, RecordRead(m, url, answer))
  {
    var m' := RecordRead(m, url, answer);
    forall c | c in m'.callers ensures CallerOk(m', m'.callers[c], c) {
      CallerOkGrows(m, m', m'.callers[c], c);
    }
    forall t | t in m'.tasks ensures TaskOk(m', t) {
      assert TaskOk(m, t);
    }
  }

  /** The memory cache changes, and holds only images that were fetched or read back. */
  lemma MemoryKeeps(cfg: Config, m: Machine, memory: map<bytes, CachedInlineData>)
    requires Inv(cfg, m) && MemoryOk(m.(memory := memory))
    ensures Inv(cfg, m.(memory := memory))
  {
    var m' := m.(memory := memory);
    forall c | c in m'.callers ensures CallerOk(m', m'.callers[c], c) {
      CallerOkGrows(m, m', m'.callers[c], c);
    }
    forall t | t in m'.tasks ensures TaskOk(m', t) {
      assert TaskOk(m, t);
    }
  }

  lemma PutMemoryKeeps(cfg: Config, m: Machine, url: bytes, value: CachedInlineData, admitted: bool)
    requires Inv(cfg, m) && (url, value) in m.fetched + m.readBack
    ensures Inv(cfg, PutMemory(m, url, value, admitted))
  {
    if admitted {
      MemoryKeeps(cfg, m, m.memory[url := value]);
    }
  }

  /** A spawned task moves on without leaving or entering `inflight`. */
  lemma SetTaskKeeps(cfg: Config, m: Machine, t: nat, task: Task)
    requires Inv(cfg, m) && t in m.tasks && Grows(m, SetTask(m, t, task))
    requires !m.tasks[t].pc.NotSpawned? && (InFlight(m.tasks[t].pc) <==> InFlight(task.pc))
    requires TaskOk(SetTask(m, t, task), t)
    ensures Inv(cfg, SetTask(m, t, task))
  {
    var m' := SetTask(m, t, task);
    forall c | c in m'.callers ensures CallerOk(m', m'.callers[c], c) {
      CallerOkGrows(m, m', m'.callers[c], c);
    }
    forall i | i in m'.tasks ensures TaskOk(m', i) {
      assert i != t ==> TaskOk(m, i);
    }
  }

  lemma OneEntryMore(inflight: map<bytes, nat>, url: bytes, t: nat)
    requires url !in inflight
    ensures |inflight[url := t]| == |inflight| + 1
  {
    assert inflight[url := t].Keys == inflight.Keys + {url};
  }

  lemma OneEntryLess(inflight: map<bytes, nat>, url: bytes)
    requires url in inflight
    ensures |inflight - {url}| == |inflight| - 1
  {
    assert (inflight - {url}).Keys == inflight.Keys - {url};
  }

  lemma InsertCallers(cfg: Config, m: Machine, c: nat, t: nat)
    requires Inv(cfg, m) && c in m.callers && t !in m.tasks
    ensures var m' := Inserted(m, c, t); forall i | i in m'.callers :: CallerOk(m', m'.callers[i], i)
  {
    var m' := Inserted(m, c, t);
    forall i | i in m'.callers ensures CallerOk(m', m'.callers[i], i) {
      if i != c {
        CallerOkGrows(m, m', m'.callers[i], i);
      }
    }
  }

  lemma InsertTasks(cfg: Config, m: Machine, c: nat, t: nat)
    requires Inv(cfg, m) && c in m.callers && m.callers[c].pc == Inserting
    requires m.callers[c].url !in m.inflight && t !in m.tasks
    ensures var m' := Inserted(m, c, t); forall i | i in m'.tasks :: TaskOk(m', i)
  {
    var m' := Inserted(m, c, t);
    forall i | i in m'.tasks ensures TaskOk(m', i) {
      assert i != t ==> TaskOk(m, i);
    }
  }

  /** A new task under a URL that has none, and its creator about to spawn it. */
  lemma InsertKeeps(cfg: Config, m: Machine, c: nat, t: nat)
    requires Inv(cfg, m) && c in m.callers && m.callers[c].pc == Inserting
    requires m.callers[c].url !in m.inflight && |m.inflight| < cfg.maxInflight && t !in m.tasks
    ensures Inv(cfg, Inserted(m, c, t))
  {
    OneEntryMore(m.inflight, m.callers[c].url, t);
    InsertCallers(cfg, m, c, t);
    InsertTasks(cfg, m, c, t);
  }

  lemma SpawnKeeps(cfg: Config, m: Machine, c: nat, t: nat)
    requires Inv(cfg, m) && c in m.callers && m.callers[c].pc == Spawning(t) && t in m.tasks
    ensures Inv(cfg, Move(SetTask(m, t, m.tasks[t].(pc := Running)), c, Joining(t)))
  {
    var m' := Move(SetTask(m, t, m.tasks[t].(pc := Running)), c, Joining(t));
    assert CallerOk(m, m.callers[c], c) && TaskOk(m, t);
    forall i | i in m'.callers ensures CallerOk(m', m'.callers[i], i) {
      if i != c {
        assert CallerOk(m, m.callers[i], i);
        CallerOkGrows(m, m', m'.callers[i], i);
      }
    }
    forall i | i in m'.tasks ensures TaskOk(m', i) {
      assert TaskOk(m, i);
    }
  }

  /** The unchecked `remove(&url)` of a finishing task takes out its own entry. */
  lemma RemovesItself(cfg: Config, m: Machine, t: nat)
    requires Inv(cfg, m) && t in m.tasks && m.tasks[t].pc == Notified
    ensures m.tasks[t].url in m.inflight && m.inflight[m.tasks[t].url] == t
  {
    assert TaskOk(m, t);
  }

  function AfterRemove(m: Machine, t: nat, pc: TaskPc): Machine
    requires t in m.tasks
  {
    SetTask(m, t, m.tasks[t].(pc := pc)).(inflight := m.inflight - {m.tasks[t].url})
  }

  lemma RemoveKeepsEntries(cfg: Config, m: Machine, t: nat, pc: TaskPc)
    requires Inv(cfg, m) && t in m.tasks && m.tasks[t].pc == Notified
    ensures InflightOk(cfg, AfterRemove(m, t, pc))
  {
    RemovesItself(cfg, m, t);
    OneEntryLess(m.inflight, m.tasks[t].url);
  }

  lemma RemoveKeepsTasks(cfg: Config, m: Machine, t: nat, pc: TaskPc)
    requires Inv(cfg, m) && t in m.tasks && m.tasks[t].pc == Notified
    requires pc == Finished || (pc == Removed && m.tasks[t].result.Some? && m.tasks[t].result.value.Ok?)
    ensures var m' := AfterRemove(m, t, pc); forall i | i in m'.tasks :: TaskOk(m', i)
  {
    var m' := AfterRemove(m, t, pc);
    RemovesItself(cfg, m, t);
    forall i | i in m'.tasks ensures TaskOk(m', i) {
      assert TaskOk(m, i);
    }
  }

  lemma RemoveKeepsCallers(cfg: Config, m: Machine, t: nat, pc: TaskPc)
    requires Inv(cfg, m) && t in m.tasks && m.tasks[t].pc == Notified
    ensures var m' := AfterRemove(m, t, pc); forall i | i in m'.callers :: CallerOk(m', m'.callers[i], i)
  {
    var m' := AfterRemove(m, t, pc);
    forall i | i in m'.callers ensures CallerOk(m', m'.callers[i], i) {
      assert CallerOk(m, m.callers[i], i);
      CallerOkGrows(m, m', m'.callers[i], i);
    }
  }

  lemma RemoveKeeps(cfg: Config, m: Machine, t: nat, pc: TaskPc)
    requires Inv(cfg, m) && t in m.tasks && m.tasks[t].pc == Notified
    requires pc == Finished || (pc == Removed && m.tasks[t].result.Some? && m.tasks[t].result.value.Ok?)
    ensures Inv(cfg, AfterRemove(m, t, pc))
  {
    RemoveKeepsEntries(cfg, m, t, pc);
    RemoveKeepsTasks(cfg, m, t, pc);
    RemoveKeepsCallers(cfg, m, t, pc);
  }

  lemma CallKeeps(cfg: Config, m: Machine, c: nat, url: bytes)
    requires Inv(cfg, m) && c !in m.callers
    ensures Inv(cfg, m.(callers := m.callers[c := Caller(url, AtMemory)]))
  {
    var m' := m.(callers := m.callers[c := Caller(url, AtMemory)]);
    forall i | i in m'.callers ensures CallerOk(m', m'.callers[i], i) {
      if i != c {
        CallerOkGrows(m, m', m'.callers[i], i);
      }
    }
    forall t | t in m'.tasks ensures TaskOk(m', t) {
      assert TaskOk(m, t);
    }
  }

  // ------------------------------------------------------------- every step keeps

  lemma ActInsertKeeps(cfg: Config, m: Machine, c: nat)
    requires Inv(cfg, m) && c in m.callers && m.callers[c].pc == Inserting
    ensures var url := m.callers[c].url;
            if url in m.inflight then Inv(cfg, Move(m, c, Joining(m.inflight[url])))
            else Inv(cfg, Move(m, c, DirectFetch))
  {
    var url := m.callers[c].url;
    MoveKeeps(cfg, m, c, if url in m.inflight then Joining(m.inflight[url]) else DirectFetch);
  }

  lemma ActFetchKeeps(cfg: Config, m: Machine, c: nat, outcome: Outcome)
    requires Inv(cfg, m) && c in m.callers && m.callers[c].pc == DirectFetch
    ensures Inv(cfg, Move(Record(m, m.callers[c].url, outcome), c, AfterDirect(outcome)))
  {
    RecordKeeps(cfg, m, m.callers[c].url, outcome);
    MoveKeeps(cfg, Record(m, m.callers[c].url, outcome), c, AfterDirect(outcome));
  }

  /** The steps that write a cache: the value at hand was fetched, and so is what the caller goes on with. */
  lemma ActWarmKeeps(cfg: Config, m: Machine, c: nat, value: CachedInlineData, admitted: bool, pc: CallerPc)
    requires Inv(cfg, m) && c in m.callers
    requires || (m.callers[c].pc == Warming(value) && pc == Done(Image(value, true), Cache))
             || (m.callers[c].pc == Storing(value) && pc == Saving(value))
    ensures Inv(cfg, Move(PutMemory(m, m.callers[c].url, value, admitted), c, pc))
  {
    assert CallerOk(m, m.callers[c], c);
    PutMemoryKeeps(cfg, m, m.callers[c].url, value, admitted);
    MoveKeeps(cfg, PutMemory(m, m.callers[c].url, value, admitted), c, pc);
  }

  lemma ActSaveKeeps(cfg: Config, m: Machine, c: nat, value: CachedInlineData)
    requires Inv(cfg, m) && c in m.callers && m.callers[c].pc == Saving(value)
    ensures Inv(cfg, Move(m, c, Done(Image(value, false), Direct)))
  {
    assert CallerOk(m, m.callers[c], c);
    MoveKeeps(cfg, m, c, Done(Image(value, false), Direct));
  }

  lemma ActProbeKeeps(cfg: Config, m: Machine, c: nat, answer: DiskAnswer)
    requires Inv(cfg, m) && c in m.callers
    ensures var next := ActCaller(cfg, m, c, ProbeDisk(answer)); next.Some? ==> Inv(cfg, next.value)
  {
    if m.callers[c].pc == AtDisk {
      RecordReadKeeps(cfg, m, m.callers[c].url, answer);
      MoveKeeps(cfg, RecordRead(m, m.callers[c].url, answer), c, AfterProbe(answer));
    }
  }

  /** What looking at the task lets the caller rely on holds. */
  lemma LookAtTaskOk(cfg: Config, m: Machine, c: nat, a: CallerAction)
    requires Inv(cfg, m) && c in m.callers && LookAtTask(m, m.callers[c].pc, a).Some?
    ensures CallerOk(m, Caller(m.callers[c].url, LookAtTask(m, m.callers[c].pc, a).value), c)
  {
    assert CallerOk(m, m.callers[c], c);
    assert TaskOk(m, m.callers[c].pc.task);
  }

  lemma LookOk(cfg: Config, m: Machine, c: nat, a: CallerAction)
    requires Inv(cfg, m) && c in m.callers && Look(cfg, m, m.callers[c].url, m.callers[c].pc, a).Some?
    ensures CallerOk(m, Caller(m.callers[c].url, Look(cfg, m, m.callers[c].url, m.callers[c].pc, a).value), c)
    ensures !m.callers[c].pc.Spawning?
  {
    assert CallerOk(m, m.callers[c], c);
    if LookAtTask(m, m.callers[c].pc, a).Some? {
      LookAtTaskOk(cfg, m, c, a);
    }
  }

  lemma ActLookKeeps(cfg: Config, m: Machine, c: nat, a: CallerAction)
    requires Inv(cfg, m) && c in m.callers && Look(cfg, m, m.callers[c].url, m.callers[c].pc, a).Some?
    ensures Inv(cfg, Move(m, c, Look(cfg, m, m.callers[c].url, m.callers[c].pc, a).value))
  {
    LookOk(cfg, m, c, a);
    MoveKeeps(cfg, m, c, Look(cfg, m, m.callers[c].url, m.callers[c].pc, a).value);
  }

  /** The steps on the way to a task. */
  lemma ActJoinKeeps(cfg: Config, m: Machine, c: nat, a: CallerAction)
    requires Inv(cfg, m) && c in m.callers && (a.Insert? || a.Spawn?)
    ensures var next := ActCaller(cfg, m, c, a); next.Some? ==> Inv(cfg, next.value)
  {
    var next, pc := ActCaller(cfg, m, c, a), m.callers[c].pc;
    if next.Some? {
      if a.Spawn? {
        SpawnKeeps(cfg, m, c, pc.task);
      } else if m.callers[c].url in m.inflight || |m.inflight| >= cfg.maxInflight {
        ActInsertKeeps(cfg, m, c);
      } else {
        InsertKeeps(cfg, m, c, a.newTask);
      }
    }
  }

  /** The steps with an image at hand. */
  lemma ActImageKeeps(cfg: Config, m: Machine, c: nat, a: CallerAction)
    requires Inv(cfg, m) && c in m.callers
    requires a.Warm? || a.StoreMemory? || a.StoreDisk?
    ensures var next := ActCaller(cfg, m, c, a); next.Some? ==> Inv(cfg, next.value)
  {
    var next, pc := ActCaller(cfg, m, c, a), m.callers[c].pc;
    if next.Some? {
      match a
      case Warm(admitted) => ActWarmKeeps(cfg, m, c, pc.value, admitted, Done(Image(pc.value, true), Cache));
      case StoreMemory(admitted) => ActWarmKeeps(cfg, m, c, pc.value, admitted, Saving(pc.value));
      case StoreDisk => ActSaveKeeps(cfg, m, c, pc.value);
    }
  }

  lemma ActDirectKeeps(cfg: Config, m: Machine, c: nat, outcome: Outcome)
    requires Inv(cfg, m) && c in m.callers
    ensures var next := ActCaller(cfg, m, c, FetchDirectly(outcome)); next.Some? ==> Inv(cfg, next.value)
  {
    if m.callers[c].pc == DirectFetch {
      ActFetchKeeps(cfg, m, c, outcome);
    }
  }

  lemma ActKeeps(cfg: Config, m: Machine, c: nat, a: CallerAction)
    requires Inv(cfg, m) && c in m.callers && ActCaller(cfg, m, c, a).Some?
    ensures Inv(cfg, ActCaller(cfg, m, c, a).value)
  {
    if a.Insert? || a.Spawn? {
      ActJoinKeeps(cfg, m, c, a);
    } else if a.Warm? || a.StoreMemory? || a.StoreDisk? {
      ActImageKeeps(cfg, m, c, a);
    } else if a.FetchDirectly? {
      ActDirectKeeps(cfg, m, c, a.outcome);
    } else if a.ProbeDisk? {
      ActProbeKeeps(cfg, m, c, a.answer);
    } else {
      ActLookKeeps(cfg, m, c, a);
    }
  }

  lemma FetchedTaskOk(m: Machine, t: nat, outcome: Outcome)
    requires t in m.tasks && m.tasks[t].pc == Running && TaskOk(m, t) && Genuine(m, m.tasks[t].url, outcome)
    ensures var m' := SetTask(m, t, m.tasks[t].(pc := Fetched(outcome))); TaskOk(m', t) && Grows(m, m')
  {
  }

  lemma RunFetchKeeps(cfg: Config, m: Machine, t: nat, outcome: Outcome)
    requires Inv(cfg, m) && t in m.tasks && m.tasks[t].pc == Running
    ensures Inv(cfg, SetTask(Record(m, m.tasks[t].url, outcome), t, m.tasks[t].(pc := Fetched(outcome))))
  {
    var recorded := Record(m, m.tasks[t].url, outcome);
    RecordKeeps(cfg, m, m.tasks[t].url, outcome);
    assert recorded.tasks == m.tasks && TaskOk(recorded, t);
    FetchedTaskOk(recorded, t, outcome);
    SetTaskKeeps(cfg, recorded, t, recorded.tasks[t].(pc := Fetched(outcome)));
  }

  lemma RunPublishKeeps(cfg: Config, m: Machine, t: nat)
    requires Inv(cfg, m) && t in m.tasks && m.tasks[t].pc.Fetched?
    ensures Inv(cfg, SetTask(m, t, m.tasks[t].(pc := Published, result := Some(m.tasks[t].pc.outcome))))
  {
    assert TaskOk(m, t);
    SetTaskKeeps(cfg, m, t, m.tasks[t].(pc := Published, result := Some(m.tasks[t].pc.outcome)));
  }

  lemma RunNotifyKeeps(cfg: Config, m: Machine, t: nat)
    requires Inv(cfg, m) && t in m.tasks && m.tasks[t].pc.Published?
    ensures Inv(cfg, SetTask(m, t, m.tasks[t].(pc := Notified, generation := m.tasks[t].generation + 1)))
  {
    assert TaskOk(m, t);
    SetTaskKeeps(cfg, m, t, m.tasks[t].(pc := Notified, generation := m.tasks[t].generation + 1));
  }

  /** A task that has removed itself goes on to the caches. */
  lemma RunStoreKeeps(cfg: Config, m: Machine, t: nat, pc: TaskPc)
    requires Inv(cfg, m) && t in m.tasks && (m.tasks[t].pc.Removed? || m.tasks[t].pc.InMemory?)
    requires pc == InMemory || pc == Finished
    ensures Inv(cfg, SetTask(m, t, m.tasks[t].(pc := pc)))
  {
    assert TaskOk(m, t);
    SetTaskKeeps(cfg, m, t, m.tasks[t].(pc := pc));
  }

  lemma StoredValueIsGenuine(cfg: Config, m: Machine, t: nat)
    requires Inv(cfg, m) && t in m.tasks && (m.tasks[t].pc.Removed? || m.tasks[t].pc.InMemory?)
    ensures var task := m.tasks[t];
            task.result.Some? && task.result.value.Ok? && (task.url, task.result.value.value) in m.fetched
  {
    assert TaskOk(m, t);
  }

  lemma RunKeeps(cfg: Config, m: Machine, t: nat, a: TaskAction)
    requires Inv(cfg, m) && t in m.tasks && RunTask(cfg, m, t, a).Some?
    ensures Inv(cfg, RunTask(cfg, m, t, a).value)
  {
    match a
    case FetchDone(outcome) => RunFetchKeeps(cfg, m, t, outcome);
    case Publish => RunPublishKeeps(cfg, m, t);
    case NotifyWaiters => RunNotifyKeeps(cfg, m, t);
    case Remove => RemoveKeeps(cfg, m, t, RunTask(cfg, m, t, a).value.tasks[t].pc);
    case TaskStoreMemory(admitted) =>
      StoredValueIsGenuine(cfg, m, t);
      PutMemoryKeeps(cfg, m, m.tasks[t].url, m.tasks[t].result.value.value, admitted);
      RunStoreKeeps(cfg, PutMemory(m, m.tasks[t].url, m.tasks[t].result.value.value, admitted), t, InMemory);
    case TaskStoreDisk =>
      StoredValueIsGenuine(cfg, m, t);
      RunStoreKeeps(cfg, m, t, Finished);
  }

  lemma StepKeeps(cfg: Config, m: Machine, e: Event)
    requires Inv(cfg, m) && Step(cfg, m, e).Some?
    ensures Inv(cfg, Step(cfg, m, e).value)
  {
    match e
    case Call(c, url) => CallKeeps(cfg, m, c, url);
    case Act(c, a) => ActKeeps(cfg, m, c, a);
    case Run(t, a) => RunKeeps(cfg, m, t, a);
    case EvictMemory(url) => MemoryKeeps(cfg, m, m.memory - {url});
    case Restart =>
  }

  /** Every reachable state satisfies the invariant, whatever the interleaving. */
  lemma {:induction false} RunAllKeeps(cfg: Config, m: Machine, events: seq<Event>)
    requires Inv(cfg, m) && RunAll(cfg, m, events).Some?
    ensures Inv(cfg, RunAll(cfg, m, events).value)
    decreases |events|
  {
    if events == [] {
    } else {
      StepKeeps(cfg, m, events[0]);
      RunAllKeeps(cfg, Step(cfg, m, events[0]).value, events[1..]);
    }
  }

  // ---------------------------------------------------------------- main results

  /** `m` is reached by some interleaving. */
  ghost predicate Reached(cfg: Config, events: seq<Event>, m: Machine) {
    RunAll(cfg, INITIAL, events) == Some(m)
  }

  lemma ReachedInv(cfg: Config, events: seq<Event>, m: Machine)
    requires Reached(cfg, events, m)
    ensures Inv(cfg, m)
  {
    RunAllKeeps(cfg, INITIAL, events);
  }

  /**
   Single flight: at most `maxInflight` entries; two tasks in flight for one
   URL are one task; and every entry is such a task, already spawned unless
   the caller that inserted it is just about to spawn it.
   */
  lemma SingleFlight(cfg: Config, events: seq<Event>, m: Machine)
    requires Reached(cfg, events, m)
    ensures |m.inflight| <= cfg.maxInflight
    ensures forall s, t | s in m.tasks && t in m.tasks && InFlight(m.tasks[s].pc) && InFlight(m.tasks[t].pc)
                          && m.tasks[s].url == m.tasks[t].url :: s == t
    ensures forall url | url in m.inflight ::
              var t := m.inflight[url];
              && t in m.tasks && m.tasks[t].url == url && InFlight(m.tasks[t].pc)
              && (m.tasks[t].pc.NotSpawned? ==>
                    var c := m.tasks[t].pc.creator; c in m.callers && m.callers[c].pc == Spawning(t))
    ensures forall t | t in m.tasks && m.tasks[t].pc == Notified ::
              m.tasks[t].url in m.inflight && m.inflight[m.tasks[t].url] == t
  {
    ReachedInv(cfg, events, m);
    forall t | t in m.tasks && InFlight(m.tasks[t].pc)
      ensures m.tasks[t].url in m.inflight && m.inflight[m.tasks[t].url] == t
    {
      assert TaskOk(m, t);
    }
    forall url | url in m.inflight ensures TaskOk(m, m.inflight[url]) {
      assert TaskFor(m, m.inflight[url], url);
    }
  }

  /**
   No lost wakeup: once its task has notified, a waiting caller can wake, and
   the result it then reads is there.
   */
  lemma NoLostWakeup(cfg: Config, events: seq<Event>, m: Machine, c: nat)
    requires Reached(cfg, events, m) && c in m.callers && m.callers[c].pc.Waiting?
    ensures var t := m.callers[c].pc.task;
            && t in m.tasks && m.tasks[t].url == m.callers[c].url
            && (HasNotified(m.tasks[t].pc) ==>
                  LookAtTask(m, m.callers[c].pc, Wake) == Some(Woken(t)) && m.tasks[t].result.Some?)
  {
    ReachedInv(cfg, events, m);
    assert CallerOk(m, m.callers[c], c);
    assert TaskOk(m, m.callers[c].pc.task);
  }

  /** A task that has not finished can always take its next step, or be spawned by the caller that inserted it. */
  lemma TaskProceeds(cfg: Config, events: seq<Event>, m: Machine, t: nat, outcome: Outcome)
    requires Reached(cfg, events, m) && t in m.tasks && !m.tasks[t].pc.Finished?
    ensures match m.tasks[t].pc
            case NotSpawned(c) => c in m.callers && ActCaller(cfg, m, c, Spawn).Some?
            case Running => RunTask(cfg, m, t, FetchDone(outcome)).Some?
            case Fetched(_) => RunTask(cfg, m, t, Publish).Some?
            case Published => RunTask(cfg, m, t, NotifyWaiters).Some?
            case Notified => RunTask(cfg, m, t, Remove).Some?
            case Removed => RunTask(cfg, m, t, TaskStoreMemory(true)).Some?
            case InMemory => RunTask(cfg, m, t, TaskStoreDisk).Some?
            case Finished => false
  {
    ReachedInv(cfg, events, m);
    assert TaskOk(m, t);
  }

  /** How many steps a task has yet to take before its waiters are notified. */
  function StepsToNotify(pc: TaskPc): nat {
    match pc
    case NotSpawned(_) => 4
    case Running => 3
    case Fetched(_) => 2
    case Published => 1
    case _ => 0
  }

  /** The next of these steps; `outcome` is what `direct_fetch` comes to if it is still to come. */
  function NextStep(m: Machine, t: nat, outcome: Outcome): Event
    requires t in m.tasks && !HasNotified(m.tasks[t].pc)
  {
    match m.tasks[t].pc
    case NotSpawned(c) => Act(c, Spawn)
    case Running => Run(t, FetchDone(outcome))
    case Fetched(_) => Run(t, Publish)
    case Published => Run(t, NotifyWaiters)
  }

  /** What the task has published or will publish. */
  function FinalOutcome(task: Task, outcome: Outcome): Outcome {
    if task.result.Some? then task.result.value else if task.pc.Fetched? then task.pc.outcome else outcome
  }

  ghost predicate WaitsFor(m: Machine, c: nat, t: nat) {
    c in m.callers && m.callers[c].pc.Waiting? && m.callers[c].pc.task == t && t in m.tasks
  }

  /** `m'` is `m` with task `t` a step nearer to its notification and caller `c` waiting on. */
  ghost predicate StepNearer(m: Machine, m': Machine, c: nat, t: nat, outcome: Outcome)
    requires t in m.tasks
  {
    && WaitsFor(m', c, t)
    && StepsToNotify(m'.tasks[t].pc) == StepsToNotify(m.tasks[t].pc) - 1
    && FinalOutcome(m'.tasks[t], outcome) == FinalOutcome(m.tasks[t], outcome)
  }

  lemma SpawnStepsOn(cfg: Config, m: Machine, c: nat, t: nat, outcome: Outcome)
    requires Inv(cfg, m) && WaitsFor(m, c, t) && m.tasks[t].pc.NotSpawned?
    ensures var next := Step(cfg, m, NextStep(m, t, outcome)); next.Some? && StepNearer(m, next.value, c, t, outcome)
  {
    assert TaskOk(m, t);
  }

  lemma RunStepsOn(cfg: Config, m: Machine, c: nat, t: nat, outcome: Outcome)
    requires Inv(cfg, m) && WaitsFor(m, c, t)
    requires m.tasks[t].pc.Running? || m.tasks[t].pc.Fetched? || m.tasks[t].pc.Published?
    ensures var next := Step(cfg, m, NextStep(m, t, outcome)); next.Some? && StepNearer(m, next.value, c, t, outcome)
  {
    assert TaskOk(m, t);
    match m.tasks[t].pc
    case Running => assert RunTask(cfg, m, t, FetchDone(outcome)).Some?;
    case Fetched(_) => assert RunTask(cfg, m, t, Publish).Some?;
    case Published => assert RunTask(cfg, m, t, NotifyWaiters).Some?;
  }

  /** The task's next step can be taken, brings it nearer to the notification and lets the caller wait on. */
  lemma TaskStepsOn(cfg: Config, m: Machine, c: nat, t: nat, outcome: Outcome)
    requires Inv(cfg, m) && WaitsFor(m, c, t) && !HasNotified(m.tasks[t].pc)
    ensures var next := Step(cfg, m, NextStep(m, t, outcome)); next.Some? && StepNearer(m, next.value, c, t, outcome)
  {
    if m.tasks[t].pc.NotSpawned? {
      SpawnStepsOn(cfg, m, c, t, outcome);
    } else {
      RunStepsOn(cfg, m, c, t, outcome);
    }
  }

  lemma RunFrom(cfg: Config, m: Machine, e: Event, rest: seq<Event>)
    requires Step(cfg, m, e).Some?
    ensures RunAll(cfg, m, [e] + rest) == RunAll(cfg, Step(cfg, m, e).value, rest)
  {
    assert ([e] + rest)[1..] == rest;
  }

  /** A caller whose task has notified wakes and reads. */
  lemma WaiterReads(cfg: Config, m: Machine, c: nat, t: nat, outcome: Outcome)
    requires Inv(cfg, m) && WaitsFor(m, c, t) && HasNotified(m.tasks[t].pc)
    ensures var end := RunAll(cfg, m, [Act(c, Wake), Act(c, ReadResult)]);
            && end.Some? && c in end.value.callers
            && end.value.callers[c].pc == Done(ReplyOf(FinalOutcome(m.tasks[t], outcome)), Joined(t))
  {
    assert TaskOk(m, t) && CallerOk(m, m.callers[c], c);
    var wake, read := Act(c, Wake), Act(c, ReadResult);
    var woken := Step(cfg, m, wake).value;
    assert [wake, read][1..] == [read] && [read][1..] == [];
    assert RunAll(cfg, woken, [read]) == Step(cfg, woken, read);
  }

  /** A step of task `t`, its spawning, or a step of caller `c`. */
  predicate Concerns(e: Event, c: nat, t: nat) {
    match e
    case Run(task, _) => task == t
    case Act(caller, action) => caller == c || action == Spawn
    case _ => false
  }

  lemma {:induction false} WaiterIsServedFrom(cfg: Config, m: Machine, c: nat, t: nat, outcome: Outcome)
    returns (events: seq<Event>, end: Machine)
    requires Inv(cfg, m) && WaitsFor(m, c, t)
    ensures RunAll(cfg, m, events) == Some(end) && forall e | e in events :: Concerns(e, c, t)
    ensures |events| == StepsToNotify(m.tasks[t].pc) + 2
    ensures c in end.callers && end.callers[c].pc == Done(ReplyOf(FinalOutcome(m.tasks[t], outcome)), Joined(t))
    decreases StepsToNotify(m.tasks[t].pc)
  {
    if HasNotified(m.tasks[t].pc) {
      WaiterReads(cfg, m, c, t, outcome);
      events := [Act(c, Wake), Act(c, ReadResult)];
      end := RunAll(cfg, m, events).value;
    } else {
      var e := NextStep(m, t, outcome);
      TaskStepsOn(cfg, m, c, t, outcome);
      StepKeeps(cfg, m, e);
      var rest;
      rest, end := WaiterIsServedFrom(cfg, Step(cfg, m, e).value, c, t, outcome);
      RunFrom(cfg, m, e, rest);
      events := [e] + rest;
    }
  }

  /**
   From every reached state with a waiting caller, the steps that its task has
   left before notifying and then two of its own end with the caller answered
   by what the task publishes.
   */
  lemma WaiterIsServed(cfg: Config, before: seq<Event>, m: Machine, c: nat, outcome: Outcome)
    returns (events: seq<Event>, end: Machine)
    requires Reached(cfg, before, m) && c in m.callers && m.callers[c].pc.Waiting?
    ensures var t := m.callers[c].pc.task;
            && t in m.tasks && RunAll(cfg, m, events) == Some(end) && |events| == StepsToNotify(m.tasks[t].pc) + 2
            && (forall e | e in events :: Concerns(e, c, t))
            && c in end.callers
            && end.callers[c].pc == Done(ReplyOf(FinalOutcome(m.tasks[t], outcome)), Joined(t))
  {
    ReachedInv(cfg, before, m);
    assert CallerOk(m, m.callers[c], c);
    events, end := WaiterIsServedFrom(cfg, m, c, m.callers[c].pc.task, outcome);
  }

  /**
   A caller's answer is never "finished without result", and what it got from a
   task is exactly what that task published.
   */
  lemma AnswersArePublished(cfg: Config, events: seq<Event>, m: Machine, c: nat)
    requires Reached(cfg, events, m) && c in m.callers && m.callers[c].pc.Done?
    ensures var reply, origin := m.callers[c].pc.reply, m.callers[c].pc.origin;
            && reply != FinishedWithoutResult
            && (origin.Joined? && reply != WaitTimeout ==>
                  && origin.task in m.tasks && m.tasks[origin.task].url == m.callers[c].url
                  && m.tasks[origin.task].result.Some? && reply == ReplyOf(m.tasks[origin.task].result.value))
  {
    ReachedInv(cfg, events, m);
    assert CallerOk(m, m.callers[c], c);
  }

  /** The success of `direct_fetch`, if `e` is one in `m`. */
  function Success(m: Machine, e: Event): Images {
    if e.Act? && e.caller in m.callers && e.action.FetchDirectly? && e.action.outcome.Ok? then
      {(m.callers[e.caller].url, e.action.outcome.value)}
    else if e.Run? && e.task in m.tasks && e.step.FetchDone? && e.step.outcome.Ok? then
      {(m.tasks[e.task].url, e.step.outcome.value)}
    else {}
  }

  /** The image found on disk, if `e` finds one in `m`. */
  function ReadFrom(m: Machine, e: Event): Images {
    if e.Act? && e.caller in m.callers && e.action.ProbeDisk? && e.action.answer.Found? then
      {(m.callers[e.caller].url, e.action.answer.value)}
    else {}
  }

  /** Every success of `direct_fetch` along a run. */
  function Successes(cfg: Config, m: Machine, events: seq<Event>): Images
    decreases |events|
  {
    if events == [] then {}
    else
      match Step(cfg, m, events[0])
      case Some(next) => Success(m, events[0]) + Successes(cfg, next, events[1..])
      case None => {}
  }

  /** Every image found on disk along a run. */
  function ReadsBack(cfg: Config, m: Machine, events: seq<Event>): Images
    decreases |events|
  {
    if events == [] then {}
    else
      match Step(cfg, m, events[0])
      case Some(next) => ReadFrom(m, events[0]) + ReadsBack(cfg, next, events[1..])
      case None => {}
  }

  lemma OtherActRecords(cfg: Config, m: Machine, c: nat, a: CallerAction)
    requires c in m.callers && ActCaller(cfg, m, c, a).Some? && !a.FetchDirectly? && !a.ProbeDisk?
    ensures var next := ActCaller(cfg, m, c, a).value; next.fetched == m.fetched && next.readBack == m.readBack
  {
  }

  lemma ActRecords(cfg: Config, m: Machine, c: nat, a: CallerAction)
    requires c in m.callers && ActCaller(cfg, m, c, a).Some?
    ensures var next := ActCaller(cfg, m, c, a).value;
            && next.fetched == m.fetched + Success(m, Act(c, a))
            && next.readBack == m.readBack + ReadFrom(m, Act(c, a))
  {
    if a.FetchDirectly? {
      assert ActCaller(cfg, m, c, a) == Some(Move(Record(m, m.callers[c].url, a.outcome), c, AfterDirect(a.outcome)));
    } else if a.ProbeDisk? {
      assert ActCaller(cfg, m, c, a) == Some(Move(RecordRead(m, m.callers[c].url, a.answer), c, AfterProbe(a.answer)));
    } else {
      OtherActRecords(cfg, m, c, a);
    }
  }

  lemma TaskRecords(cfg: Config, m: Machine, t: nat, a: TaskAction)
    requires t in m.tasks && RunTask(cfg, m, t, a).Some?
    ensures var next := RunTask(cfg, m, t, a).value;
            next.fetched == m.fetched + Success(m, Run(t, a)) && next.readBack == m.readBack
  {
  }

  /** The histories record exactly what each step fetches and reads. */
  lemma StepRecords(cfg: Config, m: Machine, e: Event)
    requires Step(cfg, m, e).Some?
    ensures var next := Step(cfg, m, e).value;
            next.fetched == m.fetched + Success(m, e) && next.readBack == m.readBack + ReadFrom(m, e)
  {
    if e.Act? {
      ActRecords(cfg, m, e.caller, e.action);
    } else if e.Run? {
      TaskRecords(cfg, m, e.task, e.step);
    }
  }

  lemma {:induction false} RunRecords(cfg: Config, m: Machine, events: seq<Event>)
    requires RunAll(cfg, m, events).Some?
    ensures var end := RunAll(cfg, m, events).value;
            && end.fetched == m.fetched + Successes(cfg, m, events)
            && end.readBack == m.readBack + ReadsBack(cfg, m, events)
    decreases |events|
  {
    if events == [] {
    } else {
      StepRecords(cfg, m, events[0]);
      RunRecords(cfg, Step(cfg, m, events[0]).value, events[1..]);
    }
  }

  /** An image answered from a cache is known; any other was fetched. */
  predicate AnswersFrom(caller: Caller, fetched: Images, known: Images) {
    caller.pc.Done? && caller.pc.reply.Image? ==>
      (caller.url, caller.pc.reply.value) in known
      && (!caller.pc.origin.Cache? ==> (caller.url, caller.pc.reply.value) in fetched)
  }

  /**
   Provenance: every image that a caller is answered with or that stands in the
   memory cache came out of a successful `direct_fetch` of that same URL, or
   was found under that URL on disk, earlier in the run; and one that is not
   said to come from a cache came out of a fetch.
   */
  lemma Provenance(cfg: Config, events: seq<Event>, m: Machine)
    requires Reached(cfg, events, m)
    ensures var fetched := Successes(cfg, INITIAL, events);
            var known := fetched + ReadsBack(cfg, INITIAL, events);
            && (forall c | c in m.callers :: AnswersFrom(m.callers[c], fetched, known))
            && (forall url | url in m.memory :: (url, m.memory[url]) in known)
  {
    ReachedInv(cfg, events, m);
    RunRecords(cfg, INITIAL, events);
    InvAnswers(cfg, m);
    assert {} + Successes(cfg, INITIAL, events) == Successes(cfg, INITIAL, events);
    assert {} + ReadsBack(cfg, INITIAL, events) == ReadsBack(cfg, INITIAL, events);
  }

  lemma InvAnswers(cfg: Config, m: Machine)
    requires Inv(cfg, m)
    ensures forall c | c in m.callers :: AnswersFrom(m.callers[c], m.fetched, m.fetched + m.readBack)
  {
    forall c | c in m.callers ensures AnswersFrom(m.callers[c], m.fetched, m.fetched + m.readBack) {
      assert CallerOk(m, m.callers[c], c);
    }
  }
}
