/**
 The cache directory of `src/cache.rs` as the two fetch services of one process
 share it (`build_router` in `src/http/router.rs`). Each service has its own
 `io_lock`, so its `get` and `set` exclude each other but not those of the
 other service. An entry is two files under one stem; every step below is one
 call on one file, a write being its truncation and its filling. The request
 service is `FetchService`; of the response service only fetches and accesses
 to the directory matter here, and it may make them in any order.
 */
module SharedDirectory {
  import opened Wrappers
  import opened Bytes
  import opened MemoryCache
  import F = FetchService

  type Images = F.Images

  /** `key` is the SHA-256 file stem; `readMeta` the media type that a meta file's text names, if it can be read. */
  datatype Config = Config(fetch: F.Config, key: bytes -> bytes, readMeta: bytes -> Option<bytes>)

  /** The texts of the `.json` and of the `.bin` files, by stem. */
  datatype Dir = Dir(metas: map<bytes, bytes>, bodies: map<bytes, bytes>)

  datatype GetPc =
    | SeekMeta
    | SeekBody
    | ReadMeta
    | ReadBody(mimeType: bytes)
    | Answered(answer: F.DiskAnswer)

  datatype SetPc = TruncateBody | FillBody | TruncateMeta | FillMeta | Written

  /** A `get` or `set` that holds its service's lock; `metaText` holds the expiry that the clock gave. */
  datatype Access =
    | Getting(url: bytes, got: GetPc)
    | Setting(url: bytes, value: CachedInlineData, metaText: bytes, done: SetPc)

  datatype Agent = Caller(id: nat) | Task(id: nat)

  datatype Holding = Holding(agent: Agent, access: Access)

  /** `fetched` records the successes of the response service's fetches. */
  datatype System = System(
    dir: Dir,
    service: F.Machine,
    request: Option<Holding>,
    response: Option<Access>,
    fetched: Images)

  const INITIAL := System(Dir(map[], map[]), F.INITIAL, None, None, {})

  datatype Event =
    | Serve(e: F.Event)                 // a step of the request service away from the directory
    | BeginGet(caller: nat)
    | BeginSet(agent: Agent, metaText: bytes)
    | NextCall(live: bool)              // the next call on a file; `live` says the entry has not expired
    | End
    | OtherFetched(url: bytes, value: CachedInlineData)
    | OtherGet(url: bytes)
    | OtherSet(url: bytes, value: CachedInlineData, metaText: bytes)
    | OtherCall(live: bool)
    | OtherEnd
    | VanishMeta(stem: bytes)           // expiry and pruning by either service
    | VanishBody(stem: bytes)
    | Restart

  // ---------------------------------------------------------------------- files

  /** Writing at the start of a file that may have grown since it was truncated. */
  function Overlay(was: bytes, text: bytes): bytes {
    if |text| < |was| then text + was[|text|..] else text
  }

  function Filled(files: map<bytes, bytes>, stem: bytes, text: bytes): map<bytes, bytes> {
    if stem in files then files[stem := Overlay(files[stem], text)] else files
  }

  const UNREADABLE: bytes := "unread" + "able"

  /** The next call of `DiskCache::get`. */
  function GetStep(cfg: Config, dir: Dir, url: bytes, got: GetPc, live: bool): Option<GetPc> {
    var stem := cfg.key(url);
    match got
    case SeekMeta => Some(if stem in dir.metas then SeekBody else Answered(F.Missing))
    case SeekBody => Some(if stem in dir.bodies then ReadMeta else Answered(F.Missing))
    case ReadMeta =>
      if stem !in dir.metas then Some(Answered(F.Broken(UNREADABLE)))
      else
        (match cfg.readMeta(dir.metas[stem])
         case None => Some(Answered(F.Broken(UNREADABLE)))
         case Some(mimeType) => Some(if live then ReadBody(mimeType) else Answered(F.Missing)))
    case ReadBody(mimeType) =>
      Some(Answered(if stem in dir.bodies then F.Found(CachedInlineData(mimeType, dir.bodies[stem]))
                    else F.Broken(UNREADABLE)))
    case Answered(_) => None
  }

  /** The next call of `DiskCache::set`. */
  function SetStep(cfg: Config, dir: Dir, access: Access): Option<(Dir, SetPc)>
    requires access.Setting?
  {
    var stem := cfg.key(access.url);
    match access.done
    case TruncateBody => Some((dir.(bodies := dir.bodies[stem := []]), FillBody))
    case FillBody => Some((dir.(bodies := Filled(dir.bodies, stem, access.value.content)), TruncateMeta))
    case TruncateMeta => Some((dir.(metas := dir.metas[stem := []]), FillMeta))
    case FillMeta => Some((dir.(metas := Filled(dir.metas, stem, access.metaText)), Written))
    case Written => None
  }

  function AccessStep(cfg: Config, dir: Dir, access: Access, live: bool): Option<(Dir, Access)> {
    match access
    case Getting(url, got) =>
      var got' :- GetStep(cfg, dir, url, got, live);
      Some((dir, Getting(url, got')))
    case Setting(url, value, metaText, _) =>
      var (dir', done') :- SetStep(cfg, dir, access);
      Some((dir', Setting(url, value, metaText, done')))
  }

  predicate IsOver(access: Access) {
    match access
    case Getting(_, got) => got.Answered?
    case Setting(_, _, _, done) => done.Written?
  }

  // --------------------------------------------------------------------- steps

  /** What the agent is about to put on disk. */
  function ToStore(m: F.Machine, agent: Agent): Option<(bytes, CachedInlineData)> {
    match agent
    case Caller(c) =>
      if c in m.callers && m.callers[c].pc.Saving? then Some((m.callers[c].url, m.callers[c].pc.value)) else None
    case Task(t) =>
      if t in m.tasks && m.tasks[t].pc.InMemory? && m.tasks[t].result.Some? && m.tasks[t].result.value.Ok? then
        Some((m.tasks[t].url, m.tasks[t].result.value.value))
      else None
  }

  predicate TouchesDirectory(e: F.Event) {
    || (e.Act? && (e.action.ProbeDisk? || e.action.StoreDisk?))
    || (e.Run? && e.step.TaskStoreDisk?)
    || e.Restart?
  }

  /** Between lock and unlock there is no await, so the holder does nothing else. */
  predicate IsHolder(sys: System, e: F.Event) {
    e.Act? && sys.request.Some? && sys.request.value.agent == Caller(e.caller)
  }

  /** The lock is released and the service goes on with what `get` answered, or after its `set`. */
  function Release(cfg: Config, m: F.Machine, h: Holding): Option<F.Machine> {
    match h.access
    case Getting(url, got) =>
      if !got.Answered? || !h.agent.Caller? || h.agent.id !in m.callers || m.callers[h.agent.id].url != url then None
      else F.ActCaller(cfg.fetch, m, h.agent.id, F.ProbeDisk(got.answer))
    case Setting(url, value, _, done) =>
      if !done.Written? || ToStore(m, h.agent) != Some((url, value)) then None
      else
        match h.agent
        case Caller(c) => F.ActCaller(cfg.fetch, m, c, F.StoreDisk)
        case Task(t) => F.RunTask(cfg.fetch, m, t, F.TaskStoreDisk)
  }

  function Step(cfg: Config, sys: System, e: Event): Option<System> {
    match e
    case Serve(e) =>
      if TouchesDirectory(e) || IsHolder(sys, e) then None
      else
        var m :- F.Step(cfg.fetch, sys.service, e);
        Some(sys.(service := m))
    case BeginGet(c) =>
      if sys.request.Some? || c !in sys.service.callers || !sys.service.callers[c].pc.AtDisk? then None
      else Some(sys.(request := Some(Holding(Caller(c), Getting(sys.service.callers[c].url, SeekMeta)))))
    case BeginSet(agent, metaText) =>
      if sys.request.Some? then None
      else
        var (url, value) :- ToStore(sys.service, agent);
        if cfg.readMeta(metaText) != Some(value.mimeType) then None
        else Some(sys.(request := Some(Holding(agent, Setting(url, value, metaText, TruncateBody)))))
    case NextCall(live) =>
      var h :- sys.request;
      var (dir, access) :- AccessStep(cfg, sys.dir, h.access, live);
      Some(sys.(dir := dir, request := Some(h.(access := access))))
    case End =>
      var h :- sys.request;
      var m :- Release(cfg, sys.service, h);
      Some(sys.(service := m, request := None))
    case Restart =>
      var m :- F.Step(cfg.fetch, sys.service, F.Restart);
      Some(sys.(service := m, request := None, response := None))
    case VanishMeta(stem) => Some(sys.(dir := sys.dir.(metas := sys.dir.metas - {stem})))
    case VanishBody(stem) => Some(sys.(dir := sys.dir.(bodies := sys.dir.bodies - {stem})))
    case _ => OtherStep(cfg, sys, e)
  }

  /** The response service. */
  function OtherStep(cfg: Config, sys: System, e: Event): Option<System> {
    match e
    case OtherFetched(url, value) => Some(sys.(fetched := sys.fetched + {(url, value)}))
    case OtherGet(url) => if sys.response.Some? then None else Some(sys.(response := Some(Getting(url, SeekMeta))))
    case OtherSet(url, value, metaText) =>
      if sys.response.Some? || (url, value) !in sys.fetched || cfg.readMeta(metaText) != Some(value.mimeType) then None
      else Some(sys.(response := Some(Setting(url, value, metaText, TruncateBody))))
    case OtherCall(live) =>
      var access :- sys.response;
      var (dir, access) :- AccessStep(cfg, sys.dir, access, live);
      Some(sys.(dir := dir, response := Some(access)))
    case OtherEnd =>
      var access :- sys.response;
      if IsOver(access) then Some(sys.(response := None)) else None
    case _ => None
  }

  function RunAll(cfg: Config, sys: System, events: seq<Event>): Option<System>
    decreases |events|
  {
    if events == [] then Some(sys)
    else
      var next :- Step(cfg, sys, events[0]);
      RunAll(cfg, next, events[1..])
  }

  // ------------------------------------------------------- what must not overlap

  function RequestAccess(sys: System): Option<Access> {
    match sys.request
    case Some(h) => Some(h.access)
    case None => None
  }

  /** Between its first and its last call on a file, a `set` leaves the entry unfinished. */
  predicate Writing(access: Option<Access>, url: bytes) {
    && access.Some? && access.value.Setting? && access.value.url == url
    && !access.value.done.TruncateBody? && !access.value.done.Written?
  }

  /** Two accesses to one entry at a time are both reads. */
  predicate Apart(a: Option<Access>, b: Option<Access>) {
    a.Some? && b.Some? && a.value.url == b.value.url ==> a.value.Getting? && b.value.Getting?
  }

  predicate Unbroken(access: Option<Access>) {
    access.Some? ==> !Writing(access, access.value.url)
  }

  /** No `set` of one service overlaps an access of the other to the same entry, and none is cut off by a restart. */
  predicate RunsApart(cfg: Config, sys: System, events: seq<Event>)
    decreases |events|
  {
    && Apart(RequestAccess(sys), sys.response)
    && (events != [] ==>
          && (events[0].Restart? ==> Unbroken(RequestAccess(sys)) && Unbroken(sys.response))
          && match Step(cfg, sys, events[0])
             case Some(next) => RunsApart(cfg, next, events[1..])
             case None => true)
  }

  // ----------------------------------------------------------------- invariants

  /** The two files of an entry, where both are there and can be read, are one image's. */
  ghost predicate PairOk(cfg: Config, dir: Dir, url: bytes, produced: Images) {
    var stem := cfg.key(url);
    stem in dir.metas && stem in dir.bodies && cfg.readMeta(dir.metas[stem]).Some? ==>
      (url, CachedInlineData(cfg.readMeta(dir.metas[stem]).value, dir.bodies[stem])) in produced
  }

  predicate Holds(files: map<bytes, bytes>, stem: bytes, text: bytes) {
    stem in files ==> files[stem] == text
  }

  /** How far an access has come, and what it may rely on. */
  ghost predicate AccessOk(cfg: Config, dir: Dir, access: Option<Access>, produced: Images) {
    match access
    case None => true
    case Some(Getting(url, got)) =>
      var stem := cfg.key(url);
      && (got.ReadBody? && stem in dir.bodies ==> (url, CachedInlineData(got.mimeType, dir.bodies[stem])) in produced)
      && (got.Answered? && got.answer.Found? ==> (url, got.answer.value) in produced)
    case Some(Setting(url, value, metaText, done)) =>
      var stem := cfg.key(url);
      && (url, value) in produced && cfg.readMeta(metaText) == Some(value.mimeType)
      && (done.FillBody? ==> Holds(dir.bodies, stem, []))
      && (done.TruncateMeta? || done.FillMeta? ==> Holds(dir.bodies, stem, value.content))
      && (done.FillMeta? ==> Holds(dir.metas, stem, []))
  }

  ghost predicate DirOk(cfg: Config, dir: Dir, a: Option<Access>, b: Option<Access>, produced: Images) {
    && (forall url :: Writing(a, url) || Writing(b, url) || PairOk(cfg, dir, url, produced))
    && AccessOk(cfg, dir, a, produced) && AccessOk(cfg, dir, b, produced)
  }

  // -------------------------------------------------------- what one access keeps

  /** Nothing but the entry of `url` changes. */
  ghost predicate SameElsewhere(cfg: Config, dir: Dir, dir': Dir, url: bytes) {
    forall s | s != cfg.key(url) ::
      && (s in dir'.metas <==> s in dir.metas) && (s in dir.metas ==> dir'.metas[s] == dir.metas[s])
      && (s in dir'.bodies <==> s in dir.bodies) && (s in dir.bodies ==> dir'.bodies[s] == dir.bodies[s])
  }

  lemma SetStepElsewhere(cfg: Config, dir: Dir, access: Access)
    requires access.Setting? && SetStep(cfg, dir, access).Some?
    ensures SameElsewhere(cfg, dir, SetStep(cfg, dir, access).value.0, access.url)
  {
  }

  lemma OtherAccessKept(cfg: Config, dir: Dir, dir': Dir, url: bytes, b: Option<Access>, produced: Images)
    requires Injective(cfg.key) && SameElsewhere(cfg, dir, dir', url) && AccessOk(cfg, dir, b, produced)
    requires b.Some? ==> b.value.url != url
    ensures AccessOk(cfg, dir', b, produced)
  {
    if b.Some? {
      assert cfg.key(b.value.url) != cfg.key(url);
    }
  }

  lemma OtherPairKept(cfg: Config, dir: Dir, dir': Dir, url: bytes, u: bytes, produced: Images)
    requires Injective(cfg.key) && SameElsewhere(cfg, dir, dir', url) && PairOk(cfg, dir, u, produced) && u != url
    ensures PairOk(cfg, dir', u, produced)
  {
    assert cfg.key(u) != cfg.key(url);
  }

  /** A `set` works through its four writes; with the last one the entry is whole again. */
  lemma SetStepKeeps(cfg: Config, dir: Dir, access: Access, produced: Images)
    requires access.Setting? && AccessOk(cfg, dir, Some(access), produced) && SetStep(cfg, dir, access).Some?
    ensures var (dir', done) := SetStep(cfg, dir, access).value;
            && AccessOk(cfg, dir', Some(Setting(access.url, access.value, access.metaText, done)), produced)
            && (done.Written? ==> PairOk(cfg, dir', access.url, produced))
  {
  }

  lemma GetStepKeeps(cfg: Config, dir: Dir, access: Access, live: bool, produced: Images)
    requires access.Getting? && AccessOk(cfg, dir, Some(access), produced) && PairOk(cfg, dir, access.url, produced)
    requires GetStep(cfg, dir, access.url, access.got, live).Some?
    ensures var got := GetStep(cfg, dir, access.url, access.got, live).value;
            AccessOk(cfg, dir, Some(Getting(access.url, got)), produced)
  {
  }

  lemma AccessStepKeeps(cfg: Config, dir: Dir, access: Access, live: bool, b: Option<Access>, produced: Images)
    requires Injective(cfg.key) && DirOk(cfg, dir, Some(access), b, produced) && Apart(Some(access), b)
    requires AccessStep(cfg, dir, access, live).Some?
    ensures var (dir', access') := AccessStep(cfg, dir, access, live).value;
            DirOk(cfg, dir', Some(access'), b, produced)
  {
    var (dir', access') := AccessStep(cfg, dir, access, live).value;
    if access.Getting? {
      assert !Writing(b, access.url) && PairOk(cfg, dir, access.url, produced);
      GetStepKeeps(cfg, dir, access, live, produced);
    } else {
      SetStepElsewhere(cfg, dir, access);
      SetStepKeeps(cfg, dir, access, produced);
      OtherAccessKept(cfg, dir, dir', access.url, b, produced);
      forall u ensures Writing(Some(access'), u) || Writing(b, u) || PairOk(cfg, dir', u, produced) {
        if u != access.url && !Writing(b, u) {
          OtherPairKept(cfg, dir, dir', access.url, u, produced);
        }
      }
    }
  }

  lemma Swapped(cfg: Config, dir: Dir, a: Option<Access>, b: Option<Access>, produced: Images)
    requires DirOk(cfg, dir, a, b, produced)
    ensures DirOk(cfg, dir, b, a, produced)
  {
  }

  lemma VanishKeeps(cfg: Config, dir: Dir, a: Option<Access>, b: Option<Access>, produced: Images, stem: bytes)
    requires DirOk(cfg, dir, a, b, produced)
    ensures DirOk(cfg, dir.(metas := dir.metas - {stem}), a, b, produced)
    ensures DirOk(cfg, dir.(bodies := dir.bodies - {stem}), a, b, produced)
  {
    forall u ensures Writing(a, u) || Writing(b, u)
                     || (&& PairOk(cfg, dir.(metas := dir.metas - {stem}), u, produced)
                         && PairOk(cfg, dir.(bodies := dir.bodies - {stem}), u, produced))
    {
      if !Writing(a, u) && !Writing(b, u) {
        assert PairOk(cfg, dir, u, produced);
      }
    }
  }

  lemma MoreProduced(cfg: Config, dir: Dir, a: Option<Access>, b: Option<Access>, produced: Images, more: Images)
    requires DirOk(cfg, dir, a, b, produced) && produced <= more
    ensures DirOk(cfg, dir, a, b, more)
  {
    forall u ensures Writing(a, u) || Writing(b, u) || PairOk(cfg, dir, u, more) {
      if !Writing(a, u) && !Writing(b, u) {
        assert PairOk(cfg, dir, u, produced);
      }
    }
  }

  /** An access that has not touched a file, or is over, leaves every entry whole. */
  lemma Replaced(cfg: Config, dir: Dir, a: Option<Access>, a': Option<Access>, b: Option<Access>, produced: Images)
    requires DirOk(cfg, dir, a, b, produced) && Unbroken(a) && AccessOk(cfg, dir, a', produced)
    ensures DirOk(cfg, dir, a', b, produced)
  {
    forall u ensures Writing(a', u) || Writing(b, u) || PairOk(cfg, dir, u, produced) {
      assert !Writing(a, u);
    }
  }

  // ------------------------------------------------------------- every step keeps

  /** What both services have fetched. */
  function Produced(sys: System): Images {
    sys.service.fetched + sys.fetched
  }

  ghost predicate Inv(cfg: Config, sys: System) {
    && F.Inv(cfg.fetch, sys.service) && sys.service.readBack <= Produced(sys)
    && DirOk(cfg, sys.dir, RequestAccess(sys), sys.response, Produced(sys))
  }

  lemma ServeKeeps(cfg: Config, sys: System, e: F.Event)
    requires Inv(cfg, sys) && !TouchesDirectory(e) && F.Step(cfg.fetch, sys.service, e).Some?
    ensures Inv(cfg, sys.(service := F.Step(cfg.fetch, sys.service, e).value))
  {
    var sys' := sys.(service := F.Step(cfg.fetch, sys.service, e).value);
    F.StepKeeps(cfg.fetch, sys.service, e);
    F.StepRecords(cfg.fetch, sys.service, e);
    MoreProduced(cfg, sys.dir, RequestAccess(sys), sys.response, Produced(sys), Produced(sys'));
  }

  /** What is put on disk has been fetched. */
  lemma ToStoreIsFetched(cfg: Config, m: F.Machine, agent: Agent)
    requires F.Inv(cfg.fetch, m) && ToStore(m, agent).Some?
    ensures ToStore(m, agent).value in m.fetched
  {
    match agent
    case Caller(c) => assert F.CallerOk(m, m.callers[c], c);
    case Task(t) => assert F.TaskOk(m, t);
  }

  lemma BeginKeeps(cfg: Config, sys: System, h: Holding)
    requires Inv(cfg, sys) && sys.request.None? && AccessOk(cfg, sys.dir, Some(h.access), Produced(sys))
    ensures Inv(cfg, sys.(request := Some(h)))
  {
    Replaced(cfg, sys.dir, None, Some(h.access), sys.response, Produced(sys));
  }

  lemma CallKeeps(cfg: Config, sys: System, live: bool)
    requires Injective(cfg.key) && Inv(cfg, sys) && Apart(RequestAccess(sys), sys.response)
    requires Step(cfg, sys, NextCall(live)).Some?
    ensures Inv(cfg, Step(cfg, sys, NextCall(live)).value)
  {
    AccessStepKeeps(cfg, sys.dir, sys.request.value.access, live, sys.response, Produced(sys));
  }

  lemma OtherCallKeeps(cfg: Config, sys: System, live: bool)
    requires Injective(cfg.key) && Inv(cfg, sys) && Apart(RequestAccess(sys), sys.response)
    requires Step(cfg, sys, OtherCall(live)).Some?
    ensures Inv(cfg, Step(cfg, sys, OtherCall(live)).value)
  {
    var (dir, access) := AccessStep(cfg, sys.dir, sys.response.value, live).value;
    Swapped(cfg, sys.dir, RequestAccess(sys), sys.response, Produced(sys));
    AccessStepKeeps(cfg, sys.dir, sys.response.value, live, RequestAccess(sys), Produced(sys));
    Swapped(cfg, dir, Some(access), RequestAccess(sys), Produced(sys));
  }

  /** What a released `get` found. */
  function ReadBy(h: Holding): Images {
    match h.access
    case Getting(url, Answered(Found(value))) => {(url, value)}
    case _ => {}
  }

  /** The step that the service takes at the release. */
  function Released(h: Holding): F.Event {
    match h.access
    case Getting(_, got) => F.Act(h.agent.id, F.ProbeDisk(if got.Answered? then got.answer else F.Missing))
    case Setting(_, _, _, _) =>
      match h.agent
      case Caller(c) => F.Act(c, F.StoreDisk)
      case Task(t) => F.Run(t, F.TaskStoreDisk)
  }

  lemma ReleaseIsStep(cfg: Config, m: F.Machine, h: Holding)
    requires Release(cfg, m, h).Some?
    ensures Release(cfg, m, h) == F.Step(cfg.fetch, m, Released(h))
  {
  }

  lemma ReleaseReads(cfg: Config, m: F.Machine, h: Holding)
    requires Release(cfg, m, h).Some?
    ensures var m' := Release(cfg, m, h).value; m'.fetched == m.fetched && m'.readBack <= m.readBack + ReadBy(h)
  {
    ReleaseIsStep(cfg, m, h);
    F.StepRecords(cfg.fetch, m, Released(h));
  }

  lemma ReleaseKeeps(cfg: Config, m: F.Machine, h: Holding)
    requires F.Inv(cfg.fetch, m) && Release(cfg, m, h).Some?
    ensures F.Inv(cfg.fetch, Release(cfg, m, h).value)
  {
    ReleaseIsStep(cfg, m, h);
    F.StepKeeps(cfg.fetch, m, Released(h));
  }

  lemma EndKeeps(cfg: Config, sys: System)
    requires Inv(cfg, sys) && Step(cfg, sys, End).Some?
    ensures Inv(cfg, Step(cfg, sys, End).value)
  {
    var h := sys.request.value;
    ReleaseKeeps(cfg, sys.service, h);
    ReleaseReads(cfg, sys.service, h);
    assert IsOver(h.access);
    Replaced(cfg, sys.dir, Some(h.access), None, sys.response, Produced(sys));
  }

  lemma RestartKeeps(cfg: Config, sys: System)
    requires Inv(cfg, sys) && Unbroken(RequestAccess(sys)) && Unbroken(sys.response)
    ensures Inv(cfg, Step(cfg, sys, Restart).value)
  {
    F.StepKeeps(cfg.fetch, sys.service, F.Restart);
    Replaced(cfg, sys.dir, RequestAccess(sys), None, sys.response, Produced(sys));
    Swapped(cfg, sys.dir, None, sys.response, Produced(sys));
    Replaced(cfg, sys.dir, sys.response, None, None, Produced(sys));
  }

  lemma ResponseReplaced(cfg: Config, sys: System, access: Option<Access>)
    requires Inv(cfg, sys) && Unbroken(sys.response) && AccessOk(cfg, sys.dir, access, Produced(sys))
    ensures Inv(cfg, sys.(response := access))
  {
    Swapped(cfg, sys.dir, RequestAccess(sys), sys.response, Produced(sys));
    Replaced(cfg, sys.dir, sys.response, access, RequestAccess(sys), Produced(sys));
    Swapped(cfg, sys.dir, access, RequestAccess(sys), Produced(sys));
  }

  lemma OtherStepKeeps(cfg: Config, sys: System, e: Event)
    requires Injective(cfg.key) && Inv(cfg, sys) && Apart(RequestAccess(sys), sys.response)
    requires OtherStep(cfg, sys, e).Some?
    ensures Inv(cfg, OtherStep(cfg, sys, e).value)
  {
    match e
    case OtherFetched(url, value) =>
      var sys' := OtherStep(cfg, sys, e).value;
      MoreProduced(cfg, sys.dir, RequestAccess(sys), sys.response, Produced(sys), Produced(sys'));
    case OtherGet(url) => ResponseReplaced(cfg, sys, Some(Getting(url, SeekMeta)));
    case OtherSet(url, value, metaText) =>
      ResponseReplaced(cfg, sys, Some(Setting(url, value, metaText, TruncateBody)));
    case OtherCall(live) => OtherCallKeeps(cfg, sys, live);
    case OtherEnd => ResponseReplaced(cfg, sys, None);
  }

  lemma StepKeeps(cfg: Config, sys: System, e: Event)
    requires Injective(cfg.key) && Inv(cfg, sys) && Apart(RequestAccess(sys), sys.response)
    requires e.Restart? ==> Unbroken(RequestAccess(sys)) && Unbroken(sys.response)
    requires Step(cfg, sys, e).Some?
    ensures Inv(cfg, Step(cfg, sys, e).value)
  {
    match e
    case Serve(e) => ServeKeeps(cfg, sys, e);
    case BeginGet(c) => BeginKeeps(cfg, sys, Step(cfg, sys, e).value.request.value);
    case BeginSet(agent, metaText) =>
      ToStoreIsFetched(cfg, sys.service, agent);
      BeginKeeps(cfg, sys, Step(cfg, sys, e).value.request.value);
    case NextCall(live) => CallKeeps(cfg, sys, live);
    case End => EndKeeps(cfg, sys);
    case Restart => RestartKeeps(cfg, sys);
    case VanishMeta(stem) => VanishKeeps(cfg, sys.dir, RequestAccess(sys), sys.response, Produced(sys), stem);
    case VanishBody(stem) => VanishKeeps(cfg, sys.dir, RequestAccess(sys), sys.response, Produced(sys), stem);
    case _ => OtherStepKeeps(cfg, sys, e);
  }

  lemma {:induction false} RunKeeps(cfg: Config, sys: System, events: seq<Event>)
    requires Injective(cfg.key) && Inv(cfg, sys)
    requires RunAll(cfg, sys, events).Some? && RunsApart(cfg, sys, events)
    ensures Inv(cfg, RunAll(cfg, sys, events).value)
    decreases |events|
  {
    if events == [] {
    } else {
      StepKeeps(cfg, sys, events[0]);
      RunKeeps(cfg, Step(cfg, sys, events[0]).value, events[1..]);
    }
  }

  // ---------------------------------------------------------------- main results

  /** The success of a fetch of either service, if `e` is one. */
  function Success(sys: System, e: Event): Images {
    match e
    case Serve(e) => F.Success(sys.service, e)
    case OtherFetched(url, value) => {(url, value)}
    case _ => {}
  }

  /** Every success of either service's fetches along a run. */
  function Successes(cfg: Config, sys: System, events: seq<Event>): Images
    decreases |events|
  {
    if events == [] then {}
    else
      match Step(cfg, sys, events[0])
      case Some(next) => Success(sys, events[0]) + Successes(cfg, next, events[1..])
      case None => {}
  }

  lemma StepRecords(cfg: Config, sys: System, e: Event)
    requires Step(cfg, sys, e).Some?
    ensures Produced(Step(cfg, sys, e).value) == Produced(sys) + Success(sys, e)
  {
    match e
    case Serve(e) => F.StepRecords(cfg.fetch, sys.service, e);
    case End => ReleaseReads(cfg, sys.service, sys.request.value);
    case _ =>
  }

  lemma {:induction false} RunRecords(cfg: Config, sys: System, events: seq<Event>)
    requires RunAll(cfg, sys, events).Some?
    ensures Produced(RunAll(cfg, sys, events).value) == Produced(sys) + Successes(cfg, sys, events)
    decreases |events|
  {
    if events == [] {
    } else {
      StepRecords(cfg, sys, events[0]);
      RunRecords(cfg, Step(cfg, sys, events[0]).value, events[1..]);
    }
  }

  /**
   Provenance: in every run in which no `set` of one service overlaps an access
   of the other to the same entry and none is cut off by a restart, every image
   that the request service answers with or holds in memory, and every entry on
   disk that can be read and is not being written, came out of an earlier
   successful fetch of that same URL by one service or the other.
   */
  lemma Provenance(cfg: Config, events: seq<Event>, sys: System)
    requires Injective(cfg.key) && RunAll(cfg, INITIAL, events) == Some(sys) && RunsApart(cfg, INITIAL, events)
    ensures var produced := Successes(cfg, INITIAL, events);
            && (forall c | c in sys.service.callers && sys.service.callers[c].pc.Done? ::
                  sys.service.callers[c].pc.reply.Image? ==>
                    (sys.service.callers[c].url, sys.service.callers[c].pc.reply.value) in produced)
            && (forall url | url in sys.service.memory :: (url, sys.service.memory[url]) in produced)
            && (forall url | !Writing(RequestAccess(sys), url) && !Writing(sys.response, url) ::
                  PairOk(cfg, sys.dir, url, produced))
  {
    RunKeeps(cfg, INITIAL, events);
    RunRecords(cfg, INITIAL, events);
    assert Produced(sys) == Successes(cfg, INITIAL, events);
    F.InvAnswers(cfg.fetch, sys.service);
    forall c | c in sys.service.callers && sys.service.callers[c].pc.Done? && sys.service.callers[c].pc.reply.Image?
      ensures (sys.service.callers[c].url, sys.service.callers[c].pc.reply.value) in Produced(sys)
    {
      assert F.AnswersFrom(sys.service.callers[c], sys.service.fetched, sys.service.fetched + sys.service.readBack);
    }
  }
}
