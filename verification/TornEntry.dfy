/**
 How an entry of the shared cache directory comes to hold the media type of one
 image and the bytes of another, and that `fetch` then answers with this pair:
 by two overlapping sets, by a set cut off by a restart, and by a set that
 overlaps a get. In none of these runs did a fetch ever produce the pair.
 */
module TornEntry {
  import opened Wrappers
  import opened Bytes
  import opened MemoryCache
  import opened SharedDirectory
  import F = FetchService

  // ------------------------------------------------------------------ longer runs

  lemma {:induction false} RunAppend(cfg: Config, sys: System, a: seq<Event>, b: seq<Event>)
    requires RunAll(cfg, sys, a).Some?
    ensures RunAll(cfg, sys, a + b) == RunAll(cfg, RunAll(cfg, sys, a).value, b)
    ensures Successes(cfg, sys, a + b) == Successes(cfg, sys, a) + Successes(cfg, RunAll(cfg, sys, a).value, b)
    decreases |a|
  {
    if a == [] {
      assert a + b == b;
    } else {
      assert (a + b)[0] == a[0] && (a + b)[1..] == a[1..] + b;
      RunAppend(cfg, Step(cfg, sys, a[0]).value, a[1..], b);
    }
  }

  lemma RunSnoc(cfg: Config, start: System, events: seq<Event>, e: Event)
    requires RunAll(cfg, start, events).Some?
    ensures RunAll(cfg, start, events + [e]) == Step(cfg, RunAll(cfg, start, events).value, e)
  {
    RunAppend(cfg, start, events, [e]);
    var last := RunAll(cfg, start, events).value;
    assert [e][1..] == [];
    assert RunAll(cfg, last, [e]) == Step(cfg, last, e);
  }

  /** `end` is reached from `start`. */
  ghost predicate Leads(cfg: Config, start: System, events: seq<Event>, end: System) {
    RunAll(cfg, start, events) == Some(end)
  }

  lemma Next(cfg: Config, start: System, events: seq<Event>, here: System, e: Event, next: System)
    requires Leads(cfg, start, events, here) && Step(cfg, here, e) == Some(next)
    ensures Leads(cfg, start, events + [e], next)
  {
    RunSnoc(cfg, start, events, e);
  }

  // --------------------------------------------------- a fetch answered from disk

  /** Both files are there, and the meta file can be read. */
  predicate Readable(cfg: Config, dir: Dir, url: bytes) {
    cfg.key(url) in dir.metas && cfg.key(url) in dir.bodies && cfg.readMeta(dir.metas[cfg.key(url)]).Some?
  }

  /** What the two files hold together. */
  function OnDisk(cfg: Config, dir: Dir, url: bytes): CachedInlineData
    requires Readable(cfg, dir, url)
  {
    CachedInlineData(cfg.readMeta(dir.metas[cfg.key(url)]).value, dir.bodies[cfg.key(url)])
  }

  predicate IsAnswered(sys: System, c: nat, url: bytes, value: CachedInlineData) {
    && c in sys.service.callers && sys.service.callers[c].url == url
    && sys.service.callers[c].pc == F.Done(F.Image(value, true), F.Cache)
  }

  /** A new caller probes the memory cache in vain and takes the lock. */
  lemma StartsGet(cfg: Config, start: System, events: seq<Event>, here: System, c: nat, url: bytes)
    returns (events': seq<Event>, next: System)
    requires Leads(cfg, start, events, here) && here.request.None?
    requires c !in here.service.callers && url !in here.service.memory
    ensures Leads(cfg, start, events', next)
    ensures next == here.(service := next.service, request := Some(Holding(Caller(c), Getting(url, SeekMeta))))
    ensures next.service == here.service.(callers := here.service.callers[c := F.Caller(url, F.AtDisk)])
  {
    var s1 := here.(service := here.service.(callers := here.service.callers[c := F.Caller(url, F.AtMemory)]));
    Next(cfg, start, events, here, Serve(F.Call(c, url)), s1);
    var e2 := Serve(F.Act(c, F.ProbeMemory));
    var s2 := Step(cfg, s1, e2).value;
    Next(cfg, start, events + [Serve(F.Call(c, url))], s1, e2, s2);
    next := Step(cfg, s2, BeginGet(c)).value;
    Next(cfg, start, events + [Serve(F.Call(c, url))] + [e2], s2, BeginGet(c), next);
    events' := events + [Serve(F.Call(c, url))] + [e2] + [BeginGet(c)];
    assert next.service.callers == here.service.callers[c := F.Caller(url, F.AtDisk)];
  }

  /** The holder's next call on a file. */
  lemma Calls(cfg: Config, start: System, events: seq<Event>, here: System, h: Holding, dir: Dir, access: Access)
    returns (events': seq<Event>, next: System)
    requires Leads(cfg, start, events, here) && here.request == Some(h)
    requires AccessStep(cfg, here.dir, h.access, true) == Some((dir, access))
    ensures Leads(cfg, start, events', next) && next == here.(dir := dir, request := Some(h.(access := access)))
  {
    next := here.(dir := dir, request := Some(h.(access := access)));
    events' := events + [NextCall(true)];
    Next(cfg, start, events, here, NextCall(true), next);
  }

  /** It finds both files and reads the first. */
  lemma ReadsMeta(cfg: Config, start: System, events: seq<Event>, here: System, c: nat, url: bytes)
    returns (events': seq<Event>, next: System)
    requires Leads(cfg, start, events, here) && here.request == Some(Holding(Caller(c), Getting(url, SeekMeta)))
    requires Readable(cfg, here.dir, url)
    ensures Leads(cfg, start, events', next)
    ensures var mimeType := OnDisk(cfg, here.dir, url).mimeType;
            next == here.(request := Some(Holding(Caller(c), Getting(url, ReadBody(mimeType)))))
  {
    var mimeType := OnDisk(cfg, here.dir, url).mimeType;
    events', next := Calls(cfg, start, events, here, Holding(Caller(c), Getting(url, SeekMeta)),
                           here.dir, Getting(url, SeekBody));
    events', next := Calls(cfg, start, events', next, Holding(Caller(c), Getting(url, SeekBody)),
                           here.dir, Getting(url, ReadMeta));
    events', next := Calls(cfg, start, events', next, Holding(Caller(c), Getting(url, ReadMeta)),
                           here.dir, Getting(url, ReadBody(mimeType)));
  }

  /** It reads the second, and answers with both. */
  lemma ReadsBody(cfg: Config, start: System, events: seq<Event>, here: System, c: nat, url: bytes, mimeType: bytes)
    returns (events': seq<Event>, next: System)
    requires Leads(cfg, start, events, here)
    requires here.request == Some(Holding(Caller(c), Getting(url, ReadBody(mimeType))))
    requires cfg.key(url) in here.dir.bodies
    requires c in here.service.callers && here.service.callers[c] == F.Caller(url, F.AtDisk)
    ensures Leads(cfg, start, events', next)
    ensures IsAnswered(next, c, url, CachedInlineData(mimeType, here.dir.bodies[cfg.key(url)]))
    ensures Produced(next) == Produced(here)
  {
    var value := CachedInlineData(mimeType, here.dir.bodies[cfg.key(url)]);
    events', next := Calls(cfg, start, events, here, Holding(Caller(c), Getting(url, ReadBody(mimeType))),
                           here.dir, Getting(url, Answered(F.Found(value))));
    var found := Step(cfg, next, End).value;
    assert found.service.callers[c] == F.Caller(url, F.Warming(value));
    Next(cfg, start, events', next, End, found);
    var warm := Serve(F.Act(c, F.Warm(false)));
    next := Step(cfg, found, warm).value;
    Next(cfg, start, events' + [End], found, warm, next);
    events' := events' + [End] + [warm];
  }

  /** `fetch` answers a new caller with what the two files hold, whoever wrote them. */
  lemma FetchFindsOnDisk(cfg: Config, start: System, events: seq<Event>, here: System, c: nat, url: bytes)
    returns (events': seq<Event>, next: System)
    requires Leads(cfg, start, events, here) && here.request.None? && Readable(cfg, here.dir, url)
    requires c !in here.service.callers && url !in here.service.memory
    ensures Leads(cfg, start, events', next) && IsAnswered(next, c, url, OnDisk(cfg, here.dir, url))
    ensures Produced(next) == Produced(here)
  {
    events', next := StartsGet(cfg, start, events, here, c, url);
    var produced := Produced(next);
    assert produced == Produced(here);
    events', next := ReadsMeta(cfg, start, events', next, c, url);
    assert Produced(next) == produced;
    events', next := ReadsBody(cfg, start, events', next, c, url, OnDisk(cfg, here.dir, url).mimeType);
  }

  // ------------------------------------------------------ the response service sets

  lemma OtherCalls(cfg: Config, start: System, events: seq<Event>, here: System,
        access: Access, dir: Dir, next': Access)
    returns (events': seq<Event>, next: System)
    requires Leads(cfg, start, events, here) && here.response == Some(access)
    requires AccessStep(cfg, here.dir, access, true) == Some((dir, next'))
    ensures Leads(cfg, start, events', next) && next == here.(dir := dir, response := Some(next'))
  {
    next := here.(dir := dir, response := Some(next'));
    events' := events + [OtherCall(true)];
    Next(cfg, start, events, here, OtherCall(true), next);
  }

  function WithBody(dir: Dir, stem: bytes, body: bytes): Dir {
    dir.(bodies := dir.bodies[stem := body])
  }

  function WithMeta(dir: Dir, stem: bytes, metaText: bytes): Dir {
    dir.(metas := dir.metas[stem := metaText])
  }

  lemma Refilled(files: map<bytes, bytes>, stem: bytes, text: bytes)
    ensures Filled(files[stem := []], stem, text) == files[stem := text]
  {
    assert files[stem := []][stem := text] == files[stem := text];
  }

  /** The response service fetches an image and writes its bytes. */
  lemma OtherWritesBody(cfg: Config, start: System, events: seq<Event>, here: System,
                        url: bytes, value: CachedInlineData, metaText: bytes)
    returns (events': seq<Event>, next: System)
    requires Leads(cfg, start, events, here) && here.response.None?
    requires cfg.readMeta(metaText) == Some(value.mimeType)
    ensures Leads(cfg, start, events', next)
    ensures next == here.(dir := WithBody(here.dir, cfg.key(url), value.content),
                          response := Some(Setting(url, value, metaText, TruncateMeta)),
                          fetched := here.fetched + {(url, value)})
  {
    var fetched := here.(fetched := here.fetched + {(url, value)});
    Next(cfg, start, events, here, OtherFetched(url, value), fetched);
    var begun := fetched.(response := Some(Setting(url, value, metaText, TruncateBody)));
    Next(cfg, start, events + [OtherFetched(url, value)], fetched, OtherSet(url, value, metaText), begun);
    events' := events + [OtherFetched(url, value)] + [OtherSet(url, value, metaText)];
    events', next := OtherCalls(cfg, start, events', begun, Setting(url, value, metaText, TruncateBody),
                                WithBody(here.dir, cfg.key(url), []), Setting(url, value, metaText, FillBody));
    Refilled(here.dir.bodies, cfg.key(url), value.content);
    events', next := OtherCalls(cfg, start, events', next, Setting(url, value, metaText, FillBody),
                                WithBody(here.dir, cfg.key(url), value.content),
                                Setting(url, value, metaText, TruncateMeta));
  }

  /** And then its media type. */
  lemma OtherWritesMeta(cfg: Config, start: System, events: seq<Event>, here: System,
                        url: bytes, value: CachedInlineData, metaText: bytes)
    returns (events': seq<Event>, next: System)
    requires Leads(cfg, start, events, here)
    requires here.response == Some(Setting(url, value, metaText, TruncateMeta))
    ensures Leads(cfg, start, events', next)
    ensures next == here.(dir := WithMeta(here.dir, cfg.key(url), metaText), response := None)
  {
    events', next := OtherCalls(cfg, start, events, here, Setting(url, value, metaText, TruncateMeta),
                                WithMeta(here.dir, cfg.key(url), []), Setting(url, value, metaText, FillMeta));
    Refilled(here.dir.metas, cfg.key(url), metaText);
    events', next := OtherCalls(cfg, start, events', next, Setting(url, value, metaText, FillMeta),
                                WithMeta(here.dir, cfg.key(url), metaText), Setting(url, value, metaText, Written));
    Next(cfg, start, events', next, OtherEnd, next.(response := None));
    events', next := events' + [OtherEnd], next.(response := None);
  }

  // -------------------------------------------------------- the request service sets

  /** A caller misses everywhere and starts a task. */
  lemma StartsTask(cfg: Config, url: bytes) returns (events: seq<Event>, next: System)
    requires cfg.fetch.maxInflight > 0
    ensures Leads(cfg, INITIAL, events, next)
    ensures next == INITIAL.(service := next.service) && Produced(next) == {}
    ensures next.service.memory == map[] && next.service.callers.Keys == {1}
    ensures next.service.tasks == map[0 := F.Task(url, F.Running, None, 0)] && next.service.inflight == map[url := 0]
  {
    var s := INITIAL;
    events, s := StartsGet(cfg, INITIAL, [], INITIAL, 1, url);
    var missed: System;
    events, missed := Calls(cfg, INITIAL, events, s, Holding(Caller(1), Getting(url, SeekMeta)),
                            s.dir, Getting(url, Answered(F.Missing)));
    var looking := Step(cfg, missed, End).value;
    assert looking.service.callers[1] == F.Caller(url, F.Looking);
    Next(cfg, INITIAL, events, missed, End, looking);
    events := events + [End];
    var inserting := Step(cfg, looking, Serve(F.Act(1, F.LookUp))).value;
    Next(cfg, INITIAL, events, looking, Serve(F.Act(1, F.LookUp)), inserting);
    events := events + [Serve(F.Act(1, F.LookUp))];
    assert inserting.service.callers[1] == F.Caller(url, F.Inserting);
    events, next := SpawnsTask(cfg, events, inserting, url);
  }

  lemma SpawnsTask(cfg: Config, events: seq<Event>, here: System, url: bytes)
    returns (events': seq<Event>, next: System)
    requires cfg.fetch.maxInflight > 0 && Leads(cfg, INITIAL, events, here)
    requires here == INITIAL.(service := here.service)
    requires here.service == F.INITIAL.(callers := map[1 := F.Caller(url, F.Inserting)])
    ensures Leads(cfg, INITIAL, events', next)
    ensures next == INITIAL.(service := next.service) && Produced(next) == {}
    ensures next.service.memory == map[] && next.service.callers.Keys == {1}
    ensures next.service.tasks == map[0 := F.Task(url, F.Running, None, 0)] && next.service.inflight == map[url := 0]
  {
    var insert, spawn := Serve(F.Act(1, F.Insert(0))), Serve(F.Act(1, F.Spawn));
    var spawning := Step(cfg, here, insert).value;
    Next(cfg, INITIAL, events, here, insert, spawning);
    assert spawning.service.callers[1] == F.Caller(url, F.Spawning(0));
    next := Step(cfg, spawning, spawn).value;
    Next(cfg, INITIAL, events + [insert], spawning, spawn, next);
    events' := events + [insert] + [spawn];
  }

  function Fetching(url: bytes): F.Task {
    F.Task(url, F.Running, None, 0)
  }

  /** A step of task 0. */
  lemma TaskGoesOn(cfg: Config, events: seq<Event>, here: System, a: F.TaskAction, task: F.Task)
    returns (events': seq<Event>, next: System)
    requires Leads(cfg, INITIAL, events, here) && here.request.None? && !a.TaskStoreDisk?
    requires 0 in here.service.tasks && F.RunTask(cfg.fetch, here.service, 0, a).Some?
    requires F.RunTask(cfg.fetch, here.service, 0, a).value.tasks[0] == task
    ensures Leads(cfg, INITIAL, events', next)
    ensures next == here.(service := F.RunTask(cfg.fetch, here.service, 0, a).value)
    ensures 0 in next.service.tasks && next.service.tasks[0] == task
  {
    next := here.(service := F.RunTask(cfg.fetch, here.service, 0, a).value);
    events' := events + [Serve(F.Run(0, a))];
    Next(cfg, INITIAL, events, here, Serve(F.Run(0, a)), next);
  }

  /** The task fetches an image, which the memory cache refuses, and comes to the disk. */
  lemma TaskFetches(cfg: Config, events: seq<Event>, here: System, url: bytes, value: CachedInlineData)
    returns (events': seq<Event>, next: System)
    requires Leads(cfg, INITIAL, events, here) && here == INITIAL.(service := here.service) && Produced(here) == {}
    requires here.service.memory == map[] && here.service.callers.Keys == {1}
    requires here.service.tasks == map[0 := Fetching(url)]
    ensures Leads(cfg, INITIAL, events', next)
    ensures next == INITIAL.(service := next.service) && Produced(next) == {(url, value)}
    ensures next.service.memory == map[] && next.service.callers.Keys == {1}
    ensures ToStore(next.service, Task(0)) == Some((url, value))
  {
    var done: Option<F.Outcome> := Some(Ok(value));
    events', next := TaskGoesOn(cfg, events, here, F.FetchDone(Ok(value)), F.Task(url, F.Fetched(Ok(value)), None, 0));
    events', next := TaskGoesOn(cfg, events', next, F.Publish, F.Task(url, F.Published, done, 0));
    events', next := TaskGoesOn(cfg, events', next, F.NotifyWaiters, F.Task(url, F.Notified, done, 1));
    events', next := TaskGoesOn(cfg, events', next, F.Remove, F.Task(url, F.Removed, done, 1));
    events', next := TaskGoesOn(cfg, events', next, F.TaskStoreMemory(false), F.Task(url, F.InMemory, done, 1));
  }

  /** The request service has fetched an image and has written its bytes. */
  lemma WritesBody(cfg: Config, url: bytes, value: CachedInlineData, metaText: bytes)
    returns (events: seq<Event>, next: System)
    requires cfg.fetch.maxInflight > 0 && cfg.readMeta(metaText) == Some(value.mimeType)
    ensures Leads(cfg, INITIAL, events, next)
    ensures next == INITIAL.(dir := WithBody(INITIAL.dir, cfg.key(url), value.content), service := next.service,
                             request := Some(Holding(Task(0), Setting(url, value, metaText, TruncateMeta))))
    ensures Produced(next) == {(url, value)} && next.service.memory == map[] && next.service.callers.Keys == {1}
    ensures ToStore(next.service, Task(0)) == Some((url, value))
  {
    events, next := StartsTask(cfg, url);
    events, next := TaskFetches(cfg, events, next, url, value);
    var service := next.service;
    var begun := next.(request := Some(Holding(Task(0), Setting(url, value, metaText, TruncateBody))));
    Next(cfg, INITIAL, events, next, BeginSet(Task(0), metaText), begun);
    events := events + [BeginSet(Task(0), metaText)];
    events, next := Calls(cfg, INITIAL, events, begun, Holding(Task(0), Setting(url, value, metaText, TruncateBody)),
                          WithBody(INITIAL.dir, cfg.key(url), []), Setting(url, value, metaText, FillBody));
    Refilled(INITIAL.dir.bodies, cfg.key(url), value.content);
    events, next := Calls(cfg, INITIAL, events, next, Holding(Task(0), Setting(url, value, metaText, FillBody)),
                          WithBody(INITIAL.dir, cfg.key(url), value.content),
                          Setting(url, value, metaText, TruncateMeta));
    assert next.service == service;
  }

  /** And then its media type. */
  lemma WritesMeta(cfg: Config, events: seq<Event>, here: System, url: bytes, value: CachedInlineData, metaText: bytes)
    returns (events': seq<Event>, next: System)
    requires Leads(cfg, INITIAL, events, here)
    requires here.request == Some(Holding(Task(0), Setting(url, value, metaText, TruncateMeta)))
    requires ToStore(here.service, Task(0)) == Some((url, value))
    ensures Leads(cfg, INITIAL, events', next)
    ensures next == here.(dir := WithMeta(here.dir, cfg.key(url), metaText), service := next.service, request := None)
    ensures Produced(next) == Produced(here) && next.service.memory == here.service.memory
    ensures next.service.callers == here.service.callers
  {
    events', next := Calls(cfg, INITIAL, events, here, Holding(Task(0), Setting(url, value, metaText, TruncateMeta)),
                           WithMeta(here.dir, cfg.key(url), []), Setting(url, value, metaText, FillMeta));
    Refilled(here.dir.metas, cfg.key(url), metaText);
    events', next := Calls(cfg, INITIAL, events', next, Holding(Task(0), Setting(url, value, metaText, FillMeta)),
                           WithMeta(here.dir, cfg.key(url), metaText), Setting(url, value, metaText, Written));
    var ended := Step(cfg, next, End).value;
    Next(cfg, INITIAL, events', next, End, ended);
    events', next := events' + [End], ended;
  }

  // ---------------------------------------------------------------- the three ways

  /** Neither has the type of one image and the bytes of the other. */
  predicate Mixes(a: CachedInlineData, b: CachedInlineData) {
    a.mimeType != b.mimeType && a.content != b.content
  }

  /** A caller of the request service was answered with a pair that no fetch of either service produced. */
  ghost predicate AnswersTorn(cfg: Config, events: seq<Event>, sys: System, c: nat, url: bytes, torn: CachedInlineData)
  {
    && Leads(cfg, INITIAL, events, sys) && IsAnswered(sys, c, url, torn)
    && (url, torn) !in Successes(cfg, INITIAL, events)
  }

  lemma NotProduced(cfg: Config, events: seq<Event>, sys: System, url: bytes, a: CachedInlineData, b: CachedInlineData)
    requires Leads(cfg, INITIAL, events, sys) && Mixes(a, b) && Produced(sys) <= {(url, a), (url, b)}
    ensures (url, CachedInlineData(a.mimeType, b.content)) !in Successes(cfg, INITIAL, events)
  {
    RunRecords(cfg, INITIAL, events);
  }

  /**
   Both services fetch an image of one URL and store it, body before media type,
   the response service inside the set of the request service.
   */
  lemma OverlappingSetsTear(cfg: Config, url: bytes, a: CachedInlineData, b: CachedInlineData,
        textA: bytes, textB: bytes)
    returns (events: seq<Event>, sys: System)
    requires cfg.fetch.maxInflight > 0 && Mixes(a, b)
    requires cfg.readMeta(textA) == Some(a.mimeType) && cfg.readMeta(textB) == Some(b.mimeType)
    ensures AnswersTorn(cfg, events, sys, 2, url, CachedInlineData(a.mimeType, b.content))
  {
    events, sys := WritesBody(cfg, url, a, textA);
    events, sys := OtherWritesBody(cfg, INITIAL, events, sys, url, b, textB);
    events, sys := OtherWritesMeta(cfg, INITIAL, events, sys, url, b, textB);
    events, sys := WritesMeta(cfg, events, sys, url, a, textA);
    assert OnDisk(cfg, sys.dir, url) == CachedInlineData(a.mimeType, b.content);
    events, sys := FetchFindsOnDisk(cfg, INITIAL, events, sys, 2, url);
    NotProduced(cfg, events, sys, url, a, b);
  }

  /** The response service has stored an image; the process ends between the two writes of the next. */
  lemma RestartTears(cfg: Config, url: bytes, a: CachedInlineData, b: CachedInlineData, textA: bytes, textB: bytes)
    returns (events: seq<Event>, sys: System)
    requires Mixes(a, b)
    requires cfg.readMeta(textA) == Some(a.mimeType) && cfg.readMeta(textB) == Some(b.mimeType)
    ensures AnswersTorn(cfg, events, sys, 1, url, CachedInlineData(a.mimeType, b.content))
  {
    events, sys := OtherWritesBody(cfg, INITIAL, [], INITIAL, url, a, textA);
    events, sys := OtherWritesMeta(cfg, INITIAL, events, sys, url, a, textA);
    events, sys := OtherWritesBody(cfg, INITIAL, events, sys, url, b, textB);
    var restarted := Step(cfg, sys, Restart).value;
    Next(cfg, INITIAL, events, sys, Restart, restarted);
    events := events + [Restart];
    assert OnDisk(cfg, restarted.dir, url) == CachedInlineData(a.mimeType, b.content);
    events, sys := FetchFindsOnDisk(cfg, INITIAL, events, restarted, 1, url);
    NotProduced(cfg, events, sys, url, a, b);
  }

  /** The response service stores an image while the request service is between its two reads of the one before. */
  lemma OverlappingGetTears(cfg: Config, url: bytes, a: CachedInlineData, b: CachedInlineData,
        textA: bytes, textB: bytes)
    returns (events: seq<Event>, sys: System)
    requires Mixes(a, b)
    requires cfg.readMeta(textA) == Some(a.mimeType) && cfg.readMeta(textB) == Some(b.mimeType)
    ensures AnswersTorn(cfg, events, sys, 1, url, CachedInlineData(a.mimeType, b.content))
  {
    events, sys := OtherWritesBody(cfg, INITIAL, [], INITIAL, url, a, textA);
    events, sys := OtherWritesMeta(cfg, INITIAL, events, sys, url, a, textA);
    events, sys := StartsGet(cfg, INITIAL, events, sys, 1, url);
    events, sys := ReadsMeta(cfg, INITIAL, events, sys, 1, url);
    events, sys := OtherWritesBody(cfg, INITIAL, events, sys, url, b, textB);
    events, sys := ReadsBody(cfg, INITIAL, events, sys, 1, url, a.mimeType);
    NotProduced(cfg, events, sys, url, a, b);
  }

  // ------------------------------------------------------- an entry that cannot be read

  /** Both files are there, but the meta file cannot be read. */
  predicate Unreadable(cfg: Config, dir: Dir, url: bytes) {
    cfg.key(url) in dir.metas && cfg.key(url) in dir.bodies && cfg.readMeta(dir.metas[cfg.key(url)]).None?
  }

  predicate HasFailed(sys: System, c: nat, url: bytes) {
    c in sys.service.callers && sys.service.callers[c] == F.Caller(url, F.Done(F.FetchError(UNREADABLE), F.Cache))
  }

  /** `fetch` then fails for a new caller, and does not try to fetch. */
  lemma FetchFailsOnDisk(cfg: Config, start: System, events: seq<Event>, here: System, c: nat, url: bytes)
    returns (events': seq<Event>, next: System)
    requires Leads(cfg, start, events, here) && here.request.None? && Unreadable(cfg, here.dir, url)
    requires c !in here.service.callers && url !in here.service.memory
    ensures Leads(cfg, start, events', next) && HasFailed(next, c, url) && next.dir == here.dir
  {
    var failed := Answered(F.Broken(UNREADABLE));
    events', next := StartsGet(cfg, start, events, here, c, url);
    events', next := Calls(cfg, start, events', next, Holding(Caller(c), Getting(url, SeekMeta)),
                           here.dir, Getting(url, SeekBody));
    events', next := Calls(cfg, start, events', next, Holding(Caller(c), Getting(url, SeekBody)),
                           here.dir, Getting(url, ReadMeta));
    events', next := Calls(cfg, start, events', next, Holding(Caller(c), Getting(url, ReadMeta)),
                           here.dir, Getting(url, failed));
    var ended := Step(cfg, next, End).value;
    Next(cfg, start, events', next, End, ended);
    events', next := events' + [End], ended;
  }

  /** The process ends when the meta file has been truncated: the next process fails on this URL. */
  lemma RestartBreaks(cfg: Config, url: bytes, value: CachedInlineData, metaText: bytes)
    returns (events: seq<Event>, sys: System)
    requires cfg.readMeta([]).None? && cfg.readMeta(metaText) == Some(value.mimeType)
    ensures Leads(cfg, INITIAL, events, sys) && HasFailed(sys, 1, url) && Unreadable(cfg, sys.dir, url)
  {
    events, sys := OtherWritesBody(cfg, INITIAL, [], INITIAL, url, value, metaText);
    events, sys := OtherCalls(cfg, INITIAL, events, sys, Setting(url, value, metaText, TruncateMeta),
                              WithMeta(sys.dir, cfg.key(url), []), Setting(url, value, metaText, FillMeta));
    var restarted := Step(cfg, sys, Restart).value;
    Next(cfg, INITIAL, events, sys, Restart, restarted);
    events, sys := FetchFailsOnDisk(cfg, INITIAL, events + [Restart], restarted, 1, url);
  }
}
