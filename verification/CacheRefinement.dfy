/**
 How the two caches as they are (`MemoryCache`, `DiskCache`) do what
 `FetchService` and `SharedDirectory` take a cache to do: the memory cache is a
 map out of which entries vanish, and a whole operation on the directory is a
 run of calls on files after which entries vanish.
 */
module CacheRefinement {
  import opened Wrappers
  import opened Bytes
  import opened LruList
  import opened MemoryCache
  import opened SharedDirectory
  import opened TornEntry
  import F = FetchService
  import D = DiskCache

  // ------------------------------------------------------------- the list as a map

  function AsMap(items: Items): map<bytes, CachedInlineData> {
    if items == [] then map[] else AsMap(items[1..])[items[0].key := items[0].value.value]
  }

  ghost predicate IsView(view: map<bytes, CachedInlineData>, items: Items) {
    && (forall i | 0 <= i < |items| :: items[i].key in view && view[items[i].key] == items[i].value.value)
    && (forall key | key in view :: HasKey(items, key))
  }

  ghost predicate HasKey(items: Items, key: bytes) {
    exists i :: 0 <= i < |items| && items[i].key == key
  }

  lemma {:induction false} AsMapIsView(items: Items)
    requires Distinct(items)
    ensures IsView(AsMap(items), items)
  {
    if items == [] {
    } else {
      var rest := items[1..];
      AsMapIsView(rest);
      forall i | 0 <= i < |items|
        ensures items[i].key in AsMap(items) && AsMap(items)[items[i].key] == items[i].value.value
      {
        assert i > 0 ==> items[i] == rest[i - 1];
      }
      forall key | key in AsMap(items) ensures HasKey(items, key) {
        if key != items[0].key {
          assert key in AsMap(rest);
          var i :| 0 <= i < |rest| && rest[i].key == key;
          assert items[i + 1].key == key;
        } else {
          assert items[0].key == key;
        }
      }
    }
  }

  /** A list of distinct entries has one view. */
  lemma ViewIsAsMap(view: map<bytes, CachedInlineData>, items: Items)
    requires Distinct(items) && IsView(view, items)
    ensures view == AsMap(items)
  {
    AsMapIsView(items);
    forall key | key in view ensures key in AsMap(items) && AsMap(items)[key] == view[key] {
      var i :| 0 <= i < |items| && items[i].key == key;
    }
    forall key | key in AsMap(items) ensures key in view {
      var i :| 0 <= i < |items| && items[i].key == key;
    }
  }

  /** What `get` finds is what the map holds, and moving the entry changes nothing. */
  lemma GetIsLookup(items: Items, url: bytes)
    requires Distinct(items)
    ensures AsMap(Promote(items, url)) == AsMap(items)
    ensures match Find(items, url)
            case Some(e) => url in AsMap(items) && AsMap(items)[url] == e.value
            case None => url !in AsMap(items)
  {
    AsMapIsView(items);
    var p, i := Promote(items, url), PlaceOf(items, url);
    if i < |items| {
      WithoutDistinct(items, url);
      FrontDistinct(items[i], Without(items, url));
      PromotedView(items, url);
      ViewIsAsMap(AsMap(items), p);
    }
  }

  lemma PromotedView(items: Items, url: bytes)
    requires Distinct(items) && PlaceOf(items, url) < |items|
    ensures IsView(AsMap(items), Promote(items, url))
  {
    AsMapIsView(items);
    WithoutDistinct(items, url);
    var p, others := Promote(items, url), Without(items, url);
    forall j | 0 <= j < |p| ensures p[j].key in AsMap(items) && AsMap(items)[p[j].key] == p[j].value.value {
      assert j > 0 ==> p[j] == others[j - 1];
    }
    forall key | key in AsMap(items) ensures HasKey(p, key) {
      var i :| 0 <= i < |items| && items[i].key == key;
      if key == url {
        assert p[0].key == key;
      } else {
        var q := WithoutHas(items, url, i);
        assert p[q + 1].key == key;
      }
    }
  }

  // -------------------------------------------------------- a set evicts from the map

  function Keys(items: Items): set<bytes> {
    set i | 0 <= i < |items| :: items[i].key
  }

  /** The entries that a set drops from the back. */
  function Evicted(items: Items, maxBytes: nat, url: bytes, value: CachedInlineData): Items {
    var others := Without(items, url);
    if |value.content| > maxBytes then [] else others[FitCount(others, maxBytes - |value.content|)..]
  }

  lemma KeptIsNotGone(others: Items, n: nat, i: nat)
    requires Distinct(others) && i < n <= |others|
    ensures others[i].key !in Keys(others[n..])
  {
    forall k | 0 <= k < |others[n..]| ensures others[n..][k].key != others[i].key {
      assert others[n..][k] == others[n + k];
    }
  }

  /** What is kept stands for itself. */
  lemma KeptInView(items: Items, maxBytes: nat, url: bytes, value: CachedInlineData, i: nat)
    requires Distinct(items) && |value.content| <= maxBytes && i < |AfterSet(items, maxBytes, url, value)|
    ensures var e := AfterSet(items, maxBytes, url, value)[i];
            && e.key !in Keys(Evicted(items, maxBytes, url, value))
            && e.key in AsMap(items)[url := value] && AsMap(items)[url := value][e.key] == e.value.value
  {
    var others := Without(items, url);
    var n := FitCount(others, maxBytes - |value.content|);
    AsMapIsView(items);
    WithoutDistinct(items, url);
    if i > 0 {
      var p := WithoutAt(items, url, i - 1);
      KeptIsNotGone(others, n, i - 1);
    }
  }

  lemma GoneOrKept(others: Items, n: nat, p: nat)
    requires p < |others| && n <= |others|
    ensures p < n || others[p].key in Keys(others[n..])
  {
    if p >= n {
      assert others[n..][p - n] == others[p];
    }
  }

  /** What is not evicted is kept. */
  lemma ViewIsKept(items: Items, maxBytes: nat, url: bytes, value: CachedInlineData, key: bytes)
    requires Distinct(items) && |value.content| <= maxBytes
    requires key in AsMap(items)[url := value] && key !in Keys(Evicted(items, maxBytes, url, value))
    ensures HasKey(AfterSet(items, maxBytes, url, value), key)
  {
    var others, after := Without(items, url), AfterSet(items, maxBytes, url, value);
    var n := FitCount(others, maxBytes - |value.content|);
    if key == url {
      assert after[0].key == key;
    } else {
      AsMapIsView(items);
      assert HasKey(items, key);
      var i :| 0 <= i < |items| && items[i].key == key;
      var p := WithoutHas(items, url, i);
      GoneOrKept(others, n, p);
      assert after[p + 1] == others[p];
    }
  }

  lemma SetView(items: Items, maxBytes: nat, url: bytes, value: CachedInlineData)
    requires Distinct(items) && |value.content| <= maxBytes
    ensures IsView(AsMap(items)[url := value] - Keys(Evicted(items, maxBytes, url, value)),
                   AfterSet(items, maxBytes, url, value))
  {
    var gone, after := Keys(Evicted(items, maxBytes, url, value)), AfterSet(items, maxBytes, url, value);
    var view := AsMap(items)[url := value] - gone;
    forall i | 0 <= i < |after| ensures after[i].key in view && view[after[i].key] == after[i].value.value {
      KeptInView(items, maxBytes, url, value, i);
    }
    forall key | key in view ensures HasKey(after, key) {
      ViewIsKept(items, maxBytes, url, value, key);
    }
  }

  /** `AfterSet` is the map with the value put in and the evicted entries taken out. */
  lemma SetIsPutAndEvict(items: Items, maxBytes: nat, url: bytes, value: CachedInlineData)
    requires Sound(items, maxBytes) && |value.content| <= maxBytes
    ensures AsMap(AfterSet(items, maxBytes, url, value)) ==
            AsMap(items)[url := value] - Keys(Evicted(items, maxBytes, url, value))
  {
    AfterSetSound(items, maxBytes, url, value);
    SetView(items, maxBytes, url, value);
    ViewIsAsMap(AsMap(items)[url := value] - Keys(Evicted(items, maxBytes, url, value)),
                AfterSet(items, maxBytes, url, value));
  }

  // ------------------------------------------- the fetch service over the memory cache

  function Evictions(items: Items): seq<F.Event> {
    if items == [] then [] else [F.EvictMemory(items[0].key)] + Evictions(items[1..])
  }

  lemma {:induction false} EvictAll(cfg: F.Config, m: F.Machine, items: Items)
    ensures F.RunAll(cfg, m, Evictions(items)) == Some(m.(memory := m.memory - Keys(items)))
    decreases |items|
  {
    if items == [] {
      assert m.memory - Keys(items) == m.memory;
    } else {
      var events, next := Evictions(items), m.(memory := m.memory - {items[0].key});
      assert events[1..] == Evictions(items[1..]);
      EvictAll(cfg, next, items[1..]);
      KeysOfRest(items);
      assert m.memory - {items[0].key} - Keys(items[1..]) == m.memory - Keys(items);
    }
  }

  lemma KeysOfRest(items: Items)
    requires items != []
    ensures Keys(items) == {items[0].key} + Keys(items[1..])
  {
    forall key | key in Keys(items) ensures key in {items[0].key} + Keys(items[1..]) {
      var i :| 0 <= i < |items| && items[i].key == key;
      assert i > 0 ==> items[1..][i - 1].key == key;
    }
    forall key | key in Keys(items[1..]) ensures key in Keys(items) {
      var i :| 0 <= i < |items[1..]| && items[1..][i].key == key;
      assert items[i + 1].key == key;
    }
  }

  /** The value that a step puts into the memory cache, and whether it is said to be admitted. */
  function Put(m: F.Machine, e: F.Event): Option<(bytes, CachedInlineData, bool)> {
    match e
    case Act(c, Warm(admitted)) =>
      if c in m.callers && m.callers[c].pc.Warming?
      then Some((m.callers[c].url, m.callers[c].pc.value, admitted))
      else None
    case Act(c, StoreMemory(admitted)) =>
      if c in m.callers && m.callers[c].pc.Storing?
      then Some((m.callers[c].url, m.callers[c].pc.value, admitted))
      else None
    case Run(t, TaskStoreMemory(admitted)) =>
      if t in m.tasks && m.tasks[t].result.Some? && m.tasks[t].result.value.Ok?
      then Some((m.tasks[t].url, m.tasks[t].result.value.value, admitted))
      else None
    case _ => None
  }

  /** The service over the list: what a step does to the list, and to the map that the list stands for. */
  datatype Listed = Listed(m: F.Machine, items: Items)

  function ListAfter(l: Listed, maxBytes: nat, e: F.Event): Items {
    match Put(l.m, e)
    case Some((url, value, _)) => AfterSet(l.items, maxBytes, url, value)
    case None =>
      match e
      case Act(c, ProbeMemory) => if c in l.m.callers then Promote(l.items, l.m.callers[c].url) else l.items
      case Restart => []
      case _ => l.items
  }

  /** Admission is by size, and nothing is evicted but by a set. */
  function ListedStep(cfg: F.Config, maxBytes: nat, l: Listed, e: F.Event): Option<Listed> {
    if e.EvictMemory? then None
    else if Put(l.m, e).Some? && Put(l.m, e).value.2 != (|Put(l.m, e).value.1.content| <= maxBytes) then None
    else
      var m :- F.Step(cfg, l.m, e);
      var items := ListAfter(l, maxBytes, e);
      Some(Listed(m.(memory := AsMap(items)), items))
  }

  function ListedRun(cfg: F.Config, maxBytes: nat, l: Listed, events: seq<F.Event>): Option<Listed>
    decreases |events|
  {
    if events == [] then Some(l)
    else
      var next :- ListedStep(cfg, maxBytes, l, events[0]);
      ListedRun(cfg, maxBytes, next, events[1..])
  }

  ghost predicate ListedOk(l: Listed, maxBytes: nat) {
    Sound(l.items, maxBytes) && l.m.memory == AsMap(l.items)
  }

  /** What the service itself does to the map in one step. */
  lemma StepMemory(cfg: F.Config, m: F.Machine, e: F.Event)
    requires F.Step(cfg, m, e).Some? && !e.EvictMemory?
    ensures var m' := F.Step(cfg, m, e).value;
            match Put(m, e)
            case Some((url, value, admitted)) => m'.memory == if admitted then m.memory[url := value] else m.memory
            case None => m'.memory == if e.Restart? then map[] else m.memory
  {
    match e
    case Act(c, a) => ActMemory(cfg, m, c, a);
    case Run(t, a) => TaskMemory(cfg, m, t, a);
    case _ =>
  }

  lemma ActMemory(cfg: F.Config, m: F.Machine, c: nat, a: F.CallerAction)
    requires c in m.callers && F.ActCaller(cfg, m, c, a).Some?
    ensures var m' := F.ActCaller(cfg, m, c, a).value;
            match Put(m, F.Act(c, a))
            case Some((url, value, admitted)) => m'.memory == if admitted then m.memory[url := value] else m.memory
            case None => m'.memory == m.memory
  {
  }

  lemma TaskMemory(cfg: F.Config, m: F.Machine, t: nat, a: F.TaskAction)
    requires t in m.tasks && F.RunTask(cfg, m, t, a).Some?
    ensures var m' := F.RunTask(cfg, m, t, a).value;
            match Put(m, F.Run(t, a))
            case Some((url, value, admitted)) => m'.memory == if admitted then m.memory[url := value] else m.memory
            case None => m'.memory == m.memory
  {
  }

  /** A step over the list is a step over the map and then evictions. */
  lemma ListedStepRefines(cfg: F.Config, maxBytes: nat, l: Listed, e: F.Event) returns (evictions: seq<F.Event>)
    requires ListedOk(l, maxBytes) && ListedStep(cfg, maxBytes, l, e).Some?
    ensures var l' := ListedStep(cfg, maxBytes, l, e).value;
            ListedOk(l', maxBytes) && F.RunAll(cfg, l.m, [e] + evictions) == Some(l'.m)
  {
    var m, l' := F.Step(cfg, l.m, e).value, ListedStep(cfg, maxBytes, l, e).value;
    StepMemory(cfg, l.m, e);
    evictions := [];
    match Put(l.m, e) {
      case Some((url, value, admitted)) =>
        AfterSetSound(l.items, maxBytes, url, value);
        if admitted {
          evictions := Evictions(Evicted(l.items, maxBytes, url, value));
          SetIsPutAndEvict(l.items, maxBytes, url, value);
          EvictAll(cfg, m, Evicted(l.items, maxBytes, url, value));
        }
      case None =>
        ListKept(l, maxBytes, e);
    }
    assert ([e] + evictions)[1..] == evictions;
  }

  /** Without a set, the map stays, unless the process restarts. */
  lemma ListKept(l: Listed, maxBytes: nat, e: F.Event)
    requires ListedOk(l, maxBytes) && Put(l.m, e).None?
    ensures Sound(ListAfter(l, maxBytes, e), maxBytes)
    ensures AsMap(ListAfter(l, maxBytes, e)) == if e.Restart? then map[] else AsMap(l.items)
  {
    if e.Act? && e.action.ProbeMemory? && e.caller in l.m.callers {
      var url := l.m.callers[e.caller].url;
      GetIsLookup(l.items, url);
      PromoteSound(l.items, maxBytes, url);
    }
  }

  lemma {:induction false} RunAppends(cfg: F.Config, m: F.Machine, a: seq<F.Event>, b: seq<F.Event>)
    requires F.RunAll(cfg, m, a).Some?
    ensures F.RunAll(cfg, m, a + b) == F.RunAll(cfg, F.RunAll(cfg, m, a).value, b)
    decreases |a|
  {
    if a == [] {
      assert a + b == b;
    } else {
      assert (a + b)[0] == a[0] && (a + b)[1..] == a[1..] + b;
      RunAppends(cfg, F.Step(cfg, m, a[0]).value, a[1..], b);
    }
  }

  /**
   Every run of the service over the byte-bounded list is, with evictions put in,
   a run of the service over the map; so what is proved of all runs of
   `FetchService` holds with the cache as it is.
   */
  lemma {:induction false} ListedRunRefines(cfg: F.Config, maxBytes: nat, l: Listed, events: seq<F.Event>)
    returns (full: seq<F.Event>)
    requires ListedOk(l, maxBytes) && ListedRun(cfg, maxBytes, l, events).Some?
    ensures var end := ListedRun(cfg, maxBytes, l, events).value;
            ListedOk(end, maxBytes) && F.RunAll(cfg, l.m, full) == Some(end.m)
    decreases |events|
  {
    if events == [] {
      full := [];
    } else {
      var evictions := ListedStepRefines(cfg, maxBytes, l, events[0]);
      var next := ListedStep(cfg, maxBytes, l, events[0]).value;
      var rest := ListedRunRefines(cfg, maxBytes, next, events[1..]);
      full := ([events[0]] + evictions) + rest;
      RunAppends(cfg, l.m, [events[0]] + evictions, rest);
    }
  }

  // -------------------------------------------- whole operations on the directory

  /** The files of the directory, with the file times and with the meta files read. */
  ghost predicate Represents(cfg: Config, dir: Dir, files: D.Files) {
    && dir.bodies == files.bodies && dir.metas.Keys == files.metas.Keys
    && forall stem | stem in dir.metas :: cfg.readMeta(dir.metas[stem]) == MimeTypeOf(files.metas[stem])
  }

  function MimeTypeOf(file: D.MetaFile): Option<bytes> {
    match file.meta
    case Some(m) => Some(m.mimeType)
    case None => None
  }

  function AnswerOf(answer: Result<Option<CachedInlineData>, D.ReadError>): F.DiskAnswer {
    match answer
    case Ok(Some(value)) => F.Found(value)
    case Ok(None) => F.Missing
    case Err(_) => F.Broken(UNREADABLE)
  }

  /** The directory without these entries. */
  function Less(dir: Dir, stems: set<bytes>): Dir {
    Dir(dir.metas - stems, dir.bodies - stems)
  }

  /** Entries are removed one file after the other. */
  lemma {:induction false} VanishAll(cfg: Config, start: System, events: seq<Event>, here: System, stems: set<bytes>)
    returns (events': seq<Event>)
    requires Leads(cfg, start, events, here)
    ensures Leads(cfg, start, events', here.(dir := Less(here.dir, stems)))
    decreases |stems|
  {
    if stems == {} {
      events' := events;
      assert here.dir.metas - stems == here.dir.metas && here.dir.bodies - stems == here.dir.bodies;
    } else {
      var stem :| stem in stems;
      var once := here.(dir := here.dir.(metas := here.dir.metas - {stem}));
      var twice := once.(dir := once.dir.(bodies := once.dir.bodies - {stem}));
      Next(cfg, start, events, here, VanishMeta(stem), once);
      Next(cfg, start, events + [VanishMeta(stem)], once, VanishBody(stem), twice);
      events' := VanishAll(cfg, start, events + [VanishMeta(stem)] + [VanishBody(stem)], twice, stems - {stem});
      assert here.dir.metas - {stem} - (stems - {stem}) == here.dir.metas - stems;
      assert here.dir.bodies - {stem} - (stems - {stem}) == here.dir.bodies - stems;
    }
  }

  /** What pruning removed, gone from the files. */
  lemma PrunedRepresents(cfg: Config, dir: Dir, before: D.Files, after: D.Files, maxBytes: nat)
    requires Represents(cfg, dir, before) && D.Pruned(before, after, maxBytes)
    ensures Represents(cfg, Less(dir, before.metas.Keys - after.metas.Keys), after)
  {
    var gone := before.metas.Keys - after.metas.Keys;
    assert (dir.metas - gone).Keys == after.metas.Keys;
  }

  lemma WrittenRepresents(cfg: Config, dir: Dir, files: D.Files, stem: bytes, value: CachedInlineData, metaText: bytes,
                          now: nat, ttl: nat, modified: nat)
    requires Represents(cfg, dir, files) && cfg.readMeta(metaText) == Some(value.mimeType)
    ensures Represents(cfg, WithMeta(WithBody(dir, stem, value.content), stem, metaText),
                       D.WithEntry(files, stem, value, now, ttl, modified))
  {
  }

  lemma ExpiredRepresents(cfg: Config, dir: Dir, files: D.Files, stem: bytes)
    requires Represents(cfg, dir, files)
    ensures Represents(cfg, Less(dir, {stem}), D.WithoutEntry(files, stem))
  {
    assert (dir.metas - {stem}).Keys == (files.metas - {stem}).Keys;
  }

  /** The four calls of a `set` that nothing interrupts, by whoever holds the lock of the request service. */
  lemma WholeSet(cfg: Config, start: System, events: seq<Event>, here: System, agent: Agent,
                 url: bytes, value: CachedInlineData, metaText: bytes)
    returns (events': seq<Event>, next: System)
    requires Leads(cfg, start, events, here)
    requires here.request == Some(Holding(agent, Setting(url, value, metaText, TruncateBody)))
    ensures Leads(cfg, start, events', next)
    ensures next == here.(dir := WithMeta(WithBody(here.dir, cfg.key(url), value.content), cfg.key(url), metaText),
                          request := Some(Holding(agent, Setting(url, value, metaText, Written))))
  {
    var stem, body := cfg.key(url), value.content;
    Refilled(here.dir.bodies, stem, body);
    Refilled(here.dir.metas, stem, metaText);
    events', next := Calls(cfg, start, events, here, Holding(agent, Setting(url, value, metaText, TruncateBody)),
                           WithBody(here.dir, stem, []), Setting(url, value, metaText, FillBody));
    events', next := Calls(cfg, start, events', next, Holding(agent, Setting(url, value, metaText, FillBody)),
                           WithBody(here.dir, stem, body), Setting(url, value, metaText, TruncateMeta));
    events', next := Calls(cfg, start, events', next, Holding(agent, Setting(url, value, metaText, TruncateMeta)),
                           WithMeta(WithBody(here.dir, stem, body), stem, []), Setting(url, value, metaText, FillMeta));
    events', next := Calls(cfg, start, events', next, Holding(agent, Setting(url, value, metaText, FillMeta)),
                           WithMeta(WithBody(here.dir, stem, body), stem, metaText),
                           Setting(url, value, metaText, Written));
  }

  /**
   `DiskCache::set`, by a caller or a task of the request service: whatever the
   pruning leaves, calls on the files and vanishing entries lead there.
   */
  lemma SetRefines(cfg: Config, start: System, events: seq<Event>, here: System, agent: Agent,
                   url: bytes, value: CachedInlineData, metaText: bytes,
                   files: D.Files, now: nat, ttl: nat, modified: nat, maxBytes: nat, after: D.Files)
    returns (events': seq<Event>, next: System)
    requires Leads(cfg, start, events, here) && here.request.None? && Represents(cfg, here.dir, files)
    requires ToStore(here.service, agent) == Some((url, value)) && cfg.readMeta(metaText) == Some(value.mimeType)
    requires D.Pruned(D.WithEntry(files, cfg.key(url), value, now, ttl, modified), after, maxBytes)
    ensures Leads(cfg, start, events', next) && Represents(cfg, next.dir, after)
    ensures Release(cfg, here.service, Holding(agent, Setting(url, value, metaText, Written))) == Some(next.service)
    ensures next == here.(dir := next.dir, service := next.service)
  {
    var begun := here.(request := Some(Holding(agent, Setting(url, value, metaText, TruncateBody))));
    Next(cfg, start, events, here, BeginSet(agent, metaText), begun);
    events', next := WholeSet(cfg, start, events + [BeginSet(agent, metaText)], begun, agent, url, value, metaText);
    var written := D.WithEntry(files, cfg.key(url), value, now, ttl, modified);
    WrittenRepresents(cfg, here.dir, files, cfg.key(url), value, metaText, now, ttl, modified);
    var gone := written.metas.Keys - after.metas.Keys;
    PrunedRepresents(cfg, next.dir, written, after, maxBytes);
    events' := VanishAll(cfg, start, events', next, gone);
    next := next.(dir := Less(next.dir, gone));
    CanRelease(cfg, here.service, agent, url, value, metaText);
    var ended := Step(cfg, next, End).value;
    Next(cfg, start, events', next, End, ended);
    events', next := events' + [End], ended;
  }

  lemma CanRelease(cfg: Config, m: F.Machine, agent: Agent, url: bytes, value: CachedInlineData, metaText: bytes)
    requires ToStore(m, agent) == Some((url, value))
    ensures Release(cfg, m, Holding(agent, Setting(url, value, metaText, Written))).Some?
  {
  }

  /** The same by the response service. */
  lemma OtherSetRefines(cfg: Config, start: System, events: seq<Event>, here: System,
                        url: bytes, value: CachedInlineData, metaText: bytes,
                        files: D.Files, now: nat, ttl: nat, modified: nat, maxBytes: nat, after: D.Files)
    returns (events': seq<Event>, next: System)
    requires Leads(cfg, start, events, here) && here.response.None? && Represents(cfg, here.dir, files)
    requires cfg.readMeta(metaText) == Some(value.mimeType)
    requires D.Pruned(D.WithEntry(files, cfg.key(url), value, now, ttl, modified), after, maxBytes)
    ensures Leads(cfg, start, events', next) && Represents(cfg, next.dir, after)
    ensures next == here.(dir := next.dir, fetched := here.fetched + {(url, value)})
  {
    events', next := OtherWritesBody(cfg, start, events, here, url, value, metaText);
    events', next := OtherWritesMeta(cfg, start, events', next, url, value, metaText);
    var written := D.WithEntry(files, cfg.key(url), value, now, ttl, modified);
    WrittenRepresents(cfg, here.dir, files, cfg.key(url), value, metaText, now, ttl, modified);
    PrunedRepresents(cfg, next.dir, written, after, maxBytes);
    var gone := written.metas.Keys - after.metas.Keys;
    events' := VanishAll(cfg, start, events', next, gone);
    next := next.(dir := Less(next.dir, gone));
  }

  /** The calls of a `get` that nothing interrupts. */
  lemma WholeGet(cfg: Config, start: System, events: seq<Event>, here: System, c: nat, url: bytes,
        files: D.Files, now: nat)
    returns (events': seq<Event>, next: System)
    requires Leads(cfg, start, events, here) && Represents(cfg, here.dir, files)
    requires here.request == Some(Holding(Caller(c), Getting(url, SeekMeta)))
    ensures Leads(cfg, start, events', next)
    ensures var answer := AnswerOf(D.Answer(files, cfg.key(url), now));
            next == here.(request := Some(Holding(Caller(c), Getting(url, Answered(answer)))))
  {
    var stem := cfg.key(url);
    var answer := AnswerOf(D.Answer(files, stem, now));
    if stem !in here.dir.metas {
      events', next := Calls(cfg, start, events, here, Holding(Caller(c), Getting(url, SeekMeta)),
                             here.dir, Getting(url, Answered(answer)));
    } else {
      events', next := Calls(cfg, start, events, here, Holding(Caller(c), Getting(url, SeekMeta)),
                             here.dir, Getting(url, SeekBody));
      if stem !in here.dir.bodies {
        events', next := Calls(cfg, start, events', next, Holding(Caller(c), Getting(url, SeekBody)),
                               here.dir, Getting(url, Answered(answer)));
      } else {
        events', next := Calls(cfg, start, events', next, Holding(Caller(c), Getting(url, SeekBody)),
                               here.dir, Getting(url, ReadMeta));
        events', next := ReadsBoth(cfg, start, events', next, c, url, files, now);
      }
    }
  }

  /** With both files there: the meta file is read, then, if the entry is live, the body file. */
  lemma ReadsBoth(cfg: Config, start: System, events: seq<Event>, here: System, c: nat, url: bytes,
        files: D.Files, now: nat)
    returns (events': seq<Event>, next: System)
    requires Leads(cfg, start, events, here) && Represents(cfg, here.dir, files)
    requires here.request == Some(Holding(Caller(c), Getting(url, ReadMeta)))
    requires cfg.key(url) in here.dir.metas && cfg.key(url) in here.dir.bodies
    ensures Leads(cfg, start, events', next)
    ensures var answer := AnswerOf(D.Answer(files, cfg.key(url), now));
            next == here.(request := Some(Holding(Caller(c), Getting(url, Answered(answer)))))
  {
    var stem := cfg.key(url);
    var answer, meta := AnswerOf(D.Answer(files, stem, now)), files.metas[stem].meta;
    if meta.Some? && !D.Expired(meta.value, now) {
      events', next := Calls(cfg, start, events, here, Holding(Caller(c), Getting(url, ReadMeta)),
                             here.dir, Getting(url, ReadBody(meta.value.mimeType)));
      events', next := Calls(cfg, start, events', next, Holding(Caller(c), Getting(url, ReadBody(meta.value.mimeType))),
                             here.dir, Getting(url, Answered(answer)));
    } else {
      next := here.(request := Some(Holding(Caller(c), Getting(url, Answered(answer)))));
      events' := events + [NextCall(false)];
      Next(cfg, start, events, here, NextCall(false), next);
    }
  }

  /** `DiskCache::get`, by a caller of the request service, which goes on with what it answers. */
  lemma GetRefines(cfg: Config, start: System, events: seq<Event>, here: System, c: nat, url: bytes,
                   files: D.Files, now: nat)
    returns (events': seq<Event>, next: System)
    requires Leads(cfg, start, events, here) && here.request.None? && Represents(cfg, here.dir, files)
    requires c in here.service.callers && here.service.callers[c] == F.Caller(url, F.AtDisk)
    ensures Leads(cfg, start, events', next) && Represents(cfg, next.dir, D.AfterGet(files, cfg.key(url), now))
    ensures var probe := F.ProbeDisk(AnswerOf(D.Answer(files, cfg.key(url), now)));
            F.ActCaller(cfg.fetch, here.service, c, probe) == Some(next.service)
    ensures next == here.(dir := next.dir, service := next.service)
  {
    var stem := cfg.key(url);
    var begun := here.(request := Some(Holding(Caller(c), Getting(url, SeekMeta))));
    Next(cfg, start, events, here, BeginGet(c), begun);
    events', next := WholeGet(cfg, start, events + [BeginGet(c)], begun, c, url, files, now);
    if D.AfterGet(files, stem, now) != files {
      ExpiredRepresents(cfg, here.dir, files, stem);
      events' := VanishAll(cfg, start, events', next, {stem});
      next := next.(dir := Less(next.dir, {stem}));
    }
    var ended := Step(cfg, next, End).value;
    Next(cfg, start, events', next, End, ended);
    events', next := events' + [End], ended;
  }
}
