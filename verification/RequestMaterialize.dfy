/** `src/request_materialize.rs`: every distinct URL fetched once, in whatever order the tasks finish. */
module RequestMaterialize {
  import opened Wrappers
  import opened Bytes
  import opened Json
  import opened RequestScan
  import opened RequestEncode
  import opened Substitution
  import opened BlobAccounts
  import R = BlobRuntime

  datatype Fetched = Fetched(mimeType: bytes, content: bytes, fromCache: bool)

  /** What fetching each URL comes to, image optimisation included. */
  type World = bytes -> Result<Fetched, bytes>

  datatype Failure =
    | TooManyUrls
    | FetchFailed(reason: bytes)
    | MissingBlob(url: bytes)
    | Unparsable

  datatype FetchedBlob = FetchedBlob(mimeType: bytes, blob: R.Blob)

  type ByUrl = map<bytes, FetchedBlob>

  predicate NamedBy(refs: seq<ImageRef>, url: bytes) {
    exists i | 0 <= i < |refs| :: refs[i].url == url
  }

  /** The loop over `seen_urls`. */
  method UniqueUrls(refs: seq<ImageRef>) returns (unique: seq<bytes>)
    ensures forall url :: url in unique <==> NamedBy(refs, url)
    ensures forall i, j | 0 <= i < j < |unique| :: unique[i] != unique[j]
  {
    unique := [];
    var seen: set<bytes> := {};
    for i := 0 to |refs|
      invariant forall url :: url in seen <==> url in unique
      invariant forall url :: url in unique <==> NamedBy(refs[..i], url)
      invariant forall i, j | 0 <= i < j < |unique| :: unique[i] != unique[j]
    {
      assert refs[..i + 1] == refs[..i] + [refs[i]];
      NamedByOneMore(refs[..i], refs[i]);
      if refs[i].url !in seen {
        seen := seen + {refs[i].url};
        unique := unique + [refs[i].url];
      }
    }
    assert refs[..|refs|] == refs;
  }

  lemma NamedByOneMore(refs: seq<ImageRef>, r: ImageRef)
    ensures forall url :: NamedBy(refs + [r], url) <==> NamedBy(refs, url) || url == r.url
  {
    forall url ensures NamedBy(refs + [r], url) <==> NamedBy(refs, url) || url == r.url {
      if NamedBy(refs, url) {
        var i :| 0 <= i < |refs| && refs[i].url == url;
        assert (refs + [r])[i].url == url;
      }
      if url == r.url {
        assert (refs + [r])[|refs|].url == url;
      }
    }
  }

  // ----------------------------------------------------------------- fetching

  /**
   The blob behind `f` is backed by `st` and carries the image, shared exactly
   when a cache holds the bytes too. Nothing here depends on the heap.
   */
  ghost predicate Serves(f: FetchedBlob, st: R.State, image: Fetched) {
    && f.mimeType == image.mimeType
    && f.blob.mimeType == image.mimeType && f.blob.sizeBytes == |image.content|
    && R.Backed(st, f.blob.id, f.blob.storage) && R.StoredContent(st.files, f.blob.storage) == image.content
    && (f.blob.storage.Shared? <==> image.fromCache)
  }

  function StorageOf(cfg: R.Config, st: R.State, image: Fetched): R.BlobStorage {
    if image.fromCache then R.Shared(image.content) else R.StorageFor(cfg, st, image.content)
  }

  function AfterFetch(cfg: R.Config, st: R.State, image: Fetched): R.State {
    if image.fromCache then R.AfterStoreShared(st) else R.AfterStore(cfg, st, image.content)
  }

  /** The blob of a fetch: bytes that a cache still holds are shared and not charged again. */
  method FetchRequestImage(url: bytes, runtime: R.BlobRuntime, world: World)
    returns (fetched: Result<FetchedBlob, bytes>)
    requires runtime.Valid()
    modifies runtime
    ensures runtime.Valid()
    ensures match world(url)
            case Err(e) =>
              fetched == Err(e) && runtime.Now() == old(runtime.Now()) && runtime.blobs == old(runtime.blobs)
            case Ok(image) =>
              && fetched.Ok? && Serves(fetched.value, runtime.Now(), image)
              && var blob := fetched.value.blob;
                 && fresh(blob) && runtime.blobs == old(runtime.blobs) + {blob}
                 && runtime.live == old(runtime.live) + {blob}
                 && blob.id == old(runtime.nextId)
                 && blob.storage == StorageOf(runtime.cfg, old(runtime.Now()), image)
                 && runtime.Now() == AfterFetch(runtime.cfg, old(runtime.Now()), image)
  {
    match world(url)
    case Err(e) => fetched := Err(e);
    case Ok(image) =>
      var blob;
      if image.fromCache {
        blob := runtime.StoreExternalSharedBytes(image.content, image.mimeType);
      } else {
        blob := runtime.StoreBytes(image.content, image.mimeType);
      }
      fetched := Ok(FetchedBlob(image.mimeType, blob));
  }

  // ---------------------------------------------------------------- the books

  /** `owed` is the blobs of `byUrl`, each under its own id. */
  ghost predicate Lists(owed: Owed, byUrl: ByUrl) {
    && (forall url | url in byUrl :: byUrl[url].blob.id in owed && owed[byUrl[url].blob.id] == byUrl[url].blob.storage)
    && (forall id | id in owed :: exists url :: url in byUrl && byUrl[url].blob.id == id)
    && (forall u, v | u in byUrl && v in byUrl && u != v :: byUrl[u].blob.id != byUrl[v].blob.id)
  }

  /** `byUrl` holds the image of each of its URLs in a blob of its own, and these blobs are all that is owed. */
  ghost predicate Joined(cfg: R.Config, world: World, start: R.State, st: R.State, byUrl: ByUrl, owed: Owed) {
    && R.Balanced(cfg, st)
    && (forall url | url in byUrl :: world(url).Ok? && Serves(byUrl[url], st, world(url).value))
    && Lists(owed, byUrl) && Owes(start, st, owed)
  }

  lemma ListsOneMore(owed: Owed, byUrl: ByUrl, url: bytes, f: FetchedBlob)
    requires Lists(owed, byUrl) && url !in byUrl && f.blob.id !in owed
    ensures Lists(owed[f.blob.id := f.blob.storage], byUrl[url := f])
  {
    var owed', byUrl' := owed[f.blob.id := f.blob.storage], byUrl[url := f];
    forall id | id in owed' ensures exists u :: u in byUrl' && byUrl'[u].blob.id == id {
      if id == f.blob.id {
        assert url in byUrl' && byUrl'[url].blob.id == id;
      } else {
        var u :| u in byUrl && byUrl[u].blob.id == id;
        assert u in byUrl' && byUrl'[u].blob.id == id;
      }
    }
  }

  lemma FetchKeepsBooks(cfg: R.Config, st: R.State, image: Fetched)
    requires R.Balanced(cfg, st)
    ensures R.Balanced(cfg, AfterFetch(cfg, st, image)) && R.Kept(st, AfterFetch(cfg, st, image))
  {
    if !image.fromCache {
      R.StoreKeepsBooks(cfg, st, image.content);
    }
  }

  lemma OwesOneMore(cfg: R.Config, start: R.State, st: R.State, owed: Owed, image: Fetched)
    requires R.Balanced(cfg, st) && Owes(start, st, owed)
    ensures Owes(start, AfterFetch(cfg, st, image), owed[st.nextId := StorageOf(cfg, st, image)])
  {
    if image.fromCache {
      OwesShared(start, st, owed, image.content);
    } else {
      OwesStore(cfg, start, st, owed, image.content);
    }
  }

  lemma ServesKept(f: FetchedBlob, st: R.State, st': R.State, image: Fetched)
    requires R.Kept(st, st') && Serves(f, st, image)
    ensures Serves(f, st', image)
  {
  }

  /** Joining one more task keeps all of it. */
  lemma JoinStep(cfg: R.Config, world: World, start: R.State, st: R.State, byUrl: ByUrl, owed: Owed, url: bytes,
        f: FetchedBlob)
    requires Joined(cfg, world, start, st, byUrl, owed) && url !in byUrl && world(url).Ok?
    requires var image := world(url).value;
             && f.blob.id == st.nextId && f.blob.storage == StorageOf(cfg, st, image)
             && Serves(f, AfterFetch(cfg, st, image), image)
    ensures Joined(cfg, world, start, AfterFetch(cfg, st, world(url).value), byUrl[url := f],
                   owed[f.blob.id := f.blob.storage])
  {
    var image := world(url).value;
    var st' := AfterFetch(cfg, st, image);
    FetchKeepsBooks(cfg, st, image);
    OwesOneMore(cfg, start, st, owed, image);
    ListsOneMore(owed, byUrl, url, f);
    forall u | u in byUrl ensures Serves(byUrl[u], st', world(u).value) {
      ServesKept(byUrl[u], st, st', world(u).value);
    }
  }

  // ------------------------------------------------------------- joining tasks

  ghost function BlobsOf(byUrl: ByUrl): set<R.Blob> {
    set url | url in byUrl :: byUrl[url].blob
  }

  lemma BlobsOfOneMore(byUrl: ByUrl, url: bytes, f: FetchedBlob)
    requires url !in byUrl
    ensures BlobsOf(byUrl[url := f]) == BlobsOf(byUrl) + {f.blob}
  {
    var more := byUrl[url := f];
    forall b | b in BlobsOf(byUrl) + {f.blob} ensures b in BlobsOf(more) {
      if b == f.blob {
        assert more[url].blob == b;
      } else {
        var u :| u in byUrl && byUrl[u].blob == b;
        assert u in more && more[u].blob == b;
      }
    }
  }

  /** A task that has finished: its blob, if any, is stored, and it waits to be joined. */
  datatype FinishedTask = FinishedTask(url: bytes, fetched: Result<FetchedBlob, bytes>)

  /** What a finished task reports, where `stored` is the blobs of all tasks that have finished well. */
  ghost predicate Reports(t: FinishedTask, stored: ByUrl, world: World) {
    match t.fetched
    case Ok(f) => t.url in stored && stored[t.url] == f
    case Err(e) => world(t.url) == Err(e) && t.url !in stored
  }

  ghost predicate IsQueued(finished: seq<FinishedTask>, url: bytes) {
    exists i :: 0 <= i < |finished| && finished[i].url == url
  }

  /** Every task is running, or has finished and is queued, or has been joined; only one of these. */
  ghost predicate JoinSet(urls: set<bytes>, running: set<bytes>, finished: seq<FinishedTask>, joined: ByUrl,
                          stored: ByUrl, world: World)
  {
    && running <= urls && joined.Keys <= stored.Keys <= urls - running
    && (forall url | url in joined :: joined[url] == stored[url])
    && (forall url | url in urls :: url in running || url in joined || IsQueued(finished, url))
    && (forall i | 0 <= i < |finished| ::
          finished[i].url in urls - running && finished[i].url !in joined && Reports(finished[i], stored, world))
    && (forall i, j | 0 <= i < j < |finished| :: finished[i].url != finished[j].url)
  }

  lemma TaskFinishes(urls: set<bytes>, running: set<bytes>, finished: seq<FinishedTask>, joined: ByUrl,
                     stored: ByUrl, world: World, t: FinishedTask, stored': ByUrl)
    requires JoinSet(urls, running, finished, joined, stored, world) && t.url in running
    requires Reports(t, stored', world)
    requires stored' == if t.fetched.Ok? then stored[t.url := t.fetched.value] else stored
    ensures JoinSet(urls, running - {t.url}, finished + [t], joined, stored', world)
  {
    var finished' := finished + [t];
    forall url | url in urls ensures url in running - {t.url} || url in joined || IsQueued(finished', url) {
      if IsQueued(finished, url) {
        var i :| 0 <= i < |finished| && finished[i].url == url;
        assert finished'[i].url == url;
      }
      assert finished'[|finished|] == t;
    }
  }

  lemma TaskJoined(urls: set<bytes>, running: set<bytes>, finished: seq<FinishedTask>, joined: ByUrl,
                   stored: ByUrl, world: World)
    requires JoinSet(urls, running, finished, joined, stored, world) && finished != [] && finished[0].fetched.Ok?
    ensures JoinSet(urls, running, finished[1..], joined[finished[0].url := finished[0].fetched.value], stored, world)
  {
    var t := finished[0];
    assert Reports(t, stored, world);
    var joined' := joined[t.url := t.fetched.value];
    forall url | url in urls ensures url in running || url in joined' || IsQueued(finished[1..], url) {
      if IsQueued(finished, url) && url != t.url {
        var i :| 0 <= i < |finished| && finished[i].url == url;
        assert finished[1..][i - 1].url == url;
      }
    }
  }

  lemma NoTaskLeft(urls: set<bytes>, joined: ByUrl, stored: ByUrl, world: World)
    requires JoinSet(urls, {}, [], joined, stored, world)
    ensures joined == stored && stored.Keys == urls
  {
  }

  /** One task runs to its end. */
  method FinishTask(url: bytes, runtime: R.BlobRuntime, world: World, ghost stored: ByUrl,
                    ghost start: R.State, ghost owed: Owed)
    returns (t: FinishedTask, ghost stored': ByUrl, ghost owed': Owed, ghost mine: set<R.Blob>)
    requires runtime.Valid() && Joined(runtime.cfg, world, start, runtime.Now(), stored, owed) && url !in stored
    modifies runtime
    ensures runtime.Valid() && Joined(runtime.cfg, world, start, runtime.Now(), stored', owed')
    ensures t.url == url && Reports(t, stored', world) && (t.fetched.Ok? <==> world(url).Ok?)
    ensures stored' == if t.fetched.Ok? then stored[url := t.fetched.value] else stored
    ensures fresh(mine) && BlobsOf(stored') == BlobsOf(stored) + mine
    ensures runtime.blobs == old(runtime.blobs) + mine && runtime.live == old(runtime.live) + mine
  {
    ghost var st := runtime.Now();
    stored', owed', mine := stored, owed, {};
    var fetched := FetchRequestImage(url, runtime, world);
    t := FinishedTask(url, fetched);
    if fetched.Ok? {
      ghost var f := fetched.value;
      assert world(url).Ok?;
      JoinStep(runtime.cfg, world, start, st, stored, owed, url, f);
      BlobsOfOneMore(stored, url, f);
      stored', owed', mine := stored[url := f], owed[f.blob.id := f.blob.storage], {f.blob};
    }
  }

  /**
   What happens next: some running task finishes, or with `None` the oldest
   finished one is joined. Every interleaving is such a function.
   */
  type Order = (set<bytes>, seq<bytes>) -> Option<bytes>

  /** The answer is one of the things that can happen. */
  predicate CanHappen(order: Order, running: set<bytes>, finished: seq<bytes>) {
    match order(running, finished)
    case Some(url) => url in running
    case None => finished != []
  }

  ghost predicate ValidOrder(order: Order, urls: set<bytes>) {
    forall running, finished {:trigger CanHappen(order, running, finished)}
      | running <= urls && (running != {} || finished != []) :: CanHappen(order, running, finished)
  }

  /** The URLs whose fetch has finished well when the loop ends, and those before it. */
  function FinishedWell(running: set<bytes>, finished: seq<bytes>, well: set<bytes>, order: Order, world: World)
    : set<bytes>
    decreases 2 * |running| + |finished|
  {
    match order(running, finished)
    case Some(url) =>
      if url !in running then well
      else FinishedWell(running - {url}, finished + [url], if world(url).Ok? then well + {url} else well, order, world)
    case None =>
      if finished == [] || world(finished[0]).Err? then well
      else FinishedWell(running, finished[1..], well, order, world)
  }

  function Urls(finished: seq<FinishedTask>): (urls: seq<bytes>)
    ensures |urls| == |finished|
  {
    seq(|finished|, i requires 0 <= i < |finished| => finished[i].url)
  }

  lemma JoinCounted(running: set<bytes>, finished: seq<FinishedTask>, stored: ByUrl, order: Order, world: World)
    requires finished != [] && order(running, Urls(finished)) == None && Reports(finished[0], stored, world)
    requires finished[0].fetched.Ok? ==> world(finished[0].url).Ok?
    ensures FinishedWell(running, Urls(finished), stored.Keys, order, world) ==
            if finished[0].fetched.Err? then stored.Keys
            else FinishedWell(running, Urls(finished[1..]), stored.Keys, order, world)
  {
    assert Urls(finished)[1..] == Urls(finished[1..]);
  }

  /** The oldest finished task is joined: its error ends the loop, its blob is entered under its URL. */
  lemma HeadOfQueue(urls: set<bytes>, running: set<bytes>, finished: seq<FinishedTask>, joined: ByUrl, stored: ByUrl,
                    order: Order, world: World)
    requires JoinSet(urls, running, finished, joined, stored, world)
    requires finished != [] && order(running, Urls(finished)) == None
    requires forall url | url in stored :: world(url).Ok?
    ensures var t := finished[0];
            match t.fetched
            case Err(e) =>
              && t.url in urls && world(t.url) == Err(e)
              && FinishedWell(running, Urls(finished), stored.Keys, order, world) == stored.Keys
            case Ok(f) =>
              && JoinSet(urls, running, finished[1..], joined[t.url := f], stored, world)
              && FinishedWell(running, Urls(finished), stored.Keys, order, world) ==
                 FinishedWell(running, Urls(finished[1..]), stored.Keys, order, world)
  {
    assert Reports(finished[0], stored, world);
    JoinCounted(running, finished, stored, order, world);
    if finished[0].fetched.Ok? {
      TaskJoined(urls, running, finished, joined, stored, world);
    }
  }

  lemma FinishCounted(running: set<bytes>, finished: seq<FinishedTask>, stored: ByUrl, t: FinishedTask, stored': ByUrl,
                      order: Order, world: World)
    requires order(running, Urls(finished)) == Some(t.url) && t.url in running
    requires t.fetched.Ok? <==> world(t.url).Ok?
    requires stored' == if t.fetched.Ok? then stored[t.url := t.fetched.value] else stored
    ensures FinishedWell(running, Urls(finished), stored.Keys, order, world) ==
            FinishedWell(running - {t.url}, Urls(finished + [t]), stored'.Keys, order, world)
  {
    assert Urls(finished) + [t.url] == Urls(finished + [t]);
    assert stored'.Keys == if world(t.url).Ok? then stored.Keys + {t.url} else stored.Keys;
  }

  /** The task of `url` runs to its end and is queued. */
  method FinishNext(url: bytes, ghost urls: set<bytes>, running: set<bytes>, finished: seq<FinishedTask>,
                    ghost joined: ByUrl, runtime: R.BlobRuntime, world: World, ghost order: Order, ghost stored: ByUrl,
                    ghost start: R.State, ghost owed: Owed)
    returns (running': set<bytes>, finished': seq<FinishedTask>, ghost stored': ByUrl, ghost owed': Owed,
             ghost mine: set<R.Blob>)
    requires runtime.Valid() && Joined(runtime.cfg, world, start, runtime.Now(), stored, owed)
    requires JoinSet(urls, running, finished, joined, stored, world)
    requires url in running && order(running, Urls(finished)) == Some(url)
    modifies runtime
    ensures runtime.Valid() && Joined(runtime.cfg, world, start, runtime.Now(), stored', owed')
    ensures JoinSet(urls, running', finished', joined, stored', world)
    ensures FinishedWell(running', Urls(finished'), stored'.Keys, order, world) ==
            FinishedWell(running, Urls(finished), stored.Keys, order, world)
    ensures |running'| == |running| - 1 && |finished'| == |finished| + 1
    ensures fresh(mine) && BlobsOf(stored') == BlobsOf(stored) + mine
    ensures runtime.blobs == old(runtime.blobs) + mine && runtime.live == old(runtime.live) + mine
  {
    var t;
    t, stored', owed', mine := FinishTask(url, runtime, world, stored, start, owed);
    TaskFinishes(urls, running, finished, joined, stored, world, t, stored');
    FinishCounted(running, finished, stored, t, stored', order, world);
    running', finished' := running - {url}, finished + [t];
  }

  lemma {:induction false} WellIsNamed(running: set<bytes>, finished: seq<bytes>, well: set<bytes>, order: Order,
        world: World)
    ensures well <= FinishedWell(running, finished, well, order, world) <= well + running
    decreases 2 * |running| + |finished|
  {
    match order(running, finished)
    case Some(url) =>
      if url in running {
        WellIsNamed(running - {url}, finished + [url], if world(url).Ok? then well + {url} else well, order, world);
      }
    case None =>
      if finished != [] && world(finished[0]).Ok? {
        WellIsNamed(running, finished[1..], well, order, world);
      }
  }

  ghost function Any(urls: set<bytes>): bytes
    requires urls != {}
  {
    var url :| url in urls;
    url
  }

  /** The order in which `u` finishes before anything else happens. */
  ghost function First(u: bytes): Order {
    (running: set<bytes>, finished: seq<bytes>) =>
      if u in running then Some(u) else if finished != [] || running == {} then None else Some(Any(running))
  }

  /** Any image can be fetched before an error ends the loop. */
  lemma FinishesFirst(urls: set<bytes>, u: bytes, world: World)
    requires u in urls && world(u).Ok?
    ensures ValidOrder(First(u), urls) && u in FinishedWell(urls, [], {}, First(u), world)
  {
    assert [] + [u] == [u] && {} + {u} == {u};
    assert First(u)(urls, []) == Some(u);
    WellIsNamed(urls - {u}, [u], {u}, First(u), world);
  }

  /**
   The loop over `join_next` while the tasks finish in any order, before or
   between the joins; the first error joined ends it. Whatever the outcome,
   `stored` holds the blobs of the tasks that finished well, joined or not,
   and these are exactly what is owed to the runtime.
   */
  method JoinAll(urls: set<bytes>, runtime: R.BlobRuntime, world: World, order: Order)
    returns (result: Result<ByUrl, bytes>, ghost stored: ByUrl, ghost owed: Owed)
    requires runtime.Valid() && ValidOrder(order, urls)
    modifies runtime
    ensures runtime.Valid()
    ensures result.Ok? <==> forall url | url in urls :: world(url).Ok?
    ensures match result
            case Ok(byUrl) => byUrl == stored && stored.Keys == urls
            case Err(e) => stored.Keys <= urls && exists url | url in urls :: world(url) == Err(e)
    ensures stored.Keys == FinishedWell(urls, [], {}, order, world)
    ensures Joined(runtime.cfg, world, old(runtime.Now()), runtime.Now(), stored, owed)
    ensures var mine := BlobsOf(stored);
            fresh(mine) && runtime.blobs == old(runtime.blobs) + mine && runtime.live == old(runtime.live) + mine
  {
    ghost var start, blobs, live, mine := runtime.Now(), runtime.blobs, runtime.live, {};
    var running, finished: seq<FinishedTask>, joined := urls, [], map[];
    stored, owed := map[], map[];
    OwesNothing(start);
    assert Urls(finished) == [] && stored.Keys == {};
    while running != {} || finished != []
      invariant JoinSet(urls, running, finished, joined, stored, world)
      invariant FinishedWell(running, Urls(finished), stored.Keys, order, world) ==
                FinishedWell(urls, [], {}, order, world)
      invariant runtime.Valid() && Joined(runtime.cfg, world, start, runtime.Now(), stored, owed)
      invariant mine == BlobsOf(stored) && fresh(mine)
      invariant runtime.blobs == blobs + mine && runtime.live == live + mine
      decreases 2 * |running| + |finished|
    {
      assert CanHappen(order, running, Urls(finished));
      var next := order(running, Urls(finished));
      if next.None? {
        HeadOfQueue(urls, running, finished, joined, stored, order, world);
        if finished[0].fetched.Err? {
          return Err(finished[0].fetched.error), stored, owed;
        }
        joined := joined[finished[0].url := finished[0].fetched.value];
        finished := finished[1..];
      } else {
        ghost var more;
        running, finished, stored, owed, more :=
          FinishNext(next.value, urls, running, finished, joined, runtime, world, order, stored, start, owed);
        Both(blobs, mine, more);
        Both(live, mine, more);
        mine := mine + more;
      }
    }
    NoTaskLeft(urls, joined, stored, world);
    result := Ok(joined);
  }

  lemma Both<T>(a: set<T>, b: set<T>, c: set<T>)
    ensures a + b + c == a + (b + c)
  {
  }

  // -------------------------------------------------------------- reassembly

  function ReplacementFor(r: ImageRef, byUrl: ByUrl): RequestReplacement
    requires r.url in byUrl
  {
    RequestReplacement(r.jsonPointer, byUrl[r.url].mimeType, byUrl[r.url].blob)
  }

  /** One replacement a reference, in scan order. */
  ghost predicate InScanOrder(replacements: seq<RequestReplacement>, refs: seq<ImageRef>, byUrl: ByUrl) {
    && |replacements| == |refs|
    && forall i | 0 <= i < |refs| :: refs[i].url in byUrl && replacements[i] == ReplacementFor(refs[i], byUrl)
  }

  /** The loop that fills `replacements`. */
  method Reassemble(refs: seq<ImageRef>, byUrl: ByUrl) returns (result: Result<seq<RequestReplacement>, Failure>)
    ensures match result
            case Ok(replacements) => InScanOrder(replacements, refs, byUrl)
            case Err(e) => exists i :: 0 <= i < |refs| && refs[i].url !in byUrl && e == MissingBlob(refs[i].url)
  {
    var replacements := [];
    for i := 0 to |refs|
      invariant InScanOrder(replacements, refs[..i], byUrl)
    {
      if refs[i].url !in byUrl {
        return Err(MissingBlob(refs[i].url));
      }
      replacements := replacements + [ReplacementFor(refs[i], byUrl)];
    }
    assert refs[..|refs|] == refs;
    result := Ok(replacements);
  }

  predicate AllFetched(refs: seq<ImageRef>, world: World) {
    forall i | 0 <= i < |refs| :: world(refs[i].url).Ok?
  }

  /** The distinct URLs of a request. */
  ghost function NamedIn(request: Value): set<bytes> {
    set r | r in Refs(request, "") :: r.url
  }

  /** Every one of these fetches that comes to an image finds it in a cache. */
  ghost predicate AllFromCache(urls: set<bytes>, world: World) {
    forall url | url in urls && world(url).Ok? :: world(url).value.fromCache
  }

  /** Counter, reservations and files are as they were exactly when all fetches that finished well came from a cache. */
  lemma RestoredIfCached(cfg: R.Config, world: World, start: R.State, st: R.State, byUrl: ByUrl, owed: Owed)
    requires R.Balanced(cfg, start) && Joined(cfg, world, start, st, byUrl, owed)
    ensures Restored(start, st) <==> AllFromCache(byUrl.Keys, world)
  {
    RestoredIfShared(cfg, start, st, owed);
    if AllFromCache(byUrl.Keys, world) {
      forall id | id in owed ensures owed[id].Shared? {
        var url :| url in byUrl && byUrl[url].blob.id == id;
        assert Serves(byUrl[url], st, world(url).value);
      }
    } else {
      var url :| url in byUrl && !world(url).value.fromCache;
      assert Serves(byUrl[url], st, world(url).value);
      assert byUrl[url].blob.id in owed;
    }
  }

  /**
   `materialize_request_images_with_services`: the outcome depends on the
   request and on what the fetches come to, not on the order of the tasks.
   On success there is one blob a distinct URL and one replacement a reference;
   on failure the blobs in `byUrl`, of the tasks that had finished well, are
   owed and left behind.
   */
  method Materialize(request: Value, runtime: R.BlobRuntime, world: World, order: Order)
    returns (result: Result<seq<RequestReplacement>, Failure>, ghost byUrl: ByUrl, ghost owed: Owed)
    requires runtime.Valid() && ValidOrder(order, NamedIn(request))
    modifies runtime
    ensures runtime.Valid()
    ensures var refs := Refs(request, "");
            match result
            case Ok(replacements) =>
              && |refs| <= MAX_INLINE_DATA_URLS && AllFetched(refs, world)
              && (forall url :: url in byUrl <==> NamedBy(refs, url))
              && InScanOrder(replacements, refs, byUrl)
            case Err(e) =>
              if |refs| > MAX_INLINE_DATA_URLS then e == TooManyUrls && byUrl == map[]
              else e.FetchFailed? && exists i :: 0 <= i < |refs| && world(refs[i].url) == Err(e.reason)
    ensures |Refs(request, "")| <= MAX_INLINE_DATA_URLS ==>
              byUrl.Keys == FinishedWell(NamedIn(request), [], {}, order, world) <= NamedIn(request)
    ensures Joined(runtime.cfg, world, old(runtime.Now()), runtime.Now(), byUrl, owed)
    ensures Restored(old(runtime.Now()), runtime.Now()) <==> AllFromCache(byUrl.Keys, world)
    ensures var mine := BlobsOf(byUrl);
            fresh(mine) && runtime.blobs == old(runtime.blobs) + mine && runtime.live == old(runtime.live) + mine
  {
    ghost var start := runtime.Now();
    byUrl, owed := map[], map[];
    OwesNothing(start);
    RestoredIfCached(runtime.cfg, world, start, start, byUrl, owed);
    var scanned := ScanRequestImageUrls(request);
    if scanned.None? {
      return Err(TooManyUrls), byUrl, owed;
    }
    var refs := scanned.value;
    var unique := UniqueUrls(refs);
    var urls := set url | url in unique;
    NamedUrls(refs, urls, world);
    var joined;
    assert urls == NamedIn(request);
    joined, byUrl, owed := JoinAll(urls, runtime, world, order);
    RestoredIfCached(runtime.cfg, world, start, runtime.Now(), byUrl, owed);
    if joined.Err? {
      result := Err(FetchFailed(joined.error));
      return;
    }
    result := Reassemble(refs, joined.value);
  }

  lemma NamedUrls(refs: seq<ImageRef>, urls: set<bytes>, world: World)
    requires forall url :: url in urls <==> NamedBy(refs, url)
    ensures forall i | 0 <= i < |refs| :: refs[i].url in urls
    ensures (forall url | url in urls :: world(url).Ok?) <==> AllFetched(refs, world)
    ensures forall e | (exists url | url in urls :: world(url) == Err(e)) ::
              exists i :: 0 <= i < |refs| && world(refs[i].url) == Err(e)
  {
    assert forall i | 0 <= i < |refs| :: NamedBy(refs, refs[i].url);
    forall e | exists url | url in urls :: world(url) == Err(e)
      ensures exists i :: 0 <= i < |refs| && world(refs[i].url) == Err(e)
    {
      var url :| url in urls && world(url) == Err(e);
      var i :| 0 <= i < |refs| && refs[i].url == url;
    }
  }

  // ------------------------------------------------------- what is replaced

  /** `images` gives every reference the image its URL was fetched as. */
  ghost predicate ImagesOf(images: Replacements, refs: seq<ImageRef>, world: World) {
    && (forall x :: x in images <==> exists r | r in refs :: r.jsonPointer == x)
    && (forall r | r in refs ::
          world(r.url).Ok? && images[r.jsonPointer] == Image(world(r.url).value.mimeType, world(r.url).value.content))
  }

  lemma {:induction false} ByPointerEntries(rs: seq<RequestReplacement>)
    ensures forall r | r in rs :: r.jsonPointer in ByPointer(rs)
    ensures forall x | x in ByPointer(rs) :: ByPointer(rs)[x] in rs && ByPointer(rs)[x].jsonPointer == x
    decreases |rs|
  {
    if rs == [] {
    } else {
      var n := |rs| - 1;
      ByPointerEntries(rs[..n]);
      assert rs == rs[..n] + [rs[n]];
    }
  }

  /** Indexing by pointer loses nothing: two references with one pointer are one reference. */
  lemma IndexedInScanOrder(request: Value, replacements: seq<RequestReplacement>, byUrl: ByUrl)
    requires WellFormed(request) && InScanOrder(replacements, Refs(request, ""), byUrl)
    ensures forall x :: x in ByPointer(replacements) <==> exists r | r in Refs(request, "") :: r.jsonPointer == x
    ensures forall r | r in Refs(request, "") ::
              r.url in byUrl && r.jsonPointer in ByPointer(replacements)
              && ByPointer(replacements)[r.jsonPointer] == ReplacementFor(r, byUrl)
  {
    var refs, index := Refs(request, ""), ByPointer(replacements);
    ByPointerEntries(replacements);
    forall x | x in index ensures exists r | r in refs :: r.jsonPointer == x {
      var i :| 0 <= i < |replacements| && replacements[i] == index[x];
      assert refs[i] in refs;
    }
    forall r | r in refs
      ensures r.url in byUrl && r.jsonPointer in index && index[r.jsonPointer] == ReplacementFor(r, byUrl)
    {
      var i :| 0 <= i < |refs| && refs[i] == r;
      assert replacements[i] in replacements;
      var j :| 0 <= j < |replacements| && replacements[j] == index[r.jsonPointer];
      PointerDeterminesUrl(request, r, refs[j]);
    }
  }

  /** The replacements stand for the fetched images, whichever blobs hold them. */
  lemma ReplacementsAreImages(request: Value, replacements: seq<RequestReplacement>, byUrl: ByUrl, images: Replacements,
                              world: World, st: R.State)
    requires WellFormed(request) && InScanOrder(replacements, Refs(request, ""), byUrl)
    requires forall url | url in byUrl :: world(url).Ok? && Serves(byUrl[url], st, world(url).value)
    requires images.Keys == ByPointer(replacements).Keys
    requires forall x | x in images :: Resolved(ByPointer(replacements)[x], images[x], st)
    ensures ImagesOf(images, Refs(request, ""), world)
  {
    IndexedInScanOrder(request, replacements, byUrl);
    forall r | r in Refs(request, "")
      ensures world(r.url).Ok?
              && images[r.jsonPointer] == Image(world(r.url).value.mimeType, world(r.url).value.content)
    {
      assert Resolved(ByPointer(replacements)[r.jsonPointer], images[r.jsonPointer], st);
      assert Serves(byUrl[r.url], st, world(r.url).value);
    }
  }

  /** `image` is what the replacement's blob holds in `st`. */
  ghost predicate Resolved(r: RequestReplacement, image: Image, st: R.State) {
    && (r.blob.storage.Spilled? ==> r.blob.storage.path in st.files)
    && image == Image(r.mimeType, R.StoredContent(st.files, r.blob.storage))
  }
}
