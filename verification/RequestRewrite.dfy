/** `rewrite_request_inline_data` of `src/request_rewrite.rs`: materialise, encode, read back, release. */
module RequestRewrite {
  import opened Wrappers
  import opened Bytes
  import opened EncodedBody
  import opened Json
  import opened JsonEdit
  import opened JsonPointer
  import opened RequestScan
  import opened Substitution
  import opened RequestEncode
  import opened RequestMaterialize
  import opened BlobAccounts
  import R = BlobRuntime

  /** `owed` is the blobs of `left`, each under its id. */
  ghost predicate OwedFor(owed: Owed, left: set<R.Blob>) {
    && (forall b | b in left :: b.id in owed && owed[b.id] == b.storage)
    && (forall id | id in owed :: exists b :: b in left && b.id == id)
    && (forall b, c | b in left && c in left && b.id == c.id :: b == c)
  }

  lemma OwedForFetched(owed: Owed, byUrl: ByUrl)
    requires Lists(owed, byUrl)
    ensures OwedFor(owed, BlobsOf(byUrl))
  {
    forall id | id in owed ensures exists b :: b in BlobsOf(byUrl) && b.id == id {
      var url :| url in byUrl && byUrl[url].blob.id == id;
      assert byUrl[url].blob in BlobsOf(byUrl);
    }
  }

  lemma OwedForOneMore(owed: Owed, left: set<R.Blob>, blob: R.Blob)
    requires OwedFor(owed, left) && blob.id !in owed
    ensures OwedFor(owed[blob.id := blob.storage], left + {blob})
  {
    var owed' := owed[blob.id := blob.storage];
    forall id | id in owed' ensures exists b :: b in left + {blob} && b.id == id {
      if id == blob.id {
        assert blob in left + {blob};
      } else {
        var b :| b in left && b.id == id;
        assert b in left + {blob};
      }
    }
  }

  lemma OwedForOneLess(owed: Owed, left: set<R.Blob>, blob: R.Blob)
    requires OwedFor(owed, left) && blob in left
    ensures OwedFor(owed - {blob.id}, left - {blob})
  {
    forall id | id in owed - {blob.id} ensures exists b :: b in left - {blob} && b.id == id {
      var b :| b in left && b.id == id;
      assert b in left - {blob};
    }
  }

  lemma OwedForNone(owed: Owed)
    requires OwedFor(owed, {})
    ensures owed == map[]
  {
    assert owed.Keys == {};
  }

  /** `remove` with the request's accounts kept: only the first one of a blob settles anything. */
  method RemoveOne(runtime: R.BlobRuntime, blob: R.Blob, ghost start: R.State, ghost owed: Owed,
        ghost left: set<R.Blob>)
    returns (ghost owed': Owed)
    requires runtime.Valid() && blob in runtime.blobs && R.Balanced(runtime.cfg, start)
    requires left <= runtime.live && (blob in runtime.live ==> blob in left)
    requires Owes(start, runtime.Now(), owed) && OwedFor(owed, left)
    modifies runtime, blob
    ensures runtime.Valid() && runtime.blobs == old(runtime.blobs) && runtime.live == old(runtime.live) - {blob}
    ensures Owes(start, runtime.Now(), owed') && OwedFor(owed', left - {blob})
  {
    ghost var st := runtime.Now();
    owed' := owed;
    if blob in left {
      OwesRemove(runtime.cfg, start, st, owed, blob.id);
      OwedForOneLess(owed, left, blob);
      owed' := owed - {blob.id};
    } else {
      assert left - {blob} == left;
    }
    runtime.Remove(blob);
  }

  ghost function BlobsIn(replacements: seq<RequestReplacement>): set<R.Blob> {
    set i | 0 <= i < |replacements| :: replacements[i].blob
  }

  lemma BlobsInOneMore(replacements: seq<RequestReplacement>, i: nat)
    requires i < |replacements|
    ensures BlobsIn(replacements[..i + 1]) == BlobsIn(replacements[..i]) + {replacements[i].blob}
    ensures replacements[i].blob in BlobsIn(replacements)
  {
    forall b | b in BlobsIn(replacements[..i]) + {replacements[i].blob} ensures b in BlobsIn(replacements[..i + 1]) {
      var j :| 0 <= j < i + 1 && replacements[j].blob == b;
      assert replacements[..i + 1][j].blob == b;
    }
  }

  lemma LeftAndLive(live: set<R.Blob>, mine: set<R.Blob>, left: set<R.Blob>, blob: R.Blob)
    requires left <= mine <= live && blob in mine
    ensures left <= live - (mine - left) && (blob in live - (mine - left) ==> blob in left)
    ensures live - (mine - left) - {blob} == live - (mine - (left - {blob}))
  {
  }

  /** The loop of removals: a shared blob is removed as often as it is referred to, and settled once. */
  method ReleaseReplacements(runtime: R.BlobRuntime, replacements: seq<RequestReplacement>,
                             ghost start: R.State, ghost owed: Owed, ghost mine: set<R.Blob>)
    returns (ghost owed': Owed)
    requires runtime.Valid() && R.Balanced(runtime.cfg, start)
    requires BlobsIn(replacements) <= mine <= runtime.live
    requires Owes(start, runtime.Now(), owed) && OwedFor(owed, mine)
    modifies runtime, BlobsIn(replacements)
    ensures runtime.Valid() && runtime.blobs == old(runtime.blobs)
            && runtime.live == old(runtime.live) - BlobsIn(replacements)
    ensures Owes(start, runtime.Now(), owed') && OwedFor(owed', mine - BlobsIn(replacements))
  {
    ghost var live, left := runtime.live, mine;
    owed' := owed;
    for i := 0 to |replacements|
      invariant runtime.Valid() && runtime.blobs == old(runtime.blobs)
      invariant left <= mine && runtime.live == live - (mine - left)
      invariant left == mine - BlobsIn(replacements[..i])
      invariant Owes(start, runtime.Now(), owed') && OwedFor(owed', left)
    {
      BlobsInOneMore(replacements, i);
      LeftAndLive(live, mine, left, replacements[i].blob);
      owed' := RemoveOne(runtime, replacements[i].blob, start, owed', left);
      left := left - {replacements[i].blob};
    }
    assert replacements[..|replacements|] == replacements;
    assert live - (mine - left) == live - BlobsIn(replacements);
  }

  /** All the removals that end `rewrite_request_inline_data`. */
  method ReleaseAll(runtime: R.BlobRuntime, replacements: seq<RequestReplacement>, bodyBlob: R.Blob,
                    ghost start: R.State, ghost owed: Owed)
    requires runtime.Valid() && R.Balanced(runtime.cfg, start)
    requires BlobsIn(replacements) + {bodyBlob} <= runtime.live && bodyBlob !in BlobsIn(replacements)
    requires Owes(start, runtime.Now(), owed) && OwedFor(owed, BlobsIn(replacements) + {bodyBlob})
    modifies runtime, BlobsIn(replacements), bodyBlob
    ensures runtime.Valid() && runtime.live == old(runtime.live) - BlobsIn(replacements) - {bodyBlob}
    ensures Owes(start, runtime.Now(), map[])
  {
    ghost var mine := BlobsIn(replacements) + {bodyBlob};
    ghost var owed := ReleaseReplacements(runtime, replacements, start, owed, mine);
    assert mine - BlobsIn(replacements) == {bodyBlob};
    owed := RemoveOne(runtime, bodyBlob, start, owed, {bodyBlob});
    assert {bodyBlob} - {bodyBlob} == {};
    OwedForNone(owed);
  }

  lemma IndexedBlobs(replacements: seq<RequestReplacement>)
    ensures forall x | x in ByPointer(replacements) :: ByPointer(replacements)[x].blob in BlobsIn(replacements)
  {
    ByPointerEntries(replacements);
    forall x | x in ByPointer(replacements) ensures ByPointer(replacements)[x].blob in BlobsIn(replacements) {
      var i :| 0 <= i < |replacements| && replacements[i] == ByPointer(replacements)[x];
      assert replacements[i].blob in BlobsIn(replacements);
    }
  }

  lemma SameBlobs(refs: seq<ImageRef>, replacements: seq<RequestReplacement>, byUrl: ByUrl)
    requires forall url :: url in byUrl ==> NamedBy(refs, url)
    requires InScanOrder(replacements, refs, byUrl)
    ensures BlobsIn(replacements) == BlobsOf(byUrl)
  {
    forall b | b in BlobsOf(byUrl) ensures b in BlobsIn(replacements) {
      var url :| url in byUrl && byUrl[url].blob == b;
      var i :| 0 <= i < |refs| && refs[i].url == url;
      assert replacements[i] == ReplacementFor(refs[i], byUrl);
    }
    forall b | b in BlobsIn(replacements) ensures b in BlobsOf(byUrl) {
      var i :| 0 <= i < |replacements| && replacements[i].blob == b;
      assert replacements[i] == ReplacementFor(refs[i], byUrl);
      assert byUrl[refs[i].url].blob == b;
    }
  }

  /** Encoding the body adds its blob, and nothing else, to what is owed. */
  method EncodeOwed(body: Value, replacements: seq<RequestReplacement>, runtime: R.BlobRuntime,
                    ghost start: R.State, ghost owed: Owed, ghost images: Replacements)
    returns (bodyBlob: R.Blob, ghost owed': Owed)
    requires Resolves(ByPointer(replacements), runtime, images)
    requires BlobsIn(replacements) <= runtime.live
    requires Owes(start, runtime.Now(), owed) && OwedFor(owed, BlobsIn(replacements))
    modifies runtime
    ensures fresh(bodyBlob) && bodyBlob !in BlobsIn(replacements)
    ensures runtime.Stores(bodyBlob, APPLICATION_JSON, Print(Encoded(body, images)))
    ensures runtime.live == old(runtime.live) + {bodyBlob}
    ensures Owes(start, runtime.Now(), owed') && OwedFor(owed', BlobsIn(replacements) + {bodyBlob})
  {
    ghost var st := runtime.Now();
    var contentLength;
    bodyBlob, contentLength := EncodeRequestBody(body, replacements, runtime);
    OwesStore(runtime.cfg, start, st, owed, Print(Encoded(body, images)));
    OwedForOneMore(owed, BlobsIn(replacements), bodyBlob);
    owed' := owed[bodyBlob.id := bodyBlob.storage];
  }

  /** Encode, read the text back and release everything. */
  method EncodeReadRelease(body: Value, replacements: seq<RequestReplacement>, runtime: R.BlobRuntime,
                           ghost start: R.State, ghost owed: Owed, ghost images: Replacements)
    returns (text: bytes)
    requires Resolves(ByPointer(replacements), runtime, images) && R.Balanced(runtime.cfg, start)
    requires BlobsIn(replacements) <= runtime.live
    requires Owes(start, runtime.Now(), owed) && OwedFor(owed, BlobsIn(replacements))
    modifies runtime, BlobsIn(replacements)
    ensures text == Print(Encoded(body, images))
    ensures runtime.Valid() && runtime.live == old(runtime.live) - BlobsIn(replacements)
    ensures Owes(start, runtime.Now(), map[])
  {
    ghost var live := runtime.live;
    var bodyBlob;
    ghost var owed';
    bodyBlob, owed' := EncodeOwed(body, replacements, runtime, start, owed, images);
    text := runtime.ReadBytes(bodyBlob);
    ReleaseAll(runtime, replacements, bodyBlob, start, owed');
    assert live + {bodyBlob} - BlobsIn(replacements) - {bodyBlob} == live - BlobsIn(replacements);
  }

  ghost predicate TypesAreText(world: World) {
    forall url | world(url).Ok? :: ValidUtf8(world(url).value.mimeType)
  }

  lemma ImagesResolve(index: Index, runtime: R.BlobRuntime)
    requires AllHeld(index, runtime)
    ensures var images := Images(index, runtime);
            images.Keys == index.Keys && forall x | x in images :: Resolved(index[x], images[x], runtime.Now())
  {
    var images := Images(index, runtime);
    forall x | x in images ensures Resolved(index[x], images[x], runtime.Now()) {
      var blob := index[x].blob;
      assert R.Backed(runtime.Now(), blob.id, blob.storage);
    }
  }

  /** What the replacements stand for, once materialised. */
  lemma MaterializedImages(body: Value, replacements: seq<RequestReplacement>, byUrl: ByUrl, runtime: R.BlobRuntime,
        world: World)
    requires WellFormed(body) && AllHeld(ByPointer(replacements), runtime)
    requires InScanOrder(replacements, Refs(body, ""), byUrl)
    requires forall url | url in byUrl :: world(url).Ok? && Serves(byUrl[url], runtime.Now(), world(url).value)
    ensures ImagesOf(Images(ByPointer(replacements), runtime), Refs(body, ""), world)
  {
    ImagesResolve(ByPointer(replacements), runtime);
    ReplacementsAreImages(body, replacements, byUrl, Images(ByPointer(replacements), runtime), world, runtime.Now());
  }

  /** What the rewrite answers once every image is fetched; `None` is the parse error. */
  function Answer(body: Value, images: Replacements, renumber: Renumber): Option<Value> {
    if Refs(body, "") == [] then Some(body) else Parse(Print(Encoded(body, images)), renumber)
  }

  /** The replacements use exactly the blobs that are owed, and hold them. */
  lemma BlobsReady(refs: seq<ImageRef>, replacements: seq<RequestReplacement>, byUrl: ByUrl, runtime: R.BlobRuntime,
        owed: Owed)
    requires runtime.Valid() && BlobsOf(byUrl) <= runtime.live && Lists(owed, byUrl)
    requires forall url :: url in byUrl <==> NamedBy(refs, url)
    requires InScanOrder(replacements, refs, byUrl)
    ensures BlobsIn(replacements) == BlobsOf(byUrl) && OwedFor(owed, BlobsIn(replacements))
    ensures AllHeld(ByPointer(replacements), runtime)
  {
    SameBlobs(refs, replacements, byUrl);
    IndexedBlobs(replacements);
    OwedForFetched(owed, byUrl);
  }

  /** The fetched images are at hand for the encoder. */
  lemma ReadyToEncode(body: Value, replacements: seq<RequestReplacement>, byUrl: ByUrl, runtime: R.BlobRuntime,
                      world: World, start: R.State, owed: Owed)
    requires WellFormed(body) && runtime.Valid() && BlobsOf(byUrl) <= runtime.live
    requires forall url :: url in byUrl <==> NamedBy(Refs(body, ""), url)
    requires InScanOrder(replacements, Refs(body, ""), byUrl)
    requires Joined(runtime.cfg, world, start, runtime.Now(), byUrl, owed)
    ensures BlobsIn(replacements) == BlobsOf(byUrl) && OwedFor(owed, BlobsIn(replacements))
    ensures AllHeld(ByPointer(replacements), runtime)
    ensures ImagesOf(Images(ByPointer(replacements), runtime), Refs(body, ""), world)
  {
    BlobsReady(Refs(body, ""), replacements, byUrl, runtime, owed);
    MaterializedImages(body, replacements, byUrl, runtime, world);
  }

  /** From the fetched images to the answer. */
  method FinishRewrite(body: Value, replacements: seq<RequestReplacement>, runtime: R.BlobRuntime, world: World,
                       renumber: Renumber, ghost start: R.State, ghost byUrl: ByUrl, ghost owed: Owed)
    returns (result: Result<Value, Failure>, ghost images: Replacements)
    requires WellFormed(body) && Refs(body, "") != [] && runtime.Valid() && R.Balanced(runtime.cfg, start)
    requires (forall url :: url in byUrl <==> NamedBy(Refs(body, ""), url))
    requires InScanOrder(replacements, Refs(body, ""), byUrl)
    requires Joined(runtime.cfg, world, start, runtime.Now(), byUrl, owed)
    requires BlobsOf(byUrl) <= runtime.live
    modifies runtime, BlobsOf(byUrl)
    ensures runtime.Valid() && runtime.live == old(runtime.live) - BlobsOf(byUrl)
    ensures ImagesOf(images, Refs(body, ""), world)
    ensures result == match Answer(body, images, renumber)
                      case Some(tree) => Ok(tree)
                      case None => Err(Unparsable)
    ensures Joined(runtime.cfg, world, start, runtime.Now(), map[], map[])
  {
    ReadyToEncode(body, replacements, byUrl, runtime, world, start, owed);
    images := Images(ByPointer(replacements), runtime);
    var text := EncodeReadRelease(body, replacements, runtime, start, owed, images);
    var parsed := Parse(text, renumber);
    result := if parsed.Some? then Ok(parsed.value) else Err(Unparsable);
  }

  /**
   `rewrite_request_inline_data`. A body without URLs comes back as it is,
   `output` fields included. Otherwise the answer is the parsed print of the
   substituted tree, a function of the body and of what its URLs were fetched
   as. Afterwards exactly the blobs in `left` are owed: none, unless a fetch
   failed, and then those of the fetches that had finished well by then.
   */
  method RewriteRequestInlineData(body: Value, runtime: R.BlobRuntime, world: World, order: Order, renumber: Renumber)
    returns (result: Result<Value, Failure>, ghost images: Replacements, ghost left: ByUrl, ghost owed: Owed)
    requires WellFormed(body) && runtime.Valid() && ValidOrder(order, NamedIn(body))
    modifies runtime
    ensures runtime.Valid()
    ensures var refs := Refs(body, "");
            if |refs| > MAX_INLINE_DATA_URLS then result == Err(TooManyUrls)
            else if refs == [] then result == Ok(body)
            else if !AllFetched(refs, world) then
              result.Err? && result.error.FetchFailed?
              && exists i :: 0 <= i < |refs| && world(refs[i].url) == Err(result.error.reason)
            else
              && ImagesOf(images, refs, world)
              && result == match Answer(body, images, renumber)
                           case Some(tree) => Ok(tree)
                           case None => Err(Unparsable)
    ensures left.Keys == LeftUrls(body, world, order)
    ensures Joined(runtime.cfg, world, old(runtime.Now()), runtime.Now(), left, owed)
    ensures runtime.live == old(runtime.live) + BlobsOf(left)
    ensures Restored(old(runtime.Now()), runtime.Now()) <==> AllFromCache(LeftUrls(body, world, order), world)
  {
    ghost var start, live := runtime.Now(), runtime.live;
    images, left, owed := map[], map[], map[];
    NothingLeft(runtime.cfg, world, start, live);
    var scanned := ScanRequestImageUrls(body);
    if scanned.None? {
      return Err(TooManyUrls), images, left, owed;
    }
    if scanned.value == [] {
      return Ok(body), images, left, owed;
    }
    result, images, left, owed := RewriteScanned(body, runtime, world, order, renumber);
    RestoredIfCached(runtime.cfg, world, start, runtime.Now(), left, owed);
  }

  /** The rest of it, for a body that names one to seven references. */
  method RewriteScanned(body: Value, runtime: R.BlobRuntime, world: World, order: Order, renumber: Renumber)
    returns (result: Result<Value, Failure>, ghost images: Replacements, ghost left: ByUrl, ghost owed: Owed)
    requires WellFormed(body) && runtime.Valid() && ValidOrder(order, NamedIn(body))
    requires 0 < |Refs(body, "")| <= MAX_INLINE_DATA_URLS
    modifies runtime
    ensures runtime.Valid()
    ensures var refs := Refs(body, "");
            if !AllFetched(refs, world) then
              result.Err? && result.error.FetchFailed?
              && exists i :: 0 <= i < |refs| && world(refs[i].url) == Err(result.error.reason)
            else
              && ImagesOf(images, refs, world)
              && result == match Answer(body, images, renumber)
                           case Some(tree) => Ok(tree)
                           case None => Err(Unparsable)
    ensures left.Keys == LeftUrls(body, world, order)
    ensures Joined(runtime.cfg, world, old(runtime.Now()), runtime.Now(), left, owed)
    ensures runtime.live == old(runtime.live) + BlobsOf(left)
  {
    ghost var start, live := runtime.Now(), runtime.live;
    var materialized;
    materialized, left, owed := Materialize(body, runtime, world, order);
    if materialized.Err? {
      return Err(materialized.error), map[], left, owed;
    }
    result, images := FinishRewrite(body, materialized.value, runtime, world, renumber, start, left, owed);
    BackTo(live, BlobsOf(left));
    left, owed := map[], map[];
  }

  /** The URLs whose blobs a call leaves behind. */
  ghost function LeftUrls(body: Value, world: World, order: Order): set<bytes> {
    if |Refs(body, "")| > MAX_INLINE_DATA_URLS || AllFetched(Refs(body, ""), world) then {}
    else FinishedWell(NamedIn(body), [], {}, order, world)
  }

  lemma NothingLeft(cfg: R.Config, world: World, st: R.State, live: set<R.Blob>)
    requires R.Balanced(cfg, st)
    ensures Joined(cfg, world, st, st, map[], map[]) && Restored(st, st) && AllFromCache({}, world)
    ensures live + BlobsOf(map[]) == live
  {
    OwesNothing(st);
  }

  lemma BackTo(live: set<R.Blob>, mine: set<R.Blob>)
    requires live !! mine
    ensures live + mine - mine == live + BlobsOf(map[])
  {
  }

  /**
   Told before the call: in every order of the tasks nothing is left behind but
   shared blobs exactly when all URLs can be fetched, or there are too many, or
   every image among them comes from a cache.
   */
  lemma RestoredInEveryOrder(body: Value, world: World)
    ensures (forall order | ValidOrder(order, NamedIn(body)) :: AllFromCache(LeftUrls(body, world, order), world)) <==>
            || |Refs(body, "")| > MAX_INLINE_DATA_URLS
            || AllFetched(Refs(body, ""), world)
            || AllFromCache(NamedIn(body), world)
  {
    var urls := NamedIn(body);
    if AllFromCache(urls, world) {
      forall order | ValidOrder(order, urls) ensures AllFromCache(LeftUrls(body, world, order), world) {
        WellIsNamed(urls, [], {}, order, world);
      }
    } else if |Refs(body, "")| <= MAX_INLINE_DATA_URLS && !AllFetched(Refs(body, ""), world) {
      var u :| u in urls && world(u).Ok? && !world(u).value.fromCache;
      FinishesFirst(urls, u, world);
      assert u in LeftUrls(body, world, First(u));
    }
  }

  lemma FetchedTypesAreText(body: Value, images: Replacements, world: World)
    requires TypesAreText(world) && ImagesOf(images, Refs(body, ""), world)
    ensures ValidImages(images)
  {
    forall x | x in images ensures ValidUtf8(images[x].mimeType) {
      var r :| r in Refs(body, "") && r.jsonPointer == x;
    }
  }

  /**
   For a body that was parsed in the first place, the answer is the substituted
   tree with its numbers read again, so the substituted tree itself exactly when
   every number that is neither stripped nor replaced reads back as itself.
   Rescanning the answer finds nothing.
   */
  lemma RewrittenBody(body: Value, images: Replacements, world: World, renumber: Renumber)
    requires WellFormed(body) && Depth(body) < RECURSION_LIMIT && Refs(body, "") != []
    requires TypesAreText(world) && ImagesOf(images, Refs(body, ""), world) && Renumbers(renumber)
    ensures Answer(body, images, renumber) == Reread(Encoded(body, images), renumber)
    ensures Answer(body, images, renumber) == Some(Encoded(body, images)) <==>
            forall p :: NumberKeptAt(body, images, p, renumber)
    ensures Answer(body, images, renumber).Some? ==> Refs(Answer(body, images, renumber).value, "") == []
  {
    FetchedTypesAreText(body, images, world);
    ScannedBodyParses(body, images, renumber);
    if Answer(body, images, renumber).Some? {
      ReadBackIsClean(body, images, renumber);
    }
  }

  /** The answer has an `output` field exactly when the body has it there and names no URL at all. */
  lemma OutputIsKept(body: Value, images: Replacements, world: World, renumber: Renumber, i: nat)
    requires WellFormed(body) && i < |OUTPUT_POSITIONS|
    requires TypesAreText(world) && ImagesOf(images, Refs(body, ""), world) && Renumbers(renumber)
    requires Answer(body, images, renumber).Some?
    ensures Node(Answer(body, images, renumber).value, OUTPUT_POSITIONS[i]).Some? <==>
            Refs(body, "") == [] && Node(body, OUTPUT_POSITIONS[i]).Some?
  {
    FetchedTypesAreText(body, images, world);
    if Refs(body, "") != [] {
      ReadBackIsClean(body, images, renumber);
    }
  }
}
