# Verified model of the image proxy's core

The repository is a synchronous proxy in front of Gemini- and OpenAI-style image
services. This project models the parts below its HTTP layer in Dafny and proves
what they are for:

* **Requests** (`Bytes`, `Json`, `JsonRoundTrip`, `JsonParsed`, `JsonGrammar`,
  `JsonShortest`, `JsonPointer`, `JsonEdit`, `JsonPosition`, `RequestScan`,
  `Base64`, `Substitution`, `SpelledOut`, `RequestEncode`, `EncodedBody`,
  `RequestMaterialize`, `RequestRewrite`). A request tree is scanned for image
  URLs, every distinct URL is fetched once, and the tree is streamed out with
  base64 in place of the URLs. Streaming is proved equal to substituting into
  the tree and printing it; the parser is proved against the grammar of RFC
  8259, the printer against the parser, base64 against the numbers that bytes
  and text spell, and pointers against tree positions (sections 3 and 4 of RFC
  6901). `SpelledOut` says the same with the source's own names and prefixes.
* **Uploads** (`UploadReader`). The lazy base64 decoder, the advertised length
  and the hash are compared with the one-shot decoder (section 4 of RFC 4648).
* **Blobs** (`ByteStreams`, `BlobRuntime`, `BlobAccounts`, `Ledger`,
  `BlobLedger`, `BlobRuns`). `BlobRuntime` is the store as one caller sees it;
  `BlobLedger` interleaves any number of stores and removals, one atomic
  operation a step, and `BlobRuns` follows one store through such a run.
* **Fetching and its caches** (`LruList`, `MemoryCache`, `DiskMeta`, `DiskCache`,
  `FetchService`, `FetchAnswers`, `SharedDirectory`, `TornEntry`, `SetRace`,
  `CacheRefinement`). `FetchService` is the single-flight protocol as a state
  machine over callers, tasks, locks and notifications, and `FetchAnswers` says
  what each caller is answered and where the answer comes from. `SharedDirectory` puts the request service and
  the response service, each with its own lock, over the one cache directory and
  splits every `get` and `set` into its calls on the two files of an entry.
  `DiskCache` is an operation that nothing interrupts, and `CacheRefinement`
  shows that both caches as they are do what the two state machines take them
  to do.
* **Block cache** (`BlockCacheKey`, `UpstreamBlockCache`).
* **Replies and polling** (`BlockReplay`, `ReplyShape`, `TaskPoll`,
  `PollOutcome`) and the request rewrite for one upstream (`AiapidevRewrite`,
  `AiapidevNames`, `AiapidevBody`). `ReplyShape` and `PollOutcome` say what a
  client sees and how a loop ends with the keywords, statuses and times of the
  source, without the functions that decide it.
* **Numbers** (`NumberReading`). A JSON number is the text it prints as, and
  reading one is a parameter `renumber` of the parser: the text that the value
  read prints as, or nothing when it is out of range. It is not taken to be
  idempotent, because `Cargo.toml` enables no `float_roundtrip`; `NumberReading`
  computes what the best-effort reading does to decimal fractions.

Conventions. A Rust string or byte buffer is a `bytes`, a sequence of characters
below 256. `Option` and `Result` stand for the source's own. A `requires` that
speaks of `WellFormed` trees or of `Distinct` keys states what the types of
`serde_json` and `lru` guarantee. What comes from outside (what a fetch of a URL
comes to, what a poll answers, clock readings, how a reader cuts its data, the
order in which tasks finish, the digest) is a parameter or an arbitrary choice.

Findings that differ from what one would expect, each with its exact condition:

* The upload reader and the hash accept more texts than the one-shot decoder,
  and then advertise too large a length: exactly those with padding at the end
  of a 32768-character chunk that is not the last (`UploadReader.UploadAgrees`,
  `UploadReader.PaddingInsideIsAccepted`).
* Reading a body back does not give the substituted tree when an array, an
  object or an image is written inside 127 containers, or when a number that is
  left reads back as another one; both can be told from the request and the pointers
  (`EncodedBody.EncodedBodyParses`). A string inside 127 arrays whose pointer is
  replaced encodes to a body that does not parse (`EncodedBody.StringReplacedTooDeep`);
  scanned images never get there, so for them only numbers count
  (`EncodedBody.ScannedBodyParses`).
* Printing a float and reading it back may give another float: 0.97166380498379864
  is read and printed as 0.9716638049837987, and that as 0.9716638049837988
  (`NumberReading.NumberDrifts`). So a replayed block error is the first reply
  byte for byte exactly when the body is stable (`BlockReplay.ReplayIsReply`),
  and a body with this number is not (`NumberReading.ReplayDrifts`); and a
  request read with such a number is answered with another one
  (`NumberReading.AnswerDrifts`).
* The answer to a request has an `output` field exactly when the request has one
  there and names no image URL at all (`RequestRewrite.OutputIsKept`).
* A request whose fetch fails leaves behind the blobs of the fetches that had
  finished well by then. The hot-byte counter, the reservations and the spill
  files are as before the call exactly when all of these came from a cache (an
  empty image that did not is a reservation of no bytes)
  (`RequestRewrite.RewriteRequestInlineData`). Told before the call: they are so
  in every order of the tasks exactly when all URLs can be fetched, there are
  too many of them, or every image that can be fetched comes from a cache
  (`RequestRewrite.RestoredInEveryOrder`); one that does not can always be
  stored before an error is joined (`RequestMaterialize.FinishesFirst`).
* `build_router` opens two fetch services over one cache directory
  (src/http/router.rs:583-594), each with its own lock, and only the request
  service may re-encode a large PNG, so the two can hold different images of one
  URL. When their sets of an entry overlap, a `set` overlaps a `get`, or the
  process ends between the two writes, the entry can come to hold the media type
  of one image and the bytes of the other, and `fetch` answers with this pair
  that no fetch ever produced (`TornEntry.OverlappingSetsTear`,
  `TornEntry.OverlappingGetTears`, `TornEntry.RestartTears`). Two overlapping
  sets leave one of the two images in every order of their writes exactly when
  the images agree in type or in bytes, if a file is written in one go; since it
  is first truncated and then filled, also the bytes must be as long or one a
  prefix of the other, and the meta texts as long
  (`SetRace.SetsLeaveAnImageIff`). Where no such overlap happens, every image
  comes out of a fetch of its URL by one service or the other
  (`SharedDirectory.Provenance`).
* An entry whose meta file cannot be read, as one that a restart left truncated,
  makes every `fetch` of its URL fail without a request to the origin, and is
  neither pruned nor expired (`TornEntry.RestartBreaks`,
  `TornEntry.FetchFailsOnDisk`, `DiskCache.BrokenStays`).
* An entry stored on disk with no newer one beside it survives the pruning in
  whatever order entries of one file time are listed exactly when all entries of
  its time fit the budget together, and in some order exactly when it fits alone
  (`DiskCache.NewestStaysIff`, `DiskCache.TiedEntries`). One that does not fit
  alone and is the only one of its time empties the directory
  (`DiskCache.NewestStays`, `DiskCache.OversizeEmpties`).
* The body rewrite for the aiapidev upstream keeps an `output` field exactly when
  its two configuration objects mix old and new spellings, and is idempotent
  exactly when they do not, although the rewrite of values always is
  (`AiapidevBody.OutputAfterRewrite`, `AiapidevBody.BodyRewriteTwice`,
  `AiapidevBody.MixedSpellingsKeepOutput`).

## Model

| member | source | states |
|---|---|---|
| JsonRoundTrip.PrintedParses | src/request_rewrite.rs:98 | parsing a printed tree gives nothing beyond the depth limit, and below it the tree with every number read again |
| JsonRoundTrip.ParsesBack | src/request_rewrite.rs:98 | parsing a printed tree gives the tree back exactly when it nests less deeply than the parser's limit and every number of it reads back as itself |
| JsonRoundTrip.PrintInjective | src/upstream_block_cache.rs:46 | two trees print alike only if they are the same tree, at any depth |
| JsonParsed.ParsedTree | src/http/router.rs:3018 | every tree the parser accepts is well-formed and within the depth limit |
| JsonGrammar.ParsesExactly | src/http/router.rs:3018 | the parser gives a tree for a text exactly when the text is one of RFC 8259 for it, with any blanks and escapes, nesting less than 128 deep and its numbers readable |
| JsonShortest.LastWins | src/http/router.rs:3018 | of the members of one name the object keeps the value of the last |
| JsonShortest.FirstComesFirst | src/http/router.rs:3018 | the names of a parsed object are in the order of their first occurrence |
| JsonShortest.NoShorterText | src/request_rewrite.rs:98 | of all texts that are read as a tree with every number as it stands, the printed one is a shortest |
| JsonPointer.UnescapeEscape | src/request_encode.rs:251-253 | unescaping undoes the token escape, and an escaped token holds no slash |
| JsonPointer.PointerInjective | src/request_scan.rs:29-47 | different tree positions have different pointers, so no replacement lands on another node |
| JsonEdit.SwapRemoveLookup | src/request_encode.rs:234-236 | removing a member hides its key and no other, although the last member moves into its place |
| JsonEdit.StripOutputNode | src/request_encode.rs:233-249 | stripping removes the three `output` fields with all below them and keeps the node at every other position |
| SpelledOut.StripSpelled | src/request_encode.rs:233-249 | the fields taken out are `output`, `generationConfig.imageConfig.output` and `generation_config.image_config.output`; every other node stays |
| JsonEdit.StripOutputKeeps | src/request_encode.rs:233-249 | a stripped tree is well-formed and nests no deeper |
| RequestScan.Walk | src/request_scan.rs:18-49 | the shared vector grows by exactly the references below the node, in order; the walk fails exactly when there are more than seven in all |
| RequestScan.ScanRequestImageUrls | src/request_scan.rs:12-16 | the scan returns exactly the reference list, or the error of too many URLs, and for a well-formed request this error exactly when more than seven positions name a URL |
| RequestScan.RefsComplete | src/request_scan.rs:18-49 | every URL named by an `inlineData` object anywhere is listed under the pointer of that node |
| RequestScan.RefsSound | src/request_scan.rs:18-49 | every listed reference names a URL at the position its pointer stands for |
| RequestScan.PointerDeterminesUrl | src/request_scan.rs:18-49 | two listed references with one pointer are the same reference |
| RequestScan.ListedPointers | src/request_scan.rs:18-57 | a pointer is listed exactly when it is that of the `inlineData` node of an object that names a URL |
| RequestScan.RefsInOrder | src/request_scan.rs:18-49 | the positions that name a URL are listed once each and in document order: an object before what lies below it, siblings by member or index |
| RequestScan.RefsCount | src/request_scan.rs:12-49 | the list is as long as there are positions that name a URL, and its pointers differ |
| SpelledOut.UrlSpelled | src/request_scan.rs:20-57 | a position names a URL exactly when there is an object with an object under `inlineData` whose `data` is a string starting with `http://` or `https://`; the pointer ends in `/inlineData` |
| Base64.DecodeEncode | src/request_encode.rs:208-221 | decoding undoes encoding |
| Base64.EncodeDecode | src/upload.rs:786-791 | every accepted text is the canonical encoding of what it decodes to |
| Base64.EncodeAppend | src/request_encode.rs:180-205 | a prefix whose length is a multiple of three can be encoded on its own |
| Base64.DecodeAppend | src/upload.rs:777-791 | a text cut at a multiple of four decodes exactly when both parts do and the first has no padding |
| Base64.DecodedLength | src/upload.rs:747-763 | the decoded length is three quarters of the text less its padding |
| Base64.EncodeSpells | src/request_encode.rs:208-221 | the characters of the text are digits of the standard alphabet that spell in base 64 the number the bytes spell in base 256, shifted by two bits for each of the `=` that fill up a group of four |
| Base64.OnlyTextOf | src/upload.rs:786-791 | that is the only such text, and the only one that decodes to these bytes |
| Substitution.EncodedNode | src/request_encode.rs:67-135 | each node of the encoded tree is the image of the outermost replaced pointer above it, or else the stripped request's node |
| SpelledOut.ImageArrives | src/request_encode.rs:137-157 | where a URL has a replacement and nothing above it is replaced or taken out stands an object of `mimeType` and then `data`, the latter the base64 text of the image |
| Substitution.EncodedNamesNoUrl | src/request_encode.rs:67-135 | no position of the encoded tree names a URL once every scanned reference is replaced |
| Substitution.RescanFindsNothing | src/request_scan.rs:12-49 | scan, replace, encode, scan again: the second scan finds nothing |
| Substitution.EncodedKeeps | src/request_encode.rs:19-157 | replacing scanned references keeps the tree well-formed and no deeper |
| RequestEncode.WriteReaderAsBase64 | src/request_encode.rs:170-205 | for every way the reader cuts the blob the text written is the one-shot encoding, with at most two bytes carried and no output buffer too short |
| RequestEncode.EncodeRound | src/request_encode.rs:176-198 | one round writes the complete groups, keeps at most two bytes, and leaves the text owed unchanged |
| RequestEncode.WriteBlobAsBase64 | src/request_encode.rs:159-206 | inline, shared and spilled blobs encode alike, as the whole of their content |
| RequestEncode.WriteReplacement | src/request_encode.rs:137-157 | the pieces written are the compact print of the inline image object |
| RequestEncode.PrintedImage | src/request_encode.rs:137-157 | base64 text needs no escape, so an image prints as a head, the text and a tail |
| RequestEncode.WriteJsonValue | src/request_encode.rs:67-135 | what is streamed for a node is the print of the substituted node, and the counter counts it |
| RequestEncode.WriteObject | src/request_encode.rs:84-110 | the member loop writes the print of the substituted object |
| RequestEncode.WriteArray | src/request_encode.rs:111-128 | the item loop writes the print of the substituted array |
| RequestEncode.EncodeRequestBody | src/request_encode.rs:19-65 | the body blob holds the print of the stripped and substituted tree; `content_length` equals the bytes written and the blob's size; other blobs are untouched |
| EncodedBody.EncodedBodyParses | src/request_encode.rs:19-65 | reading the body back gives the substituted tree exactly when, in the request, no array, object or replaced pointer that is sent lies at 127 tokens or more and every number that is neither stripped nor replaced reads back as itself |
| EncodedBody.ScannedBodyParses | src/request_rewrite.rs:85-98 | after replacing scanned references, a request that was parsed is read back as the substituted tree with its numbers read again, so unchanged exactly when these are fixed |
| EncodedBody.StringReplacedTooDeep | src/request_encode.rs:19-65 | a string inside 127 arrays whose pointer is replaced: the request parses, its encoding does not |
| EncodedBody.ReadBackIsClean | src/request_rewrite.rs:85-98 | whatever numbers become, the body read back names no URL and has none of the three `output` fields |
| RequestMaterialize.UniqueUrls | src/request_materialize.rs:73-79 | the list holds every URL of the references once |
| RequestMaterialize.FetchRequestImage | src/request_materialize.rs:130-196 | a fetch is stored shared and uncharged exactly when it came from a cache, any other like `store_bytes`; a failed fetch stores nothing |
| RequestMaterialize.JoinAll | src/request_materialize.rs:99-108 | for every order in which the tasks finish, before or between joins: all URLs are fetched into blobs of their own, or one of their errors is returned; exactly the blobs of the tasks that finished well are left, each shared exactly when its fetch came from a cache, and exactly they are owed |
| RequestMaterialize.JoinStep | src/request_materialize.rs:102-108 | one more finished task keeps images, ids apart and the account of what is owed |
| RequestMaterialize.FinishesFirst | src/request_materialize.rs:99-108 | any URL that can be fetched can be fetched and stored before an error is joined |
| RequestMaterialize.RestoredIfCached | src/request_materialize.rs:142-151 | counter, reservations and files are as they were exactly when all fetches whose blobs are left came from a cache |
| RequestMaterialize.Reassemble | src/request_materialize.rs:110-120 | one replacement a reference, in scan order, or the URL that is missing |
| RequestMaterialize.Materialize | src/request_materialize.rs:67-128 | outcome by request and fetch results alone: too many URLs, some fetch's error, or replacements in scan order with one blob a distinct URL; a missing blob is impossible; in every case exactly the blobs listed are owed, and the books are as before exactly when their fetches all came from a cache |
| RequestMaterialize.ReplacementsAreImages | src/request_encode.rs:26-29 | the replacement index stands for exactly the fetched images of the scanned references |
| RequestRewrite.RewriteRequestInlineData | src/request_rewrite.rs:65-99 | result as a function of body, fetch results and number reading; no blob is left unless a fetch failed, and then those of the fetches that had finished well; counter, reservations and files are as before exactly when these all came from a cache |
| RequestRewrite.RestoredInEveryOrder | src/request_rewrite.rs:65-99 | they are so in every order of the tasks exactly when all URLs can be fetched, or there are too many, or every image that can be fetched comes from a cache |
| RequestRewrite.ReleaseAll | src/request_rewrite.rs:93-96 | removing blobs as often as they are referred to settles all that is owed |
| RequestRewrite.RemoveOne | src/blob_runtime.rs:220-237 | only the first removal of a blob settles anything of what is owed |
| RequestRewrite.RewrittenBody | src/request_rewrite.rs:65-99 | for a parsed body the answer is the substituted tree with its numbers read again, unchanged exactly when these are fixed, and scanning it finds nothing |
| RequestRewrite.OutputIsKept | src/request_rewrite.rs:65-99 | the answer has an `output` field where one is stripped exactly when the body has it and names no URL |
| BlobAccounts.OwesStore | src/blob_runtime.rs:93-105 | a store adds exactly its own reservation or file to what is owed |
| BlobAccounts.OwesRemove | src/blob_runtime.rs:220-237 | a removal settles exactly the blob's own part |
| BlobAccounts.RestoredIfShared | src/request_rewrite.rs:93-96 | counter, reservations and files are as they were exactly when every blob still owed is shared |
| BlobRuntime.SpillPathInjective | src/blob_runtime.rs:328-330 | different ids spill to different files |
| BlobRuntime.StoreKeepsBooks | src/blob_runtime.rs:93-105 | a store keeps ledger and budget, backs its blob by exactly the bytes given and disturbs no other |
| BlobRuntime.RemoveKeepsBooks | src/blob_runtime.rs:220-237 | a removal never underflows, keeps the ledger and disturbs no other blob |
| BlobRuntime.StoreThenRemove | src/blob_runtime.rs:93-105 | storing and removing restores counter, reservations and files |
| BlobRuntime.BlobRuntime.StoreBytes | src/blob_runtime.rs:93-119 | new blob with the bytes given, storage class and statistics by budget, all other blobs kept |
| BlobRuntime.BlobRuntime.StoreExternalSharedBytes | src/blob_runtime.rs:121-129 | shared storage is charged to no budget |
| BlobRuntime.BlobRuntime.ReadOrSpill | src/blob_runtime.rs:147-173 | the loop spills exactly when the stream is longer than the limit, and loses no byte |
| BlobRuntime.BlobRuntime.StoreStream | src/blob_runtime.rs:131-199 | for every chunking the outcome is that of `store_bytes` on the whole: content, storage class, counter, statistics |
| BlobRuntime.BlobRuntime.ReadBytes | src/blob_runtime.rs:213-218 | reading returns what was stored |
| BlobRuntime.BlobRuntime.Remove | src/blob_runtime.rs:220-237 | the first removal releases, every later one changes nothing, other blobs read as before |
| BlobLedger.PerformBalances | src/blob_runtime.rs:281-319 | one atomic action moves the counters by exactly what it moves in its own slot; the counter stays within the budget and no subtraction wraps |
| BlobLedger.LedgerBalances | src/blob_runtime.rs:93-319 | in every state of every interleaving: the counter is what reservations and unreleased inline blobs hold, within the budget; spill statistics and files match the spilled blobs, byte for byte |
| BlobLedger.ReleaseNeverWraps | src/blob_runtime.rs:308-312 | `fetch_sub` subtracts no more than the counter holds |
| BlobLedger.ReleasedOnce | src/blob_runtime.rs:220-237 | along any run a blob is released at most once, however many clones call `remove` |
| BlobLedger.AllReleasedMeansZero | src/blob_runtime.rs:220-237 | when every blob is released, nothing is charged and no file is left |
| BlobLedger.SpilledForLackOfRoom | src/blob_runtime.rs:281-306 | in every state of every interleaving, what is spilled did not fit beside a value that the hot counter held during the run, and what is inline did fit beside one |
| BlobLedger.StoreAloneRefines | src/blob_runtime.rs:93-105 | a store that nobody interrupts ends as the class `BlobRuntime` says |
| BlobRuns.ContentIsGiven | src/blob_runtime.rs:93-199 | in every state of every interleaving, ids are handed out one after another and each store and blob holds exactly the bytes it was begun with and has read since, shared exactly if it was begun so |
| BlobRuns.StoreFinishes | src/blob_runtime.rs:93-319 | from every reachable state a store under way reaches its handle in at most six steps of its own, inline exactly if there is room beside what is hot then, unless that was settled before, and the counters grow by just its part |
| BlobRuns.RemoveFinishes | src/blob_runtime.rs:220-237 | from every reachable state a blob can be given back in two steps, after which its bytes are not hot and it has no file |
| UploadReader.Sha256HexBase64 | src/upload.rs:765-775 | the hash is fed the chunked decoding of the whole text, or an error is returned |
| UploadReader.Base64DecodedReader.PollRead | src/upload.rs:811-843 | bytes delivered and bytes still to come make up what was to come; short only at the end of the data; an invalid chunk never shows as end of stream |
| UploadReader.Drain | src/upload.rs:811-843 | reading with any buffer sizes terminates with exactly the chunked decoding, or with the error |
| UploadReader.ChunkedAgrees | src/upload.rs:777-791 | the one-shot decoder accepts a text exactly when the chunked one does and no padding sits inside; then they agree |
| UploadReader.UploadAgrees | src/upload.rs:747-791 | the advertised length is the number of bytes emitted exactly when no padding sits inside |
| UploadReader.AcceptedTextAgrees | src/upload.rs:747-844 | on every text the one-shot decoder accepts, length, hash input and reader agree with it |
| UploadReader.UploadUndoesEncode | src/upload.rs:747-844 | the upload reader undoes the streaming encoder, and the length is the content's |
| UploadReader.PaddingInsideIsAccepted | src/upload.rs:747-791 | a full chunk with padding followed by four characters: accepted, unlike by the one-shot decoder, with too large a length |
| LruList.WithoutDistinct | src/cache.rs:529 | popping a key leaves the others, distinct and as they were |
| MemoryCache.FitCountIsLongest | src/cache.rs:532-537 | exactly the prefixes up to the count fit, so the kept one is the longest |
| MemoryCache.MemoryCache.EvictFor | src/cache.rs:532-537 | the loop keeps exactly the longest most-recently-used prefix that fits; the early `break` is never taken |
| MemoryCache.MemoryCache.Get | src/cache.rs:514-521 | a hit returns the value and moves its entry to the front |
| MemoryCache.MemoryCache.Set | src/cache.rs:523-547 | the new list; `cur_bytes` stays the exact sum, at most `max_bytes` |
| MemoryCache.RunSound | src/cache.rs:503-548 | over every run the sizes add up to at most the bound and no URL occurs twice |
| MemoryCache.RunProvenance | src/cache.rs:514-547 | a cached value is the last one admitted for its URL |
| MemoryCache.RunRecency | src/cache.rs:514-547 | the list is in order of last use |
| MemoryCache.EvictsIff | src/cache.rs:514-547 | over every run, a read or a set too large to be admitted takes nothing out; an admitted set puts its value in and takes out another entry exactly when there is no room for it beside the new value and all others used no earlier |
| DiskCache.DiskCache.PruneIfNeeded | src/cache.rs:603-645 | of the entries whose meta file can be read the oldest go first, each with its body; what is left fits, without the last removal it would not, and entries that cannot be read stay |
| DiskCache.DiskCache.Get | src/cache.rs:560-581 | nothing without both files, an error if the meta file cannot be read; an expired entry is removed and not returned |
| DiskCache.GetTakesOut | src/cache.rs:571-575 | a `get` takes out the two files of its own entry exactly when this can be read and has expired, and leaves every other file as it was |
| DiskCache.DiskCache.Set | src/cache.rs:583-601 | both files are written, then the directory is pruned; with none newer the entry stays if those of its time fit together, and with none as new exactly when it fits alone, else nothing listed stays |
| DiskCache.RunProvenance | src/cache.rs:550-601 | over runs of whole operations from any initial directory, each file of an entry is as the last set of its stem wrote it, or an initial one never set |
| DiskCache.RunFits | src/cache.rs:583-645 | from any initial directory, the sizes listed are within the budget from the first set on, and never above the start before it |
| DiskCache.HitIsFresh | src/cache.rs:560-581 | over runs of whole operations, by either service, a hit is the last value set, no longer than a TTL ago, or an initial entry of the directory |
| DiskCache.BrokenStays | src/cache.rs:571-618 | an entry whose meta file cannot be read stays, and `get` fails on it, until it is set again |
| DiskCache.FreshIsHit | src/cache.rs:560-601 | the converse of `HitIsFresh`: over runs of whole operations on a clock that does not go back, a `get` returns what was set last as long as a TTL has not passed and each set since found room for it beside all others no older |
| DiskCache.StaysIff | src/cache.rs:626-643 | any listed entry survives in every listing order exactly when it fits together with all others no older, and in some order exactly when it fits beside those that are newer |
| DiskCache.NewestStaysIff | src/cache.rs:626-643 | one of the newest entries survives in every listing order exactly when all of its file time fit together, in some order exactly when it fits alone |
| DiskCache.TiedEntries | src/cache.rs:626-643 | of two entries of one time, each as large as the budget, either may be the one that is left |
| DiskCache.NewestStays | src/cache.rs:626-643 | an entry newer than all others survives exactly when it is no larger than the budget; a larger one takes all listed others with it |
| DiskCache.OversizeEmpties | src/cache.rs:583-645 | with a budget of one byte, an entry of two bytes written after one of one byte leaves an empty directory |
| DiskMeta.ReadsBack | src/cache.rs:592-597 | what `set` writes into a meta file is read back as it was |
| SpelledOut.MetaSpelled | src/cache.rs:122-126 | the text of a meta file, with its three field names |
| DiskMeta.MixtureRejected | src/cache.rs:571 | a meta text with the end of a longer one behind it is not read |
| FetchService.StepKeeps | src/cache.rs:217-416 | every step of every caller, task and eviction keeps the protocol invariant |
| FetchService.SingleFlight | src/cache.rs:241-303 | in every reachable state: at most `max_inflight` entries, one task a URL, every entry a task still in flight that is spawned or about to be; a task about to call the unchecked `remove(&url)` owns the entry it takes out |
| FetchService.NoLostWakeup | src/cache.rs:362-402 | once its task has notified, a waiting caller can wake and finds the result |
| FetchService.WaiterIsServed | src/cache.rs:278-402 | from every reachable state with a waiting caller, the steps its task has left before notifying and two steps of the caller form a run that ends with the caller answered by what the task publishes |
| FetchService.TaskProceeds | src/cache.rs:278-303 | an unfinished task always has its next step |
| FetchService.AnswersArePublished | src/cache.rs:367-416 | "finished without result" is unreachable, and what a caller gets from a task is exactly what that task published |
| FetchService.Provenance | src/cache.rs:217-310 | over every run, across restarts, every image answered, cached or in a task was produced by an earlier direct fetch of that same URL, or was read back from disk for it |
| FetchAnswers.CallerIsServed | src/cache.rs:217-416 | from every reached state and every point of `fetch`, a caller can be answered, with what it is due: what memory holds, what the disk answers, what the task in flight publishes, or what a fetch comes to |
| FetchAnswers.FullIsFetchedDirectly | src/cache.rs:256-269 | a caller that finds its URL in no task and `inflight` full fetches by itself, is answered by what that comes to, and an image goes into memory if admitted; nothing else changes |
| FetchAnswers.LookingIsFetchedDirectly | src/cache.rs:241-269 | the same from before the lookup |
| FetchAnswers.TaskRunsToItsEnd | src/cache.rs:278-303 | a running task goes on by itself to its end: result published, waiters notified once, URL out of `inflight`, an image in memory if admitted, no caller touched |
| FetchAnswers.AnswersAreEarned | src/cache.rs:217-416 | over every run, an answer out of a cache is what memory held at the caller's probe or what the disk answered it, a direct one is that of the caller's own fetch, a joined one what the task published; a timeout comes only after the caller's own time ran out |
| SharedDirectory.StepKeeps | src/cache.rs:551-601 | every step of either service, restarts between sets included, keeps each entry that is not being written whole |
| SharedDirectory.Provenance | src/http/router.rs:583-594 | in every run in which no set overlaps an access of the other service to the same entry and none is cut off, every image answered, in memory or on disk came out of a fetch of that URL by one of the two services |
| TornEntry.OverlappingSetsTear | src/cache.rs:590-598 | two overlapping sets after which a fetch answers with the type of one image and the bytes of the other |
| TornEntry.OverlappingGetTears | src/cache.rs:571-580 | the same by a set between the two reads of a get |
| TornEntry.RestartTears | src/cache.rs:590-598 | the same by a process that ends between the two writes of a set |
| TornEntry.FetchFindsOnDisk | src/cache.rs:228-239 | from any reached state, a new caller that memory does not serve is answered with what the two files hold |
| TornEntry.FetchFailsOnDisk | src/cache.rs:228-239 | from any reached state, such a caller fails if the meta file cannot be read |
| TornEntry.RestartBreaks | src/cache.rs:590-598 | a process that ends while a meta file is being written leaves an entry on which the next one fails |
| SetRace.RaceKeeps | src/cache.rs:590-598 | in every order of the calls of two sets each file holds one text, or one laid over the other |
| SetRace.RaceIsARun | src/cache.rs:551-598 | every such order is a run of the two services |
| SetRace.AlwaysGenuineIff | src/cache.rs:590-598 | two sets always leave one of their images exactly when these agree in type or bytes, the bytes are as long or one a prefix of the other, and the meta texts as long |
| SetRace.GenuineInOneGoIff | src/cache.rs:590-598 | with each file written in one go, exactly when the images agree in type or in bytes |
| SetRace.SetsLeaveAnImageIff | src/cache.rs:590-598 | both conditions for the meta texts that `set` writes |
| CacheRefinement.GetIsLookup | src/cache.rs:514-521 | what the list finds is what the map holds, and moving the entry changes nothing |
| CacheRefinement.SetIsPutAndEvict | src/cache.rs:523-547 | a set is a put into the map and the eviction of the entries that make room |
| CacheRefinement.ListedRunRefines | src/cache.rs:217-310 | every run of the service over the byte-bounded list is, with evictions put in, a run of `FetchService` |
| CacheRefinement.SetRefines | src/cache.rs:583-601 | an uninterrupted set of the request service, pruning included, is a run of `SharedDirectory` |
| CacheRefinement.OtherSetRefines | src/cache.rs:583-601 | the same for the response service |
| CacheRefinement.GetRefines | src/cache.rs:560-581 | an uninterrupted get is a run of `SharedDirectory` after which the caller goes on with its answer |
| BlockCacheKey.CanonicalImpliesEquiv | src/upstream_block_cache.rs:117-131 | equal canonical forms come from trees equal up to member order |
| BlockCacheKey.EquivImpliesCanonical | src/upstream_block_cache.rs:117-131 | trees equal up to member order have equal canonical forms |
| BlockCacheKey.KeysEqual | src/upstream_block_cache.rs:43-52 | two keys are equal exactly when path and base URL are and the bodies are equal up to member order |
| UpstreamBlockCache.UpstreamBlockCache.Get | src/upstream_block_cache.rs:66-81 | a hit only before expiry, moved to the front; an expired entry is dropped |
| UpstreamBlockCache.UpstreamBlockCache.PruneExpired | src/upstream_block_cache.rs:133-145 | collecting expired keys and popping them leaves exactly the live entries, in order |
| UpstreamBlockCache.UpstreamBlockCache.Insert | src/upstream_block_cache.rs:83-94 | prune, then put in front, the last entry making room if need be |
| UpstreamBlockCache.RunWithinCapacity | src/upstream_block_cache.rs:55-94 | over every run the cache stays within capacity and holds a key once |
| UpstreamBlockCache.HitIsFresh | src/upstream_block_cache.rs:66-94 | a hit is the last insertion under that key, strictly less than a TTL ago |
| UpstreamBlockCache.InsertLeavesLive | src/upstream_block_cache.rs:83-94 | no expired entry survives an insertion |
| UpstreamBlockCache.EvictsOnlyTheLast | src/upstream_block_cache.rs:83-94 | an insertion evicts a live entry of another key exactly when the cache is full of live entries of other keys and this one is the last |
| UpstreamBlockCache.EvictsTheLeastRecent | src/upstream_block_cache.rs:66-94 | over every run, a live entry of another key is evicted exactly when the cache is full of live entries of other keys and this one was used less recently than all of them |
| UpstreamBlockCache.RunRecency | src/upstream_block_cache.rs:66-94 | the order is that of last use, so the last entry is the least recently used |
| UpstreamBlockCache.GetKeeps | src/upstream_block_cache.rs:66-81 | a `get` takes out no entry but its own, and that exactly when it has expired |
| UpstreamBlockCache.RecentIsHit | src/upstream_block_cache.rs:66-94 | the converse of `HitIsFresh`: on a clock that does not go back, the last response inserted under a key is hit while its TTL lasts, if since then the key never stood behind `capacity` other keys used later |
| UpstreamBlockCache.CrowdedOut | src/upstream_block_cache.rs:83-94 | with capacity one, a key pushed out by another stays out although it was asked for last |
| UpstreamBlockCache.HitMeansEquivalentRequest | src/upstream_block_cache.rs:43-95 | a hit means an equivalent request was stored earlier in the run with that response |
| BlockReplay.ClassifyAnywhere | src/upstream_block_cache.rs:97-115 | a keyword counts anywhere in the body and in any letter case |
| BlockReplay.ResponseBodyTwice | src/http/router.rs:3014-3033 | rewriting a rewritten body changes nothing exactly when no tree was edited, or the edited one no longer shows a block, or every number left in it reads back as itself |
| BlockReplay.MaybeStore | src/http/router.rs:3035-3069 | stores exactly blockable bodies of at most 64 KiB, as the rewritten reply |
| BlockReplay.AnswerUpstreamError | src/http/router.rs:2917-2955 | the reply, exactly which errors are stored, and that the cache is unchanged otherwise; replaying what was stored gives that same reply exactly when the body is stable |
| BlockReplay.ReplayIsReply | src/http/router.rs:2976-2997 | the replay has the status, upstream status, content type and bytes of the first reply exactly when the body is stable |
| BlockReplay.HitRepeatsTheReply | src/http/router.rs:2990-3069 | over every run, a live hit is the response stored for an error under its key less than a TTL ago, and is answered as that error was exactly when its body is stable |
| ReplyShape.ReplyTells | src/http/router.rs:2917-3033 | the reply is 451 exactly when the status is 400 or 502 and the body shows one of the four keywords in any letter case; then the advice stands at `error.message`, or `message`, every other node and the order of names as they were, or alone where there is no object; any other error passes unchanged |
| ReplyShape.StoredTells | src/http/router.rs:3035-3069 | stored is exactly a block of at most 65536 bytes, as the client was told, with the reason of the keyword found first |
| ReplyShape.ReplayTells | src/http/router.rs:2990-2997 | a stored response is replayed with its status, upstream status, type and body, the body edited again if it still shows a block |
| ReplyShape.OnlyUtf8Of | src/http/router.rs:79-80 | the texts outside ASCII are the ones whose payload bits are the code points listed |
| NumberReading.FractionsCanBeRead | Cargo.toml:18 | some reading of numbers meets what the next three rows take of it |
| NumberReading.NumberDrifts | Cargo.toml:18 | 0.97166380498379864 is read and printed as 0.9716638049837987, which is read and printed as 0.9716638049837988 |
| NumberReading.ReplayDrifts | src/http/router.rs:2990-3033 | for a block error with that number, the replay is not the first reply |
| NumberReading.AnswerDrifts | src/request_rewrite.rs:65-99 | a request that was read with that number and keeps it in place is not answered with the substituted tree |
| TaskPoll.UnsuccessfulResponse | src/http/router.rs:2793-2862 | verdict, counter and cache after a response outside 2xx |
| TaskPoll.PollTask | src/http/router.rs:2741-2895 | without a usable task URL there is no poll; else the first poll with a verdict ends the loop; only a block error touches the cache |
| TaskPoll.FiveFailuresEnd | src/http/router.rs:2430-2583 | five retryable failures in a row, of either kind, are the last five polls |
| TaskPoll.OnlyFiveFailuresEnd | src/http/router.rs:2741-2895 | a retryable failure ends the loop only as the fifth in a row or after the deadline |
| TaskPoll.SuccessResets | src/http/router.rs:2864 | any 2xx resets the counter that both kinds of failure share |
| TaskPoll.FirstSettledDecides | src/http/router.rs:2741-2895 | over every run, the first answer that is neither a retryable failure nor an unfinished task is what the loop returns exactly when no earlier poll was late and no five in a row failed; a terminal task there is the only success, even past the deadline |
| TaskPoll.LoopReplaysItsReply | src/http/router.rs:2793-2862 | over every run, the cache changes only when the loop returns a block error, and then replays that reply until expiry exactly when the body is stable |
| TaskPoll.MaxPolls | src/http/router.rs:47-50 | at most 451 polls a second apart, at most 46 ten seconds apart |
| PollOutcome.LoopEnds | src/http/router.rs:2741-2895 | the loop makes so many polls and returns this end exactly when every poll but the last found an unfinished task or failed short of five in a row, none 450 seconds or more after the start, and the last has this outcome: the finished task, the block reply, the answer itself, or the error of reading, parsing, transport or time |
| AiapidevRewrite.RewriteIdempotent | src/request_rewrite.rs:110-245 | rewriting a rewritten tree changes nothing |
| AiapidevRewrite.RewriteGood | src/request_rewrite.rs:110-245 | a rewritten tree is a fixed point, without renamed keys and without `inlineData` objects with string `data` |
| AiapidevRewrite.CleanEverywhere | src/request_rewrite.rs:110-245 | what a clean tree excludes is excluded at every position |
| AiapidevBody.RewrittenBodyIsClean | src/request_rewrite.rs:101-108 | a rewritten body has no renamed key and names no inline URL anywhere |
| AiapidevBody.BodyKeeps | src/request_rewrite.rs:101-108 | a request for this upstream keeps every node but stripped fields, images and what is overwritten, and where no name on the way is renamed, as in `contents`, at its very position |
| AiapidevBody.OutputAfterRewrite | src/request_rewrite.rs:101-262 | of the three `output` fields stripped first, a rewritten body can have only the last, and has it exactly when the stripped body holds it under mixed spellings |
| AiapidevBody.BodyRewriteTwice | src/request_rewrite.rs:101-108 | rewriting a rewritten body changes nothing exactly when it held no such field |
| AiapidevBody.MixedSpellingsKeepOutput | src/request_rewrite.rs:101-262 | `{"generationConfig":{"image_config":{"output":..}}}` is such a body |
| AiapidevRewrite.ObjectKeepsMembers | src/request_rewrite.rs:179-196 | under every name stands the rewritten value of the last member that gets this name, and nothing else |
| AiapidevRewrite.RewrittenNode | src/request_rewrite.rs:110-197 | every node outside objects replaced by their image and overwritten members stands at the position with the new names: an object as an object, an array with its length, a leaf as it was |
| AiapidevRewrite.RewrittenFrom | src/request_rewrite.rs:110-197 | and nothing else: every position of a rewritten tree is that of such a node or lies in the image that replaces one |
| AiapidevRewrite.PayloadReplacesObject | src/request_rewrite.rs:199-234 | an object is replaced exactly when it holds an image under either spelling: by `file_data` with the wrapped URL, or by `inline_data` with the data, each with its type |
| AiapidevNames.KeySpelled | src/request_rewrite.rs:236-245 | the five configuration names are written in snake case, every other name as it is |
| AiapidevNames.LeadsSpelled | src/request_rewrite.rs:154-182 | `role` and `parts` lead exactly in the objects two steps or more below `contents` |
| AiapidevNames.NamesKeepTheirOrder | src/request_rewrite.rs:179-196 | the other names are in the order in which, as they are written, they first occur |
| AiapidevRewrite.RoleAndPartsLead | src/request_rewrite.rs:152-177 | below `/contents/`, `role` and then `parts` come first, each if it is there |

## Left out

- Which text each number is read as: apart from fractions from one half up to one with at most 19 digits (`NumberReading`), the reading is an arbitrary function whose results are numbers.
- `from_utf8_lossy` in the block classifier: keywords are searched in the raw bytes. Replacement characters neither join nor split a keyword, so the answer is the same.
- The duplex pipe between the encoder and the store task, its backpressure, the fetch semaphore and the work durations: the store reads what was written, in pieces of any size.
- Wrap-around of `next_id`, `content_length` and the spill statistics at 2^64.
- Interior steps of a file write: a spill file is private to its store until the handle is built, so each write is one step of `BlobLedger`.
- I/O failures, panics and aborted tasks. Stores that interleave are in `BlobLedger`.
- The steps of the response service's fetches: in `SharedDirectory` it fetches anything at any time and accesses the directory in any order, under its own lock; without the background bridge (`enable_background_bridge = false`) a joiner there can meet an aborted task.
- The retry delay and timeouts inside `direct_fetch`, whose outcome is an arbitrary input.
- A read of a file, its truncation and its filling are one step each in `SharedDirectory`, and a file is known by its name: a writer of a file that was removed meanwhile writes nothing.
- A meta file that holds JSON of another shape than `set` writes (an array, a repeated name) is read by `DiskMeta` as a tree in which names are looked up.
- Failing calls on files, other than that a file is not there.
- SHA-256 is an arbitrary function, taken to be injective where keys need it.
- Image codecs, MIME sniffing, HTTP, URL parsing, proxy wrapping, R2 signing, multipart bodies, provider selection, configuration, logging and the admin pages.
- `response_rewrite.rs`, `response_materialize.rs`, `grsai.rs`, `openai_image.rs` and `upstream.rs`: mostly single recursions and field picking.
- TaskPoll.PollTask: does not model the texts of the error replies it builds itself; each is a constructor of its result.
- RequestMaterialize.JoinAll: takes fetch and store of one task as one step. A task that another task's error aborts before it stores leaves nothing, as if it had not finished; one that is aborted while it writes a spill file can leave that file behind, which is not modelled.
