/** The block-error replies of `src/http/router.rs`, and their replay from the cache. */
module BlockReplay {
  import opened Wrappers
  import opened Bytes
  import opened Json
  import opened JsonEdit
  import opened JsonRoundTrip
  import opened JsonParsed
  import opened JsonPosition
  import C = UpstreamBlockCache

  const MAX_UPSTREAM_BLOCK_CACHE_BODY_BYTES: nat := 64 * 1024
  const BAD_REQUEST: nat := 400
  const UNAVAILABLE_FOR_LEGAL_REASONS: nat := 451
  const BAD_GATEWAY: nat := 502

  // -------------------------------------------------------------------- texts

  /** A Unicode scalar value. */
  type scalar = n: nat | n < 0xD800 || 0xE000 <= n < 0x110000

  /** A string literal of the source, given by its code points. */
  function Utf8Text(codePoints: seq<scalar>): bytes {
    if codePoints == [] then [] else Utf8Encode(codePoints[0]) + Utf8Text(codePoints[1..])
  }

  lemma TwoByteStep(cp: nat, rest: bytes)
    requires 0x80 <= cp < 0x800
    ensures Utf8Step(Utf8Encode(cp) + rest) == 2
  {
    var hi, s := cp / 0x40, Utf8Encode(cp) + rest;
    assert 2 <= hi < 0x20;
    assert s[0] == (0xC0 + hi) as char && Continuation(s, 1);
  }

  lemma ThreeByteStep(cp: nat, rest: bytes)
    requires 0x800 <= cp < 0xD800 || 0xE000 <= cp < 0x10000
    ensures Utf8Step(Utf8Encode(cp) + rest) == 3
  {
    var hi, mid, s := cp / 0x1000, cp / 0x40 % 0x40, Utf8Encode(cp) + rest;
    assert hi < 0x10 && (hi == 0 ==> mid >= 0x20) && (hi == 0xD ==> mid < 0x20);
    assert s[0] == (0xE0 + hi) as char && s[1] == (0x80 + mid) as char && Continuation(s, 1) && Continuation(s, 2);
  }

  lemma FourByteStep(cp: nat, rest: bytes)
    requires 0x10000 <= cp < 0x110000
    ensures Utf8Step(Utf8Encode(cp) + rest) == 4
  {
    var hi, mid, s := cp / 0x40000, cp / 0x1000 % 0x40, Utf8Encode(cp) + rest;
    assert hi < 5 && (hi == 0 ==> mid >= 0x10) && (hi == 4 ==> mid < 0x10);
    assert s[0] == (0xF0 + hi) as char && s[1] == (0x80 + mid) as char && Continuation(s, 1);
    assert Continuation(s, 2) && Continuation(s, 3);
  }

  lemma EncodedScalarStep(cp: scalar, rest: bytes)
    ensures var e := Utf8Encode(cp); |e| > 0 && Utf8Step(e + rest) == |e|
  {
    if 0x80 <= cp < 0x800 {
      TwoByteStep(cp, rest);
    } else if 0x800 <= cp < 0x10000 {
      ThreeByteStep(cp, rest);
    } else if 0x10000 <= cp {
      FourByteStep(cp, rest);
    }
  }

  lemma {:induction false} Utf8TextIsValid(codePoints: seq<scalar>)
    ensures ValidUtf8(Utf8Text(codePoints))
  {
    if codePoints == [] {
    } else {
      var e, rest := Utf8Encode(codePoints[0]), Utf8Text(codePoints[1..]);
      EncodedScalarStep(codePoints[0], rest);
      Utf8TextIsValid(codePoints[1..]);
      assert (e + rest)[|e|..] == rest;
    }
  }

  // Concatenations again keep the verifier from evaluating functions of these constants.
  const BLOCKED_INPUT_CODE_POINTS: seq<scalar> :=
    [0x8F93, 0x5165, 0x5185, 0x5BB9, 0x89E6, 0x53D1, 0x4E0A, 0x6E38, 0x8FDD, 0x89C4, 0x63D0, 0x793A, 0xFF0C]
    + [0x8BF7, 0x8C03, 0x6574, 0x8F93, 0x5165, 0x63D0, 0x793A, 0x8BCD, 0x548C, 0x53C2, 0x8003, 0x56FE, 0x6216,
       0x5C1D, 0x8BD5, 0x66F4, 0x6362, 0x6A21, 0x578B, 0x3002]

  const CANNOT_GENERATE_CODE_POINTS: seq<scalar> :=
    [0x8BF7, 0x6C42, 0x65E0, 0x6CD5, 0x7528] + [0x4E8E, 0x751F, 0x6210, 0x56FE, 0x50CF]

  /** `MSG_UPSTREAM_BLOCKED_INPUT`. */
  function BlockedInputMessage(): bytes {
    Utf8Text(BLOCKED_INPUT_CODE_POINTS)
  }

  /** No JSON value starts with a byte outside ASCII. */
  lemma NotJson(s: bytes, renumber: Renumber)
    requires s != [] && s[0] >= '\U{80}'
    ensures Parse(s, renumber) == None
  {
    assert SkipSpace(s) == s;
  }

  lemma StartsOutsideAscii(codePoints: seq<scalar>)
    requires codePoints != [] && 0x800 <= codePoints[0] < 0x10000
    ensures var text := Utf8Text(codePoints); text != [] && text[0] >= '\U{80}'
  {
    var e := Utf8Encode(codePoints[0]);
    assert e[0] >= '\U{E0}';
    assert Utf8Text(codePoints)[0] == e[0];
  }

  /** The message is text but not JSON. */
  lemma MessageIsNotJson(renumber: Renumber)
    ensures ValidUtf8(BlockedInputMessage()) && Parse(BlockedInputMessage(), renumber) == None
  {
    Utf8TextIsValid(BLOCKED_INPUT_CODE_POINTS);
    StartsOutsideAscii(BLOCKED_INPUT_CODE_POINTS);
    NotJson(BlockedInputMessage(), renumber);
  }

  // ------------------------------------------------------------ classification

  const IMAGE_UNSAFE: bytes := "image_" + "unsafe"
  const UPSTREAM_MODERATION: bytes := "upstream_" + "moderation"
  const CONTENT_BLOCKED: bytes := "content_" + "blocked"

  /** `classify_blockable_upstream_error`. */
  function Classify(status: nat, body: bytes): Option<bytes> {
    if status != BAD_REQUEST && status != BAD_GATEWAY then None
    else
      var text := Lower(body);
      if Contains(text, IMAGE_UNSAFE) then Some(IMAGE_UNSAFE)
      else if Contains(text, "upstream moderation " + "triggered") then Some(UPSTREAM_MODERATION)
      else if Contains(text, "content " + "blocked") then Some(CONTENT_BLOCKED)
      else if Contains(text, Utf8Text(CANNOT_GENERATE_CODE_POINTS)) then Some(CONTENT_BLOCKED)
      else None
  }

  lemma ContainsAround(a: bytes, s: bytes, b: bytes, word: bytes)
    requires Contains(s, word)
    ensures Contains(a + s + b, word)
  {
    var i :| 0 <= i <= |s| && word <= s[i..];
    var whole := a + s + b;
    assert whole[|a| + i..] == s[i..] + b;
  }

  lemma LowerAround(a: bytes, s: bytes, b: bytes)
    ensures Lower(a + s + b) == Lower(a) + Lower(s) + Lower(b)
    ensures Lower(Lower(s)) == Lower(s)
  {
  }

  /** A keyword counts anywhere in the body and in any letter case. */
  lemma ClassifyAnywhere(status: nat, a: bytes, body: bytes, b: bytes)
    ensures Classify(status, Lower(body)) == Classify(status, body)
    ensures Classify(status, body).Some? ==> Classify(status, a + body + b).Some?
  {
    LowerAround(a, body, b);
    if Classify(status, body).Some? {
      var words := [IMAGE_UNSAFE, "upstream moderation " + "triggered", "content " + "blocked",
                    Utf8Text(CANNOT_GENERATE_CODE_POINTS)];
      forall i | 0 <= i < |words| && Contains(Lower(body), words[i])
        ensures Contains(Lower(a + body + b), words[i])
      {
        ContainsAround(Lower(a), Lower(body), Lower(b), words[i]);
      }
      assert words[0] == IMAGE_UNSAFE && words[3] == Utf8Text(CANNOT_GENERATE_CODE_POINTS);
      assert words[1] == "upstream moderation " + "triggered" && words[2] == "content " + "blocked";
    }
  }

  /** `block_error_response_status`. */
  function ResponseStatus(status: nat, body: bytes): nat {
    if Classify(status, body).Some? then UNAVAILABLE_FOR_LEGAL_REASONS else status
  }

  // ------------------------------------------------------------- the body rewrite

  const ERROR: bytes := "er" + "ror"
  const MESSAGE: bytes := "mess" + "age"

  /** The edit of `block_error_response_body`; `None` when there is no object to edit. */
  function WithMessage(v: Value, message: bytes): Option<Value> {
    if !v.Object? then None
    else
      match Lookup(v.members, ERROR)
      case Some(Object(es)) =>
        Some(Object(Insert(v.members, ERROR, Object(Insert(es, MESSAGE, String(message))))))
      case _ => Some(Object(Insert(v.members, MESSAGE, String(message))))
  }

  /** The tree that `block_error_response_body` prints, if it prints one. */
  function Edited(status: nat, body: bytes, renumber: Renumber): Option<Value> {
    if Classify(status, body).None? then None
    else
      var v :- Parse(body, renumber);
      WithMessage(v, BlockedInputMessage())
  }

  /** `block_error_response_body`. */
  function ResponseBody(status: nat, body: bytes, renumber: Renumber): bytes {
    if Classify(status, body).None? then body
    else
      match Edited(status, body, renumber)
      case Some(edited) => Print(edited)
      case None => BlockedInputMessage()
  }

  /** What an edited tree holds. */
  predicate HasMessage(w: Value, message: bytes) {
    w.Object? &&
    match Lookup(w.members, ERROR)
    case Some(Object(es)) => Lookup(es, MESSAGE) == Some(String(message))
    case _ => Lookup(w.members, MESSAGE) == Some(String(message))
  }

  lemma EditHasMessage(v: Value, message: bytes)
    requires WithMessage(v, message).Some?
    ensures HasMessage(WithMessage(v, message).value, message)
  {
    match Lookup(v.members, ERROR)
    case Some(Object(es)) =>
      InsertLookup(es, MESSAGE, String(message), MESSAGE);
      InsertLookup(v.members, ERROR, Object(Insert(es, MESSAGE, String(message))), ERROR);
    case _ =>
      InsertLookup(v.members, MESSAGE, String(message), ERROR);
      InsertLookup(v.members, MESSAGE, String(message), MESSAGE);
  }

  /** A tree that has the message already is edited into itself. */
  lemma EditedAgain(w: Value, message: bytes)
    requires HasMessage(w, message)
    ensures WithMessage(w, message) == Some(w)
  {
    match Lookup(w.members, ERROR)
    case Some(Object(es)) =>
      InsertAgain(es, MESSAGE, String(message));
      InsertAgain(w.members, ERROR, Object(es));
    case _ => InsertAgain(w.members, MESSAGE, String(message));
  }

  lemma RereadHasMessage(w: Value, message: bytes, renumber: Renumber)
    requires HasMessage(w, message) && Reread(w, renumber).Some?
    ensures HasMessage(Reread(w, renumber).value, message)
  {
    RereadLookup(w.members, ERROR, renumber);
    RereadLookup(w.members, MESSAGE, renumber);
    match Lookup(w.members, ERROR)
    case Some(Object(es)) => RereadLookup(es, MESSAGE, renumber);
    case _ =>
  }

  lemma InsertKeeps(ms: seq<Member>, key: bytes, v: Value, limit: nat)
    requires WellFormed(Object(ms)) && ValidUtf8(key) && WellFormed(v)
    requires Depth(Object(ms)) < limit && Depth(v) + 1 < limit
    ensures WellFormed(Object(Insert(ms, key, v))) && Depth(Object(Insert(ms, key, v))) < limit
  {
    InsertWellFormed(ms, key, v);
    InsertDepth(ms, key, v);
  }

  lemma MemberKeeps(ms: seq<Member>, key: bytes)
    requires WellFormed(Object(ms)) && Lookup(ms, key).Some?
    ensures WellFormed(Lookup(ms, key).value) && Depth(Lookup(ms, key).value) < Depth(Object(ms))
  {
    LookupAtIndex(ms, key);
    MembersDepthBound(ms, MembersDepth(ms));
  }

  /** The edited tree prints and parses back. */
  lemma WithMessageKeeps(v: Value, message: bytes)
    requires WellFormed(v) && Depth(v) < RECURSION_LIMIT && ValidUtf8(message)
    requires WithMessage(v, message).Some?
    ensures var w := WithMessage(v, message).value; WellFormed(w) && Depth(w) < RECURSION_LIMIT
  {
    AsciiIsUtf8(ERROR);
    AsciiIsUtf8(MESSAGE);
    match Lookup(v.members, ERROR)
    case Some(Object(es)) =>
      MemberKeeps(v.members, ERROR);
      InsertKeeps(es, MESSAGE, String(message), RECURSION_LIMIT - 1);
      InsertKeeps(v.members, ERROR, Object(Insert(es, MESSAGE, String(message))), RECURSION_LIMIT);
    case _ => InsertKeeps(v.members, MESSAGE, String(message), RECURSION_LIMIT);
  }

  /**
   When rewriting a body twice is rewriting it once: no tree was edited, or the
   edited one no longer shows a block, or every number of it reads back as itself.
   */
  ghost predicate Stable(status: nat, body: bytes, renumber: Renumber) {
    match Edited(status, body, renumber)
    case Some(w) => Classify(status, Print(w)).None? || Settled(w, renumber)
    case None => true
  }

  lemma EditedTree(status: nat, body: bytes, renumber: Renumber)
    requires Edited(status, body, renumber).Some? && Renumbers(renumber)
    ensures var w := Edited(status, body, renumber).value;
            WellFormed(w) && Depth(w) < RECURSION_LIMIT && HasMessage(w, BlockedInputMessage())
  {
    MessageIsNotJson(renumber);
    ParsedTree(body, renumber);
    var v := Parse(body, renumber).value;
    WithMessageKeeps(v, BlockedInputMessage());
    EditHasMessage(v, BlockedInputMessage());
  }

  /** The rewrite of a printed tree that has the message prints that tree with its numbers read again. */
  lemma RewriteOfPrinted(status: nat, w: Value, renumber: Renumber)
    requires WellFormed(w) && Depth(w) < RECURSION_LIMIT && HasMessage(w, BlockedInputMessage())
    requires Classify(status, Print(w)).Some?
    ensures Edited(status, Print(w), renumber) == Reread(w, renumber)
  {
    PrintedParses(w, renumber);
    if Reread(w, renumber).Some? {
      RereadHasMessage(w, BlockedInputMessage(), renumber);
      EditedAgain(Reread(w, renumber).value, BlockedInputMessage());
    }
  }

  lemma SamePrint(w: Value, renumber: Renumber)
    requires WellFormed(w) && w.Object? && Renumbers(renumber)
    ensures Settled(w, renumber) <==>
            Print(w) == match Reread(w, renumber)
                        case Some(r) => Print(r)
                        case None => BlockedInputMessage()
  {
    RereadFixed(w, renumber);
    StartsOutsideAscii(BLOCKED_INPUT_CODE_POINTS);
    assert Print(w)[0] == '{';
    if Reread(w, renumber).Some? {
      RereadWellFormed(w, renumber);
      if Print(w) == Print(Reread(w, renumber).value) {
        PrintInjective(w, Reread(w, renumber).value);
      }
    }
  }

  /** The rewrite of a body is rewritten into itself exactly when the body is stable. */
  lemma ResponseBodyTwice(status: nat, body: bytes, renumber: Renumber)
    requires Renumbers(renumber)
    ensures ResponseBody(status, ResponseBody(status, body, renumber), renumber) == ResponseBody(status, body, renumber)
            <==> Stable(status, body, renumber)
  {
    MessageIsNotJson(renumber);
    if Edited(status, body, renumber).Some? {
      var w := Edited(status, body, renumber).value;
      EditedTree(status, body, renumber);
      SamePrint(w, renumber);
      if Classify(status, Print(w)).Some? {
        RewriteOfPrinted(status, w, renumber);
      }
    }
  }

  // -------------------------------------------------------------------- replies

  /** What the client sees, with the upstream status attached for the log. */
  datatype Reply = Reply(status: nat, upstreamStatus: nat, contentType: bytes, body: bytes)

  /** `raw_response_with_upstream_status`. */
  function RawResponse(status: nat, upstreamStatus: nat, contentType: bytes, body: bytes, renumber: Renumber): Reply {
    Reply(status, upstreamStatus, contentType, ResponseBody(upstreamStatus, body, renumber))
  }

  /** The reply to a live upstream error. */
  function ReplyFor(status: nat, contentType: bytes, body: bytes, renumber: Renumber): Reply {
    RawResponse(ResponseStatus(status, body), status, contentType, body, renumber)
  }

  /** `response_from_block_cache_hit`. */
  function Replay(hit: C.CachedBlockResponse, renumber: Renumber): Reply {
    RawResponse(hit.status, hit.upstreamStatus, hit.contentType, hit.body, renumber)
  }

  predicate Storable(status: nat, body: bytes) {
    |body| <= MAX_UPSTREAM_BLOCK_CACHE_BODY_BYTES && Classify(status, body).Some?
  }

  function CachedFor(status: nat, contentType: bytes, body: bytes, renumber: Renumber): C.CachedBlockResponse
    requires Classify(status, body).Some?
  {
    C.CachedBlockResponse(ResponseStatus(status, body), status, contentType, ResponseBody(status, body, renumber),
                          Classify(status, body).value)
  }

  /** `maybe_store_upstream_block_error`. */
  method MaybeStore(cache: C.UpstreamBlockCache?, key: Option<bytes>, status: nat, contentType: bytes, body: bytes,
        now: nat, renumber: Renumber)
    returns (stored: bool)
    requires cache != null ==> cache.Valid()
    modifies if cache == null then {} else {cache}
    ensures cache != null ==> cache.Valid()
    ensures stored <==> cache != null && key.Some? && Storable(status, body)
    ensures cache != null ==>
              cache.entries ==
              if stored then
                C.AfterInsert(old(cache.entries), cache.capacity, cache.ttl, key.value,
                              CachedFor(status, contentType, body, renumber), now)
              else old(cache.entries)
  {
    if cache == null {
      return false;
    }
    if key.None? {
      return false;
    }
    if |body| > MAX_UPSTREAM_BLOCK_CACHE_BODY_BYTES {
      return false;
    }
    var reason := Classify(status, body);
    if reason.None? {
      return false;
    }
    var responseStatus := ResponseStatus(status, body);
    var responseBody := ResponseBody(status, body, renumber);
    var response := C.CachedBlockResponse(responseStatus, status, contentType, responseBody, reason.value);
    cache.Insert(key.value, response, now);
    stored := true;
  }

  /**
   An upstream error answered and remembered, as `raw_reqwest_response` and
   its siblings do: store if blockable, then reply.
   */
  method AnswerUpstreamError(cache: C.UpstreamBlockCache?, key: Option<bytes>, status: nat, contentType: bytes,
        body: bytes, now: nat, renumber: Renumber)
    returns (reply: Reply, stored: bool)
    requires (cache != null ==> cache.Valid()) && Renumbers(renumber)
    modifies if cache == null then {} else {cache}
    ensures cache != null ==> cache.Valid()
    ensures reply == ReplyFor(status, contentType, body, renumber)
    ensures stored <==> cache != null && key.Some? && Storable(status, body)
    ensures cache != null ==>
              cache.entries ==
              if stored then
                C.AfterInsert(old(cache.entries), cache.capacity, cache.ttl, key.value,
                              CachedFor(status, contentType, body, renumber), now)
              else old(cache.entries)
    ensures stored ==>
              (Replay(CachedFor(status, contentType, body, renumber), renumber) == reply <==>
               Stable(status, body, renumber))
  {
    stored := MaybeStore(cache, key, status, contentType, body, now, renumber);
    reply := RawResponse(ResponseStatus(status, body), status, contentType, body, renumber);
    ResponseBodyTwice(status, body, renumber);
  }

  /** What the cache replays is what was first replied, byte for byte, exactly when the body is stable. */
  lemma ReplayIsReply(status: nat, contentType: bytes, body: bytes, renumber: Renumber)
    requires Classify(status, body).Some? && Renumbers(renumber)
    ensures Replay(CachedFor(status, contentType, body, renumber), renumber)
            == ReplyFor(status, contentType, body, renumber)
            <==> Stable(status, body, renumber)
  {
    ResponseBodyTwice(status, body, renumber);
  }

  datatype UpstreamError = UpstreamError(status: nat, contentType: bytes, body: bytes)

  /** Every insertion of the run is `MaybeStore`'s, for the error listed beside it. */
  ghost predicate Recorded(ops: seq<C.Op>, errors: seq<UpstreamError>, renumber: Renumber) {
    && |errors| == |ops|
    && forall i | 0 <= i < |ops| && ops[i].Insert? ::
         Storable(errors[i].status, errors[i].body)
         && ops[i].response == CachedFor(errors[i].status, errors[i].contentType, errors[i].body, renumber)
  }

  /**
   Over every run, a live hit is the response stored for an error under its key
   less than a TTL ago, and is answered as that error was exactly when the
   error's body is stable.
   */
  lemma HitRepeatsTheReply(ops: seq<C.Op>, errors: seq<UpstreamError>, capacity: C.NonZero, ttl: nat, key: bytes,
        now: nat, renumber: Renumber)
    requires Recorded(ops, errors, renumber) && Renumbers(renumber)
    requires C.Hit(C.AfterRun(ops, capacity, ttl), key, now).Some?
    ensures exists i ::
              && 0 <= i < |ops| && ops[i].Insert? && ops[i].key == key && now < ops[i].now + ttl
              && C.Hit(C.AfterRun(ops, capacity, ttl), key, now) == Some(ops[i].response)
              && (Replay(C.Hit(C.AfterRun(ops, capacity, ttl), key, now).value, renumber)
                  == ReplyFor(errors[i].status, errors[i].contentType, errors[i].body, renumber)
                  <==> Stable(errors[i].status, errors[i].body, renumber))
  {
    C.HitIsFresh(ops, capacity, ttl, key, now);
    var last := C.LastInsert(ops, key).value;
    var i :| 0 <= i < |ops| && ops[i] == last;
    ReplayIsReply(errors[i].status, errors[i].contentType, errors[i].body, renumber);
  }
}
