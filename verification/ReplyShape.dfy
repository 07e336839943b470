/**
 What a client sees of an upstream error, said of the error itself: with the
 keywords, numbers and field names of the source, and of the body position by
 position, without the functions that build the reply.
 */
module ReplyShape {
  import opened Wrappers
  import opened Bytes
  import opened Json
  import opened JsonPointer
  import opened JsonEdit
  import opened BlockReplay
  import C = UpstreamBlockCache

  // ----------------------------------------------------------- texts in UTF-8

  /** The byte `k` of `s` carries six bits. */
  predicate Carries(s: bytes, k: nat) {
    k < |s| && 0x80 <= s[k] as int < 0xC0
  }

  function Six(s: bytes, k: nat): (n: nat)
    requires Carries(s, k)
    ensures n < 0x40
  {
    s[k] as int - 0x80
  }

  /** `s` is the shortest sequence whose payload bits are the number `cp` (section 3 of RFC 3629). */
  predicate Spells(s: bytes, cp: nat) {
    if |s| == 1 then cp < 0x80 && s[0] as int == cp
    else if |s| == 2 then
      0x80 <= cp < 0x800 && Carries(s, 1) && s[0] as int >= 0xC0 && cp == (s[0] as int - 0xC0) * 0x40 + Six(s, 1)
    else if |s| == 3 then
      && 0x800 <= cp < 0x10000 && Carries(s, 1) && Carries(s, 2) && s[0] as int >= 0xE0
      && cp == (s[0] as int - 0xE0) * 0x1000 + Six(s, 1) * 0x40 + Six(s, 2)
    else
      && |s| == 4 && 0x10000 <= cp < 0x110000 && Carries(s, 1) && Carries(s, 2) && Carries(s, 3) && s[0] as int >= 0xF0
      && cp == (s[0] as int - 0xF0) * 0x40000 + Six(s, 1) * 0x1000 + Six(s, 2) * 0x40 + Six(s, 3)
  }

  /** `text` spells the code points one after another. */
  ghost predicate IsUtf8Of(text: bytes, codePoints: seq<scalar>)
    decreases |codePoints|
  {
    if codePoints == [] then text == []
    else exists n | 0 <= n <= |text| :: Spells(text[..n], codePoints[0]) && IsUtf8Of(text[n..], codePoints[1..])
  }

  lemma SpelledShort(s: bytes, cp: nat)
    requires cp < 0x800
    ensures Spells(s, cp) <==> s == Utf8Encode(cp)
  {
  }

  lemma SpelledThree(s: bytes, cp: nat)
    requires 0x800 <= cp < 0x10000
    ensures Spells(s, cp) <==> s == Utf8Encode(cp)
  {
    var a, b, c := cp / 0x1000, cp / 0x40 % 0x40, cp % 0x40;
    assert cp == a * 0x1000 + b * 0x40 + c;
    if Spells(s, cp) {
      assert s[0] as int - 0xE0 == a && Six(s, 1) == b && Six(s, 2) == c;
    }
  }

  lemma SpelledFour(s: bytes, cp: nat)
    requires 0x10000 <= cp < 0x110000
    ensures Spells(s, cp) <==> s == Utf8Encode(cp)
  {
    var a, b, c, d := cp / 0x40000, cp / 0x1000 % 0x40, cp / 0x40 % 0x40, cp % 0x40;
    assert cp == a * 0x40000 + b * 0x1000 + c * 0x40 + d;
    if Spells(s, cp) {
      assert s[0] as int - 0xF0 == a && Six(s, 1) == b && Six(s, 2) == c && Six(s, 3) == d;
    }
  }

  lemma Spelled(s: bytes, cp: scalar)
    ensures Spells(s, cp) <==> s == Utf8Encode(cp)
  {
    if cp < 0x800 {
      SpelledShort(s, cp);
    } else if cp < 0x10000 {
      SpelledThree(s, cp);
    } else {
      SpelledFour(s, cp);
    }
  }

  /** Only the text of the model spells a list of code points. */
  lemma {:induction false} OnlyUtf8Of(text: bytes, codePoints: seq<scalar>)
    ensures IsUtf8Of(text, codePoints) <==> text == Utf8Text(codePoints)
    decreases |codePoints|
  {
    if codePoints == [] {
    } else {
      var cp, e := codePoints[0], Utf8Encode(codePoints[0]);
      Spelled(e, cp);
      if IsUtf8Of(text, codePoints) {
        var n :| 0 <= n <= |text| && Spells(text[..n], cp) && IsUtf8Of(text[n..], codePoints[1..]);
        Spelled(text[..n], cp);
        OnlyUtf8Of(text[n..], codePoints[1..]);
        assert text == text[..n] + text[n..];
      }
      if text == Utf8Text(codePoints) {
        var n := |e|;
        assert text[..n] == e && text[n..] == Utf8Text(codePoints[1..]);
        OnlyUtf8Of(text[n..], codePoints[1..]);
      }
    }
  }

  // ----------------------------------------------------------------- keywords

  /** `c` is the letter `w` or its capital. */
  predicate SameLetter(c: byte, w: byte) {
    c == w || ('A' <= c <= 'Z' && c as int + 32 == w as int)
  }

  predicate StandsAt(body: bytes, word: bytes, i: nat) {
    i + |word| <= |body| && forall k | 0 <= k < |word| :: SameLetter(body[i + k], word[k])
  }

  /** `word` stands somewhere in the body, in any letter case. */
  predicate Shows(body: bytes, word: bytes) {
    exists i | 0 <= i <= |body| :: StandsAt(body, word, i)
  }

  predicate NoCapitals(word: bytes) {
    forall k | 0 <= k < |word| :: !('A' <= word[k] <= 'Z')
  }

  lemma ShowsIsContains(body: bytes, word: bytes)
    requires NoCapitals(word)
    ensures Contains(Lower(body), word) <==> Shows(body, word)
  {
    var low := Lower(body);
    forall i | 0 <= i <= |body| ensures word <= low[i..] <==> StandsAt(body, word, i) {
      forall k | 0 <= k < |word| && i + k < |body|
        ensures low[i..][k] == word[k] <==> SameLetter(body[i + k], word[k])
      {
      }
      if StandsAt(body, word, i) {
        assert low[i..][..|word|] == word;
      }
      if word <= low[i..] {
        forall k | 0 <= k < |word| ensures SameLetter(body[i + k], word[k]) {
          assert low[i..][k] == word[k];
        }
      }
    }
  }

  lemma {:induction false} NoCapitalsOutsideAscii(codePoints: seq<scalar>)
    requires forall i | 0 <= i < |codePoints| :: codePoints[i] >= 0x80
    ensures NoCapitals(Utf8Text(codePoints))
  {
    if codePoints == [] {
    } else {
      NoCapitalsOutsideAscii(codePoints[1..]);
    }
  }

  /** The keywords, `refusal` being the one outside ASCII. */
  predicate IsBlock(status: nat, body: bytes, refusal: bytes) {
    && (status == 400 || status == 502)
    && (|| Shows(body, "image_unsafe") || Shows(body, "upstream moderation triggered")
        || Shows(body, "content blocked") || Shows(body, refusal))
  }

  /** The refusal that counts as a block: request cannot be used to generate an image. */
  ghost predicate IsRefusal(text: bytes) {
    IsUtf8Of(text, [0x8BF7, 0x6C42, 0x65E0, 0x6CD5, 0x7528] + [0x4E8E, 0x751F, 0x6210, 0x56FE, 0x50CF])
  }

  /** What a blocked client is told: change the prompt and the reference image, or try another model. */
  ghost predicate IsAdvice(text: bytes) {
    IsUtf8Of(text,
             [0x8F93, 0x5165, 0x5185, 0x5BB9, 0x89E6, 0x53D1, 0x4E0A, 0x6E38, 0x8FDD, 0x89C4, 0x63D0, 0x793A, 0xFF0C]
             + [0x8BF7, 0x8C03, 0x6574, 0x8F93, 0x5165, 0x63D0, 0x793A, 0x8BCD, 0x548C, 0x53C2, 0x8003, 0x56FE, 0x6216,
              0x5C1D, 0x8BD5, 0x66F4, 0x6362, 0x6A21, 0x578B, 0x3002])
  }

  lemma RefusalText(refusal: bytes)
    requires IsRefusal(refusal)
    ensures refusal == Utf8Text(CANNOT_GENERATE_CODE_POINTS) && NoCapitals(refusal)
  {
    OnlyUtf8Of(refusal, CANNOT_GENERATE_CODE_POINTS);
    NoCapitalsOutsideAscii(CANNOT_GENERATE_CODE_POINTS);
  }

  lemma AdviceText(advice: bytes)
    requires IsAdvice(advice)
    ensures advice == BlockedInputMessage()
  {
    OnlyUtf8Of(advice, BLOCKED_INPUT_CODE_POINTS);
  }

  /** Which keyword is found first decides the reason. */
  ghost predicate IsReason(reason: bytes, body: bytes) {
    reason ==
    if Shows(body, "image_unsafe") then "image_unsafe"
    else if Shows(body, "upstream moderation triggered") then "upstream_moderation"
    else "content_blocked"
  }

  lemma Keywords()
    ensures "image_unsafe" == IMAGE_UNSAFE && NoCapitals("image_unsafe")
    ensures "upstream moderation triggered" == "upstream moderation " + "triggered"
    ensures NoCapitals("upstream moderation triggered")
    ensures "content blocked" == "content " + "blocked" && NoCapitals("content blocked")
  {
  }

  lemma ClassifiedByWords(status: nat, body: bytes, unsafe: bytes, moderated: bytes, blocked: bytes, refusal: bytes)
    requires unsafe == IMAGE_UNSAFE && moderated == "upstream moderation " + "triggered"
    requires blocked == "content " + "blocked" && refusal == Utf8Text(CANNOT_GENERATE_CODE_POINTS)
    requires NoCapitals(unsafe) && NoCapitals(moderated) && NoCapitals(blocked) && NoCapitals(refusal)
    ensures Classify(status, body).Some? <==>
            && (status == 400 || status == 502)
            && (Shows(body, unsafe) || Shows(body, moderated) || Shows(body, blocked) || Shows(body, refusal))
    ensures Classify(status, body).Some? ==>
              Classify(status, body).value ==
              if Shows(body, unsafe) then IMAGE_UNSAFE
              else if Shows(body, moderated) then UPSTREAM_MODERATION
              else CONTENT_BLOCKED
  {
    ShowsIsContains(body, unsafe);
    ShowsIsContains(body, moderated);
    ShowsIsContains(body, blocked);
    ShowsIsContains(body, refusal);
  }

  lemma Reasons()
    ensures "upstream_moderation" == UPSTREAM_MODERATION && "content_blocked" == CONTENT_BLOCKED
  {
  }

  lemma BlockIsClassified(status: nat, body: bytes, refusal: bytes)
    requires IsRefusal(refusal)
    ensures Classify(status, body).Some? <==> IsBlock(status, body, refusal)
    ensures Classify(status, body).Some? ==> IsReason(Classify(status, body).value, body)
  {
    Keywords();
    Reasons();
    RefusalText(refusal);
    ClassifiedByWords(status, body, "image_unsafe", "upstream moderation triggered", "content blocked", refusal);
  }

  // ---------------------------------------------------------- the edited body

  /** Where the advice goes: into the object under `error`, or else into the body itself. */
  function AdvicePosition(v: Value): Position {
    match Node(v, ["error"])
    case Some(Object(_)) => ["error", "message"]
    case _ => ["message"]
  }

  function Keys(v: Value): seq<bytes>
    requires v.Object?
  {
    seq(|v.members|, i requires 0 <= i < |v.members| => v.members[i].key)
  }

  /** The objects at `p` list the same names, with the last token of `at` behind them if it is a new name there. */
  predicate SameNames(w: Value, v: Value, at: Position, p: Position)
    requires at != []
  {
    match (Node(w, p), Node(v, p))
    case (Some(Object(ns)), Some(Object(ms))) =>
      Keys(Object(ns)) ==
      if p == at[..|at| - 1] && Node(v, at).None? then Keys(Object(ms)) + [at[|at| - 1]] else Keys(Object(ms))
    case _ => true
  }

  /** `w` is `v` with the advice at its position and nothing else changed, moved or added. */
  ghost predicate SaysOnly(w: Value, v: Value, advice: bytes) {
    var at := AdvicePosition(v);
    && Node(w, at) == Some(String(advice))
    && forall p :: SameNames(w, v, at, p) && (at <= p || SameNode(Node(w, p), Node(v, p)))
  }

  lemma {:induction false} InsertKeys(ms: seq<Member>, key: bytes, v: Value)
    ensures Keys(Object(Insert(ms, key, v))) ==
            Keys(Object(ms)) + if Lookup(ms, key).Some? then [] else [key]
  {
    if ms == [] {
    } else if ms[0].key == key {
    } else {
      InsertKeys(ms[1..], key, v);
      assert Keys(Object(ms)) == [ms[0].key] + Keys(Object(ms[1..]));
      var ns := Insert(ms[1..], key, v);
      assert Keys(Object([ms[0]] + ns)) == [ms[0].key] + Keys(Object(ns));
    }
  }

  /** Position `p` is as `SaysOnly` wants it. */
  predicate KeepsAt(w: Value, v: Value, at: Position, p: Position)
    requires at != []
  {
    SameNames(w, v, at, p) && (at <= p || SameNode(Node(w, p), Node(v, p)))
  }

  lemma InsertNode(ms: seq<Member>, key: bytes, x: Value, p: Position)
    requires p != []
    ensures Node(Object(Insert(ms, key, x)), p) == if p[0] == key then Node(x, p[1..]) else Node(Object(ms), p)
  {
    InsertLookup(ms, key, x, p[0]);
  }

  /** A string put into an object. */
  lemma StringInserted(ms: seq<Member>, key: bytes, advice: bytes, p: Position)
    ensures KeepsAt(Object(Insert(ms, key, String(advice))), Object(ms), [key], p)
  {
    assert Node(Object(ms), [key]) == Lookup(ms, key);
    if p == [] {
      InsertKeys(ms, key, String(advice));
    } else {
      InsertNode(ms, key, String(advice), p);
      SameNodeReflexive(Node(Object(ms), p));
      assert [key] <= p <==> p[0] == key;
    }
  }

  /** The same one level down. */
  lemma StringInsertedBelow(ms: seq<Member>, outer: bytes, es: seq<Member>, key: bytes, advice: bytes, p: Position)
    requires Lookup(ms, outer) == Some(Object(es))
    ensures KeepsAt(Object(Insert(ms, outer, Object(Insert(es, key, String(advice))))), Object(ms), [outer, key], p)
  {
    var x := Object(Insert(es, key, String(advice)));
    assert [outer, key][..1] == [outer] && [outer, key][1..] == [key];
    if p == [] {
      InsertKeys(ms, outer, x);
    } else {
      InsertNode(ms, outer, x, p);
      SameNodeReflexive(Node(Object(ms), p));
      if p[0] == outer {
        var q := p[1..];
        assert p == [outer] + q;
        StringInserted(es, key, advice, q);
        assert [outer, key] <= p <==> [key] <= q;
        assert p == [outer] <==> q == [];
        assert Node(Object(ms), [outer, key]) == Node(Object(es), [key]);
      }
    }
  }

  lemma Names()
    ensures "error" == ERROR && "message" == MESSAGE
  {
  }

  /** `SaysOnly` for an advice that goes under the names given. */
  ghost predicate SaysOnlyAt(w: Value, v: Value, at: Position, advice: bytes)
    requires at != []
  {
    Node(w, at) == Some(String(advice)) && forall p :: KeepsAt(w, v, at, p)
  }

  lemma EditedAt(v: Value, advice: bytes)
    requires v.Object?
    ensures WithMessage(v, advice).Some?
    ensures var at := match Lookup(v.members, ERROR) case Some(Object(_)) => [ERROR, MESSAGE] case _ => [MESSAGE];
            SaysOnlyAt(WithMessage(v, advice).value, v, at, advice)
  {
    var ms := v.members;
    match Lookup(ms, ERROR)
    case Some(Object(es)) =>
      var w := WithMessage(v, advice).value;
      forall p ensures KeepsAt(w, v, [ERROR, MESSAGE], p) {
        StringInsertedBelow(ms, ERROR, es, MESSAGE, advice, p);
      }
      InsertNode(ms, ERROR, Object(Insert(es, MESSAGE, String(advice))), [ERROR, MESSAGE]);
      InsertNode(es, MESSAGE, String(advice), [MESSAGE]);
      assert [ERROR, MESSAGE][1..] == [MESSAGE];
    case _ =>
      var w := WithMessage(v, advice).value;
      forall p ensures KeepsAt(w, v, [MESSAGE], p) {
        StringInserted(ms, MESSAGE, advice, p);
      }
      InsertNode(ms, MESSAGE, String(advice), [MESSAGE]);
  }

  /** The edit says what it should and nothing else. */
  lemma EditSaysOnly(v: Value, advice: bytes)
    requires v.Object?
    ensures WithMessage(v, advice).Some? && SaysOnly(WithMessage(v, advice).value, v, advice)
  {
    Names();
    EditedAt(v, advice);
    var w, at := WithMessage(v, advice).value, AdvicePosition(v);
    assert Node(v, [ERROR]) == Lookup(v.members, ERROR);
    forall p ensures SameNames(w, v, at, p) && (at <= p || SameNode(Node(w, p), Node(v, p))) {
      assert KeepsAt(w, v, at, p);
    }
  }

  /** The body of a block: the object it was with the advice in it, or else the advice as plain text. */
  ghost predicate TellsAdvice(text: bytes, body: bytes, advice: bytes, renumber: Renumber) {
    match Parse(body, renumber)
    case Some(Object(ms)) => exists w :: text == Print(w) && SaysOnly(w, Object(ms), advice)
    case _ => text == advice
  }

  lemma BodyTellsAdvice(status: nat, body: bytes, advice: bytes, renumber: Renumber)
    requires Classify(status, body).Some? && IsAdvice(advice)
    ensures TellsAdvice(ResponseBody(status, body, renumber), body, advice, renumber)
  {
    AdviceText(advice);
    if Parse(body, renumber).Some? && Parse(body, renumber).value.Object? {
      var v := Parse(body, renumber).value;
      EditSaysOnly(v, advice);
      assert SaysOnly(WithMessage(v, advice).value, Object(v.members), advice);
    }
  }

  // ------------------------------------------------------------- main results

  /**
   The reply to an upstream error is 451 with the advice exactly when the
   upstream answered 400 or 502 and its body shows a keyword; any other error
   goes through as it came.
   */
  lemma ReplyTells(status: nat, contentType: bytes, body: bytes, refusal: bytes, advice: bytes, renumber: Renumber)
    requires IsRefusal(refusal) && IsAdvice(advice)
    ensures var reply := ReplyFor(status, contentType, body, renumber);
            && reply.upstreamStatus == status && reply.contentType == contentType
            && if IsBlock(status, body, refusal) then
                 reply.status == 451 && TellsAdvice(reply.body, body, advice, renumber)
               else reply.status == status && reply.body == body
  {
    BlockIsClassified(status, body, refusal);
    if IsBlock(status, body, refusal) {
      BodyTellsAdvice(status, body, advice, renumber);
    }
  }

  /** An error is remembered exactly if it is a block of at most 64 KiB, and then as what the client was told. */
  lemma StoredTells(status: nat, contentType: bytes, body: bytes, refusal: bytes, renumber: Renumber)
    requires IsRefusal(refusal)
    ensures Storable(status, body) <==> IsBlock(status, body, refusal) && |body| <= 65536
    ensures Classify(status, body).Some? ==>
              var hit, reply :=
                CachedFor(status, contentType, body, renumber), ReplyFor(status, contentType, body, renumber);
              && hit.status == reply.status && hit.upstreamStatus == reply.upstreamStatus
              && hit.contentType == reply.contentType && hit.body == reply.body && IsReason(hit.reason, body)
  {
    BlockIsClassified(status, body, refusal);
  }

  /** A stored response is replayed as it is, except that a body that still shows a block is edited again. */
  lemma ReplayTells(hit: C.CachedBlockResponse, refusal: bytes, advice: bytes, renumber: Renumber)
    requires IsRefusal(refusal) && IsAdvice(advice)
    ensures var reply := Replay(hit, renumber);
            && reply.status == hit.status && reply.upstreamStatus == hit.upstreamStatus
            && reply.contentType == hit.contentType
            && if IsBlock(hit.upstreamStatus, hit.body, refusal) then
                 TellsAdvice(reply.body, hit.body, advice, renumber)
               else reply.body == hit.body
  {
    BlockIsClassified(hit.upstreamStatus, hit.body, refusal);
    if IsBlock(hit.upstreamStatus, hit.body, refusal) {
      BodyTellsAdvice(hit.upstreamStatus, hit.body, advice, renumber);
    }
  }
}
