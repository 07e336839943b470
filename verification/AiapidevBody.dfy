/** `rewrite_aiapidev_request_body` of `src/request_rewrite.rs` and the `output` fields it strips first. */
module AiapidevBody {
  import opened Wrappers
  import opened Bytes
  import opened Json
  import opened JsonPointer
  import opened JsonEdit
  import opened JsonParsed
  import opened AiapidevRewrite
  import opened RequestScan
  import opened Substitution

  function RewriteBody(body: Value, wrap: bytes -> bytes): Value {
    RewriteValue(StripOutput(body), "", wrap)
  }

  const GENERATION_CONFIG: bytes := "generation" + "_config"
  const IMAGE_CONFIG: bytes := "image" + "_config"
  const OLD_GENERATION_CONFIG: bytes := "generation" + "Config"
  const OLD_IMAGE_CONFIG: bytes := "image" + "Config"

  /** The members without a payload, or none. */
  function Fields(v: Value, wrap: bytes -> bytes): seq<Member> {
    if v.Object? && Payload(v.members, wrap) == None then v.members else []
  }

  /** The last member that is renamed to `name`. */
  function LastRenamed(ms: seq<Member>, name: bytes): (m: Option<Member>)
    ensures m.Some? ==> m.value in ms && RewriteKey(m.value.key) == name
  {
    if ms == [] then None
    else
      var m := ms[|ms| - 1];
      if RewriteKey(m.key) == name then Some(m) else LastRenamed(ms[..|ms| - 1], name)
  }

  /**
   `output` lies under a generation and an image configuration, each the last
   of its name, of which one has the old spelling and one the new.
   */
  predicate HoldsMixedOutput(v: Value, wrap: bytes -> bytes) {
    var g := LastRenamed(Fields(v, wrap), GENERATION_CONFIG);
    g.Some? &&
    var c := LastRenamed(Fields(g.value.value, wrap), IMAGE_CONFIG);
    c.Some? && Lookup(Fields(c.value.value, wrap), OUTPUT).Some?
      && (IsRenamed(g.value.key) <==> !IsRenamed(c.value.key))
  }

  // ------------------------------------------------------------------ one step down

  lemma {:induction false} LastNamedAppend(ms: seq<Member>, m: Member, path: bytes, name: bytes)
    ensures LastNamed(ms + [m], path, name) ==
            if !IsLeading(path, m.key) && RewriteKey(m.key) == name then Some(m.value) else LastNamed(ms, path, name)
  {
    if ms == [] {
      assert ms + [m] == [m] && [m][1..] == [];
    } else {
      assert (ms + [m])[1..] == ms[1..] + [m];
      LastNamedAppend(ms[1..], m, path, name);
    }
  }

  lemma {:induction false} LastNamedIs(ms: seq<Member>, path: bytes, name: bytes)
    requires !InContents(path)
    ensures LastNamed(ms, path, name) == match LastRenamed(ms, name) case Some(m) => Some(m.value) case None => None
    decreases |ms|
  {
    if ms == [] {
    } else {
      var n := |ms| - 1;
      assert ms == ms[..n] + [ms[n]];
      LastNamedAppend(ms[..n], ms[n], path, name);
      LastNamedIs(ms[..n], path, name);
    }
  }

  /** What stands under a name in a rewritten value outside `/contents/`. */
  lemma RewrittenChild(v: Value, path: bytes, wrap: bytes -> bytes, name: bytes)
    requires !InContents(path) && NotAnIndex(name) && name != FILE_DATA && name != INLINE_DATA_SNAKE
    ensures Child(RewriteValue(v, path, wrap), name) ==
            match LastRenamed(Fields(v, wrap), name)
            case Some(m) => Some(RewriteValue(m.value, Extend(path, name), wrap))
            case None => None
  {
    match v
    case Object(ms) =>
      if Payload(ms, wrap).Some? {
        PayloadShape(ms, wrap);
        OneMember(Payload(ms, wrap).value, name);
      } else {
        ObjectKeepsMembers(ms, path, wrap, name);
        LastNamedIs(ms, path, name);
      }
    case Array(items) => ArrayHasNoSuchChild(RewriteItems(items, 0, path, wrap), name);
    case _ =>
  }

  function Named(v: Value, wrap: bytes -> bytes, name: bytes): Option<Value> {
    match LastRenamed(Fields(v, wrap), name)
    case Some(m) => Some(m.value)
    case None => None
  }

  predicate IsFieldName(name: bytes) {
    NotAnIndex(name) && name != FILE_DATA && name != INLINE_DATA_SNAKE
  }

  lemma RewrittenThreeDown(s: Value, wrap: bytes -> bytes, a: bytes, b: bytes, c: bytes)
    requires IsFieldName(a) && IsFieldName(b) && IsFieldName(c)
    requires !InContents("") && !InContents(Extend("", a)) && !InContents(Extend(Extend("", a), b))
    ensures Node(RewriteValue(s, "", wrap), [a, b, c]).Some? <==>
            match Named(s, wrap, a)
            case Some(x) => (match Named(x, wrap, b) case Some(y) => Named(y, wrap, c).Some? case None => false)
            case None => false
  {
    NodeSteps(RewriteValue(s, "", wrap), a, b, c);
    RewrittenChild(s, "", wrap, a);
    if x: Value :| Named(s, wrap, a) == Some(x) {
      RewrittenChild(x, Extend("", a), wrap, b);
      if y: Value :| Named(x, wrap, b) == Some(y) {
        RewrittenChild(y, Extend(Extend("", a), b), wrap, c);
      }
    }
  }

  // -------------------------------------------------------------------- the names

  lemma OutsideContents()
    ensures !InContents("") && !InContents(Extend("", GENERATION_CONFIG))
    ensures !InContents(Extend(Extend("", GENERATION_CONFIG), IMAGE_CONFIG))
  {
    PlainTokenUnchanged(GENERATION_CONFIG);
    assert Extend("", GENERATION_CONFIG)[1] == 'g' && CONTENTS_PREFIX[1] == 'c';
    assert Extend(Extend("", GENERATION_CONFIG), IMAGE_CONFIG)[1] == 'g';
  }

  lemma ConfigNames()
    ensures IsFieldName(GENERATION_CONFIG) && IsFieldName(IMAGE_CONFIG) && IsFieldName(OUTPUT) && IsPlain(OUTPUT)
    ensures IsRenamed(OLD_GENERATION_CONFIG) && IsRenamed(OLD_IMAGE_CONFIG)
    ensures !IsRenamed(GENERATION_CONFIG) && !IsRenamed(IMAGE_CONFIG)
    ensures NotAnIndex(OLD_GENERATION_CONFIG)
  {
    assert OUTPUT[0] == 'o' && FILE_DATA[0] == 'f' && INLINE_DATA_SNAKE[1] == 'n' && IMAGE_CONFIG[1] == 'm';
    assert GENERATION_CONFIG == "generation_config" && IMAGE_CONFIG == "image_config";
    assert OLD_GENERATION_CONFIG == "generationConfig" && OLD_IMAGE_CONFIG == "imageConfig";
  }

  lemma OldOrNew(key: bytes)
    ensures RewriteKey(key) == GENERATION_CONFIG
            ==> key == if IsRenamed(key) then OLD_GENERATION_CONFIG else GENERATION_CONFIG
    ensures RewriteKey(key) == IMAGE_CONFIG ==> key == if IsRenamed(key) then OLD_IMAGE_CONFIG else IMAGE_CONFIG
  {
    assert GENERATION_CONFIG == "generation_config" && IMAGE_CONFIG == "image_config";
    assert OLD_GENERATION_CONFIG == "generationConfig" && OLD_IMAGE_CONFIG == "imageConfig";
  }

  lemma StrippedPositions()
    ensures OUTPUT_POSITIONS[0] == [OUTPUT]
    ensures OUTPUT_POSITIONS[1] == [OLD_GENERATION_CONFIG, OLD_IMAGE_CONFIG, OUTPUT]
    ensures OUTPUT_POSITIONS[2] == [GENERATION_CONFIG, IMAGE_CONFIG, OUTPUT]
  {
  }

  lemma StrippedNode(body: Value, i: nat)
    requires WellFormed(body) && i < |OUTPUT_POSITIONS|
    ensures Node(StripOutput(body), OUTPUT_POSITIONS[i]) == None
  {
    assert Stripped(OUTPUT_POSITIONS[i]);
    StripOutputNode(body, OUTPUT_POSITIONS[i]);
  }

  // --------------------------------------------------------------- what is left

  lemma FieldsWellFormed(v: Value, wrap: bytes -> bytes)
    requires WellFormed(v)
    ensures WellFormed(Object(Fields(v, wrap)))
  {
  }

  /** `output` is found as itself. */
  lemma OutputNamed(v: Value, wrap: bytes -> bytes)
    requires WellFormed(v)
    ensures Named(v, wrap, OUTPUT) == Lookup(Fields(v, wrap), OUTPUT)
  {
    ConfigNames();
    OutsideContents();
    FieldsWellFormed(v, wrap);
    PlainNamed(Fields(v, wrap), "", OUTPUT);
    LastNamedIs(Fields(v, wrap), "", OUTPUT);
  }

  lemma RenamedIn(v: Value, wrap: bytes -> bytes, name: bytes)
    requires WellFormed(v) && LastRenamed(Fields(v, wrap), name).Some?
    ensures var m := LastRenamed(Fields(v, wrap), name).value; Child(v, m.key) == Some(m.value) && WellFormed(m.value)
  {
    var ms, m := Fields(v, wrap), LastRenamed(Fields(v, wrap), name).value;
    var i :| 0 <= i < |ms| && ms[i] == m;
    LookupDistinct(ms, i);
  }

  /** Both configurations, and `output` inside. */
  predicate HoldsOutput(v: Value, wrap: bytes -> bytes) {
    var g := LastRenamed(Fields(v, wrap), GENERATION_CONFIG);
    g.Some? &&
    var c := LastRenamed(Fields(g.value.value, wrap), IMAGE_CONFIG);
    c.Some? && Lookup(Fields(c.value.value, wrap), OUTPUT).Some?
  }

  lemma RewrittenOutput(s: Value, wrap: bytes -> bytes)
    requires WellFormed(s)
    ensures Node(RewriteValue(s, "", wrap), [GENERATION_CONFIG, IMAGE_CONFIG, OUTPUT]).Some? <==> HoldsOutput(s, wrap)
  {
    OutsideContents();
    ConfigNames();
    RewrittenThreeDown(s, wrap, GENERATION_CONFIG, IMAGE_CONFIG, OUTPUT);
    if g: Member :| LastRenamed(Fields(s, wrap), GENERATION_CONFIG) == Some(g) {
      RenamedIn(s, wrap, GENERATION_CONFIG);
      if c: Member :| LastRenamed(Fields(g.value, wrap), IMAGE_CONFIG) == Some(c) {
        RenamedIn(g.value, wrap, IMAGE_CONFIG);
        OutputNamed(c.value, wrap);
      }
    }
  }

  /** Where the two configurations are found, the field is one that is stripped unless the spellings differ. */
  lemma SpellingsDiffer(body: Value, g: Member, c: Member)
    requires WellFormed(body) && Node(StripOutput(body), [g.key, c.key, OUTPUT]).Some?
    requires RewriteKey(g.key) == GENERATION_CONFIG && RewriteKey(c.key) == IMAGE_CONFIG
    ensures IsRenamed(g.key) <==> !IsRenamed(c.key)
  {
    OldOrNew(g.key);
    OldOrNew(c.key);
    StrippedPositions();
    StrippedNode(body, 1);
    StrippedNode(body, 2);
  }

  /** After stripping, only mixed spellings can still hold an `output`. */
  lemma StrippedIsMixed(body: Value, wrap: bytes -> bytes)
    requires WellFormed(body)
    ensures HoldsOutput(StripOutput(body), wrap) <==> HoldsMixedOutput(StripOutput(body), wrap)
  {
    var s := StripOutput(body);
    StripOutputKeeps(body);
    if HoldsOutput(s, wrap) {
      var g := LastRenamed(Fields(s, wrap), GENERATION_CONFIG).value;
      var c := LastRenamed(Fields(g.value, wrap), IMAGE_CONFIG).value;
      RenamedIn(s, wrap, GENERATION_CONFIG);
      RenamedIn(g.value, wrap, IMAGE_CONFIG);
      NodeSteps(s, g.key, c.key, OUTPUT);
      SpellingsDiffer(body, g, c);
    }
  }

  lemma NoOutputAtRoot(body: Value, wrap: bytes -> bytes)
    requires WellFormed(body)
    ensures Node(RewriteBody(body, wrap), [OUTPUT]) == None
  {
    var s, p: Position := StripOutput(body), [OUTPUT];
    StrippedPositions();
    StrippedNode(body, 0);
    StripOutputKeeps(body);
    OutsideContents();
    ConfigNames();
    OutputNamed(s, wrap);
    RewrittenChild(s, "", wrap, OUTPUT);
    LastStep(s, [], OUTPUT);
    LastStep(RewriteBody(body, wrap), [], OUTPUT);
    assert [] + [OUTPUT] == p;
  }

  lemma NoOldName(w: Value, rest: Position)
    requires Clean(w)
    ensures Node(w, [OLD_GENERATION_CONFIG] + rest) == None
  {
    ConfigNames();
    NodeAppend(w, [OLD_GENERATION_CONFIG], rest);
    LastStep(w, [], OLD_GENERATION_CONFIG);
    assert [] + [OLD_GENERATION_CONFIG] == [OLD_GENERATION_CONFIG];
    if w.Object? {
      LookupAtIndex(w.members, OLD_GENERATION_CONFIG);
    } else if w.Array? {
      ArrayHasNoSuchChild(w.items, OLD_GENERATION_CONFIG);
    }
  }

  /**
   The rewritten body has an `output` field where one is stripped exactly when
   the stripped body holds one under mixed spellings; then under the new ones.
   */
  lemma OutputAfterRewrite(body: Value, wrap: bytes -> bytes, i: nat)
    requires WellFormed(body) && i < |OUTPUT_POSITIONS|
    ensures Node(RewriteBody(body, wrap), OUTPUT_POSITIONS[i]).Some? <==>
            i == 2 && HoldsMixedOutput(StripOutput(body), wrap)
  {
    var s := StripOutput(body);
    StripOutputKeeps(body);
    StrippedPositions();
    if i == 0 {
      NoOutputAtRoot(body, wrap);
    } else if i == 1 {
      var rest := [OLD_IMAGE_CONFIG, OUTPUT];
      assert [OLD_GENERATION_CONFIG] + rest == [OLD_GENERATION_CONFIG, OLD_IMAGE_CONFIG, OUTPUT];
      RewriteGood(s, "", wrap);
      NoOldName(RewriteBody(body, wrap), rest);
    } else {
      RewrittenOutput(s, wrap);
      StrippedIsMixed(body, wrap);
    }
  }

  /** `rewrite_aiapidev_request_body` leaves no renamed key and no inline URL anywhere. */
  lemma RewrittenBodyIsClean(body: Value, wrap: bytes -> bytes, p: Position)
    requires WellFormed(body)
    requires Node(RewriteBody(body, wrap), p).Some? && Node(RewriteBody(body, wrap), p).value.Object?
    ensures var ms := Node(RewriteBody(body, wrap), p).value.members; forall i | 0 <= i < |ms| :: !IsRenamed(ms[i].key)
    ensures !(exists url :: NamesUrl(RewriteBody(body, wrap), p, url))
  {
    StripOutputKeeps(body);
    RewriteGood(StripOutput(body), "", wrap);
    CleanEverywhere(RewriteBody(body, wrap), p);
  }

  // ------------------------------------------------------------ rewriting twice

  /** Wrapping gives text. */
  ghost predicate WrapsText(wrap: bytes -> bytes) {
    forall u | ValidUtf8(u) :: ValidUtf8(wrap(u))
  }

  lemma NewNameIsAscii(name: bytes)
    requires IsNewName(name)
    ensures Ascii(name)
  {
  }

  lemma KeyIsText(key: bytes)
    requires ValidUtf8(key)
    ensures ValidUtf8(RewriteKey(key))
  {
    var name := RewriteKey(key);
    RewriteKeyFixed(key);
    if name != key {
      NewNameIsAscii(name);
      AsciiIsUtf8(name);
    }
  }

  lemma LeadNamesAreText()
    ensures ValidUtf8(ROLE) && ValidUtf8(PARTS)
  {
    AsciiIsUtf8(ROLE);
    AsciiIsUtf8(PARTS);
  }

  lemma FileNamesAreText()
    ensures ValidUtf8(FILE_DATA) && ValidUtf8(FILE_URI)
  {
    AsciiIsUtf8(FILE_DATA);
    AsciiIsUtf8(FILE_URI);
  }

  lemma InlineNamesAreText()
    ensures ValidUtf8(INLINE_DATA_SNAKE) && ValidUtf8(DATA)
  {
    AsciiIsUtf8(INLINE_DATA_SNAKE);
    AsciiIsUtf8(DATA);
  }

  lemma MemberOf(ms: seq<Member>, key: bytes)
    requires WellFormed(Object(ms)) && Lookup(ms, key).Some?
    ensures WellFormed(Lookup(ms, key).value)
  {
    LookupAtIndex(ms, key);
  }

  lemma EitherMember(ms: seq<Member>, a: bytes, b: bytes)
    requires WellFormed(Object(ms))
    ensures var v := OrElse(Lookup(ms, a), Lookup(ms, b)); v.Some? ==> WellFormed(v.value)
  {
    if Lookup(ms, a).Some? {
      MemberOf(ms, a);
    } else if Lookup(ms, b).Some? {
      MemberOf(ms, b);
    }
  }

  lemma MimeTypeIsText(inlineData: seq<Member>)
    requires WellFormed(Object(inlineData))
    ensures ValidUtf8(MimeTypeOf(inlineData)) && ValidUtf8(MIME_TYPE_SNAKE)
  {
    EitherMember(inlineData, MIME_TYPE, MIME_TYPE_SNAKE);
    AsciiIsUtf8(IMAGE_PNG);
    AsciiIsUtf8(MIME_TYPE_SNAKE);
  }

  lemma TwoStrings(first: bytes, a: bytes, second: bytes, b: bytes)
    requires first != second && ValidUtf8(first) && ValidUtf8(a) && ValidUtf8(second) && ValidUtf8(b)
    ensures WellFormed(Object([Member(first, String(a)), Member(second, String(b))]))
  {
  }

  lemma OneField(key: bytes, v: Value)
    requires ValidUtf8(key) && WellFormed(v)
    ensures WellFormed(Object([Member(key, v)]))
  {
  }

  lemma FileDataWellFormed(uri: bytes, mimeType: bytes)
    requires ValidUtf8(uri) && ValidUtf8(mimeType) && ValidUtf8(MIME_TYPE_SNAKE)
    ensures WellFormed(Object([Member(FILE_DATA, Object([Member(FILE_URI, String(uri)),
                                                          Member(MIME_TYPE_SNAKE, String(mimeType))]))]))
  {
    FileNamesAreText();
    assert FILE_URI[0] == 'f' && MIME_TYPE_SNAKE[0] == 'm';
    TwoStrings(FILE_URI, uri, MIME_TYPE_SNAKE, mimeType);
    OneField(FILE_DATA, Object([Member(FILE_URI, String(uri)), Member(MIME_TYPE_SNAKE, String(mimeType))]));
  }

  lemma InlineDataWellFormed(data: bytes, mimeType: bytes)
    requires ValidUtf8(data) && ValidUtf8(mimeType) && ValidUtf8(MIME_TYPE_SNAKE)
    ensures WellFormed(Object([Member(INLINE_DATA_SNAKE, Object([Member(DATA, String(data)),
                                                                  Member(MIME_TYPE_SNAKE, String(mimeType))]))]))
  {
    InlineNamesAreText();
    assert DATA[0] == 'd' && MIME_TYPE_SNAKE[0] == 'm';
    TwoStrings(DATA, data, MIME_TYPE_SNAKE, mimeType);
    OneField(INLINE_DATA_SNAKE, Object([Member(DATA, String(data)), Member(MIME_TYPE_SNAKE, String(mimeType))]));
  }

  lemma PayloadWellFormed(ms: seq<Member>, wrap: bytes -> bytes)
    requires WellFormed(Object(ms)) && WrapsText(wrap) && Payload(ms, wrap).Some?
    ensures WellFormed(Object([Payload(ms, wrap).value]))
  {
    EitherMember(ms, INLINE_DATA, INLINE_DATA_SNAKE);
    var inner := OrElse(Lookup(ms, INLINE_DATA), Lookup(ms, INLINE_DATA_SNAKE)).value.members;
    MemberOf(inner, DATA);
    MimeTypeIsText(inner);
    var data, mimeType := Lookup(inner, DATA).value.s, MimeTypeOf(inner);
    if IsHttpUrl(data) {
      FileDataWellFormed(wrap(data), mimeType);
    } else {
      InlineDataWellFormed(data, mimeType);
    }
  }

  /** Rewriting gives a tree again. */
  lemma {:induction false} RewriteWellFormed(v: Value, path: bytes, wrap: bytes -> bytes)
    requires WellFormed(v) && WrapsText(wrap)
    ensures WellFormed(RewriteValue(v, path, wrap))
    decreases v, 2
  {
    match v
    case Object(ms) =>
      if Payload(ms, wrap).Some? {
        PayloadWellFormed(ms, wrap);
      } else {
        ObjectWellFormed(ms, path, wrap);
      }
    case Array(items) => ItemsWellFormed(items, 0, path, wrap);
    case _ =>
  }

  lemma {:induction false} ItemsWellFormed(items: seq<Value>, index: nat, path: bytes, wrap: bytes -> bytes)
    requires WrapsText(wrap) && forall i | 0 <= i < |items| :: WellFormed(items[i])
    ensures WellFormed(Array(RewriteItems(items, index, path, wrap)))
    decreases items, 0
  {
    if items == [] {
    } else {
      var r, rest := RewriteItems(items, index, path, wrap), RewriteItems(items[1..], index + 1, path, wrap);
      RewriteWellFormed(items[0], path + ("/" + Decimal(index)), wrap);
      ItemsWellFormed(items[1..], index + 1, path, wrap);
      forall i | 0 <= i < |r| ensures WellFormed(r[i]) {
        assert i > 0 ==> r[i] == rest[i - 1];
      }
    }
  }

  lemma {:induction false} LeadWellFormed(ms: seq<Member>, key: bytes, path: bytes, wrap: bytes -> bytes)
    requires WellFormed(Object(ms)) && WrapsText(wrap) && ValidUtf8(key)
    ensures WellFormed(Object(LeadMember(ms, key, path, wrap)))
    decreases ms, 0
  {
    var i := IndexOf(ms, key);
    if i < |ms| {
      RewriteWellFormed(ms[i].value, path + ("/" + key), wrap);
    }
  }

  lemma {:induction false} MembersWellFormed(ms: seq<Member>, path: bytes, wrap: bytes -> bytes, out: seq<Member>)
    requires WrapsText(wrap) && AllWellFormed(ms) && WellFormed(Object(out))
    ensures WellFormed(Object(RewriteMembers(ms, path, wrap, out)))
    decreases ms, 0
  {
    if ms == [] {
    } else if IsLeading(path, ms[0].key) {
      MembersWellFormed(ms[1..], path, wrap, out);
    } else {
      var key := RewriteKey(ms[0].key);
      var v := RewriteValue(ms[0].value, Extend(path, key), wrap);
      KeyIsText(ms[0].key);
      RewriteWellFormed(ms[0].value, Extend(path, key), wrap);
      InsertWellFormed(out, key, v);
      MembersWellFormed(ms[1..], path, wrap, Insert(out, key, v));
    }
  }

  lemma {:induction false} ObjectWellFormed(ms: seq<Member>, path: bytes, wrap: bytes -> bytes)
    requires WellFormed(Object(ms)) && WrapsText(wrap) && Payload(ms, wrap) == None
    ensures WellFormed(Object(RewriteObject(ms, path, wrap)))
    decreases ms, 1
  {
    if InContents(path) {
      LeadNamesAreText();
      LeadWellFormed(ms, ROLE, path, wrap);
      LeadWellFormed(ms, PARTS, path, wrap);
      TwoLeads(LeadMember(ms, ROLE, path, wrap), LeadMember(ms, PARTS, path, wrap));
      MembersWellFormed(ms, path, wrap, LeadMember(ms, ROLE, path, wrap) + LeadMember(ms, PARTS, path, wrap));
    } else {
      MembersWellFormed(ms, path, wrap, []);
    }
  }

  lemma TwoLeads(role: seq<Member>, parts: seq<Member>)
    requires WellFormed(Object(role)) && WellFormed(Object(parts)) && |role| <= 1 && |parts| <= 1
    requires (role != [] ==> role[0].key == ROLE) && (parts != [] ==> parts[0].key == PARTS)
    ensures WellFormed(Object(role + parts))
  {
    assert ROLE[0] == 'r' && PARTS[0] == 'p';
  }

  lemma NothingToStrip(w: Value)
    requires forall i | 0 <= i < |OUTPUT_POSITIONS| :: Node(w, OUTPUT_POSITIONS[i]) == None
    ensures StripOutput(w) == w
  {
    RemoveAtAbsent(w, OUTPUT_POSITIONS[0]);
    RemoveAtAbsent(w, OUTPUT_POSITIONS[1]);
    RemoveAtAbsent(w, OUTPUT_POSITIONS[2]);
  }

  /** No position of a clean tree ends in an old spelling. */
  lemma NoOldSpelling(w: Value, q: Position, key: bytes)
    requires Clean(w) && IsRenamed(key)
    ensures Node(w, q + [key]) == None
  {
    LastStep(w, q, key);
    if x: Value :| Node(w, q) == Some(x) {
      if x.Object? {
        CleanEverywhere(w, q);
        LookupAtIndex(x.members, key);
      } else if x.Array? {
        ArrayHasNoSuchChild(x.items, key);
      }
    }
  }

  lemma NodeKept(w: Value, p: Position)
    requires WellFormed(w) && Node(StripOutput(w), p).Some?
    ensures Node(w, p).Some?
  {
    StripOutputNode(w, p);
  }

  /** Stripping a clean tree leaves no old spelling to mix. */
  lemma CleanIsNotMixed(w: Value, wrap: bytes -> bytes)
    requires WellFormed(w) && Clean(w)
    ensures !HoldsMixedOutput(StripOutput(w), wrap)
  {
    var s := StripOutput(w);
    StripOutputKeeps(w);
    if HoldsMixedOutput(s, wrap) {
      var g := LastRenamed(Fields(s, wrap), GENERATION_CONFIG).value;
      var c := LastRenamed(Fields(g.value, wrap), IMAGE_CONFIG).value;
      RenamedIn(s, wrap, GENERATION_CONFIG);
      RenamedIn(g.value, wrap, IMAGE_CONFIG);
      NodeSteps(s, g.key, c.key, OUTPUT);
      assert [] + [g.key] == [g.key] && [g.key] + [c.key] == [g.key, c.key];
      NodeKept(w, [] + [g.key]);
      NodeKept(w, [g.key] + [c.key]);
      if IsRenamed(g.key) {
        NoOldSpelling(w, [], g.key);
      } else {
        NoOldSpelling(w, [g.key], c.key);
      }
    }
  }

  /** Unlike the value rewrite, the body rewrite is idempotent only on bodies without such a field. */
  lemma BodyRewriteTwice(body: Value, wrap: bytes -> bytes)
    requires WellFormed(body) && WrapsText(wrap)
    ensures RewriteBody(RewriteBody(body, wrap), wrap) == RewriteBody(body, wrap)
            <==> !HoldsMixedOutput(StripOutput(body), wrap)
  {
    var s, w := StripOutput(body), RewriteBody(body, wrap);
    StripOutputKeeps(body);
    RewriteGood(s, "", wrap);
    forall i | 0 <= i < |OUTPUT_POSITIONS|
      ensures Node(w, OUTPUT_POSITIONS[i]).Some? <==> i == 2 && HoldsMixedOutput(s, wrap)
    {
      OutputAfterRewrite(body, wrap, i);
    }
    if HoldsMixedOutput(s, wrap) {
      RewriteWellFormed(s, "", wrap);
      CleanIsNotMixed(w, wrap);
      OutputAfterRewrite(w, wrap, 2);
    } else {
      NothingToStrip(w);
    }
  }

  function Configured(g: bytes, c: bytes, output: Value): Value {
    Object([Member(g, Object([Member(c, Object([Member(OUTPUT, output)]))]))])
  }

  lemma OneRenamed(m: Member, name: bytes, wrap: bytes -> bytes)
    requires m.key != INLINE_DATA && m.key != INLINE_DATA_SNAKE
    ensures Fields(Object([m]), wrap) == [m]
    ensures RewriteKey(m.key) == name ==> LastRenamed([m], name) == Some(m)
  {
    OneMember(m, INLINE_DATA);
    OneMember(m, INLINE_DATA_SNAKE);
  }

  lemma ConfiguredNode(g: bytes, c: bytes, output: Value, a: bytes, b: bytes)
    ensures Node(Configured(g, c, output), [a, b, OUTPUT]) == if a == g && b == c then Some(output) else None
  {
    var image := Object([Member(OUTPUT, output)]);
    var generation := Object([Member(c, image)]);
    NodeSteps(Configured(g, c, output), a, b, OUTPUT);
    OneMember(Member(g, generation), a);
    OneMember(Member(c, image), b);
    OneMember(Member(OUTPUT, output), OUTPUT);
  }

  /** `{"generationConfig":{"image_config":{"output":..}}}` is not stripped, renamed, and stripped the second time. */
  lemma MixedSpellingsKeepOutput(output: Value, wrap: bytes -> bytes)
    requires WellFormed(output) && WrapsText(wrap)
    ensures var body := Configured(OLD_GENERATION_CONFIG, IMAGE_CONFIG, output);
            && StripOutput(body) == body
            && Node(RewriteBody(body, wrap), OUTPUT_POSITIONS[2]).Some?
            && RewriteBody(RewriteBody(body, wrap), wrap) != RewriteBody(body, wrap)
  {
    var body := Configured(OLD_GENERATION_CONFIG, IMAGE_CONFIG, output);
    MixedNames();
    ConfiguredIsStripped(output);
    var image := Member(OUTPUT, output);
    var generation := Member(IMAGE_CONFIG, Object([image]));
    var root := Member(OLD_GENERATION_CONFIG, Object([generation]));
    OneRenamed(root, GENERATION_CONFIG, wrap);
    OneRenamed(generation, IMAGE_CONFIG, wrap);
    OneRenamed(image, OUTPUT, wrap);
    OneMember(image, OUTPUT);
    assert HoldsMixedOutput(body, wrap);
    ConfiguredWellFormed(output);
    OutputAfterRewrite(body, wrap, 2);
    BodyRewriteTwice(body, wrap);
  }

  lemma MixedNames()
    ensures RewriteKey(OLD_GENERATION_CONFIG) == GENERATION_CONFIG && RewriteKey(IMAGE_CONFIG) == IMAGE_CONFIG
    ensures IsRenamed(OLD_GENERATION_CONFIG) && !IsRenamed(IMAGE_CONFIG) && OLD_GENERATION_CONFIG != GENERATION_CONFIG
    ensures IMAGE_CONFIG != OLD_IMAGE_CONFIG && OLD_GENERATION_CONFIG != OUTPUT
    ensures OLD_GENERATION_CONFIG != INLINE_DATA && OLD_GENERATION_CONFIG != INLINE_DATA_SNAKE
    ensures IMAGE_CONFIG != INLINE_DATA && IMAGE_CONFIG != INLINE_DATA_SNAKE
    ensures OUTPUT != INLINE_DATA && OUTPUT != INLINE_DATA_SNAKE
  {
    assert GENERATION_CONFIG == "generation_config" && IMAGE_CONFIG == "image_config";
    assert OLD_GENERATION_CONFIG == "generationConfig" && OLD_IMAGE_CONFIG == "imageConfig";
    assert INLINE_DATA[1] == INLINE_DATA_SNAKE[1] == 'n' && OUTPUT[0] == 'o'
           && INLINE_DATA[0] == INLINE_DATA_SNAKE[0] == 'i';
  }

  lemma ConfiguredIsStripped(output: Value)
    ensures var body := Configured(OLD_GENERATION_CONFIG, IMAGE_CONFIG, output); StripOutput(body) == body
  {
    var body := Configured(OLD_GENERATION_CONFIG, IMAGE_CONFIG, output);
    MixedNames();
    StrippedPositions();
    ConfiguredNode(OLD_GENERATION_CONFIG, IMAGE_CONFIG, output, OLD_GENERATION_CONFIG, OLD_IMAGE_CONFIG);
    ConfiguredNode(OLD_GENERATION_CONFIG, IMAGE_CONFIG, output, GENERATION_CONFIG, IMAGE_CONFIG);
    LastStep(body, [], OUTPUT);
    assert [] + [OUTPUT] == [OUTPUT];
    OneMember(body.members[0], OUTPUT);
    NothingToStrip(body);
  }

  lemma ConfiguredWellFormed(output: Value)
    requires WellFormed(output)
    ensures WellFormed(Configured(OLD_GENERATION_CONFIG, IMAGE_CONFIG, output))
  {
    AsciiIsUtf8(OLD_GENERATION_CONFIG);
    AsciiIsUtf8(IMAGE_CONFIG);
    AsciiIsUtf8(OUTPUT);
    OneField(OUTPUT, output);
    OneField(IMAGE_CONFIG, Object([Member(OUTPUT, output)]));
    OneField(OLD_GENERATION_CONFIG, Object([Member(IMAGE_CONFIG, Object([Member(OUTPUT, output)]))]));
  }

  // ------------------------------------------------------------ what a body keeps

  /** The way to `p` enters no object that holds an image, and its names are neither old nor new spellings. */
  ghost predicate PlainWay(v: Value, p: Position, wrap: bytes -> bytes)
    decreases |p|
  {
    p == [] ||
    (&& Child(v, p[0]).Some? && (v.Object? ==> Payload(v.members, wrap) == None && IsPlain(p[0]))
     && PlainWay(Child(v, p[0]).value, p[1..], wrap))
  }

  lemma PlainKeepsItsName(ms: seq<Member>, key: bytes, path: bytes)
    requires DistinctKeys(ms) && IsPlain(key)
    ensures KeepsItsName(ms, key, path)
  {
    forall j | IndexOf(ms, key) < j < |ms| ensures RewriteKey(ms[j].key) != RewriteKey(key) {
      RewriteKeyFixed(ms[j].key);
    }
  }

  lemma {:induction false} PlainWaySurvives(v: Value, p: Position, path: bytes, wrap: bytes -> bytes)
    requires WellFormed(v) && PlainWay(v, p, wrap)
    ensures Survives(v, p, path, wrap) && Renamed(p) == p
    decreases |p|
  {
    if p == [] {
    } else {
      if v.Object? {
        PlainKeepsItsName(v.members, p[0], path);
      } else {
        IndexNotRenamed(IndexOfToken(p[0], |v.items|).value);
      }
      ChildWellFormed(v, p[0]);
      PlainWaySurvives(Child(v, p[0]).value, p[1..], Extend(path, RewriteKey(p[0])), wrap);
      assert p == [p[0]] + p[1..] && Renamed(p) == [RewriteKey(p[0])] + Renamed(p[1..]);
    }
  }

  /**
   A request for the aiapidev upstream keeps every node but the stripped fields,
   the images and what is overwritten, under the new names; and where the names
   on the way are none that are renamed, as in the texts of `contents`, at the
   very position.
   */
  lemma BodyKeeps(body: Value, p: Position, wrap: bytes -> bytes)
    requires WellFormed(body) && Survives(StripOutput(body), p, "", wrap)
    ensures SameNode(Node(RewriteBody(body, wrap), Renamed(p)), Node(body, p))
    ensures PlainWay(StripOutput(body), p, wrap) ==> SameNode(Node(RewriteBody(body, wrap), p), Node(body, p))
  {
    var s := StripOutput(body);
    StripOutputKeeps(body);
    RewrittenNode(s, p, "", wrap);
    StripOutputNode(body, p);
    SameNodeTransitive(Node(RewriteBody(body, wrap), Renamed(p)), Node(s, p), Node(body, p));
    if PlainWay(s, p, wrap) {
      PlainWaySurvives(s, p, "", wrap);
    }
  }
}
