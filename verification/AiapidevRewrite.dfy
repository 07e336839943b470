/** The aiapidev rewrite of `src/request_rewrite.rs`; `wrap` stands for the proxy wrapping of a file URI. */
module AiapidevRewrite {
  import opened Wrappers
  import opened Bytes
  import opened Json
  import opened JsonPointer
  import opened JsonEdit
  import opened JsonRoundTrip
  import opened JsonParsed
  import opened RequestScan
  import opened Substitution

  // ------------------------------------------------------------------- constants

  const ROLE: bytes := "ro" + "le"
  const PARTS: bytes := "par" + "ts"
  const CONTENTS_PREFIX: bytes := "/contents" + "/"
  const INLINE_DATA_SNAKE: bytes := "inline_" + "data"
  const FILE_DATA: bytes := "file_" + "data"
  const FILE_URI: bytes := "file_" + "uri"
  const MIME_TYPE_SNAKE: bytes := "mime_" + "type"
  const IMAGE_PNG: bytes := "image/" + "png"

  /** `rewrite_aiapidev_key`. */
  function RewriteKey(key: bytes): bytes {
    if key == "generationConfig" then "generation_config"
    else if key == "imageConfig" then "image_config"
    else if key == "responseModalities" then "response_modalities"
    else if key == "aspectRatio" then "aspect_ratio"
    else if key == "imageSize" then "image_size"
    else key
  }

  predicate IsRenamed(key: bytes) {
    || key == "generationConfig" || key == "imageConfig" || key == "responseModalities"
    || key == "aspectRatio" || key == "imageSize"
  }

  /** What some key is renamed to. */
  predicate IsNewName(key: bytes) {
    || key == "generation_config" || key == "image_config" || key == "response_modalities"
    || key == "aspect_ratio" || key == "image_size"
  }

  lemma RewriteKeyFixed(key: bytes)
    ensures !IsRenamed(RewriteKey(key)) && RewriteKey(RewriteKey(key)) == RewriteKey(key)
    ensures RewriteKey(key) == key || IsNewName(RewriteKey(key))
  {
  }

  /** The keys that the rewrite looks at by name are neither renamed nor new names. */
  predicate IsPlain(key: bytes) {
    !IsRenamed(key) && !IsNewName(key)
  }

  lemma NamedKeysPlain()
    ensures IsPlain(ROLE) && IsPlain(PARTS) && IsPlain(INLINE_DATA) && IsPlain(INLINE_DATA_SNAKE) && IsPlain(DATA)
    ensures IsPlain(FILE_DATA) && IsPlain(FILE_URI) && IsPlain(MIME_TYPE_SNAKE)
  {
    assert |ROLE| == 4 && |PARTS| == 5 && |DATA| == 4 && |FILE_URI| == 8;
    assert INLINE_DATA[1] == INLINE_DATA_SNAKE[1] == 'n';
    assert FILE_DATA[0] == 'f' && MIME_TYPE_SNAKE[0] == 'm';
  }

  // ----------------------------------------------------------------- the rewrite

  function OrElse(a: Option<Value>, b: Option<Value>): Option<Value> {
    if a.Some? then a else b
  }

  /** The string under `data` of an object. */
  function StringData(v: Value): Option<bytes> {
    if !v.Object? then None
    else
      match Lookup(v.members, DATA)
      case Some(String(s)) => Some(s)
      case _ => None
  }

  function MimeTypeOf(inlineData: seq<Member>): bytes {
    match OrElse(Lookup(inlineData, MIME_TYPE), Lookup(inlineData, MIME_TYPE_SNAKE))
    case Some(String(s)) => s
    case _ => IMAGE_PNG
  }

  /** `rewrite_inline_data_payload`. */
  function Payload(ms: seq<Member>, wrap: bytes -> bytes): Option<Member> {
    var inlineData :- OrElse(Lookup(ms, INLINE_DATA), Lookup(ms, INLINE_DATA_SNAKE));
    var data :- StringData(inlineData);
    var mimeType := MimeTypeOf(inlineData.members);
    if IsHttpUrl(data) then
      Some(Member(FILE_DATA, Object([Member(FILE_URI, String(wrap(data))), Member(MIME_TYPE_SNAKE, String(mimeType))])))
    else
      Some(Member(INLINE_DATA_SNAKE, Object([Member(DATA, String(data)), Member(MIME_TYPE_SNAKE, String(mimeType))])))
  }

  predicate InContents(path: bytes) {
    StartsWith(path, CONTENTS_PREFIX)
  }

  /** `rewrite_aiapidev_value`. */
  function RewriteValue(v: Value, path: bytes, wrap: bytes -> bytes): Value
    decreases v, 2
  {
    match v
    case Object(ms) => Object(RewriteObject(ms, path, wrap))
    case Array(items) => Array(RewriteItems(items, 0, path, wrap))
    case _ => v
  }

  function RewriteItems(items: seq<Value>, index: nat, path: bytes, wrap: bytes -> bytes): (r: seq<Value>)
    ensures |r| == |items|
    decreases items, 0
  {
    if items == [] then []
    else [RewriteValue(items[0], path + ("/" + Decimal(index)), wrap)] + RewriteItems(items[1..], index + 1, path, wrap)
  }

  /** `rewrite_aiapidev_object`. */
  function RewriteObject(ms: seq<Member>, path: bytes, wrap: bytes -> bytes): seq<Member>
    decreases ms, 1
  {
    match Payload(ms, wrap)
    case Some(m) => [m]
    case None =>
      if InContents(path) then
        RewriteMembers(ms, path, wrap, LeadMember(ms, ROLE, path, wrap) + LeadMember(ms, PARTS, path, wrap))
      else RewriteMembers(ms, path, wrap, [])
  }

  /** `role` and `parts` come first in the objects below `/contents/`. */
  function LeadMember(ms: seq<Member>, key: bytes, path: bytes, wrap: bytes -> bytes): seq<Member>
    decreases ms, 0
  {
    var i := IndexOf(ms, key);
    if i == |ms| then [] else [Member(key, RewriteValue(ms[i].value, path + ("/" + key), wrap))]
  }

  predicate IsLeading(path: bytes, key: bytes) {
    InContents(path) && (key == ROLE || key == PARTS)
  }

  /** The loop over the remaining members; a name that is already there is overwritten in place. */
  function RewriteMembers(ms: seq<Member>, path: bytes, wrap: bytes -> bytes, out: seq<Member>): seq<Member>
    decreases ms, 0
  {
    if ms == [] then out
    else if IsLeading(path, ms[0].key) then RewriteMembers(ms[1..], path, wrap, out)
    else
      var key := RewriteKey(ms[0].key);
      RewriteMembers(ms[1..], path, wrap, Insert(out, key, RewriteValue(ms[0].value, Extend(path, key), wrap)))
  }

  // ------------------------------------------------------------- kinds and lookups

  lemma SameKind(v: Value, path: bytes, wrap: bytes -> bytes)
    ensures var w := RewriteValue(v, path, wrap);
            && (w.Object? <==> v.Object?) && (w.String? <==> v.String?) && (!v.Object? && !v.Array? ==> w == v)
  {
  }

  lemma OneMember(m: Member, key: bytes)
    ensures Lookup([m], key) == if m.key == key then Some(m.value) else None
  {
    var one := [m];
    assert one[1..] == [];
  }

  lemma LeadLookup(ms: seq<Member>, key: bytes, path: bytes, wrap: bytes -> bytes, other: bytes)
    requires other != key
    ensures Lookup(LeadMember(ms, key, path, wrap), other) == None
  {
    var lead := LeadMember(ms, key, path, wrap);
    assert lead != [] ==> lead[1..] == [];
  }

  lemma {:induction false} AppendLookup(a: seq<Member>, b: seq<Member>, key: bytes)
    ensures Lookup(a + b, key) == if Lookup(a, key).Some? then Lookup(a, key) else Lookup(b, key)
  {
    if a == [] {
      assert a + b == b;
    } else {
      assert (a + b)[1..] == a[1..] + b;
      AppendLookup(a[1..], b, key);
    }
  }

  /** The value of the last member that is renamed to `key`, `role` and `parts` aside where these lead. */
  function LastNamed(ms: seq<Member>, path: bytes, key: bytes): Option<Value> {
    if ms == [] then None
    else
      OrElse(LastNamed(ms[1..], path, key),
             if !IsLeading(path, ms[0].key) && RewriteKey(ms[0].key) == key then Some(ms[0].value) else None)
  }

  /** Under each name stands the rewritten value of the last member that gets this name, and nothing else. */
  lemma {:induction false} MembersLookup(ms: seq<Member>, path: bytes, wrap: bytes -> bytes, out: seq<Member>,
        key: bytes)
    ensures Lookup(RewriteMembers(ms, path, wrap, out), key) ==
            match LastNamed(ms, path, key)
            case Some(v) => Some(RewriteValue(v, Extend(path, key), wrap))
            case None => Lookup(out, key)
  {
    if ms == [] {
    } else {
      if IsLeading(path, ms[0].key) {
        MembersLookup(ms[1..], path, wrap, out, key);
      } else {
        var k := RewriteKey(ms[0].key);
        var v := RewriteValue(ms[0].value, Extend(path, k), wrap);
        InsertLookup(out, k, v, key);
        MembersLookup(ms[1..], path, wrap, Insert(out, k, v), key);
      }
    }
  }

  /** A plain name is that of one member at most. */
  lemma {:induction false} PlainNamed(ms: seq<Member>, path: bytes, key: bytes)
    requires DistinctKeys(ms) && IsPlain(key) && !IsLeading(path, key)
    ensures LastNamed(ms, path, key) == Lookup(ms, key)
  {
    if ms == [] {
    } else {
      LookupTail(ms, key);
      RewriteKeyFixed(ms[0].key);
      PlainNamed(ms[1..], path, key);
    }
  }

  lemma LookupTail(ms: seq<Member>, key: bytes)
    requires ms != [] && DistinctKeys(ms)
    ensures DistinctKeys(ms[1..]) && (ms[0].key == key ==> Lookup(ms[1..], key) == None)
  {
    LookupAtIndex(ms[1..], key);
  }

  /**
   What the rewrite keeps of an object without a payload: under every name the
   rewritten value of the last member that gets this name, where `role` and
   `parts` keep theirs.
   */
  lemma ObjectKeepsMembers(ms: seq<Member>, path: bytes, wrap: bytes -> bytes, key: bytes)
    requires Payload(ms, wrap) == None && !IsLeading(path, key)
    ensures Lookup(RewriteObject(ms, path, wrap), key) ==
            match LastNamed(ms, path, key)
            case Some(v) => Some(RewriteValue(v, Extend(path, key), wrap))
            case None => None
  {
    var role, parts := LeadMember(ms, ROLE, path, wrap), LeadMember(ms, PARTS, path, wrap);
    if InContents(path) {
      LeadLookup(ms, ROLE, path, wrap, key);
      LeadLookup(ms, PARTS, path, wrap, key);
      AppendLookup(role, parts, key);
    }
    MembersLookup(ms, path, wrap, if InContents(path) then role + parts else [], key);
  }

  /** When there is no payload, a plain key that does not lead looks up as its rewritten value. */
  lemma ObjectLookup(ms: seq<Member>, path: bytes, wrap: bytes -> bytes, key: bytes)
    requires DistinctKeys(ms) && Payload(ms, wrap) == None && IsPlain(key) && key != ROLE && key != PARTS
    ensures Lookup(RewriteObject(ms, path, wrap), key) ==
            match Lookup(ms, key)
            case Some(v) => Some(RewriteValue(v, Extend(path, key), wrap))
            case None => None
  {
    PlainNamed(ms, path, key);
    ObjectKeepsMembers(ms, path, wrap, key);
  }

  /** The rewrite gives no object a string under `data` that had none. */
  lemma NoNewData(v: Value, path: bytes, wrap: bytes -> bytes)
    requires WellFormed(v) && StringData(v) == None
    ensures StringData(RewriteValue(v, path, wrap)) == None
  {
    NamedKeysPlain();
    if v.Object? {
      match Payload(v.members, wrap)
      case Some(m) =>
        OneMember(m, DATA);
        assert FILE_DATA[0] != DATA[0] && INLINE_DATA_SNAKE[0] != DATA[0];
      case None =>
        assert DATA[0] == 'd' && ROLE[0] == 'r' && PARTS[0] == 'p';
        ObjectLookup(v.members, path, wrap, DATA);
        if Lookup(v.members, DATA).Some? {
          SameKind(Lookup(v.members, DATA).value, Extend(path, DATA), wrap);
        }
    }
  }

  /** An object without a payload is rewritten to one without. */
  lemma NoNewPayload(ms: seq<Member>, path: bytes, wrap: bytes -> bytes)
    requires WellFormed(Object(ms)) && Payload(ms, wrap) == None
    ensures Payload(RewriteObject(ms, path, wrap), wrap) == None
  {
    NamedKeysPlain();
    assert INLINE_DATA[0] == INLINE_DATA_SNAKE[0] == 'i' && ROLE[0] == 'r' && PARTS[0] == 'p';
    ObjectLookup(ms, path, wrap, INLINE_DATA);
    ObjectLookup(ms, path, wrap, INLINE_DATA_SNAKE);
    var key := if Lookup(ms, INLINE_DATA).Some? then INLINE_DATA else INLINE_DATA_SNAKE;
    if Lookup(ms, key).Some? {
      LookupAtIndex(ms, key);
      NoNewData(Lookup(ms, key).value, Extend(path, key), wrap);
    }
  }

  // ------------------------------------------------------------------ fixed points

  ghost predicate Fixed(v: Value, path: bytes, wrap: bytes -> bytes) {
    RewriteValue(v, path, wrap) == v
  }

  /** No renamed key, and no `inlineData` member whose `data` is a string, at any depth. */
  ghost predicate Clean(v: Value)
    decreases v
  {
    match v
    case Array(items) => forall i | 0 <= i < |items| :: Clean(items[i])
    case Object(ms) =>
      && (forall i | 0 <= i < |ms| :: !IsRenamed(ms[i].key) && Clean(ms[i].value))
      && (Lookup(ms, INLINE_DATA).Some? ==> StringData(Lookup(ms, INLINE_DATA).value) == None)
    case _ => true
  }

  ghost predicate GoodMember(m: Member, path: bytes, wrap: bytes -> bytes) {
    RewriteKey(m.key) == m.key && !IsRenamed(m.key) && Clean(m.value) && Fixed(m.value, Extend(path, m.key), wrap)
  }

  /** Rewritten members: the first `n` are `role` and `parts`, in this order, where these lead. */
  ghost predicate Good(out: seq<Member>, path: bytes, wrap: bytes -> bytes, n: nat) {
    && DistinctKeys(out) && n <= |out|
    && (forall i | 0 <= i < |out| :: GoodMember(out[i], path, wrap))
    && (forall i | 0 <= i < |out| :: IsLeading(path, out[i].key) <==> i < n)
    && (n > 1 ==> n == 2 && out[0].key == ROLE && out[1].key == PARTS)
  }

  lemma ReplaceGood(out: seq<Member>, path: bytes, wrap: bytes -> bytes, n: nat, i: nat, m: Member)
    requires Good(out, path, wrap, n) && GoodMember(m, path, wrap) && i < |out| && out[i].key == m.key
    ensures Good(out[i := m], path, wrap, n)
  {
    var r := out[i := m];
    assert forall j | 0 <= j < |r| :: r[j].key == out[j].key;
  }

  lemma AppendGood(out: seq<Member>, path: bytes, wrap: bytes -> bytes, n: nat, m: Member)
    requires Good(out, path, wrap, n) && GoodMember(m, path, wrap) && !IsLeading(path, m.key)
    requires forall i | 0 <= i < |out| :: out[i].key != m.key
    ensures Good(out + [m], path, wrap, n)
  {
  }

  lemma InsertGood(out: seq<Member>, path: bytes, wrap: bytes -> bytes, n: nat, m: Member)
    requires Good(out, path, wrap, n) && GoodMember(m, path, wrap) && !IsLeading(path, m.key)
    ensures Good(Insert(out, m.key, m.value), path, wrap, n)
  {
    if Lookup(out, m.key).Some? {
      InsertPresent(out, m.key, m.value);
      ReplaceGood(out, path, wrap, n, IndexOf(out, m.key), m);
    } else {
      NoMember(out, m.key);
      InsertFresh(out, m.key, m.value);
      AppendGood(out, path, wrap, n, m);
    }
  }

  /** Good members are put back one after the other, each where it was. */
  lemma {:induction false} MembersFixed(f: seq<Member>, i: nat, path: bytes, wrap: bytes -> bytes, n: nat)
    requires Good(f, path, wrap, n) && i <= |f|
    ensures RewriteMembers(f[i..], path, wrap, if i < n then f[..n] else f[..i]) == f
    decreases |f| - i
  {
    if i == |f| {
      assert f[..i] == f;
    } else {
      assert f[i..][0] == f[i] && f[i..][1..] == f[i + 1..];
      MembersFixed(f, i + 1, path, wrap, n);
      if i >= n {
        assert GoodMember(f[i], path, wrap);
        InsertFresh(f[..i], f[i].key, f[i].value);
        assert f[..i] + [f[i]] == f[..i + 1];
      } else if i + 1 == n {
        assert f[..n] == f[..i + 1];
      }
    }
  }

  lemma GoodLead(f: seq<Member>, path: bytes, wrap: bytes -> bytes, n: nat)
    requires Good(f, path, wrap, n) && InContents(path)
    ensures LeadMember(f, ROLE, path, wrap) + LeadMember(f, PARTS, path, wrap) == f[..n]
  {
    LeadPaths(path);
    var i, j := IndexOf(f, ROLE), IndexOf(f, PARTS);
    assert ROLE[0] != PARTS[0];
    if i < |f| {
      assert GoodMember(f[i], path, wrap) && IsLeading(path, f[i].key);
    }
    if j < |f| {
      assert GoodMember(f[j], path, wrap) && IsLeading(path, f[j].key);
    }
    if n > 0 {
      assert IsLeading(path, f[0].key);
    }
  }

  lemma LeadPaths(path: bytes)
    ensures path + ("/" + ROLE) == Extend(path, ROLE) && path + ("/" + PARTS) == Extend(path, PARTS)
  {
    PlainExtend(path, ROLE);
    PlainExtend(path, PARTS);
  }

  /** An object of good members and without a payload is a fixed point. */
  lemma ObjectFixed(f: seq<Member>, path: bytes, wrap: bytes -> bytes, n: nat)
    requires Good(f, path, wrap, n) && Payload(f, wrap) == None
    ensures RewriteObject(f, path, wrap) == f
  {
    assert f[0..] == f;
    MembersFixed(f, 0, path, wrap, n);
    if InContents(path) {
      GoodLead(f, path, wrap, n);
      assert n == 0 ==> f[..n] == f[..0];
    } else {
      assert f != [] ==> !IsLeading(path, f[0].key);
      assert f[..0] == [];
    }
  }

  lemma PairGood(a: Member, b: Member, path: bytes, wrap: bytes -> bytes)
    requires a.value.String? && b.value.String? && a.key != b.key && IsPlain(a.key) && IsPlain(b.key)
    requires a.key != ROLE && a.key != PARTS && b.key != ROLE && b.key != PARTS
    ensures Good([a, b], path, wrap, 0)
  {
  }

  predicate StringPair(v: Value, first: bytes) {
    && v.Object? && |v.members| == 2
    && v.members[0].key == first && v.members[0].value.String?
    && v.members[1].key == MIME_TYPE_SNAKE && v.members[1].value.String?
  }

  lemma PayloadShape(ms: seq<Member>, wrap: bytes -> bytes)
    requires Payload(ms, wrap).Some?
    ensures var m := Payload(ms, wrap).value;
            || (m.key == FILE_DATA && StringPair(m.value, FILE_URI))
            || (m.key == INLINE_DATA_SNAKE && StringPair(m.value, DATA) && !IsHttpUrl(m.value.members[0].value.s))
  {
  }

  lemma PairLookup(v: Value, first: bytes, key: bytes)
    requires StringPair(v, first) && first != MIME_TYPE_SNAKE
    ensures Lookup(v.members, key) ==
            if key == first then Some(v.members[0].value)
            else if key == MIME_TYPE_SNAKE then Some(v.members[1].value)
            else None
  {
    assert v.members == [v.members[0], v.members[1]];
    PairOfMembers(v.members[0], v.members[1], key);
  }

  lemma PairClean(v: Value, first: bytes)
    requires StringPair(v, first) && first != MIME_TYPE_SNAKE && first != INLINE_DATA && IsPlain(first)
    ensures Clean(v)
  {
    NamedKeysPlain();
    assert INLINE_DATA[0] == 'i' && MIME_TYPE_SNAKE[0] == 'm';
    PairLookup(v, first, INLINE_DATA);
  }

  lemma FileDataFixed(m: Member, path: bytes, wrap: bytes -> bytes)
    requires m.key == FILE_DATA && StringPair(m.value, FILE_URI)
    ensures RewriteObject([m], path, wrap) == [m]
  {
    NamedKeysPlain();
    var f, inner := m.value.members, Extend(path, FILE_DATA);
    assert f == [f[0], f[1]];
    assert FILE_DATA[0] == FILE_URI[0] == 'f' && MIME_TYPE_SNAKE[0] == 'm' && ROLE[0] == 'r' && PARTS[0] == 'p';
    assert INLINE_DATA[0] == INLINE_DATA_SNAKE[0] == 'i';
    PairGood(f[0], f[1], inner, wrap);
    PairLookup(m.value, FILE_URI, INLINE_DATA);
    PairLookup(m.value, FILE_URI, INLINE_DATA_SNAKE);
    PairClean(m.value, FILE_URI);
    ObjectFixed(f, inner, wrap, 0);
    OneMember(m, INLINE_DATA);
    OneMember(m, INLINE_DATA_SNAKE);
    assert GoodMember(m, path, wrap);
    ObjectFixed([m], path, wrap, 0);
  }

  lemma InlineDataFixed(m: Member, wrap: bytes -> bytes)
    requires m.key == INLINE_DATA_SNAKE && StringPair(m.value, DATA) && !IsHttpUrl(m.value.members[0].value.s)
    ensures Payload([m], wrap) == Some(m)
  {
    var f := m.value.members;
    assert INLINE_DATA[6] == 'D' && INLINE_DATA_SNAKE[6] == '_' && MIME_TYPE[4] == 'T' && MIME_TYPE_SNAKE[4] == '_';
    assert DATA[0] == 'd' && MIME_TYPE[0] == MIME_TYPE_SNAKE[0] == 'm';
    OneMember(m, INLINE_DATA);
    OneMember(m, INLINE_DATA_SNAKE);
    PairLookup(m.value, DATA, DATA);
    PairLookup(m.value, DATA, MIME_TYPE);
    PairLookup(m.value, DATA, MIME_TYPE_SNAKE);
    assert f == [Member(DATA, f[0].value), Member(MIME_TYPE_SNAKE, f[1].value)];
  }

  /** A payload is clean. */
  lemma PayloadClean(m: Member, first: bytes)
    requires m.key == FILE_DATA || m.key == INLINE_DATA_SNAKE
    requires StringPair(m.value, first) && (first == FILE_URI || first == DATA)
    ensures Clean(Object([m]))
  {
    NamedKeysPlain();
    assert FILE_DATA[0] == FILE_URI[0] == 'f' && DATA[0] == 'd' && INLINE_DATA[0] == 'i' && MIME_TYPE_SNAKE[0] == 'm';
    assert INLINE_DATA[6] == 'D' && INLINE_DATA_SNAKE[6] == '_';
    OneMember(m, INLINE_DATA);
    PairClean(m.value, first);
  }

  /** A payload is a fixed point, and clean. */
  lemma PayloadFixed(ms: seq<Member>, path: bytes, wrap: bytes -> bytes)
    requires Payload(ms, wrap).Some?
    ensures var f := [Payload(ms, wrap).value]; RewriteObject(f, path, wrap) == f && Clean(Object(f))
  {
    var m := Payload(ms, wrap).value;
    PayloadShape(ms, wrap);
    if m.key == FILE_DATA {
      FileDataFixed(m, path, wrap);
      PayloadClean(m, FILE_URI);
    } else {
      InlineDataFixed(m, wrap);
      PayloadClean(m, DATA);
    }
  }

  // ---------------------------------------------------------------- the induction

  /** Rewriting gives a fixed point of the rewrite, and a clean one. */
  lemma {:induction false} RewriteGood(v: Value, path: bytes, wrap: bytes -> bytes)
    requires WellFormed(v)
    ensures Fixed(RewriteValue(v, path, wrap), path, wrap) && Clean(RewriteValue(v, path, wrap))
    decreases v, 2
  {
    match v
    case Object(ms) =>
      if Payload(ms, wrap).Some? {
        PayloadFixed(ms, path, wrap);
      } else {
        ObjectGood(ms, path, wrap);
      }
    case Array(items) => ItemsGood(items, 0, path, wrap);
    case _ =>
  }

  lemma {:induction false} ItemsGood(items: seq<Value>, index: nat, path: bytes, wrap: bytes -> bytes)
    requires forall i | 0 <= i < |items| :: WellFormed(items[i])
    ensures var r := RewriteItems(items, index, path, wrap);
            RewriteItems(r, index, path, wrap) == r && forall i | 0 <= i < |r| :: Clean(r[i])
    decreases items, 0
  {
    if items == [] {
    } else {
      RewriteGood(items[0], path + ("/" + Decimal(index)), wrap);
      ItemsGood(items[1..], index + 1, path, wrap);
    }
  }

  lemma {:induction false} LeadGoodMember(ms: seq<Member>, key: bytes, path: bytes, wrap: bytes -> bytes)
    requires WellFormed(Object(ms)) && (key == ROLE || key == PARTS)
    ensures var lead := LeadMember(ms, key, path, wrap);
            |lead| <= 1 && (lead != [] ==> lead[0].key == key && GoodMember(lead[0], path, wrap))
    decreases ms, 0, 0
  {
    NamedKeysPlain();
    LeadPaths(path);
    var i := IndexOf(ms, key);
    if i < |ms| {
      RewriteGood(ms[i].value, Extend(path, key), wrap);
    }
  }

  lemma {:induction false} LeadsGood(ms: seq<Member>, path: bytes, wrap: bytes -> bytes)
    requires WellFormed(Object(ms)) && InContents(path)
    ensures var lead := LeadMember(ms, ROLE, path, wrap) + LeadMember(ms, PARTS, path, wrap);
            Good(lead, path, wrap, |lead|)
    decreases ms, 0, 1
  {
    LeadGoodMember(ms, ROLE, path, wrap);
    LeadGoodMember(ms, PARTS, path, wrap);
    assert ROLE[0] != PARTS[0];
  }

  lemma {:induction false} MembersGood(ms: seq<Member>, path: bytes, wrap: bytes -> bytes, out: seq<Member>, n: nat)
    requires WellFormed(Object(ms)) && Good(out, path, wrap, n)
    ensures Good(RewriteMembers(ms, path, wrap, out), path, wrap, n)
    decreases ms, 0
  {
    if ms == [] {
    } else {
      if IsLeading(path, ms[0].key) {
        MembersGood(ms[1..], path, wrap, out, n);
      } else {
        var key := RewriteKey(ms[0].key);
        var m := Member(key, RewriteValue(ms[0].value, Extend(path, key), wrap));
        RewriteKeyFixed(ms[0].key);
        NamedKeysPlain();
        RewriteGood(ms[0].value, Extend(path, key), wrap);
        InsertGood(out, path, wrap, n, m);
        MembersGood(ms[1..], path, wrap, Insert(out, key, m.value), n);
      }
    }
  }

  lemma {:induction false} ObjectGood(ms: seq<Member>, path: bytes, wrap: bytes -> bytes)
    requires WellFormed(Object(ms)) && Payload(ms, wrap) == None
    ensures var f := RewriteObject(ms, path, wrap); RewriteObject(f, path, wrap) == f && Clean(Object(f))
    decreases ms, 1
  {
    NoNewPayload(ms, path, wrap);
    var f := RewriteObject(ms, path, wrap);
    var lead := if InContents(path) then LeadMember(ms, ROLE, path, wrap) + LeadMember(ms, PARTS, path, wrap) else [];
    if InContents(path) {
      LeadsGood(ms, path, wrap);
    }
    MembersGood(ms, path, wrap, lead, |lead|);
    ObjectFixed(f, path, wrap, |lead|);
    GoodIsClean(f, path, wrap, |lead|);
  }

  lemma GoodIsClean(f: seq<Member>, path: bytes, wrap: bytes -> bytes, n: nat)
    requires Good(f, path, wrap, n) && Payload(f, wrap) == None
    ensures Clean(Object(f))
  {
    forall i | 0 <= i < |f| ensures !IsRenamed(f[i].key) && Clean(f[i].value) {
      assert GoodMember(f[i], path, wrap);
    }
  }

  /** The member `key` of an object below `/contents/` as it is written first, if it is there. */
  function Led(ms: seq<Member>, key: bytes, path: bytes, wrap: bytes -> bytes): seq<Member> {
    match Lookup(ms, key)
    case Some(v) => [Member(key, RewriteValue(v, Extend(path, key), wrap))]
    case None => []
  }

  /** Below `/contents/`, `role` and then `parts` come first, each if it is there. */
  lemma RoleAndPartsLead(ms: seq<Member>, path: bytes, wrap: bytes -> bytes)
    requires WellFormed(Object(ms)) && Payload(ms, wrap) == None && InContents(path)
    ensures Led(ms, ROLE, path, wrap) + Led(ms, PARTS, path, wrap) <= RewriteObject(ms, path, wrap)
  {
    LeadPaths(path);
    LeadOf(ms, ROLE, path, wrap);
    LeadOf(ms, PARTS, path, wrap);
    var lead := Led(ms, ROLE, path, wrap) + Led(ms, PARTS, path, wrap);
    LeadStays(ms, path, wrap, lead, |lead|);
    assert lead[..|lead|] == lead;
  }

  lemma LeadOf(ms: seq<Member>, key: bytes, path: bytes, wrap: bytes -> bytes)
    requires Extend(path, key) == path + ("/" + key)
    ensures LeadMember(ms, key, path, wrap) == Led(ms, key, path, wrap)
  {
    LookupAtIndex(ms, key);
  }

  lemma {:induction false} LeadStays(ms: seq<Member>, path: bytes, wrap: bytes -> bytes, out: seq<Member>, n: nat)
    requires n <= |out| && forall i | 0 <= i < n :: IsLeading(path, out[i].key)
    ensures var f := RewriteMembers(ms, path, wrap, out); |f| >= n && f[..n] == out[..n]
  {
    if ms == [] {
    } else {
      if IsLeading(path, ms[0].key) {
        LeadStays(ms[1..], path, wrap, out, n);
      } else {
        var key := RewriteKey(ms[0].key);
        var v := RewriteValue(ms[0].value, Extend(path, key), wrap);
        RewriteKeyFixed(ms[0].key);
        NamedKeysPlain();
        InsertBehind(out, key, v, n);
        LeadStays(ms[1..], path, wrap, Insert(out, key, v), n);
      }
    }
  }

  lemma {:induction false} InsertBehind(out: seq<Member>, key: bytes, v: Value, n: nat)
    requires n <= |out| && forall i | 0 <= i < n :: out[i].key != key
    ensures |Insert(out, key, v)| >= n && Insert(out, key, v)[..n] == out[..n]
  {
    if n == 0 {
    } else {
      InsertBehind(out[1..], key, v, n - 1);
      assert Insert(out, key, v) == [out[0]] + Insert(out[1..], key, v);
      assert out[..n] == [out[0]] + out[1..][..n - 1];
    }
  }

  /** What an object gives as an inline image: the member `inlineData`, or else `inline_data`, with a string `data`. */
  ghost predicate HoldsImage(ms: seq<Member>, inner: seq<Member>, data: bytes) {
    && Lookup(inner, DATA) == Some(String(data))
    && (Lookup(ms, INLINE_DATA) == Some(Object(inner))
        || (Lookup(ms, INLINE_DATA) == None && Lookup(ms, INLINE_DATA_SNAKE) == Some(Object(inner))))
  }

  /** The media type that an inline image names under `mimeType`, or else `mime_type`, if it is a string; else PNG. */
  ghost predicate NamesType(inner: seq<Member>, mimeType: bytes) {
    match (Lookup(inner, "mimeType"), Lookup(inner, "mime_type"))
    case (Some(String(s)), _) => mimeType == s
    case (Some(_), _) => mimeType == "image/png"
    case (None, Some(String(s))) => mimeType == s
    case (None, _) => mimeType == "image/png"
  }

  /**
   An inline image becomes `inline_data`, and an image URL `file_data`, with the
   media type and whatever else the object held; no other object is replaced.
   */
  lemma PayloadReplacesObject(ms: seq<Member>, inner: seq<Member>, data: bytes, mimeType: bytes,
        path: bytes, wrap: bytes -> bytes)
    requires NamesType(inner, mimeType)
    ensures HoldsImage(ms, inner, data) ==>
              RewriteValue(Object(ms), path, wrap) ==
              if IsHttpUrl(data) then
                Object([Member("file_data", Object([Member("file_uri", String(wrap(data))),
                                                    Member("mime_type", String(mimeType))]))])
              else
                Object([Member("inline_data", Object([Member("data", String(data)),
                                                      Member("mime_type", String(mimeType))]))])
    ensures Payload(ms, wrap).Some? <==> exists i, d :: HoldsImage(ms, i, d)
  {
    assert FILE_DATA == "file_data" && FILE_URI == "file_uri" && MIME_TYPE_SNAKE == "mime_type";
    assert MIME_TYPE == "mimeType" && IMAGE_PNG == "image/png";
    assert INLINE_DATA_SNAKE == "inline_data" && DATA == "data";
    if Payload(ms, wrap).Some? {
      var image := OrElse(Lookup(ms, INLINE_DATA), Lookup(ms, INLINE_DATA_SNAKE)).value;
      assert HoldsImage(ms, image.members, StringData(image).value);
    }
  }

  /** The rewrite is idempotent on every tree. */
  lemma RewriteIdempotent(v: Value, path: bytes, wrap: bytes -> bytes)
    requires WellFormed(v)
    ensures RewriteValue(RewriteValue(v, path, wrap), path, wrap) == RewriteValue(v, path, wrap)
  {
    RewriteGood(v, path, wrap);
  }

  // -------------------------------------------------- cleanliness, by position

  /** At no position of a rewritten tree is there a renamed key or an `inlineData` with string `data`. */
  lemma {:induction false} CleanEverywhere(v: Value, p: Position)
    requires Clean(v) && Node(v, p).Some? && Node(v, p).value.Object?
    ensures var ms := Node(v, p).value.members;
            && (forall i | 0 <= i < |ms| :: !IsRenamed(ms[i].key))
            && (Lookup(ms, INLINE_DATA).Some? ==> StringData(Lookup(ms, INLINE_DATA).value) == None)
    decreases |p|
  {
    if p == [] {
    } else {
      if v.Object? {
        LookupAtIndex(v.members, p[0]);
      }
      CleanEverywhere(Child(v, p[0]).value, p[1..]);
    }
  }

  // ---------------------------------------------------- what is kept, by position

  /** No member behind that of `key` is given the name that it is given. */
  ghost predicate KeepsItsName(ms: seq<Member>, key: bytes, path: bytes) {
    IsLeading(path, key)
    || forall j | IndexOf(ms, key) < j < |ms| :: IsLeading(path, ms[j].key) || RewriteKey(ms[j].key) != RewriteKey(key)
  }

  /**
   The way to `p` enters no object that is replaced by its image and no member
   that is overwritten by a later one of its new name.
   */
  ghost predicate Survives(v: Value, p: Position, path: bytes, wrap: bytes -> bytes)
    decreases |p|
  {
    p == [] ||
    (&& Child(v, p[0]).Some?
     && (v.Object? ==> Payload(v.members, wrap) == None && KeepsItsName(v.members, p[0], path))
     && Survives(Child(v, p[0]).value, p[1..], Extend(path, RewriteKey(p[0])), wrap))
  }

  /** The position under the new names. */
  function Renamed(p: Position): Position {
    seq(|p|, i requires 0 <= i < |p| => RewriteKey(p[i]))
  }

  lemma IndexNotRenamed(i: nat)
    ensures RewriteKey(Decimal(i)) == Decimal(i)
  {
    assert IsDigit(Decimal(i)[0]);
  }

  lemma {:induction false} RewriteItemsAt(items: seq<Value>, index: nat, path: bytes, wrap: bytes -> bytes)
    ensures var r := RewriteItems(items, index, path, wrap);
            |r| == |items| && forall i | 0 <= i < |items| ::
              r[i] == RewriteValue(items[i], Extend(path, Decimal(index + i)), wrap)
  {
    if items == [] {
    } else {
      IndexTokenUnchanged(index);
      RewriteItemsAt(items[1..], index + 1, path, wrap);
    }
  }

  lemma {:induction false} LastNamedAt(ms: seq<Member>, i: nat, path: bytes)
    requires i < |ms| && !IsLeading(path, ms[i].key)
    requires forall j | i < j < |ms| :: IsLeading(path, ms[j].key) || RewriteKey(ms[j].key) != RewriteKey(ms[i].key)
    ensures LastNamed(ms, path, RewriteKey(ms[i].key)) == Some(ms[i].value)
  {
    if i == 0 {
      NoneNamed(ms[1..], path, RewriteKey(ms[0].key));
    } else {
      assert ms[i] == ms[1..][i - 1];
      LastNamedAt(ms[1..], i - 1, path);
    }
  }

  lemma {:induction false} NoneNamed(ms: seq<Member>, path: bytes, name: bytes)
    requires forall j | 0 <= j < |ms| :: IsLeading(path, ms[j].key) || RewriteKey(ms[j].key) != name
    ensures LastNamed(ms, path, name) == None
  {
    if ms == [] {
    } else {
      NoneNamed(ms[1..], path, name);
    }
  }

  /** The member that a name stands for. */
  lemma {:induction false} LastNamedWhere(ms: seq<Member>, path: bytes, name: bytes) returns (i: nat)
    requires LastNamed(ms, path, name).Some?
    ensures i < |ms| && !IsLeading(path, ms[i].key) && RewriteKey(ms[i].key) == name
    ensures LastNamed(ms, path, name) == Some(ms[i].value)
    ensures forall j | i < j < |ms| :: IsLeading(path, ms[j].key) || RewriteKey(ms[j].key) != name
  {
    if LastNamed(ms[1..], path, name).Some? {
      i := LastNamedWhere(ms[1..], path, name);
      i := i + 1;
    } else {
      i := 0;
      forall j | 0 < j < |ms| ensures IsLeading(path, ms[j].key) || RewriteKey(ms[j].key) != name {
        assert ms[j] == ms[1..][j - 1];
        NamedIfAny(ms[1..], j - 1, path);
      }
    }
  }

  lemma {:induction false} NamedIfAny(ms: seq<Member>, i: nat, path: bytes)
    requires i < |ms|
    ensures IsLeading(path, ms[i].key) || LastNamed(ms, path, RewriteKey(ms[i].key)).Some?
  {
    if i == 0 {
    } else {
      assert ms[i] == ms[1..][i - 1];
      NamedIfAny(ms[1..], i - 1, path);
    }
  }

  /** Below `/contents/`, `role` and `parts` keep their own value. */
  lemma LeadingLookup(ms: seq<Member>, path: bytes, wrap: bytes -> bytes, key: bytes)
    requires Payload(ms, wrap) == None && IsLeading(path, key)
    ensures Lookup(RewriteObject(ms, path, wrap), key) ==
            match Lookup(ms, key)
            case Some(v) => Some(RewriteValue(v, Extend(path, key), wrap))
            case None => None
  {
    LeadPaths(path);
    LeadOf(ms, ROLE, path, wrap);
    LeadOf(ms, PARTS, path, wrap);
    assert ROLE[0] != PARTS[0];
    var role, parts := LeadMember(ms, ROLE, path, wrap), LeadMember(ms, PARTS, path, wrap);
    AppendLookup(role, parts, key);
    LeadLookup(ms, ROLE, path, wrap, PARTS);
    LeadLookup(ms, PARTS, path, wrap, ROLE);
    if Lookup(ms, key).Some? {
      OneMember(Member(key, RewriteValue(Lookup(ms, key).value, Extend(path, key), wrap)), key);
    }
    forall j | 0 <= j < |ms| ensures IsLeading(path, ms[j].key) || RewriteKey(ms[j].key) != key {
      RewriteKeyFixed(ms[j].key);
      NamedKeysPlain();
    }
    NoneNamed(ms, path, key);
    MembersLookup(ms, path, wrap, role + parts, key);
  }

  /** One step down on such a way. */
  lemma RewrittenStep(v: Value, token: bytes, path: bytes, wrap: bytes -> bytes)
    requires WellFormed(v) && Child(v, token).Some?
    requires v.Object? ==> Payload(v.members, wrap) == None && KeepsItsName(v.members, token, path)
    ensures Child(RewriteValue(v, path, wrap), RewriteKey(token)) ==
            Some(RewriteValue(Child(v, token).value, Extend(path, RewriteKey(token)), wrap))
  {
    match v
    case Object(ms) =>
      LookupAtIndex(ms, token);
      NamedKeysPlain();
      RewriteKeyFixed(token);
      if IsLeading(path, token) {
        LeadingLookup(ms, path, wrap, token);
      } else {
        LastNamedAt(ms, IndexOf(ms, token), path);
        ObjectKeepsMembers(ms, path, wrap, RewriteKey(token));
      }
    case Array(items) =>
      var i := IndexOfToken(token, |items|).value;
      IndexNotRenamed(i);
      RewriteItemsAt(items, 0, path, wrap);
  }

  /** A rewritten node agrees with its original in kind, an array in length, and anything else is the very same. */
  lemma RewriteSameNode(v: Value, path: bytes, wrap: bytes -> bytes)
    ensures SameNode(Some(RewriteValue(v, path, wrap)), Some(v))
  {
  }

  lemma ChildWellFormed(v: Value, token: bytes)
    requires WellFormed(v) && Child(v, token).Some?
    ensures WellFormed(Child(v, token).value)
  {
    if v.Object? {
      LookupAtIndex(v.members, token);
    }
  }

  /**
   What the rewrite keeps: every node of the tree that is not inside an object
   replaced by its image or under an overwritten name stands at the position
   with the new names, rewritten: an object as an object, an array as one of
   the same length, and a string, number, boolean or null as it was.
   */
  lemma {:induction false} RewrittenNode(v: Value, p: Position, path: bytes, wrap: bytes -> bytes)
    requires WellFormed(v) && Survives(v, p, path, wrap)
    ensures Node(v, p).Some?
    ensures Node(RewriteValue(v, path, wrap), Renamed(p)) ==
            Some(RewriteValue(Node(v, p).value, PointerFrom(path, Renamed(p)), wrap))
    ensures SameNode(Node(RewriteValue(v, path, wrap), Renamed(p)), Node(v, p))
    decreases |p|
  {
    if p == [] {
      RewriteSameNode(v, path, wrap);
    } else {
      RewrittenStep(v, p[0], path, wrap);
      ChildWellFormed(v, p[0]);
      RewrittenNode(Child(v, p[0]).value, p[1..], Extend(path, RewriteKey(p[0])), wrap);
      assert Renamed(p)[1..] == Renamed(p[1..]);
    }
  }

  /** The original of a child of a rewritten object. */
  lemma OriginalMember(ms: seq<Member>, name: bytes, path: bytes, wrap: bytes -> bytes) returns (key: bytes)
    requires WellFormed(Object(ms)) && Payload(ms, wrap) == None
    requires Lookup(RewriteObject(ms, path, wrap), name).Some?
    ensures Lookup(ms, key).Some? && RewriteKey(key) == name && KeepsItsName(ms, key, path)
  {
    if IsLeading(path, name) {
      key := name;
      LeadingLookup(ms, path, wrap, name);
      NamedKeysPlain();
    } else {
      ObjectKeepsMembers(ms, path, wrap, name);
      var i := LastNamedWhere(ms, path, name);
      key := ms[i].key;
      LookupDistinct(ms, i);
    }
  }

  lemma OriginalChild(v: Value, name: bytes, path: bytes, wrap: bytes -> bytes) returns (token: bytes)
    requires WellFormed(v) && (v.Object? ==> Payload(v.members, wrap) == None)
    requires Child(RewriteValue(v, path, wrap), name).Some?
    ensures Child(v, token).Some? && RewriteKey(token) == name
    ensures v.Object? ==> KeepsItsName(v.members, token, path)
  {
    match v
    case Object(ms) => token := OriginalMember(ms, name, path, wrap);
    case Array(items) =>
      token := name;
      IndexNotRenamed(IndexOfToken(name, |items|).value);
  }

  lemma OneTokenMore(token: bytes, below: Position, q: Position, n: nat)
    requires q != [] && n <= |q[1..]| && Renamed(below) == q[1..][..n] && RewriteKey(token) == q[0]
    ensures ([token] + below)[1..] == below && Renamed([token] + below) == q[..n + 1] && q[n + 1..] == q[1..][n..]
  {
    assert q[..n + 1] == [q[0]] + q[1..][..n];
    assert Renamed([token] + below) == [RewriteKey(token)] + Renamed(below);
  }

  /**
   And nothing else: every position of a rewritten tree is that of such a node,
   or lies below the image that replaces one.
   */
  lemma {:induction false} RewrittenFrom(v: Value, q: Position, path: bytes, wrap: bytes -> bytes)
    returns (p: Position, k: nat)
    requires WellFormed(v) && Node(RewriteValue(v, path, wrap), q).Some?
    ensures k <= |q| && Survives(v, p, path, wrap) && Renamed(p) == q[..k] && Node(v, p).Some?
    ensures k < |q| ==>
              && Node(v, p).value.Object? && Payload(Node(v, p).value.members, wrap).Some?
              && Node(RewriteValue(v, path, wrap), q) ==
                 Node(Object([Payload(Node(v, p).value.members, wrap).value]), q[k..])
    decreases |q|
  {
    p, k := [], 0;
    assert q[..0] == [] && q[0..] == q;
    if q == [] || (v.Object? && Payload(v.members, wrap).Some?) {
    } else {
      var token := OriginalChild(v, q[0], path, wrap);
      RewrittenStep(v, token, path, wrap);
      ChildWellFormed(v, token);
      var below, n := RewrittenFrom(Child(v, token).value, q[1..], Extend(path, q[0]), wrap);
      p, k := [token] + below, n + 1;
      OneTokenMore(token, below, q, n);
    }
  }
}
