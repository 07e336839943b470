/** The parser inverts the printer on every tree `serde_json` can hold. */
module JsonRoundTrip {
  import opened Wrappers
  import opened Bytes
  import opened Json

  lemma {:induction false} EscapedByteParses(c: byte, tail: bytes)
    ensures var s := EscapeByte(c) + tail;
            ParseStringBody(s) ==
            match ParseStringBody(tail)
            case Some((body, rest)) => Some(([c] + body, rest))
            case None => None
  {
    var s := EscapeByte(c) + tail;
    if c == '"' || c == '\\' || c == '\U{08}' || c == '\U{0C}' || c == '\n' || c == '\r' || c == '\t' {
      assert s[2..] == tail;
      assert SimpleEscape(s[1]) == Some(c);
    } else if c < ' ' {
      var h, l := c as int / 16, c as int % 16;
      assert s == ['\\', 'u', '0', '0', HexDigit(h), HexDigit(l)] + tail;
      assert HexValue(HexDigit(h)) == Some(h) && HexValue(HexDigit(l)) == Some(l);
      assert s[2..] == ['0', '0', HexDigit(h), HexDigit(l)] + tail;
      assert Hex4(s[2..]) == Some(c as int);
      assert s[2..][4..] == tail;
      assert ParseUnicodeEscape(s[2..]) == Some((c as int, tail));
    } else {
      assert s[1..] == tail;
    }
  }

  lemma {:induction false} EscapedStringParses(s: bytes, rest: bytes)
    ensures ParseStringBody(EscapeString(s) + "\"" + rest) == Some((s, rest))
  {
    if s == [] {
      assert (EscapeString(s) + "\"" + rest)[1..] == rest;
    } else {
      var tail := EscapeString(s[1..]) + "\"" + rest;
      assert EscapeString(s) + "\"" + rest == EscapeByte(s[0]) + tail;
      EscapedStringParses(s[1..], rest);
      EscapedByteParses(s[0], tail);
      assert [s[0]] + s[1..] == s;
    }
  }

  lemma QuotedTail(body: bytes, rest: bytes)
    ensures var p: bytes := "\"" + body + "\"" + rest; p[0] == '"' && p[1..] == body + "\"" + rest
  {
  }

  lemma PrintedStringParses(s: bytes, rest: bytes)
    requires ValidUtf8(s)
    ensures var p := PrintString(s) + rest;
            p[0] == '"' && ParseString(p[1..]) == Some((s, rest))
  {
    QuotedTail(EscapeString(s), rest);
    EscapedStringParses(s, rest);
  }

  /** Text without quotes, backslashes and control characters needs no escape. */
  lemma {:induction false} PlainTextUnescaped(s: bytes)
    requires forall i | 0 <= i < |s| :: ' ' <= s[i] && s[i] != '"' && s[i] != '\\'
    ensures EscapeString(s) == s
  {
    if s == [] {
    } else {
      PlainTextUnescaped(s[1..]);
      assert s == [s[0]] + s[1..];
    }
  }

  lemma {:induction false} NumberTokenOf(t: bytes, rest: bytes)
    requires forall i | 0 <= i < |t| :: IsNumberChar(t[i])
    requires rest != [] ==> !IsNumberChar(rest[0])
    ensures NumberToken(t + rest) == t
  {
    if t == [] {
      assert t + rest == rest;
    } else {
      assert (t + rest)[1..] == t[1..] + rest;
      NumberTokenOf(t[1..], rest);
    }
  }

  lemma {:induction false} DigitsAreSkipped(s: bytes)
    requires forall i | 0 <= i < |s| :: IsDigit(s[i])
    ensures SkipDigits(s) == []
  {
    if s == [] {
    } else {
      DigitsAreSkipped(s[1..]);
    }
  }

  /** A printed value starts with neither white space nor a closing bracket. */
  lemma PrintHead(v: Value)
    requires WellFormed(v)
    ensures Print(v) != [] && !IsSpace(Print(v)[0]) && Print(v)[0] != ']'
  {
    if v.Number? {
      assert IsDigit(v.text[0]) || v.text[0] == '-';
    }
  }

  /** No printed value is followed by a byte that could extend a number. */
  ghost predicate Ends(rest: bytes) {
    rest != [] ==> !IsNumberChar(rest[0]) && !IsSpace(rest[0])
  }

  function With<T>(r: Option<T>, rest: bytes): Option<(T, bytes)> {
    match r
    case Some(x) => Some((x, rest))
    case None => None
  }

  lemma {:induction false} PrintedValueParses(v: Value, rest: bytes, limit: nat, renumber: Renumber)
    requires WellFormed(v) && Depth(v) < limit && Ends(rest)
    ensures ParseValue(Print(v) + rest, limit, renumber) == With(Reread(v, renumber), rest)
    decreases v, 2
  {
    if v.Array? || v.Object? {
      ContainerTextParses(v, rest, limit, renumber);
      EnterContainer(v, rest, limit, renumber);
    } else {
      PrintedLeafParses(v, rest, limit, renumber);
    }
  }

  /** The parse of an array or object whose opening bracket has been read. */
  ghost function ContainerParse(v: Value, rest: bytes, limit: nat, renumber: Renumber): Option<(Value, bytes)>
    requires v.Array? || v.Object?
  {
    match v
    case Array(items) => ParseArray(PrintItems(items, true) + rest, limit, renumber)
    case Object(ms) => ParseObject(PrintMembers(ms, true) + rest, limit, renumber)
  }

  lemma EnterContainer(v: Value, rest: bytes, limit: nat, renumber: Renumber)
    requires (v.Array? || v.Object?) && limit > 1
    ensures ParseValue(Print(v) + rest, limit, renumber) == ContainerParse(v, rest, limit - 1, renumber)
  {
    match v
    case Array(items) => BracketStep(PrintItems(items, true), rest, limit, renumber);
    case Object(ms) => BracketStep(PrintMembers(ms, true), rest, limit, renumber);
  }

  lemma {:induction false} ContainerTextParses(v: Value, rest: bytes, limit: nat, renumber: Renumber)
    requires WellFormed(v) && Depth(v) < limit && (v.Array? || v.Object?)
    ensures limit > 1 && ContainerParse(v, rest, limit - 1, renumber) == With(Reread(v, renumber), rest)
    decreases v, 1
  {
    match v
    case Array(items) => ArrayTextParses(items, rest, limit - 1, renumber);
    case Object(ms) => ObjectTextParses(ms, rest, limit - 1, renumber);
  }

  /** How the value parser enters an array or an object. */
  lemma BracketStep(body: bytes, rest: bytes, limit: nat, renumber: Renumber)
    requires limit > 1
    ensures ParseValue("[" + body + rest, limit, renumber) == ParseArray(body + rest, limit - 1, renumber)
    ensures ParseValue("{" + body + rest, limit, renumber) == ParseObject(body + rest, limit - 1, renumber)
  {
    assert ("[" + body + rest)[1..] == body + rest;
    assert ("{" + body + rest)[1..] == body + rest;
  }

  lemma PrintedLeafParses(v: Value, rest: bytes, limit: nat, renumber: Renumber)
    requires WellFormed(v) && !v.Array? && !v.Object? && Ends(rest)
    ensures ParseValue(Print(v) + rest, limit, renumber) == With(Reread(v, renumber), rest)
  {
    var s := Print(v) + rest;
    PrintHead(v);
    match v {
      case Null => assert s[4..] == rest;
      case Bool(b) => assert s[if b then 4 else 5..] == rest;
      case Number(t) =>
        NumberTokenOf(t, rest);
        assert s[|t|..] == rest;
      case String(str) =>
        PrintedStringParses(str, rest);
    }
  }

  lemma PrintedItemsHead(items: seq<Value>)
    requires items != [] && WellFormed(items[0])
    ensures var body := PrintItems(items, true); body != [] && !IsSpace(body[0]) && body[0] != ']'
  {
    PrintHead(items[0]);
  }

  /** An array's text after its opening bracket. */
  lemma {:induction false} ArrayTextParses(items: seq<Value>, rest: bytes, limit: nat, renumber: Renumber)
    requires WellFormed(Array(items)) && ItemsDepth(items) < limit
    ensures ParseArray(PrintItems(items, true) + rest, limit, renumber) == With(Reread(Array(items), renumber), rest)
    decreases items, 1
  {
    if items == [] {
      assert ("]" + rest)[1..] == rest;
    } else {
      PrintedItemsParse(items, rest, limit, renumber);
      PrintedItemsHead(items);
    }
  }

  /** Rereading keeps the keys and rereads each value. */
  lemma {:induction false} RereadMembersAt(ms: seq<Member>, renumber: Renumber)
    requires RereadMembers(ms, renumber).Some?
    ensures var r := RereadMembers(ms, renumber).value;
            && |r| == |ms|
            && forall i | 0 <= i < |ms| ::
                 r[i].key == ms[i].key && Reread(ms[i].value, renumber) == Some(r[i].value)
  {
    if ms == [] {
    } else {
      RereadMembersAt(ms[1..], renumber);
    }
  }

  lemma {:induction false} RereadItemsAt(items: seq<Value>, renumber: Renumber)
    requires RereadItems(items, renumber).Some?
    ensures var r := RereadItems(items, renumber).value;
            |r| == |items| && forall i | 0 <= i < |items| :: Reread(items[i], renumber) == Some(r[i])
  {
    if items == [] {
    } else {
      RereadItemsAt(items[1..], renumber);
    }
  }

  lemma RereadDistinct(ms: seq<Member>, renumber: Renumber)
    requires DistinctKeys(ms)
    ensures RereadMembers(ms, renumber).Some? ==> DistinctKeys(RereadMembers(ms, renumber).value)
  {
    if RereadMembers(ms, renumber).Some? {
      RereadMembersAt(ms, renumber);
    }
  }

  lemma RereadInserts(ms: seq<Member>, renumber: Renumber)
    requires DistinctKeys(ms) && RereadMembers(ms, renumber).Some?
    ensures var read := RereadMembers(ms, renumber).value; InsertAll([], read) == read
  {
    var read := RereadMembers(ms, renumber).value;
    RereadDistinct(ms, renumber);
    assert [] + read == read;
    DistinctMembersInsert([], read);
  }

  lemma FilledObject(s: bytes, limit: nat, renumber: Renumber)
    requires s != [] && s[0] == '"'
    ensures ParseObject(s, limit, renumber) ==
            match ParseMembers(s, limit, renumber)
            case Some((ms, rest)) => Some((Object(InsertAll([], ms)), rest))
            case None => None
  {
  }

  lemma PrintedMembersHead(ms: seq<Member>)
    requires ms != []
    ensures var body := PrintMembers(ms, true); body != [] && body[0] == '"'
  {
  }

  /** An object's text after its opening brace. */
  lemma {:induction false} ObjectTextParses(ms: seq<Member>, rest: bytes, limit: nat, renumber: Renumber)
    requires WellFormed(Object(ms)) && MembersDepth(ms) < limit
    ensures ParseObject(PrintMembers(ms, true) + rest, limit, renumber) == With(Reread(Object(ms), renumber), rest)
    decreases ms, 1
  {
    if ms == [] {
      assert ("}" + rest)[1..] == rest;
    } else {
      PrintedMembersParse(ms, rest, limit, renumber);
      PrintedMembersHead(ms);
      FilledObject(PrintMembers(ms, true) + rest, limit, renumber);
      if RereadMembers(ms, renumber).Some? {
        RereadInserts(ms, renumber);
      }
    }
  }

  /** One item up to the separator that follows it. */
  lemma PrintedItemSplits(items: seq<Value>, rest: bytes)
    requires items != []
    ensures PrintItems(items, true) + rest == Print(items[0]) + (PrintItems(items[1..], false) + rest)
    ensures PrintItems(items, false) + rest == "," + (PrintItems(items, true) + rest)
  {
    var item := Print(items[0]) + PrintItems(items[1..], false);
    Assoc(Print(items[0]), PrintItems(items[1..], false), rest);
    Assoc(",", item, rest);
  }

  lemma LastItem(s: bytes, v: Option<Value>, rest: bytes, limit: nat, renumber: Renumber)
    requires ParseValue(s, limit, renumber) == With(v, "]" + rest)
    ensures ParseItems(s, limit, renumber) ==
            match v
            case Some(x) => Some(([x], rest))
            case None => None
  {
    assert SkipSpace("]" + rest) == "]" + rest && ("]" + rest)[1..] == rest;
  }

  lemma NextItem(s: bytes, v: Option<Value>, tail: bytes, more: Option<seq<Value>>, rest: bytes,
        limit: nat, renumber: Renumber)
    requires ParseValue(s, limit, renumber) == With(v, "," + tail)
             && ParseItems(tail, limit, renumber) == With(more, rest)
    ensures ParseItems(s, limit, renumber) ==
            if v.Some? && more.Some? then Some(([v.value] + more.value, rest)) else None
  {
    assert SkipSpace("," + tail) == "," + tail && ("," + tail)[1..] == tail;
  }

  lemma RereadLast(items: seq<Value>, renumber: Renumber)
    requires |items| == 1
    ensures RereadItems(items, renumber) ==
            match Reread(items[0], renumber)
            case Some(x) => Some([x])
            case None => None
  {
    assert items[1..] == [];
    assert forall x: Value :: [x] + [] == [x];
  }

  lemma {:induction false} PrintedItemsParse(items: seq<Value>, rest: bytes, limit: nat, renumber: Renumber)
    requires items != [] && forall i | 0 <= i < |items| :: WellFormed(items[i])
    requires ItemsDepth(items) < limit
    ensures ParseItems(PrintItems(items, true) + rest, limit, renumber) == With(RereadItems(items, renumber), rest)
    decreases items, 0
  {
    var tail := items[1..];
    var after := PrintItems(tail, false) + rest;
    var v := Reread(items[0], renumber);
    PrintedItemSplits(items, rest);
    if tail == [] {
      PrintedValueParses(items[0], after, limit, renumber);
      LastItem(Print(items[0]) + after, v, rest, limit, renumber);
      RereadLast(items, renumber);
    } else {
      PrintedItemSplits(tail, rest);
      PrintedItemsParse(tail, rest, limit, renumber);
      PrintedValueParses(items[0], after, limit, renumber);
      NextItem(Print(items[0]) + after, v, PrintItems(tail, true) + rest, RereadItems(tail, renumber), rest,
               limit, renumber);
    }
  }

  /** One member up to the separator that follows it. */
  lemma PrintedMemberSplits(ms: seq<Member>, rest: bytes)
    requires ms != []
    ensures PrintMembers(ms, true) + rest ==
            PrintString(ms[0].key) + (":" + (Print(ms[0].value) + (PrintMembers(ms[1..], false) + rest)))
    ensures PrintMembers(ms, false) + rest == "," + (PrintMembers(ms, true) + rest)
  {
    var key, value, tail := PrintString(ms[0].key), Print(ms[0].value), PrintMembers(ms[1..], false);
    var member := key + (":" + (value + tail));
    Assoc(value, tail, rest);
    Assoc(":", value + tail, rest);
    Assoc(key, ":" + (value + tail), rest);
    Assoc(",", member, rest);
  }

  /** How the member parser passes a key and its colon. */
  lemma KeyStep(s: bytes, key: bytes, text: bytes, limit: nat, renumber: Renumber)
    requires s != [] && s[0] == '"' && ParseString(s[1..]) == Some((key, ":" + text))
    ensures ParseMembers(s, limit, renumber) ==
            match ParseValue(text, limit, renumber)
            case Some((v, after)) => ParseMoreMembers(Member(key, v), after, limit, renumber)
            case None => None
  {
    var colon := ":" + text;
    assert SkipSpace(s) == s && SkipSpace(colon) == colon && colon[1..] == text;
  }

  /** How the member parser reaches the separator behind a member. */
  lemma MemberStep(m: Member, v: Option<Value>, after: bytes, limit: nat, renumber: Renumber)
    requires ValidUtf8(m.key) && ParseValue(Print(m.value) + after, limit, renumber) == With(v, after)
    ensures ParseMembers(PrintString(m.key) + (":" + (Print(m.value) + after)), limit, renumber) ==
            match v
            case Some(x) => ParseMoreMembers(Member(m.key, x), after, limit, renumber)
            case None => None
  {
    var text := Print(m.value) + after;
    PrintedStringParses(m.key, ":" + text);
    KeyStep(PrintString(m.key) + (":" + text), m.key, text, limit, renumber);
  }

  lemma MoreMembers(m: Member, tail: bytes, limit: nat, renumber: Renumber)
    ensures ParseMoreMembers(m, "}" + tail, limit, renumber) == Some(([m], tail))
    ensures ParseMoreMembers(m, "," + tail, limit, renumber) ==
            match ParseMembers(tail, limit, renumber)
            case Some((more, rest)) => Some(([m] + more, rest))
            case None => None
  {
    assert ("}" + tail)[1..] == tail && ("," + tail)[1..] == tail;
  }

  lemma {:induction false} PrintedMembersParse(ms: seq<Member>, rest: bytes, limit: nat, renumber: Renumber)
    requires ms != [] && forall i | 0 <= i < |ms| :: ValidUtf8(ms[i].key) && WellFormed(ms[i].value)
    requires MembersDepth(ms) < limit
    ensures ParseMembers(PrintMembers(ms, true) + rest, limit, renumber) == With(RereadMembers(ms, renumber), rest)
    decreases ms, 0, 1
  {
    var after, v := PrintMembers(ms[1..], false) + rest, Reread(ms[0].value, renumber);
    PrintedMemberSplits(ms, rest);
    PrintedValueParses(ms[0].value, after, limit, renumber);
    MemberStep(ms[0], v, after, limit, renumber);
    if v.Some? {
      PrintedTailParses(Member(ms[0].key, v.value), ms, rest, limit, renumber);
    }
  }

  lemma {:induction false} PrintedTailParses(m: Member, ms: seq<Member>, rest: bytes, limit: nat, renumber: Renumber)
    requires ms != [] && forall i | 0 <= i < |ms| :: ValidUtf8(ms[i].key) && WellFormed(ms[i].value)
    requires MembersDepth(ms) < limit
    ensures ParseMoreMembers(m, PrintMembers(ms[1..], false) + rest, limit, renumber) ==
            match RereadMembers(ms[1..], renumber)
            case Some(more) => Some(([m] + more, rest))
            case None => None
    decreases ms, 0, 0
  {
    var tail := ms[1..];
    if tail == [] {
      assert [m] + [] == [m];
      MoreMembers(m, rest, limit, renumber);
    } else {
      PrintedMemberSplits(tail, rest);
      PrintedMembersParse(tail, rest, limit, renumber);
      MoreMembers(m, PrintMembers(tail, true) + rest, limit, renumber);
    }
  }

  lemma {:induction false} InsertFresh(ms: seq<Member>, key: bytes, v: Value)
    requires forall i | 0 <= i < |ms| :: ms[i].key != key
    ensures Insert(ms, key, v) == ms + [Member(key, v)]
  {
    if ms == [] {
    } else {
      InsertFresh(ms[1..], key, v);
    }
  }

  lemma {:induction false} DistinctMembersInsert(ms: seq<Member>, more: seq<Member>)
    requires DistinctKeys(ms + more)
    ensures InsertAll(ms, more) == ms + more
    decreases |more|
  {
    if more == [] {
      assert ms + more == ms;
    } else {
      forall i | 0 <= i < |ms| ensures ms[i].key != more[0].key {
        assert (ms + more)[i] == ms[i] && (ms + more)[|ms|] == more[0];
      }
      InsertFresh(ms, more[0].key, more[0].value);
      assert ms + [Member(more[0].key, more[0].value)] + more[1..] == ms + more;
      DistinctMembersInsert(ms + [Member(more[0].key, more[0].value)], more[1..]);
    }
  }

  // ---------------------------------------------------------- the depth limit

  lemma {:induction false} InsertDepth(ms: seq<Member>, key: bytes, v: Value)
    ensures MembersDepth(Insert(ms, key, v)) <= Max(MembersDepth(ms), Depth(v))
  {
    if ms == [] {
    } else {
      InsertDepth(ms[1..], key, v);
    }
  }

  lemma {:induction false} InsertAllDepth(ms: seq<Member>, more: seq<Member>)
    ensures MembersDepth(InsertAll(ms, more)) <= Max(MembersDepth(ms), MembersDepth(more))
    decreases |more|
  {
    if more == [] {
    } else {
      InsertDepth(ms, more[0].key, more[0].value);
      InsertAllDepth(Insert(ms, more[0].key, more[0].value), more[1..]);
    }
  }

  /** Whatever the parser accepts nests less deeply than its limit. */
  lemma {:induction false} ParsedDepth(s: bytes, limit: nat, renumber: Renumber)
    requires limit >= 1 && ParseValue(s, limit, renumber).Some?
    ensures Depth(ParseValue(s, limit, renumber).value.0) < limit
    decreases |s|, 0
  {
    var t := SkipSpace(s);
    if t[0] == '[' {
      var u := SkipSpace(t[1..]);
      if u != [] && u[0] != ']' {
        ParsedItemsDepth(u, limit - 1, renumber);
      }
    } else if t[0] == '{' {
      var u := SkipSpace(t[1..]);
      if u != [] && u[0] != '}' {
        ParsedMembersDepth(u, limit - 1, renumber);
        InsertAllDepth([], ParseMembers(u, limit - 1, renumber).value.0);
      }
    }
  }

  lemma {:induction false} ParsedItemsDepth(s: bytes, limit: nat, renumber: Renumber)
    requires limit >= 1 && ParseItems(s, limit, renumber).Some?
    ensures ItemsDepth(ParseItems(s, limit, renumber).value.0) < limit
    decreases |s|, 1
  {
    ParsedDepth(s, limit, renumber);
    var (v, after) := ParseValue(s, limit, renumber).value;
    var u := SkipSpace(after);
    if u[0] == ',' {
      ParsedItemsDepth(u[1..], limit, renumber);
    }
  }

  lemma {:induction false} ParsedMembersDepth(s: bytes, limit: nat, renumber: Renumber)
    requires limit >= 1 && ParseMembers(s, limit, renumber).Some?
    ensures MembersDepth(ParseMembers(s, limit, renumber).value.0) < limit
    decreases |s|, 1
  {
    var (key, after) := ParseString(SkipSpace(s)[1..]).value;
    var colon := SkipSpace(after);
    ParsedDepth(colon[1..], limit, renumber);
    var (v, end) := ParseValue(colon[1..], limit, renumber).value;
    var u := SkipSpace(end);
    if u[0] == ',' {
      ParsedMembersDepth(u[1..], limit, renumber);
    }
  }

  // ------------------------------------------------- the limit only ever refuses

  /** Only brackets look at the limit. */
  lemma LimitAtBrackets(s: bytes, limit: nat, higher: nat, renumber: Renumber)
    ensures var t := SkipSpace(s);
            if t != [] && t[0] == '[' then
              ParseValue(s, limit, renumber) == if limit > 1 then ParseArray(t[1..], limit - 1, renumber) else None
            else if t != [] && t[0] == '{' then
              ParseValue(s, limit, renumber) == if limit > 1 then ParseObject(t[1..], limit - 1, renumber) else None
            else ParseValue(s, higher, renumber) == ParseValue(s, limit, renumber)
  {
  }

  /** A larger limit accepts what a smaller one does, alike. */
  lemma {:induction false} ParsedAtHigherLimit(s: bytes, limit: nat, higher: nat, renumber: Renumber)
    requires ParseValue(s, limit, renumber).Some? && limit <= higher
    ensures ParseValue(s, higher, renumber) == ParseValue(s, limit, renumber)
    decreases |s|, 0
  {
    var t := SkipSpace(s);
    LimitAtBrackets(s, limit, higher, renumber);
    LimitAtBrackets(s, higher, limit, renumber);
    if t != [] && t[0] == '[' {
      ArrayAtHigherLimit(t[1..], limit - 1, higher - 1, renumber);
    } else if t != [] && t[0] == '{' {
      ObjectAtHigherLimit(t[1..], limit - 1, higher - 1, renumber);
    }
  }

  lemma {:induction false} ArrayAtHigherLimit(s: bytes, limit: nat, higher: nat, renumber: Renumber)
    requires ParseArray(s, limit, renumber).Some? && limit <= higher
    ensures ParseArray(s, higher, renumber) == ParseArray(s, limit, renumber)
    decreases |s|, 2
  {
    var u := SkipSpace(s);
    if u == [] || u[0] != ']' {
      ItemsAtHigherLimit(u, limit, higher, renumber);
    }
  }

  lemma {:induction false} ObjectAtHigherLimit(s: bytes, limit: nat, higher: nat, renumber: Renumber)
    requires ParseObject(s, limit, renumber).Some? && limit <= higher
    ensures ParseObject(s, higher, renumber) == ParseObject(s, limit, renumber)
    decreases |s|, 2
  {
    var u := SkipSpace(s);
    if u == [] || u[0] != '}' {
      MembersAtHigherLimit(u, limit, higher, renumber);
    }
  }

  lemma {:induction false} ItemsAtHigherLimit(s: bytes, limit: nat, higher: nat, renumber: Renumber)
    requires ParseItems(s, limit, renumber).Some? && limit <= higher
    ensures ParseItems(s, higher, renumber) == ParseItems(s, limit, renumber)
    decreases |s|, 1
  {
    ParsedAtHigherLimit(s, limit, higher, renumber);
    var (v, after) := ParseValue(s, limit, renumber).value;
    var u := SkipSpace(after);
    if u[0] == ',' {
      ItemsAtHigherLimit(u[1..], limit, higher, renumber);
    }
  }

  lemma {:induction false} MembersAtHigherLimit(s: bytes, limit: nat, higher: nat, renumber: Renumber)
    requires ParseMembers(s, limit, renumber).Some? && limit <= higher
    ensures ParseMembers(s, higher, renumber) == ParseMembers(s, limit, renumber)
    decreases |s|, 1
  {
    var (key, after) := ParseString(SkipSpace(s)[1..]).value;
    var colon := SkipSpace(after);
    ParsedAtHigherLimit(colon[1..], limit, higher, renumber);
    var (v, end) := ParseValue(colon[1..], limit, renumber).value;
    var u := SkipSpace(end);
    if u[0] == ',' {
      MembersAtHigherLimit(u[1..], limit, higher, renumber);
    }
  }

  // -------------------------------------------------------------- main results

  lemma {:induction false} RereadItemsDepth(items: seq<Value>, renumber: Renumber)
    requires RereadItems(items, renumber).Some?
    ensures ItemsDepth(RereadItems(items, renumber).value) == ItemsDepth(items)
    decreases items, 0
  {
    if items == [] {
    } else {
      RereadDepth(items[0], renumber);
      RereadItemsDepth(items[1..], renumber);
    }
  }

  lemma {:induction false} RereadMembersDepth(ms: seq<Member>, renumber: Renumber)
    requires RereadMembers(ms, renumber).Some?
    ensures MembersDepth(RereadMembers(ms, renumber).value) == MembersDepth(ms)
    decreases ms, 0
  {
    if ms == [] {
    } else {
      RereadDepth(ms[0].value, renumber);
      RereadMembersDepth(ms[1..], renumber);
    }
  }

  lemma {:induction false} RereadDepth(v: Value, renumber: Renumber)
    requires Reread(v, renumber).Some?
    ensures Depth(Reread(v, renumber).value) == Depth(v)
    decreases v, 1
  {
    match v
    case Array(items) => RereadItemsDepth(items, renumber);
    case Object(ms) => RereadMembersDepth(ms, renumber);
    case _ =>
  }

  /**
   What `from_slice(&to_vec(v))` gives: nothing beyond the depth limit, and below
   it the tree with its numbers read again.
   */
  lemma PrintedParses(v: Value, renumber: Renumber)
    requires WellFormed(v)
    ensures Parse(Print(v), renumber) == if Depth(v) < RECURSION_LIMIT then Reread(v, renumber) else None
  {
    assert Print(v) + [] == Print(v);
    if Depth(v) < RECURSION_LIMIT {
      PrintedValueParses(v, [], RECURSION_LIMIT, renumber);
    } else {
      TooDeepToParse(v, RECURSION_LIMIT, renumber);
    }
  }

  lemma TooDeepToParse(v: Value, limit: nat, renumber: Renumber)
    requires WellFormed(v) && 1 <= limit <= Depth(v)
    ensures ParseValue(Print(v), limit, renumber) == None
  {
    var s := Print(v);
    if ParseValue(s, limit, renumber).Some? {
      ParsedDepth(s, limit, renumber);
      ParsedAtHigherLimit(s, limit, Depth(v) + 1, renumber);
      assert s + [] == s;
      PrintedValueParses(v, [], Depth(v) + 1, renumber);
      RereadDepth(v, renumber);
    }
  }

  /** Rereading changes nothing exactly when every number is read back as itself. */
  lemma {:induction false} RereadFixed(v: Value, renumber: Renumber)
    ensures Reread(v, renumber) == Some(v) <==> Settled(v, renumber)
    decreases v, 1
  {
    match v
    case Array(items) => RereadItemsFixed(items, renumber);
    case Object(ms) => RereadMembersFixed(ms, renumber);
    case _ =>
  }

  lemma {:induction false} RereadItemsFixed(items: seq<Value>, renumber: Renumber)
    ensures RereadItems(items, renumber) == Some(items) <==> forall i | 0 <= i < |items| :: Settled(items[i], renumber)
    decreases items, 0
  {
    if items == [] {
    } else {
      RereadFixed(items[0], renumber);
      RereadItemsFixed(items[1..], renumber);
      assert items == [items[0]] + items[1..];
      assert forall i | 1 <= i < |items| :: items[i] == items[1..][i - 1];
    }
  }

  lemma {:induction false} RereadMembersFixed(ms: seq<Member>, renumber: Renumber)
    ensures RereadMembers(ms, renumber) == Some(ms) <==> forall i | 0 <= i < |ms| :: Settled(ms[i].value, renumber)
    decreases ms, 0
  {
    if ms == [] {
    } else {
      RereadFixed(ms[0].value, renumber);
      RereadMembersFixed(ms[1..], renumber);
      assert ms == [ms[0]] + ms[1..];
      assert forall i | 1 <= i < |ms| :: ms[i] == ms[1..][i - 1];
    }
  }

  /**
   `from_slice(&to_vec(v))` gives `v` back exactly when `v` nests less deeply
   than the parser's limit and every number of it is read back as itself.
   */
  lemma ParsesBack(v: Value, renumber: Renumber)
    requires WellFormed(v)
    ensures Parse(Print(v), renumber) == Some(v) <==> Depth(v) < RECURSION_LIMIT && Settled(v, renumber)
  {
    PrintedParses(v, renumber);
    RereadFixed(v, renumber);
  }

  /** Two trees print alike only if they are the same tree; neither limit nor numbers are involved. */
  lemma PrintInjective(v: Value, w: Value)
    requires WellFormed(v) && WellFormed(w) && Print(v) == Print(w)
    ensures v == w
  {
    var limit, keep := 1 + Max(Depth(v), Depth(w)), (t: bytes) => Some(t);
    PrintedValueParses(v, [], limit, keep);
    PrintedValueParses(w, [], limit, keep);
    KeptAsIs(v, keep);
    KeptAsIs(w, keep);
  }

  lemma {:induction false} KeptAsIs(v: Value, keep: Renumber)
    requires forall t :: keep(t) == Some(t)
    ensures Reread(v, keep) == Some(v)
  {
    AllSettled(v, keep);
    RereadFixed(v, keep);
  }

  lemma {:induction false} AllSettled(v: Value, keep: Renumber)
    requires forall t :: keep(t) == Some(t)
    ensures Settled(v, keep)
    decreases v
  {
    match v
    case Array(items) =>
      forall i | 0 <= i < |items| ensures Settled(items[i], keep) {
        AllSettled(items[i], keep);
      }
    case Object(ms) =>
      forall i | 0 <= i < |ms| ensures Settled(ms[i].value, keep) {
        AllSettled(ms[i].value, keep);
      }
    case _ =>
  }
}
