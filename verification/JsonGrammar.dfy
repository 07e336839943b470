/**
 Which texts the parser accepts, and as what: the grammar of RFC 8259 as a
 syntax tree with its blanks and escapes, the text such a tree stands for and
 the value it means. The parser accepts exactly the texts of valid trees that
 nest below its limit, each as what the tree means.
 */
module JsonGrammar {
  import opened Wrappers
  import opened Bytes
  import opened Json
  import opened JsonRoundTrip

  // ------------------------------------------------------------- characters (section 7)

  /** A character of a string: as it is, behind a backslash, or as one or two `\u` escapes. */
  datatype Glyph =
    | Raw(c: byte)
    | Short(c: byte)
    | Code(hex: bytes, unit: nat)
    | Pair(high: bytes, lead: nat, low: bytes, trail: nat)

  /** `c` is the hexadecimal digit `d` in either case. */
  predicate IsHexDigit(c: byte, d: nat) {
    || (d < 10 && c as int == '0' as int + d)
    || (10 <= d < 16 && (c as int == 'a' as int + d - 10 || c as int == 'A' as int + d - 10))
  }

  /** Four digits that spell `n`. */
  predicate IsHex4(hex: bytes, n: nat) {
    && |hex| == 4 && n < 0x10000
    && IsHexDigit(hex[0], n / 4096) && IsHexDigit(hex[1], n / 256 % 16)
    && IsHexDigit(hex[2], n / 16 % 16) && IsHexDigit(hex[3], n % 16)
  }

  ghost predicate ValidGlyph(g: Glyph) {
    match g
    case Raw(c) => c >= ' ' && c != '"' && c != '\\'
    case Short(c) => c in {'"', '\\', '/', 'b', 'f', 'n', 'r', 't'}
    case Code(hex, unit) => IsHex4(hex, unit) && !(0xD800 <= unit < 0xE000)
    case Pair(high, lead, low, trail) =>
      IsHex4(high, lead) && 0xD800 <= lead < 0xDC00 && IsHex4(low, trail) && 0xDC00 <= trail < 0xE000
  }

  function GlyphText(g: Glyph): bytes {
    match g
    case Raw(c) => [c]
    case Short(c) => ['\\', c]
    case Code(hex, _) => ['\\', 'u'] + hex
    case Pair(high, _, low, _) => ['\\', 'u'] + (high + (['\\', 'u'] + low))
  }

  ghost function GlyphMeaning(g: Glyph): bytes
    requires ValidGlyph(g)
  {
    match g
    case Raw(c) => [c]
    case Short(c) =>
      [if c == 'b' then '\U{08}' else if c == 'f' then '\U{0C}' else if c == 'n' then '\n'
       else if c == 'r' then '\r' else if c == 't' then '\t' else c]
    case Code(_, unit) => Utf8Encode(unit)
    case Pair(_, lead, _, trail) => Utf8Encode(0x10000 + 0x400 * (lead - 0xD800) + (trail - 0xDC00))
  }

  ghost predicate ValidGlyphs(gs: seq<Glyph>) {
    forall i | 0 <= i < |gs| :: ValidGlyph(gs[i])
  }

  function GlyphsText(gs: seq<Glyph>): bytes {
    if gs == [] then [] else GlyphText(gs[0]) + GlyphsText(gs[1..])
  }

  ghost function GlyphsMeaning(gs: seq<Glyph>): bytes
    requires ValidGlyphs(gs)
  {
    if gs == [] then [] else GlyphMeaning(gs[0]) + GlyphsMeaning(gs[1..])
  }

  /** What a string is, between its quotes. */
  ghost predicate ValidString(gs: seq<Glyph>) {
    ValidGlyphs(gs) && ValidUtf8(GlyphsMeaning(gs))
  }

  function QuotedText(gs: seq<Glyph>): bytes {
    ['"'] + (GlyphsText(gs) + ['"'])
  }

  // ------------------------------------------------------------------ values (sections 2 to 6)

  datatype Syntax =
    | Word(value: Value)
    | Numeral(text: bytes)
    | Quoted(glyphs: seq<Glyph>)
    | List(blank: bytes, items: seq<Item>)
    | Record(blank: bytes, entries: seq<Entry>)

  /** A value with the blanks around it. */
  datatype Item = Item(before: bytes, value: Syntax, after: bytes)

  datatype Entry = Entry(before: bytes, name: seq<Glyph>, between: bytes, item: Item)

  ghost predicate IsBlank(s: bytes) {
    forall i | 0 <= i < |s| :: s[i] in {' ', '\n', '\t', '\r'}
  }

  ghost predicate Valid(x: Syntax)
    decreases x
  {
    match x
    case Word(v) => v.Null? || v.Bool?
    case Numeral(text) => ValidNumber(text)
    case Quoted(gs) => ValidString(gs)
    case List(blank, items) => IsBlank(blank) && forall i | 0 <= i < |items| :: ValidItem(items[i])
    case Record(blank, entries) => IsBlank(blank) && forall i | 0 <= i < |entries| :: ValidEntry(entries[i])
  }

  ghost predicate ValidItem(item: Item)
    decreases item
  {
    IsBlank(item.before) && Valid(item.value) && IsBlank(item.after)
  }

  ghost predicate ValidEntry(e: Entry)
    decreases e
  {
    IsBlank(e.before) && ValidString(e.name) && IsBlank(e.between) && ValidItem(e.item)
  }

  ghost predicate AllValidItems(items: seq<Item>) {
    forall i | 0 <= i < |items| :: ValidItem(items[i])
  }

  ghost predicate AllValidEntries(entries: seq<Entry>) {
    forall i | 0 <= i < |entries| :: ValidEntry(entries[i])
  }

  function TextOf(x: Syntax): bytes
    decreases x, 1
  {
    match x
    case Word(v) => Print(v)
    case Numeral(text) => text
    case Quoted(gs) => QuotedText(gs)
    case List(blank, items) => ['['] + if items == [] then blank + [']'] else ItemsText(items)
    case Record(blank, entries) => ['{'] + if entries == [] then blank + ['}'] else EntriesText(entries)
  }

  function ItemText(item: Item): bytes
    decreases item, 2
  {
    item.before + (TextOf(item.value) + item.after)
  }

  function ItemsText(items: seq<Item>): bytes
    requires items != []
    decreases items, 0
  {
    ItemText(items[0]) + if |items| == 1 then [']'] else [','] + ItemsText(items[1..])
  }

  function EntryText(e: Entry): bytes
    decreases e, 3
  {
    e.before + (QuotedText(e.name) + (e.between + ([':'] + ItemText(e.item))))
  }

  function EntriesText(entries: seq<Entry>): bytes
    requires entries != []
    decreases entries, 0
  {
    EntryText(entries[0]) + if |entries| == 1 then ['}'] else [','] + EntriesText(entries[1..])
  }

  /** What a tree means; `None` if a number in it is out of range. A name that occurs again overwrites. */
  ghost function Meaning(x: Syntax, renumber: Renumber): Option<Value>
    requires Valid(x)
    decreases x, 1
  {
    match x
    case Word(v) => Some(v)
    case Numeral(text) =>
      var u :- renumber(text);
      Some(Number(u))
    case Quoted(gs) => Some(String(GlyphsMeaning(gs)))
    case List(_, items) =>
      var vs :- ItemsMeaning(items, renumber);
      Some(Array(vs))
    case Record(_, entries) =>
      var ms :- EntriesMeaning(entries, renumber);
      Some(Object(InsertAll([], ms)))
  }

  ghost function ItemsMeaning(items: seq<Item>, renumber: Renumber): Option<seq<Value>>
    requires AllValidItems(items)
    decreases items, 0
  {
    if items == [] then Some([])
    else
      assert ValidItem(items[0]);
      var v :- Meaning(items[0].value, renumber);
      var rest :- ItemsMeaning(items[1..], renumber);
      Some([v] + rest)
  }

  ghost function EntryMeaning(e: Entry, renumber: Renumber): Option<Member>
    requires ValidEntry(e)
    decreases e, 3
  {
    assert ValidItem(e.item);
    var v :- Meaning(e.item.value, renumber);
    Some(Member(GlyphsMeaning(e.name), v))
  }

  ghost function EntriesMeaning(entries: seq<Entry>, renumber: Renumber): Option<seq<Member>>
    requires AllValidEntries(entries)
    decreases entries, 0
  {
    if entries == [] then Some([])
    else
      assert ValidEntry(entries[0]);
      var m :- EntryMeaning(entries[0], renumber);
      var rest :- EntriesMeaning(entries[1..], renumber);
      Some([m] + rest)
  }

  /** How deeply brackets nest. */
  function Nesting(x: Syntax): nat
    decreases x, 1
  {
    match x
    case List(_, items) => 1 + ItemsNesting(items)
    case Record(_, entries) => 1 + EntriesNesting(entries)
    case _ => 0
  }

  function ItemsNesting(items: seq<Item>): nat
    decreases items, 0
  {
    if items == [] then 0 else Max(Nesting(items[0].value), ItemsNesting(items[1..]))
  }

  function EntriesNesting(entries: seq<Entry>): nat
    decreases entries, 0
  {
    if entries == [] then 0 else Max(Nesting(entries[0].item.value), EntriesNesting(entries[1..]))
  }

  // ---------------------------------------------------------- strings, both directions

  lemma HexDigitIs(c: byte, d: nat)
    ensures IsHexDigit(c, d) <==> HexValue(c) == Some(d)
  {
  }

  lemma Hex4Is(s: bytes, n: nat)
    requires |s| >= 4
    ensures IsHex4(s[..4], n) <==> Hex4(s) == Some(n)
  {
    HexDigitIs(s[0], n / 4096);
    HexDigitIs(s[1], n / 256 % 16);
    HexDigitIs(s[2], n / 16 % 16);
    HexDigitIs(s[3], n % 16);
    if Hex4(s) == Some(n) {
      FourDigits(HexValue(s[0]).value, HexValue(s[1]).value, HexValue(s[2]).value, HexValue(s[3]).value);
    } else if n < 0x10000 {
      FourDigits(n / 4096, n / 256 % 16, n / 16 % 16, n % 16);
      NumberOfDigits(n);
    }
  }

  lemma FourDigits(a: nat, b: nat, c: nat, d: nat)
    requires a < 16 && b < 16 && c < 16 && d < 16
    ensures var n := ((a * 16 + b) * 16 + c) * 16 + d;
            n / 4096 == a && n / 256 % 16 == b && n / 16 % 16 == c && n % 16 == d
  {
  }

  lemma NumberOfDigits(n: nat)
    requires n < 0x10000
    ensures ((n / 4096 * 16 + n / 256 % 16) * 16 + n / 16 % 16) * 16 + n % 16 == n
  {
  }

  function Then(head: bytes, r: Option<(bytes, bytes)>): Option<(bytes, bytes)> {
    match r
    case Some((body, rest)) => Some((head + body, rest))
    case None => None
  }

  lemma CodeParses(hex: bytes, unit: nat, tail: bytes)
    requires ValidGlyph(Code(hex, unit))
    ensures ParseStringBody(['\\', 'u'] + hex + tail) == Then(GlyphMeaning(Code(hex, unit)), ParseStringBody(tail))
  {
    var s := ['\\', 'u'] + hex + tail;
    assert s[2..] == hex + tail && (hex + tail)[..4] == hex && (hex + tail)[4..] == tail;
    Hex4Is(hex + tail, unit);
  }

  lemma PairParses(high: bytes, lead: nat, low: bytes, trail: nat, tail: bytes)
    requires ValidGlyph(Pair(high, lead, low, trail))
    ensures ParseUnicodeEscape(high + (['\\', 'u'] + low) + tail) ==
            Some((0x10000 + (lead - 0xD800) * 0x400 + (trail - 0xDC00), tail))
  {
    var s := high + (['\\', 'u'] + low) + tail;
    assert s[..4] == high && s[4] == '\\' && s[5] == 'u' && s[6..] == low + tail && s[10..] == tail;
    assert (low + tail)[..4] == low;
    Hex4Is(s, lead);
    Hex4Is(low + tail, trail);
  }

  lemma ShortParses(c: byte, tail: bytes)
    requires ValidGlyph(Short(c))
    ensures ParseStringBody(GlyphText(Short(c)) + tail) == Then(GlyphMeaning(Short(c)), ParseStringBody(tail))
  {
    var s := GlyphText(Short(c)) + tail;
    assert s[0] == '\\' && s[1] == c && s[2..] == tail;
  }

  lemma RawParses(c: byte, tail: bytes)
    requires ValidGlyph(Raw(c))
    ensures ParseStringBody(GlyphText(Raw(c)) + tail) == Then(GlyphMeaning(Raw(c)), ParseStringBody(tail))
  {
    assert (GlyphText(Raw(c)) + tail)[1..] == tail;
  }

  lemma PairGlyphParses(high: bytes, lead: nat, low: bytes, trail: nat, tail: bytes)
    requires ValidGlyph(Pair(high, lead, low, trail))
    ensures var g := Pair(high, lead, low, trail);
            ParseStringBody(GlyphText(g) + tail) == Then(GlyphMeaning(g), ParseStringBody(tail))
  {
    var s := GlyphText(Pair(high, lead, low, trail)) + tail;
    PairParses(high, lead, low, trail, tail);
    assert s[0] == '\\' && s[1] == 'u' && s[2..] == high + (['\\', 'u'] + low) + tail;
  }

  lemma GlyphParses(g: Glyph, tail: bytes)
    requires ValidGlyph(g)
    ensures ParseStringBody(GlyphText(g) + tail) == Then(GlyphMeaning(g), ParseStringBody(tail))
  {
    match g
    case Raw(c) => RawParses(c, tail);
    case Short(c) => ShortParses(c, tail);
    case Code(hex, unit) => CodeParses(hex, unit, tail);
    case Pair(high, lead, low, trail) => PairGlyphParses(high, lead, low, trail, tail);
  }

  lemma {:induction false} GlyphsParse(gs: seq<Glyph>, rest: bytes)
    requires ValidGlyphs(gs)
    ensures ParseStringBody(GlyphsText(gs) + (['"'] + rest)) == Some((GlyphsMeaning(gs), rest))
  {
    if gs == [] {
      assert GlyphsText(gs) + (['"'] + rest) == ['"'] + rest && (['"'] + rest)[1..] == rest;
    } else {
      GlyphsParse(gs[1..], rest);
      GlyphParses(gs[0], GlyphsText(gs[1..]) + (['"'] + rest));
      Assoc(GlyphText(gs[0]), GlyphsText(gs[1..]), ['"'] + rest);
    }
  }

  lemma QuotedHead(gs: seq<Glyph>, rest: bytes)
    ensures var s := QuotedText(gs) + rest; s[0] == '"' && s[1..] == GlyphsText(gs) + (['"'] + rest)
  {
    Assoc(GlyphsText(gs), ['"'], rest);
  }

  lemma StringParses(gs: seq<Glyph>, rest: bytes)
    requires ValidString(gs)
    ensures var s := QuotedText(gs) + rest; s[0] == '"' && ParseString(s[1..]) == Some((GlyphsMeaning(gs), rest))
  {
    QuotedHead(gs, rest);
    GlyphsParse(gs, rest);
  }

  /** The character at the head of a string's text, and what follows it. */
  lemma GlyphOf(s: bytes) returns (g: Glyph, tail: bytes)
    requires ParseStringBody(s).Some? && s[0] != '"'
    ensures ValidGlyph(g) && s == GlyphText(g) + tail && |tail| < |s|
    ensures ParseStringBody(tail).Some? && ParseStringBody(s) == Then(GlyphMeaning(g), ParseStringBody(tail))
  {
    if s[0] != '\\' {
      g, tail := Raw(s[0]), s[1..];
      GlyphParses(g, tail);
    } else if s[1] != 'u' {
      g, tail := Short(s[1]), s[2..];
      GlyphParses(g, tail);
    } else {
      g, tail := EscapeOf(s);
    }
  }

  lemma EscapeOf(s: bytes) returns (g: Glyph, tail: bytes)
    requires ParseStringBody(s).Some? && |s| >= 2 && s[0] == '\\' && s[1] == 'u'
    ensures ValidGlyph(g) && s == GlyphText(g) + tail && |tail| < |s|
    ensures ParseStringBody(tail).Some? && ParseStringBody(s) == Then(GlyphMeaning(g), ParseStringBody(tail))
  {
    var t := s[2..];
    g, tail := UnitsOf(t);
    assert s == ['\\', 'u'] + t;
    assert s == GlyphText(g) + tail by {
      if g.Code? {
        Assoc(['\\', 'u'], g.hex, tail);
      } else {
        Assoc(['\\', 'u'], g.high + (['\\', 'u'] + g.low), tail);
      }
    }
    GlyphParses(g, tail);
  }

  /** One or two units behind `\u`. */
  lemma UnitsOf(t: bytes) returns (g: Glyph, tail: bytes)
    requires ParseUnicodeEscape(t).Some?
    ensures ValidGlyph(g) && tail == ParseUnicodeEscape(t).value.1
    ensures g.Code? || g.Pair?
    ensures t == (if g.Code? then g.hex else g.high + (['\\', 'u'] + g.low)) + tail
  {
    var n := Hex4(t).value;
    Hex4Is(t, n);
    if 0xD800 <= n < 0xDC00 {
      var m := Hex4(t[6..]).value;
      Hex4Is(t[6..], m);
      g, tail := Pair(t[..4], n, t[6..][..4], m), t[10..];
    } else {
      g, tail := Code(t[..4], n), t[4..];
    }
  }

  lemma {:induction false} GlyphsOf(s: bytes) returns (gs: seq<Glyph>)
    requires ParseStringBody(s).Some?
    ensures ValidGlyphs(gs) && ParseStringBody(s).value.0 == GlyphsMeaning(gs)
    ensures s == GlyphsText(gs) + (['"'] + ParseStringBody(s).value.1)
    decreases |s|
  {
    if s[0] == '"' {
      gs := [];
      assert s == ['"'] + s[1..];
    } else {
      var g, tail := GlyphOf(s);
      var more := GlyphsOf(tail);
      gs := [g] + more;
      Assoc(GlyphText(g), GlyphsText(more), ['"'] + ParseStringBody(s).value.1);
      assert gs[1..] == more;
    }
  }

  lemma StringOf(s: bytes) returns (gs: seq<Glyph>)
    requires s != [] && s[0] == '"' && ParseString(s[1..]).Some?
    ensures ValidString(gs) && ParseString(s[1..]).value.0 == GlyphsMeaning(gs)
    ensures s == QuotedText(gs) + ParseString(s[1..]).value.1
  {
    gs := GlyphsOf(s[1..]);
    var rest := ParseString(s[1..]).value.1;
    Assoc(GlyphsText(gs), ['"'], rest);
    assert s == ['"'] + s[1..];
  }

  // ------------------------------------------------------------------- blanks

  lemma {:induction false} BlankSkipped(b: bytes, s: bytes)
    requires IsBlank(b)
    ensures SkipSpace(b + s) == SkipSpace(s)
  {
    if b == [] {
      assert b + s == s;
    } else {
      assert b[0] in {' ', '\n', '\t', '\r'} && (b + s)[1..] == b[1..] + s;
      BlankSkipped(b[1..], s);
    }
  }

  lemma {:induction false} BlankOf(s: bytes) returns (b: bytes)
    ensures IsBlank(b) && s == b + SkipSpace(s)
    ensures SkipSpace(s) != [] ==> !IsSpace(SkipSpace(s)[0])
  {
    if s == [] || !IsSpace(s[0]) {
      b := [];
    } else {
      var more := BlankOf(s[1..]);
      b := [s[0]] + more;
      Assoc([s[0]], more, SkipSpace(s));
      assert s == [s[0]] + s[1..];
    }
  }

  lemma SkipTwice(s: bytes)
    ensures SkipSpace(SkipSpace(s)) == SkipSpace(s)
  {
    var b := BlankOf(s);
  }

  lemma ValueSkips(s: bytes, t: bytes, limit: nat, renumber: Renumber)
    requires SkipSpace(s) == SkipSpace(t)
    ensures ParseValue(s, limit, renumber) == ParseValue(t, limit, renumber)
    ensures ParseItems(s, limit, renumber) == ParseItems(t, limit, renumber)
    ensures ParseMembers(s, limit, renumber) == ParseMembers(t, limit, renumber)
  {
  }

  // -------------------------------------------------- every valid text is accepted

  /** What may follow a value: nothing, a blank, a comma or a closing bracket. */
  predicate Closes(rest: bytes) {
    rest != [] ==> rest[0] in {' ', '\n', '\t', '\r', ',', ']', '}'}
  }

  lemma TextHead(x: Syntax)
    requires Valid(x)
    ensures TextOf(x) != [] && !IsSpace(TextOf(x)[0]) && TextOf(x)[0] != ']' && TextOf(x)[0] != '}'
  {
    match x
    case Numeral(text) => assert IsDigit(text[0]) || text[0] == '-';
    case _ =>
  }

  lemma WordParses(v: Value, rest: bytes, limit: nat, renumber: Renumber)
    requires v.Null? || v.Bool?
    ensures ParseValue(Print(v) + rest, limit, renumber) == Some((v, rest))
  {
    var s := Print(v) + rest;
    match v
    case Null => assert s[4..] == rest;
    case Bool(b) => assert s[if b then 4 else 5..] == rest;
  }

  lemma NumeralParses(text: bytes, rest: bytes, limit: nat, renumber: Renumber)
    requires ValidNumber(text) && Closes(rest)
    ensures ParseValue(text + rest, limit, renumber) ==
            match renumber(text) case Some(u) => Some((Number(u), rest)) case None => None
  {
    var s := text + rest;
    assert IsDigit(text[0]) || text[0] == '-';
    NumberTokenOf(text, rest);
    assert s[|text|..] == rest;
  }

  lemma BracketOpens(body: bytes, limit: nat, renumber: Renumber)
    requires limit > 1
    ensures ParseValue(['['] + body, limit, renumber) == ParseArray(body, limit - 1, renumber)
    ensures ParseValue(['{'] + body, limit, renumber) == ParseObject(body, limit - 1, renumber)
  {
    assert (['['] + body)[1..] == body && (['{'] + body)[1..] == body;
  }

  lemma {:induction false} TextParses(x: Syntax, rest: bytes, limit: nat, renumber: Renumber)
    requires Valid(x) && Nesting(x) < limit && Closes(rest)
    ensures ParseValue(TextOf(x) + rest, limit, renumber) == With(Meaning(x, renumber), rest)
    decreases x, 1
  {
    match x
    case Word(v) => WordParses(v, rest, limit, renumber);
    case Numeral(text) => NumeralParses(text, rest, limit, renumber);
    case Quoted(gs) => StringParses(gs, rest);
    case List(blank, items) => ListParses(blank, items, rest, limit, renumber);
    case Record(blank, entries) => RecordParses(blank, entries, rest, limit, renumber);
  }

  lemma EmptyList(blank: bytes, rest: bytes, limit: nat, renumber: Renumber)
    requires IsBlank(blank)
    ensures ParseArray(blank + [']'] + rest, limit, renumber) == Some((Array([]), rest))
    ensures ParseObject(blank + ['}'] + rest, limit, renumber) == Some((Object([]), rest))
  {
    Assoc(blank, [']'], rest);
    Assoc(blank, ['}'], rest);
    BlankSkipped(blank, [']'] + rest);
    BlankSkipped(blank, ['}'] + rest);
    assert ([']'] + rest)[1..] == rest && (['}'] + rest)[1..] == rest;
  }

  /** A list whose first item is there. */
  lemma ListEnters(s: bytes, limit: nat, renumber: Renumber)
    requires SkipSpace(s) != [] && SkipSpace(s)[0] != ']'
    ensures ParseArray(s, limit, renumber) ==
            match ParseItems(s, limit, renumber)
            case Some((items, rest)) => Some((Array(items), rest))
            case None => None
  {
    SkipTwice(s);
    ValueSkips(s, SkipSpace(s), limit, renumber);
  }

  lemma RecordEnters(s: bytes, limit: nat, renumber: Renumber)
    requires SkipSpace(s) != [] && SkipSpace(s)[0] != '}'
    ensures ParseObject(s, limit, renumber) ==
            match ParseMembers(s, limit, renumber)
            case Some((ms, rest)) => Some((Object(InsertAll([], ms)), rest))
            case None => None
  {
    SkipTwice(s);
    ValueSkips(s, SkipSpace(s), limit, renumber);
  }

  lemma ItemHead(item: Item, tail: bytes)
    requires ValidItem(item)
    ensures var u := SkipSpace(ItemText(item) + tail); u != [] && u[0] != ']'
  {
    TextHead(item.value);
    Assoc(item.before, TextOf(item.value) + item.after, tail);
    BlankSkipped(item.before, TextOf(item.value) + item.after + tail);
  }

  lemma ItemsSplit(items: seq<Item>, rest: bytes)
    requires items != []
    ensures ItemsText(items) + rest ==
            ItemText(items[0]) + (if |items| == 1 then [']'] + rest else [','] + (ItemsText(items[1..]) + rest))
  {
    if |items| == 1 {
      Assoc(ItemText(items[0]), [']'], rest);
    } else {
      Assoc(ItemText(items[0]), [','] + ItemsText(items[1..]), rest);
      Assoc([','], ItemsText(items[1..]), rest);
    }
  }

  /** The text of a list or record after its opening bracket. */
  function BodyText(x: Syntax): bytes
    requires x.List? || x.Record?
  {
    match x
    case List(blank, items) => if items == [] then blank + [']'] else ItemsText(items)
    case Record(blank, entries) => if entries == [] then blank + ['}'] else EntriesText(entries)
  }

  lemma ContainerOpens(x: Syntax, rest: bytes, limit: nat, renumber: Renumber)
    requires (x.List? || x.Record?) && limit > 1
    ensures ParseValue(TextOf(x) + rest, limit, renumber) ==
            if x.List? then ParseArray(BodyText(x) + rest, limit - 1, renumber)
            else ParseObject(BodyText(x) + rest, limit - 1, renumber)
  {
    Assoc(['['], BodyText(x), rest);
    Assoc(['{'], BodyText(x), rest);
    BracketOpens(BodyText(x) + rest, limit, renumber);
  }

  lemma {:induction false} ListParses(blank: bytes, items: seq<Item>, rest: bytes, limit: nat, renumber: Renumber)
    requires Valid(List(blank, items)) && Nesting(List(blank, items)) < limit
    ensures ParseValue(TextOf(List(blank, items)) + rest, limit, renumber) ==
            With(Meaning(List(blank, items), renumber), rest)
    decreases items, 3
  {
    ContainerOpens(List(blank, items), rest, limit, renumber);
    if items == [] {
      EmptyList(blank, rest, limit - 1, renumber);
    } else {
      ListBodyParses(items, rest, limit - 1, renumber);
    }
  }

  lemma {:induction false} ListBodyParses(items: seq<Item>, rest: bytes, limit: nat, renumber: Renumber)
    requires items != [] && AllValidItems(items) && ItemsNesting(items) < limit
    ensures ParseArray(ItemsText(items) + rest, limit, renumber) ==
            match ItemsMeaning(items, renumber)
            case Some(vs) => Some((Array(vs), rest))
            case None => None
    decreases items, 2
  {
    var s := ItemsText(items) + rest;
    ItemsHead(items, rest);
    ListEnters(s, limit, renumber);
    ItemsParse(items, rest, limit, renumber);
  }

  lemma ItemsHead(items: seq<Item>, rest: bytes)
    requires items != [] && AllValidItems(items)
    ensures var u := SkipSpace(ItemsText(items) + rest); u != [] && u[0] != ']'
  {
    ItemsSplit(items, rest);
    assert ValidItem(items[0]);
    ItemHead(items[0], if |items| == 1 then [']'] + rest else [','] + (ItemsText(items[1..]) + rest));
  }

  /** An item up to the separator behind it. */
  lemma {:induction false} ItemParses(item: Item, tail: bytes, limit: nat, renumber: Renumber)
    requires ValidItem(item) && Nesting(item.value) < limit
    requires tail != [] && tail[0] in {',', ']', '}'}
    ensures ParseValue(ItemText(item) + tail, limit, renumber) == With(Meaning(item.value, renumber), item.after + tail)
    ensures SkipSpace(item.after + tail) == tail
    decreases item, 2
  {
    var text := TextOf(item.value);
    Assoc(item.before, text + item.after, tail);
    Assoc(text, item.after, tail);
    BlankSkipped(item.before, text + (item.after + tail));
    ValueSkips(item.before + (text + (item.after + tail)), text + (item.after + tail), limit, renumber);
    assert item.after != [] ==> item.after[0] in {' ', '\n', '\t', '\r'};
    TextParses(item.value, item.after + tail, limit, renumber);
    BlankSkipped(item.after, tail);
  }

  lemma ItemsStep(s: bytes, v: Option<Value>, after: bytes, tail: bytes, limit: nat, renumber: Renumber)
    requires ParseValue(s, limit, renumber) == With(v, after) && SkipSpace(after) == tail
    ensures tail != [] && tail[0] == ']' ==>
              ParseItems(s, limit, renumber) == match v case Some(x) => Some(([x], tail[1..])) case None => None
    ensures tail != [] && tail[0] == ',' ==>
              ParseItems(s, limit, renumber) ==
              match (v, ParseItems(tail[1..], limit, renumber))
              case (Some(x), Some((more, rest))) => Some(([x] + more, rest))
              case _ => None
  {
  }

  lemma LastItemMeans(items: seq<Item>, renumber: Renumber)
    requires |items| == 1 && AllValidItems(items) && ValidItem(items[0])
    ensures ItemsMeaning(items, renumber) ==
            match Meaning(items[0].value, renumber) case Some(v) => Some([v]) case None => None
  {
    var none: seq<Item> := items[1..];
    assert none == [] && ItemsMeaning(none, renumber) == Some([]);
    if v: Value :| Meaning(items[0].value, renumber) == Some(v) {
      assert [v] + [] == [v];
    }
  }

  lemma {:induction false} ItemsParse(items: seq<Item>, rest: bytes, limit: nat, renumber: Renumber)
    requires items != [] && AllValidItems(items) && ItemsNesting(items) < limit
    ensures ParseItems(ItemsText(items) + rest, limit, renumber) == With(ItemsMeaning(items, renumber), rest)
    decreases items, 1
  {
    var item := items[0];
    assert ValidItem(item);
    var tail := if |items| == 1 then [']'] + rest else [','] + (ItemsText(items[1..]) + rest);
    ItemsSplit(items, rest);
    ItemParses(item, tail, limit, renumber);
    ItemsStep(ItemText(item) + tail, Meaning(item.value, renumber), item.after + tail, tail, limit, renumber);
    if |items| == 1 {
      assert tail[1..] == rest;
      LastItemMeans(items, renumber);
    } else {
      assert tail[1..] == ItemsText(items[1..]) + rest;
      ItemsParse(items[1..], rest, limit, renumber);
    }
  }

  lemma EntriesSplit(entries: seq<Entry>, rest: bytes)
    requires entries != []
    ensures EntriesText(entries) + rest ==
            EntryText(entries[0])
            + (if |entries| == 1 then ['}'] + rest else [','] + (EntriesText(entries[1..]) + rest))
  {
    if |entries| == 1 {
      Assoc(EntryText(entries[0]), ['}'], rest);
    } else {
      Assoc(EntryText(entries[0]), [','] + EntriesText(entries[1..]), rest);
      Assoc([','], EntriesText(entries[1..]), rest);
    }
  }

  lemma EntrySplit(e: Entry, tail: bytes)
    ensures EntryText(e) + tail == e.before + (QuotedText(e.name) + (e.between + ([':'] + (ItemText(e.item) + tail))))
  {
    var item, name := ItemText(e.item), QuotedText(e.name);
    Assoc(e.before, name + (e.between + ([':'] + item)), tail);
    Assoc(name, e.between + ([':'] + item), tail);
    Assoc(e.between, [':'] + item, tail);
    Assoc([':'], item, tail);
  }

  lemma EntryHead(e: Entry, tail: bytes)
    requires ValidEntry(e)
    ensures var u := SkipSpace(EntryText(e) + tail); u != [] && u[0] == '"'
    ensures SkipSpace(EntryText(e) + tail) == QuotedText(e.name) + (e.between + ([':'] + (ItemText(e.item) + tail)))
  {
    var behind := e.between + ([':'] + (ItemText(e.item) + tail));
    EntrySplit(e, tail);
    BlankSkipped(e.before, QuotedText(e.name) + behind);
    assert (QuotedText(e.name) + behind)[0] == '"';
  }

  lemma NameStep(s: bytes, t: bytes, name: bytes, behind: bytes, text: bytes, limit: nat, renumber: Renumber)
    requires SkipSpace(s) == t && t != [] && t[0] == '"' && ParseString(t[1..]) == Some((name, behind))
    requires SkipSpace(behind) == [':'] + text
    ensures ParseMembers(s, limit, renumber) ==
            match ParseValue(text, limit, renumber)
            case Some((v, after)) => ParseMoreMembers(Member(name, v), after, limit, renumber)
            case None => None
  {
    assert ([':'] + text)[1..] == text;
  }

  /** A name with its colon. */
  lemma NameParses(e: Entry, tail: bytes, limit: nat, renumber: Renumber)
    requires ValidEntry(e)
    ensures ParseMembers(EntryText(e) + tail, limit, renumber) ==
            match ParseValue(ItemText(e.item) + tail, limit, renumber)
            case Some((v, after)) => ParseMoreMembers(Member(GlyphsMeaning(e.name), v), after, limit, renumber)
            case None => None
  {
    var text := ItemText(e.item) + tail;
    var behind := e.between + ([':'] + text);
    EntryHead(e, tail);
    StringParses(e.name, behind);
    BlankSkipped(e.between, [':'] + text);
    assert SkipSpace([':'] + text) == [':'] + text;
    NameStep(EntryText(e) + tail, QuotedText(e.name) + behind, GlyphsMeaning(e.name), behind, text, limit, renumber);
  }

  lemma MembersStep(m: Member, after: bytes, tail: bytes, limit: nat, renumber: Renumber)
    requires SkipSpace(after) == tail && tail != []
    ensures tail[0] == '}' ==> ParseMoreMembers(m, after, limit, renumber) == Some(([m], tail[1..]))
    ensures tail[0] == ',' ==>
              ParseMoreMembers(m, after, limit, renumber) ==
              match ParseMembers(tail[1..], limit, renumber)
              case Some((more, rest)) => Some(([m] + more, rest))
              case None => None
  {
  }

  lemma LastEntryMeans(entries: seq<Entry>, renumber: Renumber)
    requires |entries| == 1 && AllValidEntries(entries) && ValidEntry(entries[0])
    ensures EntriesMeaning(entries, renumber) ==
            match EntryMeaning(entries[0], renumber) case Some(m) => Some([m]) case None => None
  {
    var none: seq<Entry> := entries[1..];
    assert none == [] && EntriesMeaning(none, renumber) == Some([]);
    if m: Member :| EntryMeaning(entries[0], renumber) == Some(m) {
      assert [m] + [] == [m];
    }
  }

  /** An entry up to the separator behind it, and what the parser then does. */
  lemma {:induction false} EntryParses(e: Entry, tail: bytes, limit: nat, renumber: Renumber)
    requires ValidEntry(e) && Nesting(e.item.value) < limit && tail != [] && tail[0] in {',', '}'}
    ensures ParseMembers(EntryText(e) + tail, limit, renumber) ==
            match EntryMeaning(e, renumber)
            case None => None
            case Some(m) =>
              if tail[0] == '}' then Some(([m], tail[1..]))
              else
                match ParseMembers(tail[1..], limit, renumber)
                case Some((more, rest)) => Some(([m] + more, rest))
                case None => None
    decreases e, 3
  {
    NameParses(e, tail, limit, renumber);
    assert ValidItem(e.item);
    ItemParses(e.item, tail, limit, renumber);
    var m := EntryMeaning(e, renumber);
    if m.Some? {
      MembersStep(m.value, e.item.after + tail, tail, limit, renumber);
    }
  }

  lemma {:induction false} EntriesParse(entries: seq<Entry>, rest: bytes, limit: nat, renumber: Renumber)
    requires entries != [] && AllValidEntries(entries) && EntriesNesting(entries) < limit
    ensures ParseMembers(EntriesText(entries) + rest, limit, renumber) == With(EntriesMeaning(entries, renumber), rest)
    decreases entries, 1
  {
    var e := entries[0];
    assert ValidEntry(e);
    var tail := if |entries| == 1 then ['}'] + rest else [','] + (EntriesText(entries[1..]) + rest);
    EntriesSplit(entries, rest);
    EntryParses(e, tail, limit, renumber);
    if |entries| == 1 {
      assert tail[1..] == rest;
      LastEntryMeans(entries, renumber);
    } else {
      assert tail[1..] == EntriesText(entries[1..]) + rest;
      EntriesParse(entries[1..], rest, limit, renumber);
    }
  }

  lemma EntriesHead(entries: seq<Entry>, rest: bytes)
    requires entries != [] && AllValidEntries(entries)
    ensures var u := SkipSpace(EntriesText(entries) + rest); u != [] && u[0] != '}'
  {
    EntriesSplit(entries, rest);
    assert ValidEntry(entries[0]);
    EntryHead(entries[0], if |entries| == 1 then ['}'] + rest else [','] + (EntriesText(entries[1..]) + rest));
  }

  lemma {:induction false} RecordBodyParses(entries: seq<Entry>, rest: bytes, limit: nat, renumber: Renumber)
    requires entries != [] && AllValidEntries(entries) && EntriesNesting(entries) < limit
    ensures ParseObject(EntriesText(entries) + rest, limit, renumber) ==
            match EntriesMeaning(entries, renumber)
            case Some(ms) => Some((Object(InsertAll([], ms)), rest))
            case None => None
    decreases entries, 2
  {
    EntriesHead(entries, rest);
    RecordEnters(EntriesText(entries) + rest, limit, renumber);
    EntriesParse(entries, rest, limit, renumber);
  }

  lemma {:induction false} RecordParses(blank: bytes, entries: seq<Entry>, rest: bytes, limit: nat, renumber: Renumber)
    requires Valid(Record(blank, entries)) && Nesting(Record(blank, entries)) < limit
    ensures ParseValue(TextOf(Record(blank, entries)) + rest, limit, renumber) ==
            With(Meaning(Record(blank, entries), renumber), rest)
    decreases entries, 3
  {
    ContainerOpens(Record(blank, entries), rest, limit, renumber);
    if entries == [] {
      EmptyList(blank, rest, limit - 1, renumber);
    } else {
      RecordBodyParses(entries, rest, limit - 1, renumber);
    }
  }

  // ------------------------------------------------- nothing else is accepted

  /** `x` is the syntax of what was read from the head of `s`. */
  ghost predicate IsSyntaxOf(x: Syntax, before: bytes, s: bytes, v: Value, rest: bytes, limit: nat,
        renumber: Renumber)
  {
    && IsBlank(before) && Valid(x) && s == before + (TextOf(x) + rest)
    && Meaning(x, renumber) == Some(v) && Nesting(x) < limit
  }

  ghost predicate AreItemsOf(items: seq<Item>, s: bytes, vs: seq<Value>, rest: bytes, renumber: Renumber) {
    && items != [] && AllValidItems(items) && s == ItemsText(items) + rest
    && ItemsMeaning(items, renumber) == Some(vs)
  }

  ghost predicate AreEntriesOf(entries: seq<Entry>, s: bytes, ms: seq<Member>, rest: bytes, renumber: Renumber) {
    && entries != [] && AllValidEntries(entries) && s == EntriesText(entries) + rest
    && EntriesMeaning(entries, renumber) == Some(ms)
  }

  /** `x` is the syntax at the very head of `t`. */
  ghost predicate IsHeadOf(x: Syntax, t: bytes, v: Value, rest: bytes, limit: nat, renumber: Renumber) {
    Valid(x) && t == TextOf(x) + rest && Meaning(x, renumber) == Some(v) && Nesting(x) < limit
  }

  lemma {:induction false} SyntaxOf(s: bytes, limit: nat, renumber: Renumber) returns (before: bytes, x: Syntax)
    requires limit >= 1 && ParseValue(s, limit, renumber).Some?
    ensures var (v, rest) := ParseValue(s, limit, renumber).value; IsSyntaxOf(x, before, s, v, rest, limit, renumber)
    decreases |s|, 1
  {
    before := BlankOf(s);
    var t := SkipSpace(s);
    ValueSkips(s, t, limit, renumber);
    x := HeadOf(t, limit, renumber);
  }

  lemma {:induction false} HeadOf(t: bytes, limit: nat, renumber: Renumber) returns (x: Syntax)
    requires limit >= 1 && ParseValue(t, limit, renumber).Some? && SkipSpace(t) == t
    ensures var (v, rest) := ParseValue(t, limit, renumber).value; IsHeadOf(x, t, v, rest, limit, renumber)
    decreases |t|, 0
  {
    if t[0] == '[' {
      x := ListOf(t[1..], limit - 1, renumber);
      BodyRead(x, '[', t, ParseValue(t, limit, renumber).value.1);
    } else if t[0] == '{' {
      x := RecordOf(t[1..], limit - 1, renumber);
      BodyRead(x, '{', t, ParseValue(t, limit, renumber).value.1);
    } else if t[0] == '"' {
      x := QuotedOf(t, limit, renumber);
    } else {
      x := LeafOf(t, limit, renumber);
    }
  }

  lemma BodyRead(x: Syntax, bracket: byte, t: bytes, rest: bytes)
    requires (bracket == '[' && x.List?) || (bracket == '{' && x.Record?)
    requires t != [] && t[0] == bracket && t[1..] == BodyText(x) + rest
    ensures t == TextOf(x) + rest
  {
    assert t == [bracket] + t[1..];
    Assoc([bracket], BodyText(x), rest);
  }

  lemma QuotedOf(t: bytes, limit: nat, renumber: Renumber) returns (x: Syntax)
    requires ParseValue(t, limit, renumber).Some? && SkipSpace(t) == t && t != [] && t[0] == '"'
    ensures var (v, rest) := ParseValue(t, limit, renumber).value;
            Valid(x) && t == TextOf(x) + rest && Meaning(x, renumber) == Some(v) && Nesting(x) == 0
  {
    var gs := StringOf(t);
    x := Quoted(gs);
  }

  /** A word or a number. */
  lemma LeafOf(t: bytes, limit: nat, renumber: Renumber) returns (x: Syntax)
    requires ParseValue(t, limit, renumber).Some? && SkipSpace(t) == t && t != []
    requires t[0] != '[' && t[0] != '{' && t[0] != '"'
    ensures var (v, rest) := ParseValue(t, limit, renumber).value;
            Valid(x) && t == TextOf(x) + rest && Meaning(x, renumber) == Some(v) && Nesting(x) == 0
  {
    if t[0] == 'n' {
      x := Word(Null);
      assert t == "null" + t[4..];
    } else if t[0] == 't' {
      x := Word(Bool(true));
      assert t == "true" + t[4..];
    } else if t[0] == 'f' {
      x := Word(Bool(false));
      assert t == "false" + t[5..];
    } else {
      var token := NumberToken(t);
      x := Numeral(token);
      assert t == token + t[|token|..];
    }
  }

  lemma {:induction false} ListOf(s: bytes, limit: nat, renumber: Renumber) returns (x: Syntax)
    requires limit >= 1 && ParseArray(s, limit, renumber).Some?
    ensures var (v, rest) := ParseArray(s, limit, renumber).value;
            && x.List? && Valid(x) && s == BodyText(x) + rest
            && Meaning(x, renumber) == Some(v) && Nesting(x) <= limit
    decreases |s|, 3
  {
    var u := SkipSpace(s);
    if u != [] && u[0] == ']' {
      var blank := BlankOf(s);
      x := List(blank, []);
      assert u == [']'] + u[1..];
      Assoc(blank, [']'], u[1..]);
    } else {
      SkipTwice(s);
      ValueSkips(s, u, limit, renumber);
      var items := ItemsOf(s, limit, renumber);
      x := List([], items);
    }
  }

  lemma {:induction false} ItemsOf(s: bytes, limit: nat, renumber: Renumber) returns (items: seq<Item>)
    requires limit >= 1 && ParseItems(s, limit, renumber).Some?
    ensures var (vs, rest) := ParseItems(s, limit, renumber).value; AreItemsOf(items, s, vs, rest, renumber)
    ensures ItemsNesting(items) < limit
    decreases |s|, 2
  {
    var (v, after) := ParseValue(s, limit, renumber).value;
    var u := SkipSpace(after);
    var before, x := SyntaxOf(s, limit, renumber);
    var blank := BlankOf(after);
    var item := Item(before, x, blank);
    ItemRead(item, s, u, after);
    if u[0] == ']' {
      items := [item];
      assert u == [']'] + u[1..];
      LastItemRead(item, s, v, u[1..], renumber);
      OneItem(item, renumber);
    } else {
      var more := ItemsOf(u[1..], limit, renumber);
      var (vs, rest) := ParseItems(u[1..], limit, renumber).value;
      items := [item] + more;
      assert u == [','] + u[1..];
      NextItemRead(item, more, s, v, vs, u[1..], rest, renumber);
      OneItemMore(item, more, renumber);
    }
  }

  lemma ItemRead(item: Item, s: bytes, u: bytes, after: bytes)
    requires s == item.before + (TextOf(item.value) + after) && after == item.after + u
    ensures s == ItemText(item) + u
  {
    Assoc(TextOf(item.value), item.after, u);
    Assoc(item.before, TextOf(item.value) + item.after, u);
  }

  lemma LastItemRead(item: Item, s: bytes, v: Value, rest: bytes, renumber: Renumber)
    requires ValidItem(item) && s == ItemText(item) + ([']'] + rest) && Meaning(item.value, renumber) == Some(v)
    ensures AreItemsOf([item], s, [v], rest, renumber)
  {
    ItemsSplit([item], rest);
    OneItem(item, renumber);
  }

  lemma OneItem(item: Item, renumber: Renumber)
    requires ValidItem(item)
    ensures AllValidItems([item]) && ItemsNesting([item]) == Nesting(item.value)
    ensures ItemsMeaning([item], renumber) ==
            match Meaning(item.value, renumber) case Some(v) => Some([v]) case None => None
  {
    LastItemMeans([item], renumber);
    assert [item][1..] == [];
  }

  lemma OneItemMore(item: Item, more: seq<Item>, renumber: Renumber)
    requires ValidItem(item) && AllValidItems(more)
    ensures var items := [item] + more;
            && AllValidItems(items) && ItemsNesting(items) == Max(Nesting(item.value), ItemsNesting(more))
            && ItemsMeaning(items, renumber) ==
               match (Meaning(item.value, renumber), ItemsMeaning(more, renumber))
               case (Some(v), Some(vs)) => Some([v] + vs)
               case _ => None
  {
    assert ([item] + more)[1..] == more;
  }

  lemma NextItemRead(item: Item, more: seq<Item>, s: bytes, v: Value, vs: seq<Value>, tail: bytes, rest: bytes,
        renumber: Renumber)
    requires ValidItem(item) && s == ItemText(item) + ([','] + tail) && Meaning(item.value, renumber) == Some(v)
    requires AreItemsOf(more, tail, vs, rest, renumber)
    ensures AreItemsOf([item] + more, s, [v] + vs, rest, renumber)
  {
    assert ([item] + more)[1..] == more;
    ItemsSplit([item] + more, rest);
    OneItemMore(item, more, renumber);
  }

  lemma {:induction false} RecordOf(s: bytes, limit: nat, renumber: Renumber) returns (x: Syntax)
    requires limit >= 1 && ParseObject(s, limit, renumber).Some?
    ensures var (v, rest) := ParseObject(s, limit, renumber).value;
            && x.Record? && Valid(x) && s == BodyText(x) + rest
            && Meaning(x, renumber) == Some(v) && Nesting(x) <= limit
    decreases |s|, 3
  {
    var u := SkipSpace(s);
    if u != [] && u[0] == '}' {
      var blank := BlankOf(s);
      x := Record(blank, []);
      assert u == ['}'] + u[1..];
      Assoc(blank, ['}'], u[1..]);
      assert InsertAll([], []) == [];
    } else {
      SkipTwice(s);
      ValueSkips(s, u, limit, renumber);
      var entries := EntriesOf(s, limit, renumber);
      x := Record([], entries);
    }
  }

  /** The name of a member and the colon behind it. */
  lemma NameOf(s: bytes) returns (e: Entry, tail: bytes)
    requires var t := SkipSpace(s);
             && t != [] && t[0] == '"' && ParseString(t[1..]).Some?
             && var u := SkipSpace(ParseString(t[1..]).value.1); u != [] && u[0] == ':'
    ensures IsBlank(e.before) && ValidString(e.name) && IsBlank(e.between)
    ensures s == e.before + (QuotedText(e.name) + (e.between + ([':'] + tail)))
    ensures var (name, behind) := ParseString(SkipSpace(s)[1..]).value;
            name == GlyphsMeaning(e.name) && tail == SkipSpace(behind)[1..]
  {
    var t := SkipSpace(s);
    var before := BlankOf(s);
    var gs := StringOf(t);
    var behind := ParseString(t[1..]).value.1;
    var colon := SkipSpace(behind);
    var between := BlankOf(behind);
    tail := colon[1..];
    assert colon == [':'] + tail;
    e := Entry(before, gs, between, Item([], Word(Null), []));
  }

  /** The first member, and what follows it. */
  lemma {:induction false} EntryOf(s: bytes, limit: nat, renumber: Renumber)
    returns (e: Entry, m: Member, after: bytes, u: bytes)
    requires limit >= 1 && ParseMembers(s, limit, renumber).Some?
    ensures ValidEntry(e) && s == EntryText(e) + u && EntryMeaning(e, renumber) == Some(m)
    ensures Nesting(e.item.value) < limit && u == SkipSpace(after) && |u| < |s|
    ensures ParseMembers(s, limit, renumber) == ParseMoreMembers(m, after, limit, renumber)
    decreases |s|, 1
  {
    var named, tail := NameOf(s);
    var v := ParseValue(tail, limit, renumber).value.0;
    after := ParseValue(tail, limit, renumber).value.1;
    var inner, x := SyntaxOf(tail, limit, renumber);
    var blank := BlankOf(after);
    u := SkipSpace(after);
    e := named.(item := Item(inner, x, blank));
    ItemRead(e.item, tail, u, after);
    EntryRead(e, s, tail, u);
    assert ValidItem(e.item);
    m := Member(GlyphsMeaning(e.name), v);
  }

  lemma {:induction false} EntriesOf(s: bytes, limit: nat, renumber: Renumber) returns (entries: seq<Entry>)
    requires limit >= 1 && ParseMembers(s, limit, renumber).Some?
    ensures var (ms, rest) := ParseMembers(s, limit, renumber).value;
            AreEntriesOf(entries, s, ms, rest, renumber)
    ensures EntriesNesting(entries) < limit
    decreases |s|, 2
  {
    var e, m, after, u := EntryOf(s, limit, renumber);
    if u[0] == '}' {
      entries := [e];
      assert u == ['}'] + u[1..];
      LastEntryRead(e, s, m, u[1..], renumber);
      OneEntry(e, renumber);
    } else {
      var more := EntriesOf(u[1..], limit, renumber);
      var (ms, rest) := ParseMembers(u[1..], limit, renumber).value;
      entries := [e] + more;
      assert u == [','] + u[1..];
      NextEntryRead(e, more, s, m, ms, u[1..], rest, renumber);
      OneEntryMore(e, more, renumber);
    }
  }

  lemma EntryRead(e: Entry, s: bytes, tail: bytes, u: bytes)
    requires s == e.before + (QuotedText(e.name) + (e.between + ([':'] + tail))) && tail == ItemText(e.item) + u
    ensures s == EntryText(e) + u
  {
    EntrySplit(e, u);
  }

  lemma OneEntry(e: Entry, renumber: Renumber)
    requires ValidEntry(e)
    ensures AllValidEntries([e]) && EntriesNesting([e]) == Nesting(e.item.value)
    ensures EntriesMeaning([e], renumber) ==
            match EntryMeaning(e, renumber) case Some(m) => Some([m]) case None => None
  {
    LastEntryMeans([e], renumber);
    assert [e][1..] == [];
  }

  lemma OneEntryMore(e: Entry, more: seq<Entry>, renumber: Renumber)
    requires ValidEntry(e) && AllValidEntries(more)
    ensures var entries := [e] + more;
            && AllValidEntries(entries) && EntriesNesting(entries) == Max(Nesting(e.item.value), EntriesNesting(more))
            && EntriesMeaning(entries, renumber) ==
               match (EntryMeaning(e, renumber), EntriesMeaning(more, renumber))
               case (Some(m), Some(ms)) => Some([m] + ms)
               case _ => None
  {
    assert ([e] + more)[1..] == more;
  }

  lemma LastEntryRead(e: Entry, s: bytes, m: Member, rest: bytes, renumber: Renumber)
    requires ValidEntry(e) && s == EntryText(e) + (['}'] + rest) && EntryMeaning(e, renumber) == Some(m)
    ensures AreEntriesOf([e], s, [m], rest, renumber)
  {
    EntriesSplit([e], rest);
    OneEntry(e, renumber);
  }

  lemma NextEntryRead(e: Entry, more: seq<Entry>, s: bytes, m: Member, ms: seq<Member>, tail: bytes, rest: bytes,
        renumber: Renumber)
    requires ValidEntry(e) && s == EntryText(e) + ([','] + tail) && EntryMeaning(e, renumber) == Some(m)
    requires AreEntriesOf(more, tail, ms, rest, renumber)
    ensures AreEntriesOf([e] + more, s, [m] + ms, rest, renumber)
  {
    assert ([e] + more)[1..] == more;
    EntriesSplit([e] + more, rest);
    OneEntryMore(e, more, renumber);
  }

  // ----------------------------------------------------------------- main result

  /** `s` is the text of a valid tree that nests below the limit, between blanks, and the tree means `v`. */
  ghost predicate IsTextFor(s: bytes, v: Value, renumber: Renumber) {
    exists before, x, after ::
      && IsBlank(before) && IsBlank(after) && Valid(x) && s == before + (TextOf(x) + after)
      && Nesting(x) < 128 && Meaning(x, renumber) == Some(v)
  }

  /** The parser accepts exactly the texts of RFC 8259 that nest below its limit, each as what it means. */
  lemma ParsesExactly(s: bytes, v: Value, renumber: Renumber)
    ensures Parse(s, renumber) == Some(v) <==> IsTextFor(s, v, renumber)
  {
    if Parse(s, renumber) == Some(v) {
      var before, x := SyntaxOf(s, RECURSION_LIMIT, renumber);
      var after := BlankOf(ParseValue(s, RECURSION_LIMIT, renumber).value.1);
      assert after + [] == after;
    }
    if IsTextFor(s, v, renumber) {
      var before, x, after :|
        && IsBlank(before) && IsBlank(after) && Valid(x) && s == before + (TextOf(x) + after)
        && Nesting(x) < 128 && Meaning(x, renumber) == Some(v);
      BlankSkipped(before, TextOf(x) + after);
      ValueSkips(s, TextOf(x) + after, RECURSION_LIMIT, renumber);
      assert after != [] ==> after[0] in {' ', '\n', '\t', '\r'};
      TextParses(x, after, RECURSION_LIMIT, renumber);
      BlankSkipped(after, []);
      assert after + [] == after;
    }
  }
}
