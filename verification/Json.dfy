/**
 JSON values as `serde_json` keeps them with `preserve_order`: an object is a
 list of members in insertion order with distinct keys. The printer is the
 compact one of `to_vec`; the parser is `from_slice`, with its recursion limit.
 */
module Json {
  import opened Wrappers
  import opened Bytes

  /** A number is the text it prints as. */
  datatype Value =
    | Null
    | Bool(b: bool)
    | Number(text: bytes)
    | String(s: bytes)
    | Array(items: seq<Value>)
    | Object(members: seq<Member>)

  datatype Member = Member(key: bytes, value: Value)

  // ---------------------------------------------------------------- objects

  ghost predicate DistinctKeys(ms: seq<Member>) {
    forall i, j | 0 <= i < j < |ms| :: ms[i].key != ms[j].key
  }

  /** `Map::get`. */
  function Lookup(ms: seq<Member>, key: bytes): Option<Value> {
    if ms == [] then None
    else if ms[0].key == key then Some(ms[0].value)
    else Lookup(ms[1..], key)
  }

  /** `Map::insert`: a key already present keeps its position. */
  function Insert(ms: seq<Member>, key: bytes, value: Value): seq<Member> {
    if ms == [] then [Member(key, value)]
    else if ms[0].key == key then [Member(key, value)] + ms[1..]
    else [ms[0]] + Insert(ms[1..], key, value)
  }

  function InsertAll(ms: seq<Member>, more: seq<Member>): seq<Member>
    decreases |more|
  {
    if more == [] then ms
    else InsertAll(Insert(ms, more[0].key, more[0].value), more[1..])
  }

  /** The position of `key`, or the number of members. */
  function IndexOf(ms: seq<Member>, key: bytes): (i: nat)
    ensures i <= |ms|
    ensures i < |ms| ==> ms[i].key == key
    ensures forall j | 0 <= j < i :: ms[j].key != key
  {
    if ms == [] then 0
    else if ms[0].key == key then 0
    else 1 + IndexOf(ms[1..], key)
  }

  /** `Map::remove` with `preserve_order`: the last member takes the freed position. */
  function SwapRemove(ms: seq<Member>, key: bytes): seq<Member> {
    var i := IndexOf(ms, key);
    if i == |ms| then ms
    else if i == |ms| - 1 then ms[..i]
    else ms[..i] + [ms[|ms| - 1]] + ms[i + 1..|ms| - 1]
  }

  // ---------------------------------------------------------- well-formedness

  /** What `serde_json`'s own types guarantee of every value. */
  ghost predicate WellFormed(v: Value) {
    match v
    case Number(t) => ValidNumber(t)
    case String(s) => ValidUtf8(s)
    case Array(items) => forall i | 0 <= i < |items| :: WellFormed(items[i])
    case Object(ms) => DistinctKeys(ms) && forall i | 0 <= i < |ms| :: ValidUtf8(ms[i].key) && WellFormed(ms[i].value)
    case _ => true
  }

  /** How deeply arrays and objects nest. */
  function Depth(v: Value): nat
    decreases v, 1
  {
    match v
    case Array(items) => 1 + ItemsDepth(items)
    case Object(ms) => 1 + MembersDepth(ms)
    case _ => 0
  }

  function Max(a: nat, b: nat): nat {
    if a < b then b else a
  }

  function ItemsDepth(items: seq<Value>): nat
    decreases items, 0
  {
    if items == [] then 0 else Max(Depth(items[0]), ItemsDepth(items[1..]))
  }

  function MembersDepth(ms: seq<Member>): nat
    decreases ms, 0
  {
    if ms == [] then 0 else Max(Depth(ms[0].value), MembersDepth(ms[1..]))
  }

  // ---------------------------------------------------------------- numbers

  predicate IsNumberChar(c: byte) {
    IsDigit(c) || c == '-' || c == '+' || c == '.' || c == 'e' || c == 'E'
  }

  function NumberToken(s: bytes): (t: bytes)
    ensures t <= s
    ensures |t| < |s| ==> !IsNumberChar(s[|t|])
  {
    if s != [] && IsNumberChar(s[0]) then [s[0]] + NumberToken(s[1..]) else []
  }

  function SkipDigits(s: bytes): (r: bytes)
    ensures |r| <= |s|
  {
    if s != [] && IsDigit(s[0]) then SkipDigits(s[1..]) else s
  }

  /** Section 6 of RFC 8259. */
  predicate NumberGrammar(t: bytes) {
    var u := if t != [] && t[0] == '-' then t[1..] else t;
    u != [] && IsDigit(u[0]) &&
    var u := if u[0] == '0' then u[1..] else SkipDigits(u);
    var dot := u != [] && u[0] == '.';
    var f := if dot then SkipDigits(u[1..]) else u;
    (dot ==> |f| + 1 < |u|) &&
    if f == [] then true
    else
      (f[0] == 'e' || f[0] == 'E') &&
      var x := if |f| > 1 && (f[1] == '+' || f[1] == '-') then f[2..] else f[1..];
      x != [] && SkipDigits(x) == []
  }

  predicate ValidNumber(t: bytes) {
    NumberGrammar(t) && forall i | 0 <= i < |t| :: IsNumberChar(t[i])
  }

  // ---------------------------------------------------------------- printing

  function HexDigit(d: nat): (c: byte)
    requires d < 16
  {
    if d < 10 then DigitChar(d) else (d - 10 + 'a' as int) as char
  }

  function EscapeByte(c: byte): bytes {
    if c == '"' then "\\\""
    else if c == '\\' then "\\\\"
    else if c == '\U{08}' then "\\b"
    else if c == '\U{0C}' then "\\f"
    else if c == '\n' then "\\n"
    else if c == '\r' then "\\r"
    else if c == '\t' then "\\t"
    else if c < ' ' then "\\u00" + [HexDigit(c as int / 16), HexDigit(c as int % 16)]
    else [c]
  }

  function EscapeString(s: bytes): bytes {
    if s == [] then [] else EscapeByte(s[0]) + EscapeString(s[1..])
  }

  function PrintString(s: bytes): bytes {
    "\"" + EscapeString(s) + "\""
  }

  function Print(v: Value): bytes
    decreases v, 1
  {
    match v
    case Null => "null"
    case Bool(b) => if b then "true" else "false"
    case Number(t) => t
    case String(s) => PrintString(s)
    case Array(items) => "[" + PrintItems(items, true)
    case Object(ms) => "{" + PrintMembers(ms, true)
  }

  function PrintItems(items: seq<Value>, first: bool): bytes
    decreases items, 0
  {
    if items == [] then "]"
    else
      var text := Print(items[0]) + PrintItems(items[1..], false);
      if first then text else "," + text
  }

  function PrintMembers(ms: seq<Member>, first: bool): bytes
    decreases ms, 0
  {
    if ms == [] then "}"
    else
      var text := PrintString(ms[0].key) + (":" + (Print(ms[0].value) + PrintMembers(ms[1..], false)));
      if first then text else "," + text
  }

  // ---------------------------------------------------------------- parsing

  const RECURSION_LIMIT: nat := 128

  /**
   How a number is read: the text that the value read prints as, or `None` when
   it is out of range. Integers keep their text; a float is read at best effort
   (`float_roundtrip` is not enabled), so even the text of a float may be read
   as another one, and nothing is assumed of this function beyond `Renumbers`.
   */
  type Renumber = bytes -> Option<bytes>

  /** What is printed for a number is a number. */
  ghost predicate Renumbers(renumber: Renumber) {
    forall t | renumber(t).Some? :: ValidNumber(renumber(t).value)
  }

  predicate IsSpace(c: byte) {
    c == ' ' || c == '\n' || c == '\t' || c == '\r'
  }

  function SkipSpace(s: bytes): (r: bytes)
    ensures |r| <= |s|
  {
    if s != [] && IsSpace(s[0]) then SkipSpace(s[1..]) else s
  }

  function HexValue(c: byte): (r: Option<nat>)
    ensures r.Some? ==> r.value < 16
  {
    if IsDigit(c) then Some(c as int - '0' as int)
    else if 'a' <= c <= 'f' then Some(c as int - 'a' as int + 10)
    else if 'A' <= c <= 'F' then Some(c as int - 'A' as int + 10)
    else None
  }

  /** Four hexadecimal digits at the head of `s`. */
  function Hex4(s: bytes): (r: Option<nat>)
    ensures r.Some? ==> |s| >= 4 && r.value < 0x10000
  {
    if |s| < 4 then None
    else
      var a :- HexValue(s[0]);
      var b :- HexValue(s[1]);
      var c :- HexValue(s[2]);
      var d :- HexValue(s[3]);
      Some(((a * 16 + b) * 16 + c) * 16 + d)
  }

  function Utf8Encode(cp: nat): bytes
    requires cp < 0x110000
  {
    if cp < 0x80 then [cp as char]
    else if cp < 0x800 then [(0xC0 + cp / 0x40) as char, (0x80 + cp % 0x40) as char]
    else if cp < 0x10000 then
      [(0xE0 + cp / 0x1000) as char, (0x80 + cp / 0x40 % 0x40) as char, (0x80 + cp % 0x40) as char]
    else
      [(0xF0 + cp / 0x40000) as char, (0x80 + cp / 0x1000 % 0x40) as char,
       (0x80 + cp / 0x40 % 0x40) as char, (0x80 + cp % 0x40) as char]
  }

  /** The code point of a `\u` escape whose digits start `s`, and what follows it. */
  function ParseUnicodeEscape(s: bytes): (r: Option<(nat, bytes)>)
    ensures r.Some? ==> r.value.0 < 0x110000 && |r.value.1| < |s|
  {
    var n :- Hex4(s);
    if 0xDC00 <= n < 0xE000 then None
    else if 0xD800 <= n < 0xDC00 then
      if |s| >= 6 && s[4] == '\\' && s[5] == 'u' then
        var m :- Hex4(s[6..]);
        if 0xDC00 <= m < 0xE000 then Some((0x10000 + (n - 0xD800) * 0x400 + (m - 0xDC00), s[10..])) else None
      else None
    else Some((n, s[4..]))
  }

  /** The content of a string up to its closing quote, and what follows the quote. */
  function ParseStringBody(s: bytes): (r: Option<(bytes, bytes)>)
    ensures r.Some? ==> |r.value.1| < |s|
    decreases |s|
  {
    if s == [] then None
    else if s[0] == '"' then Some(([], s[1..]))
    else if s[0] < ' ' then None
    else if s[0] != '\\' then
      var (body, rest) :- ParseStringBody(s[1..]);
      Some(([s[0]] + body, rest))
    else if |s| < 2 then None
    else if s[1] == 'u' then
      var (cp, after) :- ParseUnicodeEscape(s[2..]);
      var (body, rest) :- ParseStringBody(after);
      Some((Utf8Encode(cp) + body, rest))
    else
      var c :- SimpleEscape(s[1]);
      var (body, rest) :- ParseStringBody(s[2..]);
      Some(([c] + body, rest))
  }

  function SimpleEscape(c: byte): Option<byte> {
    if c == '"' || c == '\\' || c == '/' then Some(c)
    else if c == 'b' then Some('\U{08}')
    else if c == 'f' then Some('\U{0C}')
    else if c == 'n' then Some('\n')
    else if c == 'r' then Some('\r')
    else if c == 't' then Some('\t')
    else None
  }

  function ParseString(s: bytes): (r: Option<(bytes, bytes)>)
    ensures r.Some? ==> |r.value.1| < |s|
  {
    var (body, rest) :- ParseStringBody(s);
    if ValidUtf8(body) then Some((body, rest)) else None
  }

  function ParseValue(s: bytes, limit: nat, renumber: Renumber): (r: Option<(Value, bytes)>)
    ensures r.Some? ==> |r.value.1| < |s|
    decreases |s|, 0
  {
    var s := SkipSpace(s);
    if s == [] then None
    else if s[0] == 'n' then
      if "null" <= s then Some((Null, s[4..])) else None
    else if s[0] == 't' then
      if "true" <= s then Some((Bool(true), s[4..])) else None
    else if s[0] == 'f' then
      if "false" <= s then Some((Bool(false), s[5..])) else None
    else if s[0] == '"' then
      var (body, rest) :- ParseString(s[1..]);
      Some((String(body), rest))
    else if s[0] == '-' || IsDigit(s[0]) then
      var t := NumberToken(s);
      if !ValidNumber(t) then None
      else
        var u :- renumber(t);
        Some((Number(u), s[|t|..]))
    else if s[0] == '[' && limit > 1 then ParseArray(s[1..], limit - 1, renumber)
    else if s[0] == '{' && limit > 1 then ParseObject(s[1..], limit - 1, renumber)
    else None
  }

  /** An array, after its opening bracket. */
  function ParseArray(s: bytes, limit: nat, renumber: Renumber): (r: Option<(Value, bytes)>)
    ensures r.Some? ==> |r.value.1| < |s|
    decreases |s|, 2
  {
    var u := SkipSpace(s);
    if u != [] && u[0] == ']' then Some((Array([]), u[1..]))
    else
      var (items, rest) :- ParseItems(u, limit, renumber);
      Some((Array(items), rest))
  }

  /** An object, after its opening brace; a repeated key overwrites. */
  function ParseObject(s: bytes, limit: nat, renumber: Renumber): (r: Option<(Value, bytes)>)
    ensures r.Some? ==> |r.value.1| < |s|
    decreases |s|, 2
  {
    var u := SkipSpace(s);
    if u != [] && u[0] == '}' then Some((Object([]), u[1..]))
    else
      var (ms, rest) :- ParseMembers(u, limit, renumber);
      Some((Object(InsertAll([], ms)), rest))
  }

  function ParseItems(s: bytes, limit: nat, renumber: Renumber): (r: Option<(seq<Value>, bytes)>)
    ensures r.Some? ==> |r.value.1| < |s|
    decreases |s|, 1
  {
    var (v, after) :- ParseValue(s, limit, renumber);
    var u := SkipSpace(after);
    if u == [] then None
    else if u[0] == ']' then Some(([v], u[1..]))
    else if u[0] == ',' then
      var (items, rest) :- ParseItems(u[1..], limit, renumber);
      Some(([v] + items, rest))
    else None
  }

  function ParseMembers(s: bytes, limit: nat, renumber: Renumber): (r: Option<(seq<Member>, bytes)>)
    ensures r.Some? ==> |r.value.1| < |s|
    decreases |s|, 1
  {
    var s := SkipSpace(s);
    if s == [] || s[0] != '"' then None
    else
      var (key, after) :- ParseString(s[1..]);
      var u := SkipSpace(after);
      if u == [] || u[0] != ':' then None
      else
        var (v, after) :- ParseValue(u[1..], limit, renumber);
        ParseMoreMembers(Member(key, v), after, limit, renumber)
  }

  /** The rest of an object after its member `m`. */
  function ParseMoreMembers(m: Member, s: bytes, limit: nat, renumber: Renumber): (r: Option<(seq<Member>, bytes)>)
    ensures r.Some? ==> |r.value.1| < |s|
    decreases |s|, 2
  {
    var u := SkipSpace(s);
    if u == [] then None
    else if u[0] == '}' then Some(([m], u[1..]))
    else if u[0] == ',' then
      var (ms, rest) :- ParseMembers(u[1..], limit, renumber);
      Some(([m] + ms, rest))
    else None
  }

  /** `serde_json::from_slice::<Value>`. */
  function Parse(s: bytes, renumber: Renumber): Option<Value> {
    var (v, rest) :- ParseValue(s, RECURSION_LIMIT, renumber);
    if SkipSpace(rest) == [] then Some(v) else None
  }

  // ----------------------------------------------------------- reading once more

  /** The tree with every number read from its text again; `None` if one is out of range. */
  function Reread(v: Value, renumber: Renumber): Option<Value>
    decreases v, 1
  {
    match v
    case Number(t) =>
      var u :- renumber(t);
      Some(Number(u))
    case Array(items) =>
      var r :- RereadItems(items, renumber);
      Some(Array(r))
    case Object(ms) =>
      var r :- RereadMembers(ms, renumber);
      Some(Object(r))
    case _ => Some(v)
  }

  function RereadItems(items: seq<Value>, renumber: Renumber): Option<seq<Value>>
    decreases items, 0
  {
    if items == [] then Some([])
    else
      var v :- Reread(items[0], renumber);
      var rest :- RereadItems(items[1..], renumber);
      Some([v] + rest)
  }

  function RereadMembers(ms: seq<Member>, renumber: Renumber): Option<seq<Member>>
    decreases ms, 0
  {
    if ms == [] then Some([])
    else
      var v :- Reread(ms[0].value, renumber);
      var rest :- RereadMembers(ms[1..], renumber);
      Some([Member(ms[0].key, v)] + rest)
  }

  /** Every number of the tree is read back as itself. */
  ghost predicate Settled(v: Value, renumber: Renumber) {
    match v
    case Number(t) => renumber(t) == Some(t)
    case Array(items) => forall i | 0 <= i < |items| :: Settled(items[i], renumber)
    case Object(ms) => forall i | 0 <= i < |ms| :: Settled(ms[i].value, renumber)
    case _ => true
  }
}
