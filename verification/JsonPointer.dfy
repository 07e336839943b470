/** JSON pointers (sections 3 and 4 of RFC 6901) and the tree positions they name. */
module JsonPointer {
  import opened Wrappers
  import opened Bytes
  import opened Json

  /** Rust's `str::replace` for a one-byte pattern. */
  function ReplaceByte(s: bytes, from: byte, to: bytes): bytes {
    if s == [] then [] else (if s[0] == from then to else [s[0]]) + ReplaceByte(s[1..], from, to)
  }

  /** `escape_json_pointer_token`. */
  function EscapeToken(token: bytes): bytes {
    ReplaceByte(ReplaceByte(token, '~', "~0"), '/', "~1")
  }

  /** Section 4 of RFC 6901, read from the left. */
  function UnescapeToken(s: bytes): bytes {
    if |s| >= 2 && s[0] == '~' && (s[1] == '0' || s[1] == '1') then
      [if s[1] == '0' then '~' else '/'] + UnescapeToken(s[2..])
    else if s == [] then []
    else [s[0]] + UnescapeToken(s[1..])
  }

  /** `format!("{path}/{}", escape_json_pointer_token(key))`. */
  function Extend(path: bytes, token: bytes): bytes {
    path + ("/" + EscapeToken(token))
  }

  /** A position is the list of object keys and array indices that leads to it. */
  type Position = seq<bytes>

  function PointerFrom(base: bytes, p: Position): bytes
    decreases |p|
  {
    if p == [] then base else PointerFrom(Extend(base, p[0]), p[1..])
  }

  function Pointer(p: Position): bytes {
    PointerFrom("", p)
  }

  function IndexOfToken(token: bytes, n: nat): (r: Option<nat>)
    ensures r.Some? ==> r.value < n && Decimal(r.value) == token
    ensures r.None? ==> forall i: nat | i < n :: Decimal(i) != token
  {
    if n == 0 then None
    else if Decimal(n - 1) == token then Some(n - 1)
    else IndexOfToken(token, n - 1)
  }

  lemma IndexFound(i: nat, n: nat)
    requires i < n
    ensures IndexOfToken(Decimal(i), n) == Some(i)
  {
    var r := IndexOfToken(Decimal(i), n);
    if r.Some? {
      DecimalInjective(r.value, i);
    }
  }

  function Child(v: Value, token: bytes): Option<Value> {
    match v
    case Object(ms) => Lookup(ms, token)
    case Array(items) =>
      var i :- IndexOfToken(token, |items|);
      Some(items[i])
    case _ => None
  }

  /** The node at a position, if there is one. */
  function Node(v: Value, p: Position): Option<Value>
    decreases |p|
  {
    if p == [] then Some(v)
    else
      var c :- Child(v, p[0]);
      Node(c, p[1..])
  }

  // ------------------------------------------------------------- escaping

  lemma {:induction false} ReplaceAppend(a: bytes, b: bytes, from: byte, to: bytes)
    ensures ReplaceByte(a + b, from, to) == ReplaceByte(a, from, to) + ReplaceByte(b, from, to)
  {
    if a == [] {
      assert a + b == b;
    } else {
      assert (a + b)[1..] == a[1..] + b;
      ReplaceAppend(a[1..], b, from, to);
    }
  }

  lemma EscapeStep(token: bytes)
    requires token != []
    ensures EscapeToken(token) ==
            (if token[0] == '~' then "~0" else if token[0] == '/' then "~1" else [token[0]]) + EscapeToken(token[1..])
  {
    var c := token[0];
    var head := if c == '~' then "~0" else [c];
    ReplaceAppend(head, ReplaceByte(token[1..], '~', "~0"), '/', "~1");
    if c == '~' {
      assert ReplaceByte("~0", '/', "~1") == "~0" by {
        assert "~0"[1..] == "0";
        assert ReplaceByte("0", '/', "~1") == "0";
      }
    } else {
      assert head[1..] == [];
      assert ReplaceByte(head, '/', "~1") == if c == '/' then "~1" else [c];
    }
  }

  lemma {:induction false} UnescapeEscape(token: bytes)
    ensures UnescapeToken(EscapeToken(token)) == token
    ensures forall i | 0 <= i < |EscapeToken(token)| :: EscapeToken(token)[i] != '/'
  {
    if token == [] {
    } else {
      EscapeStep(token);
      UnescapeEscape(token[1..]);
      var e, rest := EscapeToken(token), EscapeToken(token[1..]);
      assert if token[0] == '~' || token[0] == '/' then e[2..] == rest else e[1..] == rest;
      assert token == [token[0]] + token[1..];
    }
  }

  lemma {:induction false} PlainTokenUnchanged(token: bytes)
    requires forall i | 0 <= i < |token| :: token[i] != '~' && token[i] != '/'
    ensures EscapeToken(token) == token
  {
    if token == [] {
    } else {
      EscapeStep(token);
      PlainTokenUnchanged(token[1..]);
      assert token == [token[0]] + token[1..];
    }
  }

  lemma PlainExtend(path: bytes, token: bytes)
    requires forall i | 0 <= i < |token| :: token[i] != '~' && token[i] != '/'
    ensures Extend(path, token) == path + ("/" + token)
  {
    PlainTokenUnchanged(token);
  }

  /** `format!("{path}/{index}")` needs no escaping. */
  lemma IndexTokenUnchanged(i: nat)
    ensures EscapeToken(Decimal(i)) == Decimal(i)
  {
    PlainTokenUnchanged(Decimal(i));
  }

  // ------------------------------------------------------------ injectivity

  lemma {:induction false} PointerFromSnoc(base: bytes, p: Position, token: bytes)
    ensures PointerFrom(base, p + [token]) == Extend(PointerFrom(base, p), token)
    decreases |p|
  {
    if p == [] {
      assert p + [token] == [token] && [token][1..] == [];
    } else {
      assert (p + [token])[1..] == p[1..] + [token];
      PointerFromSnoc(Extend(base, p[0]), p[1..], token);
    }
  }

  lemma {:induction false} PointerFromAppend(base: bytes, p: Position, q: Position)
    ensures PointerFrom(base, p + q) == PointerFrom(PointerFrom(base, p), q)
    decreases |p|
  {
    if p == [] {
      assert p + q == q;
    } else {
      assert (p + q)[1..] == p[1..] + q;
      PointerFromAppend(Extend(base, p[0]), p[1..], q);
    }
  }

  /** How many bytes follow the last slash. */
  function AfterLastSlash(w: bytes): nat
    decreases |w|
  {
    if w == [] || w[|w| - 1] == '/' then 0 else 1 + AfterLastSlash(w[..|w| - 1])
  }

  lemma {:induction false} AfterExtension(a: bytes, x: bytes)
    requires forall i | 0 <= i < |x| :: x[i] != '/'
    ensures AfterLastSlash(a + ("/" + x)) == |x|
    decreases |x|
  {
    if x == [] {
    } else {
      assert (a + ("/" + x))[..|a| + |x|] == a + ("/" + x[..|x| - 1]);
      AfterExtension(a, x[..|x| - 1]);
    }
  }

  /** The last slash of an extended path is the one the extension wrote. */
  lemma ExtendInjective(a: bytes, s: bytes, b: bytes, t: bytes)
    requires Extend(a, s) == Extend(b, t)
    ensures a == b && s == t
  {
    UnescapeEscape(s);
    UnescapeEscape(t);
    AfterExtension(a, EscapeToken(s));
    AfterExtension(b, EscapeToken(t));
    var w := Extend(a, s);
    assert a == w[..|a|] && b == w[..|b|];
    assert EscapeToken(s) == w[|a| + 1..] && EscapeToken(t) == w[|b| + 1..];
  }

  lemma PointerLast(p: Position)
    requires p != []
    ensures Pointer(p) == Extend(Pointer(p[..|p| - 1]), p[|p| - 1])
  {
    assert p == p[..|p| - 1] + [p[|p| - 1]];
    PointerFromSnoc("", p[..|p| - 1], p[|p| - 1]);
  }

  /** Different positions have different pointers, so no replacement can land on another node. */
  lemma {:induction false} PointerInjective(p: Position, q: Position)
    requires Pointer(p) == Pointer(q)
    ensures p == q
    decreases |p|
  {
    if p != [] { PointerLast(p); }
    if q != [] { PointerLast(q); }
    if p == [] || q == [] {
    } else {
      ExtendInjective(Pointer(p[..|p| - 1]), p[|p| - 1], Pointer(q[..|q| - 1]), q[|q| - 1]);
      PointerInjective(p[..|p| - 1], q[..|q| - 1]);
      assert p == p[..|p| - 1] + [p[|p| - 1]] && q == q[..|q| - 1] + [q[|q| - 1]];
    }
  }
}
