/**
 Byte strings. A Rust `String`, `Vec<u8>` or `Bytes` is a sequence of bytes;
 a byte is written as a character below 256, so ASCII literals read as text.
 */
module Bytes {

  type byte = c: char | c < '\U{100}'

  type bytes = seq<byte>

  predicate IsDigit(c: byte) {
    '0' <= c <= '9'
  }

  function DigitChar(d: nat): (c: byte)
    requires d < 10
    ensures IsDigit(c) && c as int == '0' as int + d
  {
    ('0' as int + d) as char
  }

  /** The decimal numeral Rust's `{index}` formatting prints. */
  function Decimal(n: nat): (s: bytes)
    ensures s != [] && forall i | 0 <= i < |s| :: IsDigit(s[i])
    decreases n
  {
    if n < 10 then [DigitChar(n)] else Decimal(n / 10) + [DigitChar(n % 10)]
  }

  lemma {:induction false} DecimalInjective(m: nat, n: nat)
    requires Decimal(m) == Decimal(n)
    ensures m == n
    decreases m
  {
    var s, t := Decimal(m), Decimal(n);
    assert s[|s| - 1] == DigitChar(m % 10) && t[|t| - 1] == DigitChar(n % 10);
    assert m % 10 == n % 10;
    if m < 10 || n < 10 {
    } else {
      assert s[..|s| - 1] == Decimal(m / 10) && t[..|t| - 1] == Decimal(n / 10);
      DecimalInjective(m / 10, n / 10);
    }
  }

  /** Rust's byte order on strings: lexicographic. */
  predicate LessEq(a: bytes, b: bytes) {
    a == [] || (b != [] && (a[0] < b[0] || (a[0] == b[0] && LessEq(a[1..], b[1..]))))
  }

  lemma {:induction false} LessEqTotal(a: bytes, b: bytes)
    ensures LessEq(a, b) || LessEq(b, a)
    ensures LessEq(a, b) && LessEq(b, a) ==> a == b
  {
    if a == [] || b == [] || a[0] != b[0] {
    } else {
      LessEqTotal(a[1..], b[1..]);
      assert a == [a[0]] + a[1..] && b == [b[0]] + b[1..];
    }
  }

  lemma {:induction false} LessEqTransitive(a: bytes, b: bytes, c: bytes)
    requires LessEq(a, b) && LessEq(b, c)
    ensures LessEq(a, c)
  {
    if a == [] || a[0] != b[0] || b[0] != c[0] {
    } else {
      LessEqTransitive(a[1..], b[1..], c[1..]);
    }
  }

  predicate StartsWith(s: bytes, prefix: bytes) {
    prefix <= s
  }

  predicate EndsWith(s: bytes, suffix: bytes) {
    |suffix| <= |s| && s[|s| - |suffix|..] == suffix
  }

  predicate Contains(s: bytes, word: bytes) {
    exists i | 0 <= i <= |s| :: word <= s[i..]
  }

  function LowerByte(c: byte): byte {
    if 'A' <= c <= 'Z' then (c as int + 32) as char else c
  }

  /** `to_ascii_lowercase`. */
  function Lower(s: bytes): (r: bytes)
    ensures |r| == |s|
  {
    seq(|s|, i requires 0 <= i < |s| => LowerByte(s[i]))
  }

  predicate Ascii(s: bytes) {
    forall i | 0 <= i < |s| :: s[i] < '\U{80}'
  }

  predicate Continuation(s: bytes, k: nat) {
    k < |s| && '\U{80}' <= s[k] <= '\U{BF}'
  }

  /** The number of bytes of the UTF-8 sequence at the head of `s`, 0 if it is malformed. */
  function Utf8Step(s: bytes): (n: nat)
    requires s != []
    ensures n <= |s|
  {
    var c := s[0];
    if c < '\U{80}' then 1
    else if '\U{C2}' <= c <= '\U{DF}' && Continuation(s, 1) then 2
    else if '\U{E0}' <= c <= '\U{EF}' && Continuation(s, 1) && Continuation(s, 2)
            && (c == '\U{E0}' ==> '\U{A0}' <= s[1]) && (c == '\U{ED}' ==> s[1] <= '\U{9F}') then 3
    else if '\U{F0}' <= c <= '\U{F4}' && Continuation(s, 1) && Continuation(s, 2) && Continuation(s, 3)
            && (c == '\U{F0}' ==> '\U{90}' <= s[1]) && (c == '\U{F4}' ==> s[1] <= '\U{8F}') then 4
    else 0
  }

  /** What `str::from_utf8` accepts. */
  predicate ValidUtf8(s: bytes) {
    s == [] || (Utf8Step(s) > 0 && ValidUtf8(s[Utf8Step(s)..]))
  }

  lemma {:induction false} AsciiIsUtf8(s: bytes)
    requires Ascii(s)
    ensures ValidUtf8(s)
  {
    if s == [] {
    } else {
      AsciiIsUtf8(s[1..]);
    }
  }

  /** What a digest such as SHA-256 is taken to be where keys need it. */
  ghost predicate Injective(digest: bytes -> bytes) {
    forall x, y | digest(x) == digest(y) :: x == y
  }
}
