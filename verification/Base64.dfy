/** The standard padded base64 alphabet and codec (section 4 of RFC 4648). */
module Base64 {
  import opened Wrappers
  import opened Bytes

  function SextetChar(d: nat): (c: byte)
    requires d < 64
    ensures Sextet(c) == Some(d) && c != '=' && c != ':' && c < '\U{80}'
  {
    if d < 26 then (d + 'A' as int) as char
    else if d < 52 then (d - 26 + 'a' as int) as char
    else if d < 62 then (d - 52 + '0' as int) as char
    else if d == 62 then '+'
    else '/'
  }

  function Sextet(c: byte): (r: Option<nat>)
    ensures r.Some? ==> r.value < 64 && c != '='
  {
    if 'A' <= c <= 'Z' then Some(c as int - 'A' as int)
    else if 'a' <= c <= 'z' then Some(c as int - 'a' as int + 26)
    else if '0' <= c <= '9' then Some(c as int - '0' as int + 52)
    else if c == '+' then Some(62)
    else if c == '/' then Some(63)
    else None
  }

  lemma SextetCharUnique(c: byte)
    requires Sextet(c).Some?
    ensures SextetChar(Sextet(c).value) == c
  {
  }

  /** Three bytes as four characters. */
  function EncodeGroup(a: byte, b: byte, c: byte): (t: bytes)
    ensures |t| == 4 && t[2] != '=' && t[3] != '='
  {
    var a, b, c := a as int, b as int, c as int;
    [SextetChar(a / 4), SextetChar(a % 4 * 16 + b / 16), SextetChar(b % 16 * 4 + c / 64), SextetChar(c % 64)]
  }

  /** The whole of `b` at once. */
  function Encode(b: bytes): bytes
    decreases |b|
  {
    if b == [] then []
    else if |b| == 1 then EncodeGroup(b[0], '\0', '\0')[..2] + "=="
    else if |b| == 2 then EncodeGroup(b[0], b[1], '\0')[..3] + "="
    else EncodeGroup(b[0], b[1], b[2]) + Encode(b[3..])
  }

  /** Four characters without padding as three bytes. */
  function DecodeGroup(t: bytes): (r: Option<bytes>)
    requires |t| == 4
    ensures r.Some? ==> |r.value| == 3
  {
    var a :- Sextet(t[0]);
    var b :- Sextet(t[1]);
    var c :- Sextet(t[2]);
    var d :- Sextet(t[3]);
    Some([(a * 4 + b / 16) as char, (b % 16 * 16 + c / 4) as char, (c % 4 * 64 + d) as char])
  }

  /** The last four characters: canonical padding, and no stray bits in front of it. */
  function DecodeFinal(t: bytes): (r: Option<bytes>)
    requires |t| == 4
    ensures r.Some? ==> |r.value| == if t[3] != '=' then 3 else if t[2] != '=' then 2 else 1
  {
    if t[3] != '=' then DecodeGroup(t)
    else if t[2] != '=' then
      var g :- DecodeGroup([t[0], t[1], t[2], 'A']);
      if g[2] == '\0' then Some(g[..2]) else None
    else
      var g :- DecodeGroup([t[0], t[1], 'A', 'A']);
      if g[1] == '\0' then Some(g[..1]) else None
  }

  /** The one-shot decoder; `None` is its error. */
  function Decode(t: bytes): Option<bytes>
    decreases |t|
  {
    if t == [] then Some([])
    else if |t| < 4 then None
    else if |t| == 4 then DecodeFinal(t)
    else
      var g :- DecodeGroup(t[..4]);
      var rest :- Decode(t[4..]);
      Some(g + rest)
  }

  lemma SextetsOfBytes(a: nat, b: nat, c: nat)
    requires a < 256 && b < 256 && c < 256
    ensures var p, q, r, s := a / 4, a % 4 * 16 + b / 16, b % 16 * 4 + c / 64, c % 64;
            p < 64 && q < 64 && r < 64 && p * 4 + q / 16 == a && q % 16 * 16 + r / 4 == b && r % 4 * 64 + s == c
  {
  }

  lemma BytesOfSextets(p: nat, q: nat, r: nat, s: nat)
    requires p < 64 && q < 64 && r < 64 && s < 64
    ensures var a, b, c := p * 4 + q / 16, q % 16 * 16 + r / 4, r % 4 * 64 + s;
            a / 4 == p && a % 4 * 16 + b / 16 == q && b % 16 * 4 + c / 64 == r && c % 64 == s
  {
  }

  lemma EncodeGroupDecodes(a: byte, b: byte, c: byte)
    ensures DecodeGroup(EncodeGroup(a, b, c)) == Some([a, b, c])
  {
    SextetsOfBytes(a as int, b as int, c as int);
  }

  lemma DecodeGroupEncodes(t: bytes)
    requires |t| == 4 && DecodeGroup(t).Some?
    ensures var g := DecodeGroup(t).value; EncodeGroup(g[0], g[1], g[2]) == t
  {
    SextetCharUnique(t[0]);
    SextetCharUnique(t[1]);
    SextetCharUnique(t[2]);
    SextetCharUnique(t[3]);
    BytesOfSextets(Sextet(t[0]).value, Sextet(t[1]).value, Sextet(t[2]).value, Sextet(t[3]).value);
  }

  lemma {:induction false} EncodeAppend(a: bytes, b: bytes)
    requires |a| % 3 == 0
    ensures Encode(a + b) == Encode(a) + Encode(b)
    decreases |a|
  {
    if a == [] {
      assert a + b == b;
    } else {
      assert (a + b)[3..] == a[3..] + b;
      EncodeAppend(a[3..], b);
    }
  }

  predicate IsTextChar(c: byte) {
    c == '=' || Sextet(c).Some?
  }

  ghost predicate IsText(t: bytes) {
    forall i | 0 <= i < |t| :: IsTextChar(t[i])
  }

  lemma GroupText(a: byte, b: byte, c: byte)
    ensures IsText(EncodeGroup(a, b, c))
  {
  }

  lemma ShortText(b: bytes)
    requires |b| < 3
    ensures |Encode(b)| == (|b| + 2) / 3 * 4 && IsText(Encode(b))
  {
    if b != [] {
      GroupText(b[0], if |b| == 2 then b[1] else '\0', '\0');
    }
  }

  lemma JoinedText(s: bytes, t: bytes)
    requires IsText(s) && IsText(t)
    ensures IsText(s + t)
  {
  }

  lemma EncodeStep(b: bytes)
    requires |b| >= 3
    ensures Encode(b) == EncodeGroup(b[0], b[1], b[2]) + Encode(b[3..])
  {
  }

  lemma {:induction false} EncodedLength(b: bytes)
    ensures |Encode(b)| == (|b| + 2) / 3 * 4
    decreases |b|
  {
    if |b| < 3 {
      ShortText(b);
    } else {
      EncodeStep(b);
      EncodedLength(b[3..]);
      assert (|b| + 2) / 3 == (|b| - 1) / 3 + 1;
    }
  }

  lemma {:induction false} EncodedAlphabet(b: bytes)
    ensures IsText(Encode(b))
    decreases |b|
  {
    if |b| < 3 {
      ShortText(b);
    } else {
      EncodeStep(b);
      EncodedAlphabet(b[3..]);
      GroupText(b[0], b[1], b[2]);
      JoinedText(EncodeGroup(b[0], b[1], b[2]), Encode(b[3..]));
    }
  }

  lemma FourfoldLength(n: nat)
    ensures n * 4 % 4 == 0
  {
  }

  /** The length of an encoding, and the alphabet it is written in. */
  lemma EncodedText(b: bytes)
    ensures |Encode(b)| == (|b| + 2) / 3 * 4 && |Encode(b)| % 4 == 0 && IsText(Encode(b))
  {
    EncodedLength(b);
    EncodedAlphabet(b);
    FourfoldLength((|b| + 2) / 3);
  }

  /** Base64 text is ASCII, is no URL and needs no escape inside a JSON string. */
  lemma TextIsPlain(t: bytes)
    requires IsText(t)
    ensures forall i | 0 <= i < |t| :: ' ' <= t[i] < '\U{80}' && t[i] != ':' && t[i] != '"' && t[i] != '\\'
  {
  }

  lemma EncodedByteDecodes(a: byte)
    ensures Decode(Encode([a])) == Some([a])
  {
    var g, t := EncodeGroup(a, '\0', '\0'), Encode([a]);
    EncodeGroupDecodes(a, '\0', '\0');
    assert t == g[..2] + "==" && |t| == 4;
    assert [t[0], t[1], 'A', 'A'] == g;
    assert [a, '\0', '\0'][..1] == [a];
  }

  lemma EncodedPairDecodes(a: byte, b: byte)
    ensures Decode(Encode([a, b])) == Some([a, b])
  {
    var g, t := EncodeGroup(a, b, '\0'), Encode([a, b]);
    EncodeGroupDecodes(a, b, '\0');
    assert t == g[..3] + "=" && |t| == 4;
    assert t[2] == g[2] && g[2] != '=';
    assert [t[0], t[1], t[2], 'A'] == g;
    assert [a, b, '\0'][..2] == [a, b];
  }

  lemma DecodePrepend(g: bytes, t: bytes)
    requires |g| == 4 && DecodeGroup(g).Some? && g[3] != '='
    requires Decode(t).Some? && |t| % 4 == 0
    ensures Decode(g + t) == Some(DecodeGroup(g).value + Decode(t).value)
  {
    if t == [] {
      assert g + t == g && DecodeGroup(g).value + [] == DecodeGroup(g).value;
    } else {
      assert (g + t)[..4] == g && (g + t)[4..] == t;
    }
  }

  lemma EncodedStepDecodes(b: bytes, t: bytes)
    requires |b| >= 3 && t == Encode(b[3..]) && Decode(t) == Some(b[3..])
    ensures Decode(EncodeGroup(b[0], b[1], b[2]) + t) == Some(b)
  {
    EncodeGroupDecodes(b[0], b[1], b[2]);
    EncodedText(b[3..]);
    DecodePrepend(EncodeGroup(b[0], b[1], b[2]), t);
    assert b == [b[0], b[1], b[2]] + b[3..];
  }

  /** Decoding undoes encoding. */
  lemma {:induction false} DecodeEncode(b: bytes)
    ensures Decode(Encode(b)) == Some(b)
    decreases |b|
  {
    if |b| == 1 {
      EncodedByteDecodes(b[0]);
      assert b == [b[0]];
    } else if |b| == 2 {
      EncodedPairDecodes(b[0], b[1]);
      assert b == [b[0], b[1]];
    } else if |b| >= 3 {
      DecodeEncode(b[3..]);
      EncodedStepDecodes(b, Encode(b[3..]));
    }
  }

  /** Every accepted text is the canonical encoding of what it decodes to. */
  lemma {:induction false} EncodeDecode(t: bytes)
    requires Decode(t).Some?
    ensures Encode(Decode(t).value) == t
    decreases |t|
  {
    if |t| == 4 {
      if t[3] != '=' {
        DecodeGroupEncodes(t);
        assert Decode(t).value[3..] == [];
      } else if t[2] != '=' {
        DecodeGroupEncodes([t[0], t[1], t[2], 'A']);
      } else {
        DecodeGroupEncodes([t[0], t[1], 'A', 'A']);
      }
    } else if |t| > 4 {
      DecodeGroupEncodes(t[..4]);
      EncodeDecode(t[4..]);
      var b := Decode(t).value;
      assert b[..3] == DecodeGroup(t[..4]).value && b[3..] == Decode(t[4..]).value;
    }
  }

  /** How many padding characters end `t`, counting at most two. */
  function Padding(t: bytes): nat {
    if t == [] || t[|t| - 1] != '=' then 0
    else if |t| == 1 || t[|t| - 2] != '=' then 1
    else 2
  }

  lemma FinalLength(t: bytes)
    requires |t| == 4 && DecodeFinal(t).Some?
    ensures |DecodeFinal(t).value| == 3 - Padding(t)
  {
  }

  lemma {:induction false} DecodedLength(t: bytes)
    requires Decode(t).Some?
    ensures |t| % 4 == 0 && |Decode(t).value| == |t| / 4 * 3 - Padding(t)
    decreases |t|
  {
    if t == [] {
    } else if |t| == 4 {
      FinalLength(t);
    } else {
      DecodedLength(t[4..]);
      assert Padding(t) == Padding(t[4..]);
      assert |t| / 4 == |t[4..]| / 4 + 1;
    }
  }

  /**
   Cutting a text at a multiple of four characters: the whole decodes exactly
   when both parts do and the first part does not end in padding.
   */
  lemma {:induction false} DecodeAppend(s: bytes, t: bytes)
    requires |s| % 4 == 0 && s != [] && t != []
    ensures Decode(s + t).Some? <==> Decode(s).Some? && s[|s| - 1] != '=' && Decode(t).Some?
    ensures Decode(s + t).Some? ==> Decode(s + t).value == Decode(s).value + Decode(t).value
    decreases |s|
  {
    var w := s + t;
    if |w| < 8 {
      assert |s| == 4 && |t| < 4;
    }
    assert w[..4] == s[..4];
    if |s| == 4 {
      assert w[4..] == t && s[..4] == s;
    } else {
      assert w[4..] == s[4..] + t;
      DecodeAppend(s[4..], t);
    }
  }

  // ----------------------------------------------------------- which text it is

  /** The alphabet of table 1 of RFC 4648. */
  const ALPHABET: string := "ABCDEFGHIJKLMNOPQRSTUVWXYZ" + "abcdefghijklmnopqrstuvwxyz" + "0123456789" + "+/"

  ghost predicate IsDigits(t: bytes, alphabet: string) {
    forall i | 0 <= i < |t| :: t[i] in alphabet
  }

  /** Where a character stands in the alphabet. */
  ghost function Place(c: byte, alphabet: string): (d: nat)
    requires c in alphabet
    ensures d < |alphabet| && alphabet[d] == c
  {
    var d :| 0 <= d < |alphabet| && alphabet[d] == c;
    d
  }

  /** The number that digits of the alphabet spell in base 64. */
  ghost function InBase64(t: bytes, alphabet: string): nat
    requires IsDigits(t, alphabet)
  {
    if t == [] then 0
    else
      var n := |t| - 1;
      64 * InBase64(t[..n], alphabet) + Place(t[n], alphabet)
  }

  /** The number that bytes spell in base 256. */
  function InBase256(b: bytes): nat {
    if b == [] then 0
    else
      var n := |b| - 1;
      256 * InBase256(b[..n]) + b[n] as int
  }

  /** How many padding characters a text for `n` bytes ends in. */
  function PaddingFor(n: nat): nat {
    (3 - n % 3) % 3
  }

  /**
   The text of section 4 of RFC 4648: digits that spell the bytes, shifted by
   two bits a padding character, then the padding; a multiple of four in all.
   */
  ghost predicate IsTextIn(alphabet: string, t: bytes, b: bytes) {
    var padding := PaddingFor(|b|);
    && 3 * |t| == 4 * (|b| + padding) && padding <= |t|
    && IsDigits(t[..|t| - padding], alphabet)
    && InBase64(t[..|t| - padding], alphabet) == Shifted(InBase256(b), padding)
    && forall i | |t| - padding <= i < |t| :: t[i] == '='
  }

  function Shifted(n: nat, padding: nat): nat {
    if padding == 0 then n else if padding == 1 then 4 * n else 16 * n
  }

  ghost predicate IsTextOf(t: bytes, b: bytes) {
    IsTextIn(ALPHABET, t, b)
  }

  lemma LettersAndDigits(d: nat)
    requires d < 26
    ensures "ABCDEFGHIJKLMNOPQRSTUVWXYZ"[d] as int == d + 'A' as int
    ensures "abcdefghijklmnopqrstuvwxyz"[d] as int == d + 'a' as int
    ensures d < 10 ==> "0123456789"[d] as int == d + '0' as int
  {
    var upper, lower, digits := "ABCDEFGHIJKLMNOPQRSTUVWXYZ", "abcdefghijklmnopqrstuvwxyz", "0123456789";
    assert upper[d] as int == d + 'A' as int;
    assert lower[d] as int == d + 'a' as int;
    assert d < 10 ==> digits[d] as int == d + '0' as int;
  }

  lemma SextetCharInAlphabet(d: nat)
    requires d < 64
    ensures SextetChar(d) == ALPHABET[d]
  {
    if d < 26 {
      LettersAndDigits(d);
    } else if d < 52 {
      LettersAndDigits(d - 26);
    } else if d < 62 {
      LettersAndDigits(d - 52);
    }
  }

  /** The sextet characters are those of the alphabet, in order. */
  ghost predicate IsAlphabet(alphabet: string) {
    |alphabet| == 64 && forall d | 0 <= d < 64 :: alphabet[d] == SextetChar(d)
  }

  lemma SextetCharPlace(d: nat, alphabet: string)
    requires d < 64 && IsAlphabet(alphabet)
    ensures SextetChar(d) in alphabet && Place(SextetChar(d), alphabet) == d
  {
    assert alphabet[d] in alphabet;
    var e := Place(SextetChar(d), alphabet);
    assert Sextet(SextetChar(d)) == Some(d) && Sextet(SextetChar(e)) == Some(e);
  }

  lemma DigitsSnoc(t: bytes, d: nat, alphabet: string)
    requires IsDigits(t, alphabet) && d < 64 && IsAlphabet(alphabet)
    ensures var u := t + [SextetChar(d)];
            IsDigits(u, alphabet) && InBase64(u, alphabet) == 64 * InBase64(t, alphabet) + d
  {
    SextetCharPlace(d, alphabet);
    assert (t + [SextetChar(d)])[..|t|] == t;
  }

  lemma BytesSnoc(b: bytes, c: byte)
    ensures InBase256(b + [c]) == 256 * InBase256(b) + c as int
  {
    assert (b + [c])[..|b|] == b;
  }

  /** The number that two, three and four digits behind others spell. */
  lemma TwoDigits(t: bytes, p: nat, q: nat, alphabet: string)
    requires IsDigits(t, alphabet) && p < 64 && q < 64 && IsAlphabet(alphabet)
    ensures var u := t + [SextetChar(p), SextetChar(q)];
            IsDigits(u, alphabet) && InBase64(u, alphabet) == 64 * (64 * InBase64(t, alphabet) + p) + q
  {
    DigitsSnoc(t, p, alphabet);
    DigitsSnoc(t + [SextetChar(p)], q, alphabet);
    assert t + [SextetChar(p)] + [SextetChar(q)] == t + [SextetChar(p), SextetChar(q)];
  }

  lemma ThreeDigits(t: bytes, p: nat, q: nat, r: nat, alphabet: string)
    requires IsDigits(t, alphabet) && p < 64 && q < 64 && r < 64 && IsAlphabet(alphabet)
    ensures var u := t + [SextetChar(p), SextetChar(q), SextetChar(r)];
            && IsDigits(u, alphabet)
            && InBase64(u, alphabet) == 64 * (64 * (64 * InBase64(t, alphabet) + p) + q) + r
  {
    TwoDigits(t, p, q, alphabet);
    var two := t + [SextetChar(p), SextetChar(q)];
    DigitsSnoc(two, r, alphabet);
    assert two + [SextetChar(r)] == t + [SextetChar(p), SextetChar(q), SextetChar(r)];
  }

  lemma FourDigits(t: bytes, p: nat, q: nat, r: nat, s: nat, alphabet: string)
    requires IsDigits(t, alphabet) && p < 64 && q < 64 && r < 64 && s < 64 && IsAlphabet(alphabet)
    ensures var u := t + [SextetChar(p), SextetChar(q), SextetChar(r), SextetChar(s)];
            && IsDigits(u, alphabet)
            && InBase64(u, alphabet) == 64 * (64 * (64 * (64 * InBase64(t, alphabet) + p) + q) + r) + s
  {
    ThreeDigits(t, p, q, r, alphabet);
    var three := t + [SextetChar(p), SextetChar(q), SextetChar(r)];
    DigitsSnoc(three, s, alphabet);
    assert three + [SextetChar(s)] == t + [SextetChar(p), SextetChar(q), SextetChar(r), SextetChar(s)];
  }

  /** The sextets of three bytes. */
  lemma SextetsSpell(n: nat, x: nat, y: nat, z: nat)
    requires x < 256 && y < 256 && z < 256
    ensures var p, q, r, s := x / 4, x % 4 * 16 + y / 16, y % 16 * 4 + z / 64, z % 64;
            && p < 64 && q < 64 && r < 64
            && 64 * (64 * (64 * (64 * n + p) + q) + r) + s == 256 * (256 * (256 * n + x) + y) + z
  {
  }

  lemma ThreeBytes(b: bytes, x: byte, y: byte, z: byte)
    ensures InBase256(b + [x, y, z]) == 256 * (256 * (256 * InBase256(b) + x as int) + y as int) + z as int
    ensures InBase256(b + [x, y]) == 256 * (256 * InBase256(b) + x as int) + y as int
  {
    BytesSnoc(b, x);
    BytesSnoc(b + [x], y);
    BytesSnoc(b + [x] + [y], z);
    assert b + [x] + [y] == b + [x, y] && b + [x] + [y] + [z] == b + [x, y, z];
  }

  /** A group behind digits. */
  lemma GroupSpells(t: bytes, n: nat, x: byte, y: byte, z: byte, alphabet: string)
    requires IsDigits(t, alphabet) && InBase64(t, alphabet) == n && IsAlphabet(alphabet)
    ensures var w := t + EncodeGroup(x, y, z);
            && IsDigits(w, alphabet)
            && InBase64(w, alphabet) == 256 * (256 * (256 * n + x as int) + y as int) + z as int
  {
    var a, b, c := x as int, y as int, z as int;
    SextetsSpell(n, a, b, c);
    FourDigits(t, a / 4, a % 4 * 16 + b / 16, b % 16 * 4 + c / 64, c % 64, alphabet);
  }

  lemma OneGroup(last: bytes)
    requires |last| == 3
    ensures Encode(last) == EncodeGroup(last[0], last[1], last[2])
  {
    assert last[3..] == [];
  }

  /** Whole groups spell the bytes. */
  lemma {:induction false} GroupsSpell(b: bytes, alphabet: string)
    requires |b| % 3 == 0 && IsAlphabet(alphabet)
    ensures IsDigits(Encode(b), alphabet) && InBase64(Encode(b), alphabet) == InBase256(b)
    decreases |b|
  {
    if b == [] {
    } else {
      var n := |b| - 3;
      var a, last := b[..n], b[n..];
      assert b == a + last && last == [b[n], b[n + 1], b[n + 2]];
      GroupsSpell(a, alphabet);
      EncodeAppend(a, last);
      OneGroup(last);
      GroupSpells(Encode(a), InBase256(a), last[0], last[1], last[2], alphabet);
      ThreeBytes(a, last[0], last[1], last[2]);
    }
  }

  lemma GroupArithmetic(k: nat)
    ensures PaddingFor(3 * k) == 0 && PaddingFor(3 * k + 1) == 2 && PaddingFor(3 * k + 2) == 1
    ensures (3 * k + 2) / 3 * 4 == 4 * k
  {
    assert (3 * k) % 3 == 0 && (3 * k + 1) % 3 == 1 && (3 * k + 2) % 3 == 2;
  }

  lemma WholeGroups(a: bytes)
    requires |a| % 3 == 0
    ensures PaddingFor(|a|) == 0 && PaddingFor(|a| + 1) == 2 && PaddingFor(|a| + 2) == 1
    ensures 3 * |Encode(a)| == 4 * |a|
  {
    GroupArithmetic(|a| / 3);
    EncodedLength(a);
  }

  /** Digits and padding make up a text. */
  lemma Padded(alphabet: string, digits: bytes, padding: bytes, b: bytes)
    requires |padding| == PaddingFor(|b|) && forall i | 0 <= i < |padding| :: padding[i] == '='
    requires 3 * (|digits| + |padding|) == 4 * (|b| + |padding|)
    requires IsDigits(digits, alphabet) && InBase64(digits, alphabet) == Shifted(InBase256(b), |padding|)
    ensures IsTextIn(alphabet, digits + padding, b)
  {
    assert (digits + padding)[..|digits|] == digits;
  }

  /** Digits with padding behind whole groups. */
  lemma LastGroup(alphabet: string, a: bytes, last: bytes, digits: bytes, padding: bytes)
    requires 3 * |Encode(a)| == 4 * |a| && Encode(a + last) == Encode(a) + (digits + padding)
    requires IsDigits(Encode(a) + digits, alphabet)
    requires InBase64(Encode(a) + digits, alphabet) == Shifted(InBase256(a + last), |padding|)
    requires 3 * (|digits| + |padding|) == 4 * (|last| + |padding|)
    requires |padding| == PaddingFor(|a| + |last|) && forall i | 0 <= i < |padding| :: padding[i] == '='
    ensures IsTextIn(alphabet, Encode(a + last), a + last)
  {
    Assoc(Encode(a), digits, padding);
    Padded(alphabet, Encode(a) + digits, padding, a + last);
  }

  lemma AlphabetIsOurs()
    ensures IsAlphabet(ALPHABET)
  {
    forall d | 0 <= d < 64 ensures ALPHABET[d] == SextetChar(d) {
      SextetCharInAlphabet(d);
    }
  }

  lemma OneByteDigits(x: byte) returns (p: nat, q: nat)
    ensures p < 64 && q < 64 && 64 * p + q == x as int * 16
    ensures Encode([x]) == [SextetChar(p), SextetChar(q)] + "=="
  {
    p, q := x as int / 4, x as int % 4 * 16;
  }

  lemma TwoByteDigits(x: byte, y: byte) returns (p: nat, q: nat, r: nat)
    ensures p < 64 && q < 64 && r < 64 && 64 * (64 * p + q) + r == (256 * x as int + y as int) * 4
    ensures Encode([x, y]) == [SextetChar(p), SextetChar(q), SextetChar(r)] + "="
  {
    p, q, r := x as int / 4, x as int % 4 * 16 + y as int / 16, y as int % 16 * 4;
  }

  lemma OneByteNumber(t: bytes, a: bytes, x: byte, p: nat, q: nat, alphabet: string)
    requires IsAlphabet(alphabet) && IsDigits(t, alphabet) && InBase64(t, alphabet) == InBase256(a)
    requires p < 64 && q < 64 && 64 * p + q == x as int * 16
    ensures var u := t + [SextetChar(p), SextetChar(q)];
            IsDigits(u, alphabet) && InBase64(u, alphabet) == Shifted(InBase256(a + [x]), 2)
  {
    TwoDigits(t, p, q, alphabet);
    BytesSnoc(a, x);
  }

  lemma TwoByteNumber(t: bytes, a: bytes, x: byte, y: byte, p: nat, q: nat, r: nat, alphabet: string)
    requires IsAlphabet(alphabet) && IsDigits(t, alphabet) && InBase64(t, alphabet) == InBase256(a)
    requires p < 64 && q < 64 && r < 64 && 64 * (64 * p + q) + r == (256 * x as int + y as int) * 4
    ensures var u := t + [SextetChar(p), SextetChar(q), SextetChar(r)];
            IsDigits(u, alphabet) && InBase64(u, alphabet) == Shifted(InBase256(a + [x, y]), 1)
  {
    ThreeDigits(t, p, q, r, alphabet);
    ThreeBytes(a, x, y, y);
  }

  /** One byte behind whole groups. */
  lemma OneByteSpells(a: bytes, last: bytes, alphabet: string)
    requires |a| % 3 == 0 && |last| == 1 && IsAlphabet(alphabet)
    ensures IsTextIn(alphabet, Encode(a + last), a + last)
  {
    assert last == [last[0]];
    GroupsSpell(a, alphabet);
    WholeGroups(a);
    EncodeAppend(a, last);
    var p, q := OneByteDigits(last[0]);
    OneByteNumber(Encode(a), a, last[0], p, q, alphabet);
    LastGroup(alphabet, a, last, [SextetChar(p), SextetChar(q)], "==");
  }

  /** Two bytes behind whole groups. */
  lemma TwoBytesSpell(a: bytes, last: bytes, alphabet: string)
    requires |a| % 3 == 0 && |last| == 2 && IsAlphabet(alphabet)
    ensures IsTextIn(alphabet, Encode(a + last), a + last)
  {
    assert last == [last[0], last[1]];
    GroupsSpell(a, alphabet);
    WholeGroups(a);
    EncodeAppend(a, last);
    var p, q, r := TwoByteDigits(last[0], last[1]);
    TwoByteNumber(Encode(a), a, last[0], last[1], p, q, r, alphabet);
    LastGroup(alphabet, a, last, [SextetChar(p), SextetChar(q), SextetChar(r)], "=");
  }

  lemma EncodeSpellsIn(b: bytes, alphabet: string)
    requires IsAlphabet(alphabet)
    ensures IsTextIn(alphabet, Encode(b), b)
  {
    var n := |b| / 3 * 3;
    if |b| == n {
      GroupsSpell(b, alphabet);
      WholeGroups(b);
      Padded(alphabet, Encode(b), [], b);
      assert Encode(b) + [] == Encode(b);
    } else {
      assert b == b[..n] + b[n..];
      if |b| == n + 1 {
        OneByteSpells(b[..n], b[n..], alphabet);
      } else {
        TwoBytesSpell(b[..n], b[n..], alphabet);
      }
    }
  }

  /** The encoding is such a text. */
  lemma EncodeSpells(b: bytes)
    ensures IsTextOf(Encode(b), b)
  {
    AlphabetIsOurs();
    EncodeSpellsIn(b, ALPHABET);
  }

  lemma {:induction false} SameDigits(s: bytes, t: bytes, alphabet: string)
    requires IsDigits(s, alphabet) && IsDigits(t, alphabet) && |alphabet| == 64
    requires |s| == |t| && InBase64(s, alphabet) == InBase64(t, alphabet)
    ensures s == t
    decreases |s|
  {
    if s == [] {
    } else {
      var n := |s| - 1;
      var c, d := Place(s[n], alphabet), Place(t[n], alphabet);
      assert c == d;
      SameDigits(s[..n], t[..n], alphabet);
      assert s == s[..n] + [s[n]] && t == t[..n] + [t[n]];
    }
  }

  lemma OneTextIn(alphabet: string, t: bytes, u: bytes, b: bytes)
    requires |alphabet| == 64 && IsTextIn(alphabet, t, b) && IsTextIn(alphabet, u, b)
    ensures t == u
  {
    var n := |t| - PaddingFor(|b|);
    SameDigits(t[..n], u[..n], alphabet);
    forall i | 0 <= i < |t| ensures t[i] == u[i] {
      assert i < n ==> t[i] == t[..n][i] && u[i] == u[..n][i];
    }
  }

  /** The encoding is the only such text of its bytes, and decoding accepts no other. */
  lemma OnlyTextOf(t: bytes, b: bytes)
    ensures IsTextOf(t, b) <==> t == Encode(b)
    ensures IsTextOf(t, b) <==> Decode(t) == Some(b)
  {
    EncodeSpells(b);
    DecodeEncode(b);
    if Decode(t) == Some(b) {
      EncodeDecode(t);
    }
    if IsTextOf(t, b) {
      AlphabetIsOurs();
      OneTextIn(ALPHABET, t, Encode(b), b);
    }
  }
}
