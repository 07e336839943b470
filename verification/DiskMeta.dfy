/** The text of a `.json` file of the disk layer of `src/cache.rs`. */
module DiskMeta {
  import opened Wrappers
  import opened Bytes
  import opened Json
  import opened JsonRoundTrip

  const TWO_64: nat := 0x1_0000_0000_0000_0000

  datatype DiskMeta = DiskMeta(mimeType: bytes, expiresAt: nat, sizeBytes: nat)

  /** What the fields' own types guarantee: a string and two `u64`. */
  predicate InRange(m: DiskMeta) {
    ValidUtf8(m.mimeType) && m.expiresAt < TWO_64 && m.sizeBytes < TWO_64
  }

  const MIME_TYPE: bytes := "mime_" + "type"
  const EXPIRES_AT: bytes := "expires_at" + "_unix_ms"
  const SIZE_BYTES: bytes := "size_" + "bytes"

  function Tree(m: DiskMeta): Value {
    Object([
      Member(MIME_TYPE, String(m.mimeType)),
      Member(EXPIRES_AT, Number(Decimal(m.expiresAt))),
      Member(SIZE_BYTES, Number(Decimal(m.sizeBytes)))])
  }

  /** `to_vec`. */
  function Text(m: DiskMeta): bytes {
    Print(Tree(m))
  }

  /** The number that these digits spell. */
  function Spelled(digits: bytes): nat
    requires forall i | 0 <= i < |digits| :: IsDigit(digits[i])
  {
    if digits == [] then 0
    else
      var n := |digits| - 1;
      assert IsDigit(digits[n]);
      10 * Spelled(digits[..n]) + (digits[n] as int - '0' as int)
  }

  function ReadU64(v: Value): Option<nat> {
    if !v.Number? || v.text == [] || exists i | 0 <= i < |v.text| :: !IsDigit(v.text[i]) then None
    else if Spelled(v.text) < TWO_64 then Some(Spelled(v.text))
    else None
  }

  /** `from_slice::<DiskMeta>`, as far as it reads what `to_vec` writes. */
  function Read(text: bytes): Option<DiskMeta> {
    var v :- Parse(text, t => Some(t));
    if !v.Object? then None
    else
      var mimeType :- Lookup(v.members, MIME_TYPE);
      var expiresAt :- Lookup(v.members, EXPIRES_AT);
      var sizeBytes :- Lookup(v.members, SIZE_BYTES);
      if !mimeType.String? then None
      else
        var expires :- ReadU64(expiresAt);
        var size :- ReadU64(sizeBytes);
        Some(DiskMeta(mimeType.s, expires, size))
  }

  // ---------------------------------------------------------------------- numerals

  lemma {:induction false} DecimalSpells(n: nat)
    ensures Spelled(Decimal(n)) == n
  {
    var s := Decimal(n);
    if n < 10 {
      assert s[..0] == [];
    } else {
      assert s[..|s| - 1] == Decimal(n / 10);
      DecimalSpells(n / 10);
    }
  }

  lemma {:induction false} NoLeadingZero(n: nat)
    ensures Decimal(n)[0] == '0' ==> n == 0
  {
    if n < 10 {
    } else {
      NoLeadingZero(n / 10);
    }
  }

  lemma DecimalIsNumber(n: nat)
    ensures ValidNumber(Decimal(n))
  {
    var t := Decimal(n);
    NoLeadingZero(n);
    DigitsAreSkipped(t);
    if n == 0 {
      assert t == "0";
    }
  }

  // --------------------------------------------------------------------- the text

  lemma NamesDiffer()
    ensures MIME_TYPE != EXPIRES_AT && MIME_TYPE != SIZE_BYTES && EXPIRES_AT != SIZE_BYTES
  {
    assert MIME_TYPE[0] != EXPIRES_AT[0] && MIME_TYPE[0] != SIZE_BYTES[0] && EXPIRES_AT[0] != SIZE_BYTES[0];
  }

  lemma NamesAreUtf8()
    ensures ValidUtf8(MIME_TYPE) && ValidUtf8(EXPIRES_AT) && ValidUtf8(SIZE_BYTES)
  {
    AsciiIsUtf8(MIME_TYPE);
    AsciiIsUtf8(EXPIRES_AT);
    AsciiIsUtf8(SIZE_BYTES);
  }

  lemma LeavesAreShallow(a: Member, b: Member, c: Member)
    requires a.value.String? && b.value.Number? && c.value.Number?
    ensures Depth(Object([a, b, c])) == 1
  {
    assert [a, b, c][1..] == [b, c] && [b, c][1..] == [c] && [c][1..] == [];
    assert Depth(a.value) == Depth(b.value) == Depth(c.value) == 0;
    assert MembersDepth([c]) == 0;
    assert MembersDepth([b, c]) == 0;
  }

  lemma TreeIsWellFormed(m: DiskMeta)
    requires ValidUtf8(m.mimeType)
    ensures WellFormed(Tree(m)) && Depth(Tree(m)) < RECURSION_LIMIT
  {
    NamesDiffer();
    NamesAreUtf8();
    DecimalIsNumber(m.expiresAt);
    DecimalIsNumber(m.sizeBytes);
    LeavesAreShallow(Tree(m).members[0], Tree(m).members[1], Tree(m).members[2]);
  }

  lemma LookupOfThree(a: Member, b: Member, c: Member)
    requires a.key != b.key && a.key != c.key && b.key != c.key
    ensures Lookup([a, b, c], a.key) == Some(a.value)
    ensures Lookup([a, b, c], b.key) == Some(b.value)
    ensures Lookup([a, b, c], c.key) == Some(c.value)
  {
    assert [a, b, c][1..] == [b, c] && [b, c][1..] == [c];
    assert Lookup([c], c.key) == Some(c.value);
    assert Lookup([b, c], c.key) == Some(c.value);
  }

  lemma U64ReadsBack(n: nat)
    requires n < TWO_64
    ensures ReadU64(Number(Decimal(n))) == Some(n)
  {
    DecimalSpells(n);
  }

  /** What is written is read back. */
  lemma ReadsBack(m: DiskMeta)
    requires InRange(m)
    ensures Read(Text(m)) == Some(m)
  {
    var ms := Tree(m).members;
    TreeIsWellFormed(m);
    PrintedParses(Tree(m), t => Some(t));
    KeptAsIs(Tree(m), t => Some(t));
    NamesDiffer();
    LookupOfThree(ms[0], ms[1], ms[2]);
    U64ReadsBack(m.expiresAt);
    U64ReadsBack(m.sizeBytes);
  }

  /** With the end of a longer such text behind it, it is not read at all. */
  lemma TrailingTextRejected(m: DiskMeta, tail: bytes)
    requires ValidUtf8(m.mimeType) && SkipSpace(tail) != []
    ensures Read(Text(m) + tail) == None
  {
    var keep: Renumber := t => Some(t);
    TreeIsWellFormed(m);
    ContainerTextParses(Tree(m), tail, RECURSION_LIMIT, keep);
    EnterContainer(Tree(m), tail, RECURSION_LIMIT, keep);
    KeptAsIs(Tree(m), keep);
  }

  lemma {:induction false} SpaceDoesNotEnd(s: bytes)
    requires s != [] && !IsSpace(s[|s| - 1])
    ensures SkipSpace(s) != []
  {
    if !IsSpace(s[0]) {
    } else {
      SpaceDoesNotEnd(s[1..]);
    }
  }

  lemma {:induction false} MembersEnd(ms: seq<Member>, first: bool)
    ensures var text := PrintMembers(ms, first); text != [] && text[|text| - 1] == '}'
    decreases |ms|
  {
    if ms == [] {
    } else {
      MembersEnd(ms[1..], false);
    }
  }

  /** The text of one entry with the end of another's longer one behind it is not read. */
  lemma MixtureRejected(m: DiskMeta, n: DiskMeta)
    requires ValidUtf8(m.mimeType) && |Text(m)| < |Text(n)|
    ensures Read(Text(m) + Text(n)[|Text(m)|..]) == None
  {
    MembersEnd(Tree(n).members, true);
    var tail := Text(n)[|Text(m)|..];
    assert tail[|tail| - 1] == '}';
    SpaceDoesNotEnd(tail);
    TrailingTextRejected(m, tail);
  }
}
