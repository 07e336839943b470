/**
 How `from_slice` reads a decimal fraction and `to_vec` prints it, for values
 from one half up to one, and what that does to replies and requests that hold
 such a number. Without `float_roundtrip`, the digits are first rounded to a
 double as an integer and that double is then divided by a power of ten.
 */
module NumberReading {
  import opened Wrappers
  import opened Bytes
  import opened Json
  import opened JsonEdit
  import opened JsonRoundTrip
  import opened JsonPointer
  import opened BlockReplay
  import opened EncodedBody
  import opened RequestMaterialize
  import opened RequestRewrite
  import opened RequestScan
  import opened Substitution

  const TWO_53: nat := 0x20_0000_0000_0000

  function Pow10(n: nat): (p: nat)
    ensures p > 0
  {
    if n == 0 then 1 else 10 * Pow10(n - 1)
  }

  /** The integer nearest to `n / d`, the even one of two. */
  function RoundHalfEven(n: nat, d: nat): nat
    requires d > 0
  {
    var q, r := n / d, n % d;
    if 2 * r < d || (2 * r == d && q % 2 == 0) then q else q + 1
  }

  /** The spacing of doubles around `n`, for integers that need more than 53 bits. */
  function Spacing(n: nat): (s: nat)
    ensures s > 0
  {
    if n < TWO_53 then 1 else 2 * Spacing(n / 2)
  }

  /** `significand as f64`. */
  function IntegerAsDouble(n: nat): nat {
    RoundHalfEven(n, Spacing(n)) * Spacing(n)
  }

  /** The fraction 0.`digits` has `places` digits and lies from one half up to one; `digits` fits a `u64`. */
  predicate IsFraction(digits: nat, places: nat) {
    1 <= places <= 19 && digits < Pow10(places) <= 2 * digits
  }

  /** The double read for such a fraction, in units of 2^-53. */
  function ReadFraction(digits: nat, places: nat): nat {
    RoundHalfEven(IntegerAsDouble(digits) * TWO_53, Pow10(places))
  }

  /** The double nearest to such a fraction, in units of 2^-53. */
  function Nearest(digits: nat, places: nat): nat {
    RoundHalfEven(digits * TWO_53, Pow10(places))
  }

  /** `digits` is the only fraction of so few places to which `double` is nearest, and no fraction has fewer. */
  ghost predicate PrintsAs(double: nat, digits: nat, places: nat) {
    && IsFraction(digits, places) && Nearest(digits, places) == double
    && (forall other: nat {:trigger Nearest(other, places)} :: Nearest(other, places) == double ==> other == digits)
    && (forall other: nat {:trigger Nearest(other, places - 1)} :: Nearest(other, places - 1) != double)
  }

  function FractionText(digits: nat): bytes {
    "0." + Decimal(digits)
  }

  /** `renumber` does what `serde_json` does to fractions whose shortest print is unique. */
  ghost predicate ReadsFractions(renumber: Renumber) {
    forall digits: nat, places: nat, printed: nat, fewer: nat
      {:trigger IsFraction(digits, places), IsFraction(printed, fewer)}
      | && IsFraction(digits, places) && IsFraction(printed, fewer)
        && PrintsAs(ReadFraction(digits, places), printed, fewer) ::
      renumber(FractionText(digits)) == Some(FractionText(printed))
  }

  // ------------------------------------------------------ such a reading exists

  /** `text` is a fraction that is read as a double which prints as `printed`. */
  ghost predicate PrintedFor(text: bytes, digits: nat, places: nat, printed: nat, fewer: nat) {
    && text == FractionText(digits) && IsFraction(digits, places)
    && PrintsAs(ReadFraction(digits, places), printed, fewer)
  }

  /** A reading that keeps every other number as it is. */
  ghost function ShortestReading(text: bytes): Option<bytes> {
    if exists digits, places, printed, fewer :: PrintedFor(text, digits, places, printed, fewer) then
      var digits, places, printed, fewer :| PrintedFor(text, digits, places, printed, fewer);
      Some(FractionText(printed))
    else if ValidNumber(text) then Some(text)
    else None
  }

  lemma {:induction false} Pow10Grows(m: nat, n: nat)
    requires m < n
    ensures 10 * Pow10(m) <= Pow10(n)
  {
    if m + 1 == n {
    } else {
      Pow10Grows(m, n - 1);
    }
  }

  /** The digits of a fraction tell how many places it has. */
  lemma OnePlaceCount(digits: nat, p: nat, q: nat)
    requires IsFraction(digits, p) && IsFraction(digits, q)
    ensures p == q
  {
    if p < q {
      Pow10Grows(p, q);
    } else if q < p {
      Pow10Grows(q, p);
    }
  }

  lemma TenfoldRound(n: nat, d: nat)
    requires d > 0
    ensures RoundHalfEven(10 * n, 10 * d) == RoundHalfEven(n, d)
  {
    var q, r := n / d, n % d;
    assert 10 * n == q * (10 * d) + 10 * r && 10 * r < 10 * d by {
      assert n == q * d + r;
    }
    DivModOf(10 * n, 10 * d, q, 10 * r);
  }

  lemma DivModOf(n: nat, d: nat, q: nat, r: nat)
    requires d > 0 && n == q * d + r && r < d
    ensures n / d == q && n % d == r
  {
    var e := n / d - q;
    assert n == (n / d) * d + n % d;
    assert e * d == r - n % d;
    assert e >= 1 ==> e * d >= d;
    assert e <= -1 ==> -e * d >= d;
  }

  /** One more place, with a zero in it, is the same fraction. */
  lemma ZeroAppended(digits: nat, places: nat)
    ensures Nearest(10 * digits, places + 1) == Nearest(digits, places)
  {
    TenfoldRound(digits * TWO_53, Pow10(places));
  }

  lemma {:induction false} ZerosAppended(digits: nat, places: nat, more: nat) returns (longer: nat)
    requires places <= more
    ensures Nearest(longer, more) == Nearest(digits, places)
    decreases more
  {
    if places == more {
      longer := digits;
    } else {
      var shorter := ZerosAppended(digits, places, more - 1);
      ZeroAppended(shorter, more - 1);
      longer := 10 * shorter;
    }
  }

  /** A double has one shortest print. */
  lemma OnePrint(double: nat, m: nat, p: nat, n: nat, q: nat)
    requires PrintsAs(double, m, p) && PrintsAs(double, n, q)
    ensures m == n
  {
    if p == q {
      assert Nearest(n, p) == double;
    } else if p < q {
      var longer := ZerosAppended(m, p, q - 1);
    } else {
      var longer := ZerosAppended(n, q, p - 1);
    }
  }

  /** Some reading is a reading of fractions in this sense, and prints numbers. */
  lemma FractionsCanBeRead() returns (renumber: Renumber)
    ensures ReadsFractions(renumber) && Renumbers(renumber)
  {
    renumber := t => ShortestReading(t);
    forall t | renumber(t).Some? ensures ValidNumber(renumber(t).value) {
      if exists digits, places, printed, fewer :: PrintedFor(t, digits, places, printed, fewer) {
        var digits, places, printed, fewer :| PrintedFor(t, digits, places, printed, fewer)
          && renumber(t) == Some(FractionText(printed));
        FractionIsNumber(printed);
      }
    }
    forall digits: nat, places: nat, printed: nat, fewer: nat
      | && IsFraction(digits, places) && IsFraction(printed, fewer)
        && PrintsAs(ReadFraction(digits, places), printed, fewer)
      ensures renumber(FractionText(digits)) == Some(FractionText(printed))
    {
      ReadAsPrinted(digits, places, printed, fewer);
    }
  }

  lemma ReadAsPrinted(digits: nat, places: nat, printed: nat, fewer: nat)
    requires IsFraction(digits, places) && PrintsAs(ReadFraction(digits, places), printed, fewer)
    ensures ShortestReading(FractionText(digits)) == Some(FractionText(printed))
  {
    var t := FractionText(digits);
    assert PrintedFor(t, digits, places, printed, fewer);
    var d, p, r, f :| PrintedFor(t, d, p, r, f) && ShortestReading(t) == Some(FractionText(r));
    assert PrintedFor(t, d, p, r, f);
    FractionTextInjective(d, digits);
    OnePlaceCount(digits, p, places);
    OnePrint(ReadFraction(digits, places), r, f, printed, fewer);
  }

  // ------------------------------------------------------------- three numbers

  const LONG: nat := 97166380498379864
  const ONCE: nat := 9716638049837987
  const TWICE: nat := 9716638049837988

  lemma Powers()
    ensures Pow10(15) == 1_000_000_000_000_000
    ensures Pow10(16) == 10_000_000_000_000_000
    ensures Pow10(17) == 100_000_000_000_000_000
  {
    assert Pow10(5) == 100_000;
    assert Pow10(10) == 10_000_000_000;
    assert Pow10(15) == 1_000_000_000_000_000;
  }

  lemma Spacings()
    ensures Spacing(LONG) == 16 && Spacing(ONCE) == 2
  {
    assert Spacing(LONG / 16) == 1;
    assert Spacing(LONG / 8) == 2;
    assert Spacing(LONG / 4) == 4;
    assert Spacing(LONG / 2) == 8;
    assert Spacing(ONCE / 2) == 1;
  }

  lemma Doubles()
    ensures IsFraction(LONG, 17) && IsFraction(ONCE, 16) && IsFraction(TWICE, 16)
    ensures ReadFraction(LONG, 17) == 8751969500108868
    ensures ReadFraction(ONCE, 16) == 8751969500108869
  {
    Powers();
    Spacings();
    assert IntegerAsDouble(LONG) == 97166380498379872;
    assert IntegerAsDouble(ONCE) == 9716638049837988;
  }

  /** The double read for 0.97166380498379864 is that of one fraction with sixteen digits and of none with fifteen. */
  lemma OncePrinted()
    ensures PrintsAs(8751969500108868, ONCE, 16)
  {
    Powers();
    Doubles();
  }

  lemma TwicePrinted()
    ensures PrintsAs(8751969500108869, TWICE, 16)
  {
    Powers();
    Doubles();
  }

  /** 0.97166380498379864 is printed as 0.9716638049837987, and that as 0.9716638049837988. */
  lemma NumberDrifts(renumber: Renumber)
    requires ReadsFractions(renumber)
    ensures renumber(FractionText(LONG)) == Some(FractionText(ONCE))
    ensures renumber(FractionText(ONCE)) == Some(FractionText(TWICE))
    ensures FractionText(ONCE) != FractionText(TWICE)
    ensures Parse(Print(Number(FractionText(ONCE))), renumber) == Some(Number(FractionText(TWICE)))
  {
    Doubles();
    OncePrinted();
    TwicePrinted();
    FractionTextInjective(ONCE, TWICE);
    FractionIsNumber(ONCE);
    PrintedParses(Number(FractionText(ONCE)), renumber);
  }

  lemma FractionTextInjective(m: nat, n: nat)
    ensures FractionText(m) == FractionText(n) ==> m == n
  {
    assert FractionText(m)[2..] == Decimal(m) && FractionText(n)[2..] == Decimal(n);
    if FractionText(m) == FractionText(n) {
      DecimalInjective(m, n);
    }
  }

  lemma FractionIsNumber(digits: nat)
    ensures ValidNumber(FractionText(digits))
  {
    var t, d := FractionText(digits), Decimal(digits);
    DigitsAreSkipped(d);
    assert t[1..] == "." + d && t[1..][1..] == d;
  }

  // ------------------------------------------------------------------ a reply

  /** A block error that holds one number. */
  function BlockError(number: bytes): Value {
    Object([Member(ERROR, String(IMAGE_UNSAFE)), Member("x", Number(number))])
  }

  lemma UnsafeIsPlain()
    ensures EscapeString(IMAGE_UNSAFE) == IMAGE_UNSAFE && Lower(IMAGE_UNSAFE) == IMAGE_UNSAFE
  {
    PlainTextUnescaped(IMAGE_UNSAFE);
  }

  lemma Regroup(key: bytes, word: bytes, tail: bytes)
    ensures "{" + (key + (":" + (("\"" + word + "\"") + tail))) == ("{" + (key + ":\"")) + word + ("\"" + tail)
  {
  }

  /** A keyword in the first member shows in the print. */
  lemma UnsafeShows(ms: seq<Member>)
    requires ms != [] && ms[0] == Member(ERROR, String(IMAGE_UNSAFE))
    ensures Classify(BAD_REQUEST, Print(Object(ms))).Some?
  {
    var key, tail := PrintString(ERROR), PrintMembers(ms[1..], false);
    var a, b := "{" + (key + ":\""), "\"" + tail;
    UnsafeIsPlain();
    Regroup(key, IMAGE_UNSAFE, tail);
    assert Print(ms[0].value) == "\"" + IMAGE_UNSAFE + "\"";
    assert PrintMembers(ms, true) == key + (":" + (Print(ms[0].value) + tail));
    assert Print(Object(ms)) == a + IMAGE_UNSAFE + b;
    LowerAround(a, IMAGE_UNSAFE, b);
    assert Contains(IMAGE_UNSAFE, IMAGE_UNSAFE) by {
      assert IMAGE_UNSAFE[0..] == IMAGE_UNSAFE;
    }
    ContainsAround(Lower(a), IMAGE_UNSAFE, Lower(b), IMAGE_UNSAFE);
  }

  lemma BlockErrorTree(number: bytes)
    requires ValidNumber(number)
    ensures WellFormed(BlockError(number)) && Depth(BlockError(number)) < RECURSION_LIMIT
  {
    AsciiIsUtf8(ERROR);
    AsciiIsUtf8(IMAGE_UNSAFE);
    AsciiIsUtf8("x");
    var ms := BlockError(number).members;
    PairOfMembers(ms[0], ms[1], ERROR);
  }

  lemma BlockErrorReread(number: bytes, renumber: Renumber)
    requires renumber(number).Some?
    ensures Reread(BlockError(number), renumber) == Some(BlockError(renumber(number).value))
  {
    var ms := BlockError(number).members;
    var rest, read := ms[1..], [Member("x", Number(renumber(number).value))];
    assert rest[1..] == [] && read + [] == read;
    assert Reread(rest[0].value, renumber) == Some(read[0].value);
    assert RereadMembers(rest, renumber) == Some(read);
    assert Reread(ms[0].value, renumber) == Some(ms[0].value);
    assert RereadMembers(ms, renumber) == Some([ms[0]] + read);
    assert [ms[0]] + read == BlockError(renumber(number).value).members;
  }

  /** The tree that the rewrite prints for such an error. */
  lemma BlockErrorEdited(number: bytes, renumber: Renumber)
    requires ValidNumber(number) && renumber(number).Some?
    ensures Classify(BAD_REQUEST, Print(BlockError(number))).Some?
    ensures Edited(BAD_REQUEST, Print(BlockError(number)), renumber) ==
            WithMessage(BlockError(renumber(number).value), BlockedInputMessage())
  {
    BlockErrorTree(number);
    BlockErrorReread(number, renumber);
    PrintedParses(BlockError(number), renumber);
    UnsafeShows(BlockError(number).members);
  }

  lemma BlockErrorWithMessage(number: bytes, message: bytes)
    ensures WithMessage(BlockError(number), message) ==
            Some(Object(BlockError(number).members + [Member(MESSAGE, String(message))]))
  {
    var ms := BlockError(number).members;
    assert ERROR[0] != MESSAGE[0] && |MESSAGE| > 1;
    InsertFresh(ms, MESSAGE, String(message));
  }

  lemma UnsettledMember(ms: seq<Member>, i: nat, renumber: Renumber)
    requires i < |ms| && ms[i].value.Number? && renumber(ms[i].value.text) != Some(ms[i].value.text)
    ensures !Settled(Object(ms), renumber)
  {
    assert !Settled(ms[i].value, renumber);
  }

  /** A number that is read back as yet another one makes such an error unstable. */
  lemma BlockErrorUnstable(number: bytes, renumber: Renumber)
    requires ValidNumber(number) && renumber(number).Some?
    requires renumber(renumber(number).value) != renumber(number)
    ensures var body := Print(BlockError(number));
            Classify(BAD_REQUEST, body).Some? && !Stable(BAD_REQUEST, body, renumber)
  {
    var read := renumber(number).value;
    BlockErrorEdited(number, renumber);
    BlockErrorWithMessage(read, BlockedInputMessage());
    var ms := BlockError(read).members + [Member(MESSAGE, String(BlockedInputMessage()))];
    UnsettledMember(ms, 1, renumber);
    UnsafeShows(ms);
  }

  /** The live reply to such an error is not what the cache replays. */
  lemma ReplayDrifts(contentType: bytes, renumber: Renumber)
    requires ReadsFractions(renumber) && Renumbers(renumber)
    ensures var body := Print(BlockError(FractionText(LONG)));
            && Classify(BAD_REQUEST, body).Some?
            && Replay(CachedFor(BAD_REQUEST, contentType, body, renumber), renumber)
               != ReplyFor(BAD_REQUEST, contentType, body, renumber)
  {
    NumberDrifts(renumber);
    FractionIsNumber(LONG);
    BlockErrorUnstable(FractionText(LONG), renumber);
    ReplayIsReply(BAD_REQUEST, contentType, Print(BlockError(FractionText(LONG))), renumber);
  }

  // ---------------------------------------------------------------- a request

  /** A request that was read with this number is answered with another one. */
  lemma AnswerDrifts(body: Value, images: Replacements, world: World, renumber: Renumber, p: Position)
    requires WellFormed(body) && Depth(body) < RECURSION_LIMIT && Refs(body, "") != []
    requires TypesAreText(world) && ImagesOf(images, Refs(body, ""), world)
    requires ReadsFractions(renumber) && Renumbers(renumber)
    requires Sent(body, p) == Some(Number(FractionText(ONCE))) && FirstReplaced(p, images, 0).None?
    ensures Answer(body, images, renumber) != Some(Encoded(body, images))
  {
    NumberDrifts(renumber);
    RewrittenBody(body, images, world, renumber);
    assert !NumberKeptAt(body, images, p, renumber);
  }
}
