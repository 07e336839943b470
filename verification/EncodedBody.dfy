/** What reading an encoded body back gives (`from_slice` of the blob that `encode_request_body` filled). */
module EncodedBody {
  import opened Wrappers
  import opened Bytes
  import opened Json
  import opened JsonPointer
  import opened JsonEdit
  import opened JsonPosition
  import opened JsonRoundTrip
  import opened RequestScan
  import opened Substitution

  /** What the request holds at a position that is encoded at all. */
  function Sent(request: Value, p: Position): Option<Value> {
    if Stripped(p) then None else Node(request, p)
  }

  /** An array, an object or an image would be written inside 127 others. */
  predicate TooDeepAt(request: Value, images: Replacements, p: Position) {
    |p| >= RECURSION_LIMIT - 1 && Sent(request, p).Some? &&
    match FirstReplaced(p, images, 0)
    case Some(k) => k == |p|
    case None => Sent(request, p).value.Array? || Sent(request, p).value.Object?
  }

  /** The number at `p`, unless it is stripped or replaced, is read back as itself. */
  ghost predicate NumberKeptAt(request: Value, images: Replacements, p: Position, renumber: Renumber) {
    Sent(request, p).Some? && Sent(request, p).value.Number? && FirstReplaced(p, images, 0).None? ==>
      renumber(Sent(request, p).value.text) == Some(Sent(request, p).value.text)
  }

  /** Below an image there are only its two strings. */
  lemma ImageNode(image: Image, q: Position)
    requires q != [] && Node(InlineImage(image), q).Some?
    ensures (q == [MIME_TYPE] || q == [DATA]) && Node(InlineImage(image), q).value.String?
  {
    var ms := InlineImage(image).members;
    PairOfMembers(ms[0], ms[1], q[0]);
  }

  /** A node survives the stripping exactly when it is not at or below an `output` field. */
  lemma SentNode(request: Value, p: Position)
    requires WellFormed(request)
    ensures Node(StripOutput(request), p).Some? <==> Sent(request, p).Some?
  {
    StripOutputNode(request, p);
  }

  lemma NoContainerInImage(image: Image, q: Position)
    requires q != []
    ensures !HoldsContainer(InlineImage(image), q)
  {
    if Node(InlineImage(image), q).Some? {
      ImageNode(image, q);
    }
  }

  lemma ReplacedContainer(request: Value, images: Replacements, p: Position, k: nat)
    requires WellFormed(request) && FirstReplaced(p, images, 0) == Some(k)
    ensures HoldsContainer(Encoded(request, images), p) <==> k == |p| && Sent(request, p).Some?
  {
    EncodedNode(request, images, p);
    SentNode(request, p);
    if k < |p| {
      NoContainerInImage(images[Pointer(p[..k])], p[k..]);
    } else {
      assert p[..k] == p && p[k..] == [];
    }
  }

  lemma EncodedContainer(request: Value, images: Replacements, p: Position)
    requires WellFormed(request) && |p| >= RECURSION_LIMIT - 1
    ensures HoldsContainer(Encoded(request, images), p) <==> TooDeepAt(request, images, p)
  {
    match FirstReplaced(p, images, 0)
    case Some(k) => ReplacedContainer(request, images, p, k);
    case None => EncodedNode(request, images, p);
  }

  lemma EncodedNumber(request: Value, images: Replacements, p: Position, renumber: Renumber)
    requires WellFormed(request)
    ensures FixedAt(Encoded(request, images), p, renumber) <==> NumberKeptAt(request, images, p, renumber)
  {
    EncodedNode(request, images, p);
    var k := FirstReplaced(p, images, 0);
    if k.Some? {
      var image, q := images[Pointer(p[..k.value])], p[k.value..];
      if q != [] && Node(InlineImage(image), q).Some? {
        ImageNode(image, q);
      }
    }
  }

  lemma EncodedDepth(request: Value, images: Replacements)
    requires WellFormed(request) && ValidImages(images)
    ensures WellFormed(Encoded(request, images))
    ensures Depth(Encoded(request, images)) < RECURSION_LIMIT <==> forall p :: !TooDeepAt(request, images, p)
  {
    var tree := Encoded(request, images);
    StripOutputKeeps(request);
    SubstituteWellFormed(StripOutput(request), "", images);
    DepthByPosition(tree, RECURSION_LIMIT - 1);
    forall p | |p| >= RECURSION_LIMIT - 1 ensures HoldsContainer(tree, p) <==> TooDeepAt(request, images, p) {
      EncodedContainer(request, images, p);
    }
  }

  lemma EncodedNumbers(request: Value, images: Replacements, renumber: Renumber)
    requires WellFormed(request) && ValidImages(images)
    ensures Settled(Encoded(request, images), renumber) <==> forall p :: NumberKeptAt(request, images, p, renumber)
  {
    var tree := Encoded(request, images);
    EncodedDepth(request, images);
    SettledByPosition(tree, renumber);
    forall p ensures FixedAt(tree, p, renumber) <==> NumberKeptAt(request, images, p, renumber) {
      EncodedNumber(request, images, p, renumber);
    }
  }

  /**
   Reading the body back gives the substituted tree exactly when nothing is
   written too deep and every number that is left reads back as itself. Both
   can be told from the request and the pointers before the call.
   */
  lemma EncodedBodyParses(request: Value, images: Replacements, renumber: Renumber)
    requires WellFormed(request) && ValidImages(images)
    ensures Parse(Print(Encoded(request, images)), renumber) == Some(Encoded(request, images)) <==>
            && (forall p :: !TooDeepAt(request, images, p))
            && (forall p :: NumberKeptAt(request, images, p, renumber))
  {
    EncodedDepth(request, images);
    EncodedNumbers(request, images, renumber);
    ParsesBack(Encoded(request, images), renumber);
  }

  /**
   Replacing the scanned images of a request that `from_slice` accepted writes
   nothing too deep: only numbers count.
   */
  lemma ScannedBodyParses(request: Value, images: Replacements, renumber: Renumber)
    requires WellFormed(request) && Depth(request) < RECURSION_LIMIT
    requires ValidImages(images) && ReplacesScanned(request, images)
    ensures Parse(Print(Encoded(request, images)), renumber) == Reread(Encoded(request, images), renumber)
    ensures Parse(Print(Encoded(request, images)), renumber) == Some(Encoded(request, images)) <==>
            forall p :: NumberKeptAt(request, images, p, renumber)
  {
    EncodedKeeps(request, images);
    EncodedDepth(request, images);
    PrintedParses(Encoded(request, images), renumber);
    EncodedBodyParses(request, images, renumber);
  }

  // ------------------------------------------- a request that comes back unreadable

  /** A string inside `n` arrays. */
  function Nested(n: nat): Value {
    if n == 0 then String([]) else Array([Nested(n - 1)])
  }

  function Innermost(n: nat): Position {
    if n == 0 then [] else [Decimal(0)] + Innermost(n - 1)
  }

  lemma {:induction false} NestedFacts(n: nat, renumber: Renumber)
    ensures WellFormed(Nested(n)) && Depth(Nested(n)) == n && Settled(Nested(n), renumber)
    ensures |Innermost(n)| == n && Node(Nested(n), Innermost(n)) == Some(String([]))
  {
    if n == 0 {
    } else {
      NestedFacts(n - 1, renumber);
      var items := [Nested(n - 1)];
      assert items[1..] == [];
      NodeBelowItem(items, 0, Innermost(n - 1));
    }
  }

  lemma {:induction false} FirstReplacedAtEnd(p: Position, image: Image, k: nat)
    requires k <= |p|
    ensures FirstReplaced(p, map[Pointer(p) := image], k) == Some(|p|)
    decreases |p| - k
  {
    assert p[..|p|] == p;
    if k == |p| {
    } else {
      if Pointer(p[..k]) == Pointer(p) {
        PointerInjective(p[..k], p);
      }
      FirstReplacedAtEnd(p, image, k + 1);
    }
  }

  /**
   The request is a string inside 127 arrays and its pointer is replaced: the
   request parses, its encoding does not.
   */
  lemma StringReplacedTooDeep(image: Image, renumber: Renumber)
    requires ValidUtf8(image.mimeType)
    ensures var request := Nested(RECURSION_LIMIT - 1);
            var images := map[Pointer(Innermost(RECURSION_LIMIT - 1)) := image];
            && Parse(Print(request), renumber) == Some(request)
            && Parse(Print(Encoded(request, images)), renumber) == None
  {
    var request, p := Nested(RECURSION_LIMIT - 1), Innermost(RECURSION_LIMIT - 1);
    var images := map[Pointer(p) := image];
    NestedFacts(RECURSION_LIMIT - 1, renumber);
    ParsesBack(request, renumber);
    FirstReplacedAtEnd(p, image, 0);
    assert p[0] == Decimal(0) && IsDigit(p[0][0]);
    assert TooDeepAt(request, images, p);
    EncodedDepth(request, images);
    PrintedParses(Encoded(request, images), renumber);
  }

  // ------------------------------------------------------------ `output` fields

  /** Whatever is replaced, no `output` field is left where one is stripped. */
  lemma NoOutputEncoded(request: Value, images: Replacements, i: nat)
    requires WellFormed(request) && i < |OUTPUT_POSITIONS|
    ensures Node(Encoded(request, images), OUTPUT_POSITIONS[i]) == None
  {
    var p := OUTPUT_POSITIONS[i];
    assert Stripped(p) && p[|p| - 1] == OUTPUT;
    EncodedNode(request, images, p);
    SentNode(request, p);
    var k := FirstReplaced(p, images, 0);
    if k.Some? {
      var image, q := images[Pointer(p[..k.value])], p[k.value..];
      if k.value == |p| {
        assert p[..k.value] == p;
      } else if Node(InlineImage(image), q).Some? {
        ImageNode(image, q);
        assert q[|q| - 1] == OUTPUT;
      }
    }
  }

  /** A read-back body names no URL and has no `output` field. */
  lemma ReadBackIsClean(request: Value, images: Replacements, renumber: Renumber)
    requires WellFormed(request) && ValidImages(images) && ReplacesScanned(request, images) && Renumbers(renumber)
    requires Parse(Print(Encoded(request, images)), renumber).Some?
    ensures var answer := Parse(Print(Encoded(request, images)), renumber).value;
            && Refs(answer, "") == []
            && forall i | 0 <= i < |OUTPUT_POSITIONS| :: Node(answer, OUTPUT_POSITIONS[i]) == None
  {
    var tree := Encoded(request, images);
    EncodedDepth(request, images);
    PrintedParses(tree, renumber);
    RereadWellFormed(tree, renumber);
    var answer := Reread(tree, renumber).value;
    forall i | 0 <= i < |OUTPUT_POSITIONS| ensures Node(answer, OUTPUT_POSITIONS[i]) == None {
      NoOutputEncoded(request, images, i);
      RereadNode(tree, OUTPUT_POSITIONS[i], renumber);
    }
    if Refs(answer, "") != [] {
      var r := Refs(answer, "")[0];
      var p := RefsSound(answer, "", r);
      RereadNamesUrl(tree, p, r.url, renumber);
      EncodedNamesNoUrl(request, images, p, r.url);
    }
  }

  /** Rereading numbers neither adds nor removes a URL. */
  lemma RereadNamesUrl(tree: Value, p: Position, url: bytes, renumber: Renumber)
    requires Reread(tree, renumber).Some? && NamesUrl(Reread(tree, renumber).value, p, url)
    ensures NamesUrl(tree, p, url)
  {
    UrlIsLeaf(Reread(tree, renumber).value, p, url);
    UrlIsLeaf(tree, p, url);
    RereadNode(tree, p + [INLINE_DATA, DATA], renumber);
  }
}
