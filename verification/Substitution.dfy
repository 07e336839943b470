/**
 The meaning of encoding a request: strip the `output` fields, then put
 `{mimeType, data}` in place of every node whose pointer has a replacement.
 */
module Substitution {
  import opened Wrappers
  import opened Bytes
  import opened Json
  import opened JsonPointer
  import opened JsonEdit
  import opened RequestScan
  import Base64

  datatype Image = Image(mimeType: bytes, data: bytes)

  type Replacements = map<bytes, Image>

  const MIME_TYPE: bytes := "mime" + "Type"

  /** `{"mimeType": .., "data": ..}`. */
  function InlineImage(image: Image): Value {
    Object([Member(MIME_TYPE, String(image.mimeType)), Member(DATA, String(Base64.Encode(image.data)))])
  }

  function Substitute(v: Value, path: bytes, images: Replacements): Value
    decreases v, 1
  {
    if path in images then InlineImage(images[path])
    else
      match v
      case Object(ms) => Object(SubstituteMembers(ms, path, images))
      case Array(items) => Array(SubstituteItems(items, 0, path, images))
      case _ => v
  }

  function SubstituteMembers(ms: seq<Member>, path: bytes, images: Replacements): seq<Member>
    decreases ms, 0
  {
    if ms == [] then []
    else
      [Member(ms[0].key, Substitute(ms[0].value, Extend(path, ms[0].key), images))]
      + SubstituteMembers(ms[1..], path, images)
  }

  function SubstituteItems(items: seq<Value>, index: nat, path: bytes, images: Replacements): seq<Value>
    decreases items, 0
  {
    if items == [] then []
    else
      [Substitute(items[0], path + ("/" + Decimal(index)), images)]
      + SubstituteItems(items[1..], index + 1, path, images)
  }

  /** The tree that `encode_request_body` prints. */
  function Encoded(request: Value, images: Replacements): Value {
    Substitute(StripOutput(request), "", images)
  }

  // ---------------------------------------------------------------- children

  lemma {:induction false} SubstituteMembersAt(ms: seq<Member>, path: bytes, images: Replacements)
    ensures var r := SubstituteMembers(ms, path, images);
            |r| == |ms| && forall i | 0 <= i < |ms| ::
              r[i] == Member(ms[i].key, Substitute(ms[i].value, Extend(path, ms[i].key), images))
  {
    if ms == [] {
    } else {
      SubstituteMembersAt(ms[1..], path, images);
    }
  }

  lemma {:induction false} SubstituteItemsAt(items: seq<Value>, index: nat, path: bytes, images: Replacements)
    ensures var r := SubstituteItems(items, index, path, images);
            |r| == |items| && forall i | 0 <= i < |items| ::
              r[i] == Substitute(items[i], Extend(path, Decimal(index + i)), images)
  {
    if items == [] {
    } else {
      IndexTokenUnchanged(index);
      SubstituteItemsAt(items[1..], index + 1, path, images);
    }
  }

  lemma {:induction false} SubstituteLookup(ms: seq<Member>, key: bytes, path: bytes, images: Replacements)
    ensures Lookup(SubstituteMembers(ms, path, images), key) ==
            match Lookup(ms, key)
            case Some(c) => Some(Substitute(c, Extend(path, key), images))
            case None => None
  {
    if ms == [] || ms[0].key == key {
    } else {
      SubstituteLookup(ms[1..], key, path, images);
    }
  }

  lemma SubstituteChild(v: Value, token: bytes, path: bytes, images: Replacements)
    requires path !in images
    ensures Child(Substitute(v, path, images), token) ==
            match Child(v, token)
            case Some(c) => Some(Substitute(c, Extend(path, token), images))
            case None => None
  {
    match v
    case Object(ms) => SubstituteLookup(ms, token, path, images);
    case Array(items) => SubstituteItemsAt(items, 0, path, images);
    case _ =>
  }

  // --------------------------------------------------------------- positions

  /** No node strictly above position `p` is replaced. */
  ghost predicate Uncovered(p: Position, path: bytes, images: Replacements) {
    forall k | 0 <= k < |p| :: PointerFrom(path, p[..k]) !in images
  }

  /** Below unreplaced nodes, substitution and navigation commute. */
  lemma {:induction false} SubstituteNode(v: Value, path: bytes, p: Position, images: Replacements)
    requires Uncovered(p, path, images)
    ensures Node(Substitute(v, path, images), p) ==
            match Node(v, p)
            case Some(x) => Some(Substitute(x, PointerFrom(path, p), images))
            case None => None
    decreases |p|
  {
    if p == [] {
    } else {
      assert p[..0] == [];
      assert PointerFrom(path, p[..0]) !in images;
      SubstituteChild(v, p[0], path, images);
      if Child(v, p[0]).Some? {
        forall k | 0 <= k < |p[1..]| ensures PointerFrom(Extend(path, p[0]), p[1..][..k]) !in images {
          assert p[..k + 1][1..] == p[1..][..k];
          assert PointerFrom(path, p[..k + 1]) !in images;
        }
        SubstituteNode(Child(v, p[0]).value, Extend(path, p[0]), p[1..], images);
      }
    }
  }

  /** The topmost replaced node on the way to `p`, if there is one. */
  function FirstReplaced(p: Position, images: Replacements, k: nat): (r: Option<nat>)
    requires k <= |p|
    ensures r.Some? ==> k <= r.value <= |p| && Pointer(p[..r.value]) in images
    decreases |p| - k
  {
    if Pointer(p[..k]) in images then Some(k)
    else if k == |p| then None
    else FirstReplaced(p, images, k + 1)
  }

  lemma {:induction false} FirstReplacedIsFirst(p: Position, images: Replacements, k: nat)
    requires k <= |p| && Uncovered(p[..k], "", images)
    ensures var r := FirstReplaced(p, images, k);
            match r
            case Some(j) => Uncovered(p[..j], "", images)
            case None => Uncovered(p, "", images) && Pointer(p) !in images
    decreases |p| - k
  {
    assert p[..|p|] == p;
    if Pointer(p[..k]) in images || k == |p| {
    } else {
      var w := p[..k + 1];
      forall i | 0 <= i < |w| ensures PointerFrom("", w[..i]) !in images {
        assert w[..i] == if i < k then p[..k][..i] else p[..k];
      }
      FirstReplacedIsFirst(p, images, k + 1);
    }
  }

  /**
   The encoded tree, position by position: at and below the topmost replaced
   node stands the inline image, below a stripped field nothing, and anywhere
   else what the request holds there.
   */
  lemma EncodedNode(request: Value, images: Replacements, p: Position)
    requires WellFormed(request)
    ensures match FirstReplaced(p, images, 0)
            case Some(k) =>
              Node(Encoded(request, images), p) ==
              if Node(StripOutput(request), p[..k]).Some?
              then Node(InlineImage(images[Pointer(p[..k])]), p[k..]) else None
            case None =>
              SameNode(Node(Encoded(request, images), p), if Stripped(p) then None else Node(request, p))
  {
    var s := StripOutput(request);
    FirstReplacedIsFirst(p, images, 0);
    match FirstReplaced(p, images, 0) {
      case Some(k) =>
        SubstituteNode(s, "", p[..k], images);
        NodeAppend(Encoded(request, images), p[..k], p[k..]);
        assert p == p[..k] + p[k..];
      case None =>
        SubstituteNode(s, "", p, images);
        StripOutputNode(request, p);
        if Node(s, p).Some? {
          SubstituteSameKind(Node(s, p).value, Pointer(p), images);
          var sent := if Stripped(p) then None else Node(request, p);
          SameNodeTransitive(Node(Encoded(request, images), p), Node(s, p), sent);
        }
    }
  }

  lemma SubstituteSameKind(v: Value, path: bytes, images: Replacements)
    requires path !in images
    ensures SameNode(Some(Substitute(v, path, images)), Some(v))
  {
    if v.Array? {
      SubstituteItemsAt(v.items, 0, path, images);
    }
  }

  // ------------------------------------------------ what scanned images do

  /** `images` replaces exactly what the scan of `request` found. */
  ghost predicate ReplacesScanned(request: Value, images: Replacements) {
    forall x :: x in images <==> exists r | r in Refs(request, "") :: r.jsonPointer == x
  }

  /** A named URL is the string two levels down. */
  lemma UrlIsLeaf(v: Value, p: Position, url: bytes)
    ensures NamesUrl(v, p, url) <==> Node(v, p + [INLINE_DATA, DATA]) == Some(String(url)) && IsHttpUrl(url)
  {
    NodeAppend(v, p, [INLINE_DATA, DATA]);
    if Node(v, p).Some? {
      var x := Node(v, p).value;
      NodeSteps(x, INLINE_DATA, DATA, DATA);
      if x.Array? {
        ArrayHasNoSuchChild(x.items, INLINE_DATA);
      }
      if Child(x, INLINE_DATA).Some? && Child(x, INLINE_DATA).value.Array? {
        ArrayHasNoSuchChild(Child(x, INLINE_DATA).value.items, DATA);
      }
    }
  }

  lemma NoColonNoUrl(s: bytes)
    requires forall i | 0 <= i < |s| :: s[i] != ':'
    ensures !IsHttpUrl(s)
  {
    if |s| > 5 {
      assert s[4] != ':' && s[5] != ':';
    }
  }

  /** The strings in an inline image are its media type and its base64 text, which is no URL. */
  lemma ImageHasNoUrl(image: Image, q: Position, url: bytes)
    requires q == [] || q[|q| - 1] == DATA
    requires Node(InlineImage(image), q) == Some(String(url))
    ensures !IsHttpUrl(url)
  {
    Base64.EncodedText(image.data);
    Base64.TextIsPlain(Base64.Encode(image.data));
    NoColonNoUrl(Base64.Encode(image.data));
    var ms := InlineImage(image).members;
    if q != [] {
      PairOfMembers(ms[0], ms[1], q[0]);
    }
  }

  /** Every URL of the request sits below a replaced node. */
  lemma UrlIsReplaced(request: Value, images: Replacements, p: Position, url: bytes)
    requires ReplacesScanned(request, images) && NamesUrl(request, p, url)
    ensures Pointer(p + [INLINE_DATA]) in images
  {
    RefsComplete(request, p, url, "");
    assert RefAt(p, url, "").jsonPointer == Pointer(p + [INLINE_DATA]);
  }

  lemma EncodedNamesNoUrl(request: Value, images: Replacements, p: Position, url: bytes)
    requires WellFormed(request) && ReplacesScanned(request, images)
    ensures !NamesUrl(Encoded(request, images), p, url)
  {
    var t, leaf := Encoded(request, images), p + [INLINE_DATA, DATA];
    var parent := leaf[..|p| + 1];
    assert parent == p + [INLINE_DATA];
    UrlIsLeaf(t, p, url);
    UrlIsLeaf(request, p, url);
    EncodedNode(request, images, leaf);
    FirstReplacedIsFirst(leaf, images, 0);
    if NamesUrl(request, p, url) {
      UrlIsReplaced(request, images, p, url);
    }
    var k := FirstReplaced(leaf, images, 0);
    if k.Some? && Node(t, leaf) == Some(String(url)) {
      ImageHasNoUrl(images[Pointer(leaf[..k.value])], leaf[k.value..], url);
    }
  }

  /** Scan, replace every reference, encode, scan again: nothing is left to fetch. */
  lemma RescanFindsNothing(request: Value, images: Replacements)
    requires WellFormed(request) && ValidImages(images) && ReplacesScanned(request, images)
    ensures Refs(Encoded(request, images), "") == []
  {
    var t := Encoded(request, images);
    StripOutputKeeps(request);
    SubstituteWellFormed(StripOutput(request), "", images);
    if Refs(t, "") != [] {
      var r := Refs(t, "")[0];
      var p := RefsSound(t, "", r);
      EncodedNamesNoUrl(request, images, p, r.url);
    }
  }

  // ------------------------------------------------------- well-formedness

  ghost predicate ValidImages(images: Replacements) {
    forall x | x in images :: ValidUtf8(images[x].mimeType)
  }

  lemma InlineImageWellFormed(image: Image)
    requires ValidUtf8(image.mimeType)
    ensures WellFormed(InlineImage(image)) && Depth(InlineImage(image)) == 1
  {
    Base64.EncodedText(image.data);
    Base64.TextIsPlain(Base64.Encode(image.data));
    AsciiIsUtf8(Base64.Encode(image.data));
    AsciiIsUtf8(MIME_TYPE);
    AsciiIsUtf8(DATA);
    var ms := InlineImage(image).members;
    PairOfMembers(ms[0], ms[1], MIME_TYPE);
  }

  lemma {:induction false} SubstituteWellFormed(v: Value, path: bytes, images: Replacements)
    requires WellFormed(v) && ValidImages(images)
    ensures WellFormed(Substitute(v, path, images))
    decreases v, 1
  {
    if path in images {
      InlineImageWellFormed(images[path]);
    } else {
      match v
      case Object(ms) => SubstitutedMembersWellFormed(ms, path, images);
      case Array(items) => SubstitutedItemsWellFormed(items, path, images);
      case _ =>
    }
  }

  lemma {:induction false} SubstitutedMembersWellFormed(ms: seq<Member>, path: bytes, images: Replacements)
    requires WellFormed(Object(ms)) && ValidImages(images)
    ensures WellFormed(Object(SubstituteMembers(ms, path, images)))
    decreases ms, 0
  {
    var r := SubstituteMembers(ms, path, images);
    SubstituteMembersAt(ms, path, images);
    forall i | 0 <= i < |r| ensures ValidUtf8(r[i].key) && WellFormed(r[i].value) {
      SubstituteWellFormed(ms[i].value, Extend(path, ms[i].key), images);
    }
  }

  lemma {:induction false} SubstitutedItemsWellFormed(items: seq<Value>, path: bytes, images: Replacements)
    requires WellFormed(Array(items)) && ValidImages(images)
    ensures WellFormed(Array(SubstituteItems(items, 0, path, images)))
    decreases items, 0
  {
    var r := SubstituteItems(items, 0, path, images);
    SubstituteItemsAt(items, 0, path, images);
    forall i | 0 <= i < |r| ensures WellFormed(r[i]) {
      SubstituteWellFormed(items[i], Extend(path, Decimal(i)), images);
    }
  }

  // ---------------------------------------------------------------- depth

  /** Only objects are replaced. */
  ghost predicate ReplacesObjects(s: Value, images: Replacements) {
    forall p {:trigger Node(s, p)} :: Pointer(p) in images && Node(s, p).Some? ==> Node(s, p).value.Object?
  }

  lemma NodeBelow(s: Value, q: Position, token: bytes, c: Value)
    requires Node(s, q).Some? && Child(Node(s, q).value, token) == Some(c)
    ensures Node(s, q + [token]) == Some(c)
    ensures Pointer(q + [token]) == Extend(Pointer(q), token)
  {
    LastStep(s, q, token);
    PointerFromSnoc("", q, token);
  }

  lemma {:induction false} SubstituteDepth(s: Value, q: Position, v: Value, images: Replacements)
    requires Node(s, q) == Some(v) && WellFormed(v) && ValidImages(images) && ReplacesObjects(s, images)
    ensures Depth(Substitute(v, Pointer(q), images)) <= Depth(v)
    decreases v, 1
  {
    if Pointer(q) in images {
      InlineImageWellFormed(images[Pointer(q)]);
    } else {
      match v
      case Object(ms) => SubstituteMembersDepth(s, q, ms, images);
      case Array(items) => SubstituteItemsDepth(s, q, items, images);
      case _ =>
    }
  }

  lemma {:induction false} SubstituteMembersDepth(s: Value, q: Position, ms: seq<Member>, images: Replacements)
    requires Node(s, q) == Some(Object(ms)) && WellFormed(Object(ms)) && ValidImages(images)
             && ReplacesObjects(s, images)
    ensures MembersDepth(SubstituteMembers(ms, Pointer(q), images)) <= MembersDepth(ms)
    decreases ms, 0
  {
    var path := Pointer(q);
    SubstituteMembersAt(ms, path, images);
    MembersDepthBound(ms, MembersDepth(ms));
    forall i | 0 <= i < |ms|
      ensures Depth(Substitute(ms[i].value, Extend(path, ms[i].key), images)) <= MembersDepth(ms)
    {
      LookupDistinct(ms, i);
      NodeBelow(s, q, ms[i].key, ms[i].value);
      SubstituteDepth(s, q + [ms[i].key], ms[i].value, images);
    }
    MembersDepthBound(SubstituteMembers(ms, path, images), MembersDepth(ms));
  }

  lemma {:induction false} SubstituteItemsDepth(s: Value, q: Position, items: seq<Value>, images: Replacements)
    requires Node(s, q) == Some(Array(items)) && WellFormed(Array(items)) && ValidImages(images)
             && ReplacesObjects(s, images)
    ensures ItemsDepth(SubstituteItems(items, 0, Pointer(q), images)) <= ItemsDepth(items)
    decreases items, 0
  {
    var path := Pointer(q);
    SubstituteItemsAt(items, 0, path, images);
    ItemsDepthBound(items, ItemsDepth(items));
    forall i | 0 <= i < |items|
      ensures Depth(Substitute(items[i], Extend(path, Decimal(i)), images)) <= ItemsDepth(items) {
      IndexFound(i, |items|);
      NodeBelow(s, q, Decimal(i), items[i]);
      SubstituteDepth(s, q + [Decimal(i)], items[i], images);
    }
    ItemsDepthBound(SubstituteItems(items, 0, path, images), ItemsDepth(items));
  }

  lemma ScannedNodesAreObjects(request: Value, images: Replacements, p: Position)
    requires WellFormed(request) && ReplacesScanned(request, images)
    requires Pointer(p) in images && Node(StripOutput(request), p).Some?
    ensures Node(StripOutput(request), p).value.Object?
  {
    var r :| r in Refs(request, "") && r.jsonPointer == Pointer(p);
    ListedPointers(request, p);
    var parent := p[..|p| - 1];
    assert p == parent + [INLINE_DATA];
    NodeAppend(request, parent, [INLINE_DATA]);
    NodeSteps(Node(request, parent).value, INLINE_DATA, DATA, DATA);
    StripOutputNode(request, p);
  }

  /** The encoded request is well-formed and nests no deeper, so the parser's recursion limit is kept. */
  lemma EncodedKeeps(request: Value, images: Replacements)
    requires WellFormed(request) && ValidImages(images) && ReplacesScanned(request, images)
    ensures WellFormed(Encoded(request, images)) && Depth(Encoded(request, images)) <= Depth(request)
  {
    var s := StripOutput(request);
    StripOutputKeeps(request);
    SubstituteWellFormed(s, "", images);
    forall p | Pointer(p) in images && Node(s, p).Some? ensures Node(s, p).value.Object? {
      ScannedNodesAreObjects(request, images, p);
    }
    SubstituteDepth(s, [], s, images);
  }
}
