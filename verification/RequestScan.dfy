/** `src/request_scan.rs`: finding the image URLs of a request. */
module RequestScan {
  import opened Wrappers
  import opened Bytes
  import opened Json
  import opened JsonPointer
  import opened JsonEdit

  const MAX_INLINE_DATA_URLS: nat := 7

  // Written as concatenations so that the verifier does not evaluate functions of them.
  const INLINE_DATA: bytes := "inline" + "Data"
  const DATA: bytes := "da" + "ta"

  datatype ImageRef = ImageRef(jsonPointer: bytes, url: bytes)

  predicate IsHttpUrl(s: bytes) {
    StartsWith(s, "http://") || StartsWith(s, "https://")
  }

  /** The URL an object names through `inlineData.data`. */
  function InlineUrl(v: Value): Option<bytes> {
    if !v.Object? then None
    else
      var inlineData :- Lookup(v.members, INLINE_DATA);
      if !inlineData.Object? then None
      else
        var data :- Lookup(inlineData.members, DATA);
        if data.String? && IsHttpUrl(data.s) then Some(data.s) else None
  }

  // ------------------------------------------------------- the reference list

  function OwnRef(v: Value, path: bytes): seq<ImageRef> {
    match InlineUrl(v)
    case Some(url) => [ImageRef(path + ("/" + INLINE_DATA), url)]
    case None => []
  }

  /** Every reference below `v`, parents before children, in document order. */
  function Refs(v: Value, path: bytes): seq<ImageRef>
    decreases v, 1
  {
    match v
    case Object(ms) => OwnRef(v, path) + MemberRefs(ms, path)
    case Array(items) => ItemRefs(items, 0, path)
    case _ => []
  }

  function MemberRefs(ms: seq<Member>, path: bytes): seq<ImageRef>
    decreases ms, 0
  {
    if ms == [] then [] else Refs(ms[0].value, Extend(path, ms[0].key)) + MemberRefs(ms[1..], path)
  }

  function ItemRefs(items: seq<Value>, index: nat, path: bytes): seq<ImageRef>
    decreases items, 0
  {
    if items == [] then []
    else Refs(items[0], path + ("/" + Decimal(index))) + ItemRefs(items[1..], index + 1, path)
  }

  // ------------------------------------------------------------- the scanner

  /** The vector that `walk` and its recursive calls share. */
  class Matches {
    var refs: seq<ImageRef>

    constructor ()
      ensures refs == []
    {
      refs := [];
    }

    method Push(r: ImageRef)
      modifies this
      ensures refs == old(refs) + [r]
    {
      refs := refs + [r];
    }
  }

  /** False is the error of too many URLs. */
  method Walk(node: Value, path: bytes, matches: Matches) returns (ok: bool)
    requires |matches.refs| <= MAX_INLINE_DATA_URLS
    modifies matches
    ensures ok <==> |old(matches.refs) + Refs(node, path)| <= MAX_INLINE_DATA_URLS
    ensures ok ==> matches.refs == old(matches.refs) + Refs(node, path)
    decreases node
  {
    match node {
      case Object(ms) =>
        var own := InlineUrl(node);
        if own.Some? {
          matches.Push(ImageRef(path + ("/" + INLINE_DATA), own.value));
          if |matches.refs| > MAX_INLINE_DATA_URLS {
            return false;
          }
        }
        Assoc(old(matches.refs), OwnRef(node, path), MemberRefs(ms, path));
        for i := 0 to |ms|
          invariant |matches.refs| <= MAX_INLINE_DATA_URLS
          invariant matches.refs + MemberRefs(ms[i..], path) == old(matches.refs) + Refs(node, path)
        {
          assert ms[i..][1..] == ms[i + 1..];
          var childPath := Extend(path, ms[i].key);
          Assoc(matches.refs, Refs(ms[i].value, childPath), MemberRefs(ms[i + 1..], path));
          ok := Walk(ms[i].value, childPath, matches);
          if !ok {
            return;
          }
        }
      case Array(items) =>
        for i := 0 to |items|
          invariant |matches.refs| <= MAX_INLINE_DATA_URLS
          invariant matches.refs + ItemRefs(items[i..], i, path) == old(matches.refs) + Refs(node, path)
        {
          assert items[i..][1..] == items[i + 1..];
          var childPath := path + ("/" + Decimal(i));
          Assoc(matches.refs, Refs(items[i], childPath), ItemRefs(items[i + 1..], i + 1, path));
          ok := Walk(items[i], childPath, matches);
          if !ok {
            return;
          }
        }
      case _ =>
    }
    ok := true;
  }

  /** `scan_request_image_urls`; `None` is the error of too many URLs: more than seven positions name one. */
  method ScanRequestImageUrls(body: Value) returns (refs: Option<seq<ImageRef>>)
    ensures refs == if |Refs(body, "")| <= MAX_INLINE_DATA_URLS then Some(Refs(body, "")) else None
    ensures WellFormed(body) ==>
              forall named: set<Position> | forall p :: p in named <==> UrlAt(body, p).Some? ::
                refs.None? <==> |named| > 7
  {
    if WellFormed(body) {
      forall named: set<Position> | forall p :: p in named <==> UrlAt(body, p).Some?
        ensures |named| == |Refs(body, "")|
      {
        RefsCount(body, named);
      }
    }
    var matches := new Matches();
    var ok := Walk(body, "", matches);
    assert [] + Refs(body, "") == Refs(body, "");
    refs := if ok then Some(matches.refs) else None;
  }

  // ----------------------------------------------- the list names exactly the URLs

  /** The URL named by the object at position `p`. */
  function UrlAt(v: Value, p: Position): Option<bytes> {
    var node :- Node(v, p);
    InlineUrl(node)
  }

  predicate NamesUrl(v: Value, p: Position, url: bytes) {
    UrlAt(v, p) == Some(url)
  }

  function RefAt(p: Position, url: bytes, base: bytes): ImageRef {
    ImageRef(PointerFrom(base, p + [INLINE_DATA]), url)
  }

  lemma InlineDataIsPlain()
    ensures forall i | 0 <= i < |INLINE_DATA| :: INLINE_DATA[i] != '~' && INLINE_DATA[i] != '/'
  {
  }

  lemma OwnRefPointer(base: bytes, url: bytes)
    ensures RefAt([], url, base) == ImageRef(base + ("/" + INLINE_DATA), url)
  {
    InlineDataIsPlain();
    PlainExtend(base, INLINE_DATA);
    var p: Position := [INLINE_DATA];
    assert [] + p == p && p[1..] == [];
    assert PointerFrom(base, p) == Extend(base, INLINE_DATA);
  }

  lemma RefBelow(v: Value, token: bytes, q: Position, url: bytes, base: bytes)
    ensures RefAt([token] + q, url, base) == RefAt(q, url, Extend(base, token))
    ensures NamesUrl(v, [token] + q, url) <==> Child(v, token).Some? && NamesUrl(Child(v, token).value, q, url)
  {
    assert ([token] + q)[1..] == q;
    assert ([token] + q + [INLINE_DATA])[1..] == q + [INLINE_DATA];
  }

  /** Completeness: every URL in the tree is listed, under the pointer of its `inlineData` node. */
  lemma {:induction false} RefsComplete(v: Value, p: Position, url: bytes, base: bytes)
    requires NamesUrl(v, p, url)
    ensures RefAt(p, url, base) in Refs(v, base)
    decreases |p|
  {
    if p == [] {
      OwnRefPointer(base, url);
      assert OwnRef(v, base)[0] == RefAt(p, url, base);
    } else {
      assert [p[0]] + p[1..] == p;
      RefBelow(v, p[0], p[1..], url, base);
      RefsComplete(Child(v, p[0]).value, p[1..], url, Extend(base, p[0]));
      match v {
        case Object(ms) => MemberRefsInclude(ms, p[0], base, RefAt(p, url, base));
        case Array(items) => ItemRefsInclude(items, IndexOfToken(p[0], |items|).value, 0, base, RefAt(p, url, base));
      }
    }
  }

  lemma {:induction false} MemberRefsInclude(ms: seq<Member>, key: bytes, path: bytes, r: ImageRef)
    requires Lookup(ms, key).Some? && r in Refs(Lookup(ms, key).value, Extend(path, key))
    ensures r in MemberRefs(ms, path)
  {
    if ms[0].key == key {
    } else {
      MemberRefsInclude(ms[1..], key, path, r);
    }
  }

  lemma {:induction false} ItemRefsInclude(items: seq<Value>, i: nat, index: nat, path: bytes, r: ImageRef)
    requires i < |items| && r in Refs(items[i], Extend(path, Decimal(index + i)))
    ensures r in ItemRefs(items, index, path)
  {
    IndexTokenUnchanged(index + i);
    if i == 0 {
    } else {
      assert items[1..][i - 1] == items[i];
      ItemRefsInclude(items[1..], i - 1, index + 1, path, r);
    }
  }

  /** Soundness: every listed reference is such a node, at the position returned. */
  lemma {:induction false} RefsSound(v: Value, base: bytes, r: ImageRef) returns (p: Position)
    requires WellFormed(v) && r in Refs(v, base)
    ensures NamesUrl(v, p, r.url) && r == RefAt(p, r.url, base)
    decreases v, 1
  {
    match v {
      case Object(ms) =>
        if r in OwnRef(v, base) {
          p := [];
          OwnRefPointer(base, r.url);
        } else {
          var i, q := MemberRefsSound(ms, base, r);
          LookupDistinct(ms, i);
          RefBelow(v, ms[i].key, q, r.url, base);
          p := [ms[i].key] + q;
        }
      case Array(items) =>
        var i, q := ItemRefsSound(items, 0, base, r);
        IndexTokenUnchanged(i);
        IndexFound(i, |items|);
        RefBelow(v, Decimal(i), q, r.url, base);
        p := [Decimal(i)] + q;
    }
  }

  lemma {:induction false} MemberRefsSound(ms: seq<Member>, path: bytes, r: ImageRef) returns (i: nat, q: Position)
    requires forall j | 0 <= j < |ms| :: WellFormed(ms[j].value)
    requires r in MemberRefs(ms, path)
    ensures i < |ms| && NamesUrl(ms[i].value, q, r.url) && r == RefAt(q, r.url, Extend(path, ms[i].key))
    decreases ms, 0
  {
    if r in Refs(ms[0].value, Extend(path, ms[0].key)) {
      i := 0;
      q := RefsSound(ms[0].value, Extend(path, ms[0].key), r);
    } else {
      i, q := MemberRefsSound(ms[1..], path, r);
      i := i + 1;
    }
  }

  lemma {:induction false} ItemRefsSound(items: seq<Value>, index: nat, path: bytes, r: ImageRef)
    returns (i: nat, q: Position)
    requires forall j | 0 <= j < |items| :: WellFormed(items[j])
    requires r in ItemRefs(items, index, path)
    ensures i < |items| && NamesUrl(items[i], q, r.url) && r == RefAt(q, r.url, path + ("/" + Decimal(index + i)))
    decreases items, 0
  {
    if r in Refs(items[0], path + ("/" + Decimal(index))) {
      i := 0;
      q := RefsSound(items[0], path + ("/" + Decimal(index)), r);
    } else {
      i, q := ItemRefsSound(items[1..], index + 1, path, r);
      i := i + 1;
    }
  }

  lemma OnePointerOnePlace(p: Position, url: bytes, q: Position, other: bytes)
    ensures RefAt(p, url, "").jsonPointer == RefAt(q, other, "").jsonPointer ==> p == q
  {
    if RefAt(p, url, "").jsonPointer == RefAt(q, other, "").jsonPointer {
      PointerInjective(p + [INLINE_DATA], q + [INLINE_DATA]);
      assert p == (p + [INLINE_DATA])[..|p|] && q == (q + [INLINE_DATA])[..|q|];
    }
  }

  /** One pointer never stands for two URLs. */
  lemma PointerDeterminesUrl(v: Value, r: ImageRef, s: ImageRef)
    requires WellFormed(v) && r in Refs(v, "") && s in Refs(v, "") && r.jsonPointer == s.jsonPointer
    ensures r == s
  {
    var p := RefsSound(v, "", r);
    var q := RefsSound(v, "", s);
    OnePointerOnePlace(p, r.url, q, s.url);
  }

  /** A pointer is listed exactly when it names the `inlineData` node of an object with a URL. */
  lemma ListedPointers(v: Value, q: Position)
    requires WellFormed(v)
    ensures (exists r | r in Refs(v, "") :: r.jsonPointer == Pointer(q))
            <==> (q != [] && q[|q| - 1] == INLINE_DATA && UrlAt(v, q[..|q| - 1]).Some?)
  {
    if r :| r in Refs(v, "") && r.jsonPointer == Pointer(q) {
      var p := RefsSound(v, "", r);
      PointerInjective(p + [INLINE_DATA], q);
      assert q[..|q| - 1] == p;
    }
    if q != [] && q[|q| - 1] == INLINE_DATA && UrlAt(v, q[..|q| - 1]).Some? {
      var p, url := q[..|q| - 1], UrlAt(v, q[..|q| - 1]).value;
      RefsComplete(v, p, url, "");
      assert p + [INLINE_DATA] == q;
      assert RefAt(p, url, "").jsonPointer == Pointer(q);
    }
  }

  // ------------------------------------------------------ how often, and in what order

  /** `b` stands behind `a` among the children of a node. */
  ghost predicate StandsBehind(v: Value, a: bytes, b: bytes) {
    match v
    case Object(ms) => IndexOf(ms, a) < IndexOf(ms, b) < |ms|
    case Array(items) => exists i, j | 0 <= i < j < |items| :: Decimal(i) == a && Decimal(j) == b
    case _ => false
  }

  /** Document order: `p` is above `q`, or they part at two children of which that of `q` stands behind. */
  ghost predicate Precedes(v: Value, p: Position, q: Position)
    decreases |p|
  {
    q != [] &&
    (p == [] ||
     if p[0] == q[0] then Child(v, p[0]).Some? && Precedes(Child(v, p[0]).value, p[1..], q[1..])
     else StandsBehind(v, p[0], q[0]))
  }

  lemma {:induction false} NotBeforeItself(v: Value, p: Position)
    ensures !Precedes(v, p, p)
    decreases |p|
  {
    if p == [] || Child(v, p[0]).None? {
    } else {
      NotBeforeItself(Child(v, p[0]).value, p[1..]);
    }
  }

  ghost predicate IsPlaceOf(v: Value, base: bytes, r: ImageRef, p: Position) {
    NamesUrl(v, p, r.url) && r == RefAt(p, r.url, base)
  }

  ghost predicate InOrder(v: Value, ps: seq<Position>) {
    forall i, j | 0 <= i < j < |ps| :: Precedes(v, ps[i], ps[j])
  }

  /** Positions that name the URLs of the references, one a reference, in document order. */
  ghost predicate ArePlaces(v: Value, base: bytes, refs: seq<ImageRef>, ps: seq<Position>) {
    |ps| == |refs| && (forall i | 0 <= i < |ps| :: IsPlaceOf(v, base, refs[i], ps[i])) && InOrder(v, ps)
  }

  /** The same for positions that start with some child, from the `k`-th on. */
  ghost predicate AreChildPlaces(v: Value, base: bytes, refs: seq<ImageRef>, ps: seq<Position>, k: nat) {
    && ArePlaces(v, base, refs, ps)
    && forall i | 0 <= i < |ps| :: ps[i] != [] && ChildIndex(v, ps[i][0]).Some? && ChildIndex(v, ps[i][0]).value >= k
  }

  /** Where a child stands. */
  function ChildIndex(v: Value, token: bytes): Option<nat> {
    match v
    case Object(ms) => if IndexOf(ms, token) < |ms| then Some(IndexOf(ms, token)) else None
    case Array(items) => IndexOfToken(token, |items|)
    case _ => None
  }

  lemma LowerIndexPrecedes(v: Value, a: bytes, b: bytes)
    requires ChildIndex(v, a).Some? && ChildIndex(v, b).Some? && ChildIndex(v, a).value < ChildIndex(v, b).value
    ensures a != b && StandsBehind(v, a, b)
  {
  }

  function Prefixed(token: bytes, ps: seq<Position>): seq<Position> {
    seq(|ps|, i requires 0 <= i < |ps| => [token] + ps[i])
  }

  /** The places below one child, seen from its parent. */
  lemma PlacesBelow(v: Value, token: bytes, base: bytes, refs: seq<ImageRef>, ps: seq<Position>)
    requires Child(v, token).Some? && ChildIndex(v, token).Some?
    requires ArePlaces(Child(v, token).value, Extend(base, token), refs, ps)
    ensures AreChildPlaces(v, base, refs, Prefixed(token, ps), ChildIndex(v, token).value)
    ensures forall i | 0 <= i < |ps| :: Prefixed(token, ps)[i] != [] && Prefixed(token, ps)[i][0] == token
  {
    var qs := Prefixed(token, ps);
    forall i | 0 <= i < |qs| ensures IsPlaceOf(v, base, refs[i], qs[i]) {
      assert IsPlaceOf(Child(v, token).value, Extend(base, token), refs[i], ps[i]);
      RefBelow(v, token, ps[i], refs[i].url, base);
    }
    forall i, j | 0 <= i < j < |qs| ensures Precedes(v, qs[i], qs[j]) {
      assert qs[i][1..] == ps[i] && qs[j][1..] == ps[j];
    }
  }

  /** Places below one child, then places below children behind it. */
  lemma PlacesJoin(v: Value, base: bytes, refs: seq<ImageRef>, ps: seq<Position>,
        more: seq<ImageRef>, qs: seq<Position>, token: bytes, k: nat)
    requires ArePlaces(v, base, refs, ps) && ChildIndex(v, token) == Some(k)
    requires forall i | 0 <= i < |ps| :: ps[i] != [] && ps[i][0] == token
    requires AreChildPlaces(v, base, more, qs, k + 1)
    ensures AreChildPlaces(v, base, refs + more, ps + qs, k)
  {
    var all, list := ps + qs, refs + more;
    forall p, q | p in ps && q in qs ensures Precedes(v, p, q) {
      LowerIndexPrecedes(v, token, q[0]);
    }
    OrderJoin(v, ps, qs);
    forall i | 0 <= i < |all| ensures IsPlaceOf(v, base, list[i], all[i]) {
      if i >= |ps| {
        assert IsPlaceOf(v, base, more[i - |ps|], qs[i - |ps|]);
      }
    }
    forall i | 0 <= i < |all|
      ensures all[i] != [] && ChildIndex(v, all[i][0]).Some? && ChildIndex(v, all[i][0]).value >= k
    {
      if i >= |ps| {
        assert all[i] == qs[i - |ps|];
      }
    }
  }

  lemma OrderJoin(v: Value, ps: seq<Position>, qs: seq<Position>)
    requires InOrder(v, ps) && InOrder(v, qs) && forall p, q | p in ps && q in qs :: Precedes(v, p, q)
    ensures InOrder(v, ps + qs)
  {
    var all := ps + qs;
    forall i, j | 0 <= i < j < |all| ensures Precedes(v, all[i], all[j]) {
      if i < |ps| <= j {
        assert all[i] in ps && all[j] in qs;
      } else if i >= |ps| {
        assert all[i] == qs[i - |ps|] && all[j] == qs[j - |ps|];
      }
    }
  }

  lemma {:induction false} RefPlaces(v: Value, base: bytes) returns (ps: seq<Position>)
    requires WellFormed(v)
    ensures ArePlaces(v, base, Refs(v, base), ps)
    decreases v, 1
  {
    match v {
      case Object(ms) =>
        ps := MemberPlaces(ms, 0, base);
        assert ms[0..] == ms;
        if InlineUrl(v).Some? {
          OwnRefPointer(base, InlineUrl(v).value);
          ps := OwnPlaceFirst(v, base, MemberRefs(ms, base), ps);
        } else {
          assert OwnRef(v, base) + MemberRefs(ms, base) == MemberRefs(ms, base);
        }
      case Array(items) =>
        ps := ItemPlaces(items, 0, base);
        assert items[0..] == items;
      case _ => ps := [];
    }
  }

  /** An object comes before what is below it. */
  lemma OwnPlaceFirst(v: Value, base: bytes, below: seq<ImageRef>, ps: seq<Position>) returns (all: seq<Position>)
    requires InlineUrl(v).Some? && OwnRef(v, base) == [RefAt([], InlineUrl(v).value, base)]
    requires AreChildPlaces(v, base, below, ps, 0)
    ensures ArePlaces(v, base, OwnRef(v, base) + below, all)
  {
    var own: seq<Position> := [[]];
    all := own + ps;
    assert NamesUrl(v, [], InlineUrl(v).value);
    assert IsPlaceOf(v, base, OwnRef(v, base)[0], own[0]);
    OrderJoin(v, own, ps);
    forall i | 0 <= i < |all| ensures IsPlaceOf(v, base, (OwnRef(v, base) + below)[i], all[i]) {
      if i > 0 {
        assert IsPlaceOf(v, base, below[i - 1], ps[i - 1]);
      }
    }
  }

  lemma {:induction false} MemberPlaces(ms: seq<Member>, k: nat, base: bytes) returns (ps: seq<Position>)
    requires WellFormed(Object(ms)) && k <= |ms|
    ensures AreChildPlaces(Object(ms), base, MemberRefs(ms[k..], base), ps, k)
    decreases ms, 0, |ms| - k
  {
    ps := [];
    if k == |ms| {
    } else {
      LookupDistinct(ms, k);
      assert ms[k..][1..] == ms[k + 1..];
      var own := RefPlaces(ms[k].value, Extend(base, ms[k].key));
      var rest := MemberPlaces(ms, k + 1, base);
      PlacesBelow(Object(ms), ms[k].key, base, Refs(ms[k].value, Extend(base, ms[k].key)), own);
      PlacesJoin(Object(ms), base, Refs(ms[k].value, Extend(base, ms[k].key)), Prefixed(ms[k].key, own),
                 MemberRefs(ms[k + 1..], base), rest, ms[k].key, k);
      ps := Prefixed(ms[k].key, own) + rest;
    }
  }

  lemma {:induction false} ItemPlaces(items: seq<Value>, k: nat, base: bytes) returns (ps: seq<Position>)
    requires WellFormed(Array(items)) && k <= |items|
    ensures AreChildPlaces(Array(items), base, ItemRefs(items[k..], k, base), ps, k)
    decreases items, 0, |items| - k
  {
    ps := [];
    if k == |items| {
    } else {
      IndexFound(k, |items|);
      IndexTokenUnchanged(k);
      assert items[k..][1..] == items[k + 1..];
      var own := RefPlaces(items[k], Extend(base, Decimal(k)));
      var rest := ItemPlaces(items, k + 1, base);
      PlacesBelow(Array(items), Decimal(k), base, Refs(items[k], Extend(base, Decimal(k))), own);
      PlacesJoin(Array(items), base, Refs(items[k], Extend(base, Decimal(k))), Prefixed(Decimal(k), own),
                 ItemRefs(items[k + 1..], k + 1, base), rest, Decimal(k), k);
      ps := Prefixed(Decimal(k), own) + rest;
    }
  }

  lemma InOrderDistinct(v: Value, ps: seq<Position>)
    requires InOrder(v, ps)
    ensures forall i, j | 0 <= i < j < |ps| :: ps[i] != ps[j]
  {
    forall i, j | 0 <= i < j < |ps| ensures ps[i] != ps[j] {
      assert Precedes(v, ps[i], ps[j]);
      NotBeforeItself(v, ps[i]);
    }
  }

  lemma {:induction false} DistinctCount(ps: seq<Position>, all: set<Position>)
    requires forall i, j | 0 <= i < j < |ps| :: ps[i] != ps[j]
    requires forall p :: p in all <==> p in ps
    ensures |all| == |ps|
  {
    if ps == [] {
      assert all == {};
    } else {
      var n := |ps| - 1;
      forall p ensures p in all - {ps[n]} <==> p in ps[..n] {
        if p in ps && p != ps[n] {
          var i :| 0 <= i < |ps| && ps[i] == p;
          assert ps[..n][i] == p;
        }
      }
      DistinctCount(ps[..n], all - {ps[n]});
    }
  }

  /**
   The list is in document order, parents before what is below them and children
   in member or index order, and has one reference for every position that names
   a URL; so there are as many references as such positions.
   */
  lemma RefsInOrder(v: Value) returns (ps: seq<Position>)
    requires WellFormed(v)
    ensures |ps| == |Refs(v, "")|
    ensures forall i | 0 <= i < |ps| ::
              UrlAt(v, ps[i]).Some? && Refs(v, "")[i] == RefAt(ps[i], UrlAt(v, ps[i]).value, "")
    ensures forall i, j | 0 <= i < j < |ps| :: Precedes(v, ps[i], ps[j]) && ps[i] != ps[j]
    ensures forall p :: p in ps <==> UrlAt(v, p).Some?
  {
    ps := RefPlaces(v, "");
    forall i | 0 <= i < |ps|
      ensures UrlAt(v, ps[i]).Some? && Refs(v, "")[i] == RefAt(ps[i], UrlAt(v, ps[i]).value, "")
    {
      assert IsPlaceOf(v, "", Refs(v, "")[i], ps[i]);
    }
    forall p | UrlAt(v, p).Some? ensures p in ps {
      PlaceListed(v, ps, p);
    }
    InOrderDistinct(v, ps);
  }

  lemma PlaceListed(v: Value, ps: seq<Position>, p: Position)
    requires ArePlaces(v, "", Refs(v, ""), ps) && UrlAt(v, p).Some?
    ensures p in ps
  {
    var url := UrlAt(v, p).value;
    RefsComplete(v, p, url, "");
    var i :| 0 <= i < |ps| && Refs(v, "")[i] == RefAt(p, url, "");
    assert IsPlaceOf(v, "", Refs(v, "")[i], ps[i]);
    OnePointerOnePlace(p, url, ps[i], url);
  }

  /** There are as many references as positions that name a URL, and no pointer is listed twice. */
  lemma RefsCount(v: Value, named: set<Position>)
    requires WellFormed(v) && forall p :: p in named <==> UrlAt(v, p).Some?
    ensures |Refs(v, "")| == |named|
    ensures forall i, j | 0 <= i < j < |Refs(v, "")| :: Refs(v, "")[i].jsonPointer != Refs(v, "")[j].jsonPointer
  {
    var ps := RefsInOrder(v);
    DistinctCount(ps, named);
    forall i, j | 0 <= i < j < |ps| ensures Refs(v, "")[i].jsonPointer != Refs(v, "")[j].jsonPointer {
      OnePointerOnePlace(ps[i], Refs(v, "")[i].url, ps[j], Refs(v, "")[j].url);
    }
  }
}
