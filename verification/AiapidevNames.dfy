/** The names of the aiapidev rewrite as the source spells them, and the order of the members it writes. */
module AiapidevNames {
  import opened Wrappers
  import opened Bytes
  import opened Json
  import opened JsonPointer
  import opened JsonEdit
  import opened JsonRoundTrip
  import opened JsonShortest
  import opened AiapidevRewrite

  // ----------------------------------------------------------------- snake case

  /** `name` is `key` with an underscore and the small letter in place of the capital at `i`. */
  predicate IsSnake(key: bytes, i: nat, name: bytes) {
    i < |key| && 'A' <= key[i] <= 'Z' && name == key[..i] + ['_', LowerByte(key[i])] + key[i + 1..]
  }

  predicate HasSnakeName(key: bytes) {
    || key == "generationConfig" || key == "imageConfig" || key == "responseModalities"
    || key == "aspectRatio" || key == "imageSize"
  }

  lemma GenerationConfig(key: bytes)
    requires key == "generationConfig"
    ensures IsSnake(key, 10, RewriteKey(key))
  {
  }

  lemma ImageConfig(key: bytes)
    requires key == "imageConfig"
    ensures IsSnake(key, 5, RewriteKey(key))
  {
  }

  lemma ResponseModalities(key: bytes)
    requires key == "responseModalities"
    ensures IsSnake(key, 8, RewriteKey(key))
  {
  }

  lemma AspectRatio(key: bytes)
    requires key == "aspectRatio"
    ensures IsSnake(key, 6, RewriteKey(key))
  {
  }

  lemma ImageSize(key: bytes)
    requires key == "imageSize"
    ensures IsSnake(key, 5, RewriteKey(key))
  {
  }

  /** The five configuration names are written in snake case, every other name as it is. */
  lemma KeySpelled(key: bytes)
    ensures HasSnakeName(key) ==> exists i :: IsSnake(key, i, RewriteKey(key))
    ensures !HasSnakeName(key) ==> RewriteKey(key) == key
  {
    if key == "generationConfig" {
      GenerationConfig(key);
    } else if key == "imageConfig" {
      ImageConfig(key);
    } else if key == "responseModalities" {
      ResponseModalities(key);
    } else if key == "aspectRatio" {
      AspectRatio(key);
    } else if key == "imageSize" {
      ImageSize(key);
    }
  }

  // ---------------------------------------------------------------- what leads

  lemma {:induction false} PointerSplit(base: bytes, p: Position)
    ensures PointerFrom(base, p) == base + Pointer(p)
    decreases |p|
  {
    if p == [] {
    } else {
      PointerSplit(Extend(base, p[0]), p[1..]);
      PointerSplit(Extend("", p[0]), p[1..]);
      var step, rest := "/" + EscapeToken(p[0]), Pointer(p[1..]);
      assert Extend("", p[0]) == step;
      assert (base + step) + rest == base + (step + rest);
    }
  }

  lemma PointerHead(p: Position)
    requires p != []
    ensures Pointer(p) == "/" + (EscapeToken(p[0]) + Pointer(p[1..]))
    ensures Pointer(p) != [] && Pointer(p)[0] == '/'
  {
    PointerSplit(Extend("", p[0]), p[1..]);
    var slash: bytes, e, rest := "/", EscapeToken(p[0]), Pointer(p[1..]);
    assert Extend("", p[0]) == slash + e;
    assert (slash + e) + rest == slash + (e + rest);
  }

  lemma Names()
    ensures "role" == ROLE && "parts" == PARTS && CONTENTS_PREFIX == "/" + ("contents" + "/")
    ensures forall i | 0 <= i < |"contents"| :: "contents"[i] != '~' && "contents"[i] != '/'
  {
  }

  /** There is only one first slash. */
  lemma FirstSlash(w: bytes, m: nat, n: nat)
    requires m < |w| && n < |w| && w[m] == w[n] == '/'
    requires (forall i | 0 <= i < m :: w[i] != '/') && (forall i | 0 <= i < n :: w[i] != '/')
    ensures m == n
  {
  }

  /** A path starts with such a token exactly when its first token is the one. */
  lemma FirstToken(e: bytes, rest: bytes, word: bytes)
    requires (forall i | 0 <= i < |e| :: e[i] != '/') && (forall i | 0 <= i < |word| :: word[i] != '/')
    requires rest != [] ==> rest[0] == '/'
    ensures word + "/" <= e + rest <==> e == word && rest != []
  {
    if word + "/" <= e + rest {
      var w, word' := e + rest, word + "/";
      assert word'[|word|] == '/' && forall i | 0 <= i < |word'| :: w[i] == word'[i];
      assert forall i | 0 <= i < |word| :: w[i] == word[i];
      assert forall i | 0 <= i < |e| :: w[i] == e[i];
      assert w[|word|] == '/';
      assert rest == [] ==> w == e;
      FirstSlash(w, |word|, |e|);
    }
  }

  /** Members named `role` or `parts` lead exactly in the objects two steps or more below `contents`. */
  lemma LeadsSpelled(p: Position, key: bytes)
    ensures IsLeading(Pointer(p), key) <==> |p| >= 2 && p[0] == "contents" && (key == "role" || key == "parts")
  {
    Names();
    var word: bytes := "contents";
    if p != [] {
      var e, rest := EscapeToken(p[0]), Pointer(p[1..]);
      PointerHead(p);
      UnescapeEscape(p[0]);
      UnescapeEscape(word);
      PlainTokenUnchanged(word);
      if |p| >= 2 {
        PointerHead(p[1..]);
      }
      FirstToken(e, rest, word);
      var slash: bytes := "/";
      assert CONTENTS_PREFIX == slash + (word + slash);
      SlashFirst(word + slash, e + rest);
    }
  }

  lemma SlashFirst(a: bytes, b: bytes)
    ensures "/" + a <= "/" + b <==> a <= b
  {
    var x, y := "/" + a, "/" + b;
    assert x[1..] == a && y[1..] == b;
    if x <= y {
      assert y[..|x|] == x;
      assert b[..|a|] == a;
    }
    if a <= b {
      assert b[..|a|] == a;
      assert y[..|x|] == x;
    }
  }

  // ----------------------------------------------------------------- member order

  /** The members that the loop writes, before a name that occurs again overwrites. */
  function Written(ms: seq<Member>, path: bytes, wrap: bytes -> bytes): seq<Member> {
    if ms == [] then []
    else
      var key := RewriteKey(ms[0].key);
      (if IsLeading(path, ms[0].key) then []
       else [Member(key, RewriteValue(ms[0].value, Extend(path, key), wrap))])
      + Written(ms[1..], path, wrap)
  }

  lemma {:induction false} LoopInserts(ms: seq<Member>, path: bytes, wrap: bytes -> bytes, out: seq<Member>)
    ensures RewriteMembers(ms, path, wrap, out) == InsertAll(out, Written(ms, path, wrap))
    decreases |ms|
  {
    if ms == [] {
    } else {
      var key := RewriteKey(ms[0].key);
      var v := RewriteValue(ms[0].value, Extend(path, key), wrap);
      var rest := Written(ms[1..], path, wrap);
      if IsLeading(path, ms[0].key) {
        LoopInserts(ms[1..], path, wrap, out);
        assert [] + rest == rest;
      } else {
        LoopInserts(ms[1..], path, wrap, Insert(out, key, v));
        assert ([Member(key, v)] + rest)[1..] == rest;
      }
    }
  }

  lemma {:induction false} WrittenAppend(a: seq<Member>, b: seq<Member>, path: bytes, wrap: bytes -> bytes)
    ensures Written(a + b, path, wrap) == Written(a, path, wrap) + Written(b, path, wrap)
    decreases |a|
  {
    if a == [] {
      assert a + b == b;
    } else {
      assert (a + b)[1..] == a[1..] + b;
      WrittenAppend(a[1..], b, path, wrap);
    }
  }

  lemma {:induction false} WrittenNames(ms: seq<Member>, path: bytes, wrap: bytes -> bytes, name: bytes)
    requires forall i | 0 <= i < |ms| :: !IsLeading(path, ms[i].key) ==> RewriteKey(ms[i].key) != name
    ensures forall i | 0 <= i < |Written(ms, path, wrap)| :: Written(ms, path, wrap)[i].key != name
    decreases |ms|
  {
    if ms == [] {
    } else {
      WrittenNames(ms[1..], path, wrap, name);
    }
  }

  /** Member `i` is the first that is given its name, and does not lead. */
  predicate IsFirst(ms: seq<Member>, path: bytes, i: nat) {
    && i < |ms| && !IsLeading(path, ms[i].key)
    && forall k | 0 <= k < i :: !IsLeading(path, ms[k].key) ==> RewriteKey(ms[k].key) != RewriteKey(ms[i].key)
  }

  lemma PlaceOfFirst(ms: seq<Member>, path: bytes, wrap: bytes -> bytes, i: nat) returns (p: nat)
    requires IsFirst(ms, path, i)
    ensures var w := Written(ms, path, wrap);
            && p == |Written(ms[..i], path, wrap)| < |w| && w[p].key == RewriteKey(ms[i].key)
            && forall k | 0 <= k < p :: w[k].key != w[p].key
  {
    assert ms == ms[..i] + ms[i..];
    WrittenAppend(ms[..i], ms[i..], path, wrap);
    forall k | 0 <= k < i ensures ms[..i][k] == ms[k] {
    }
    WrittenNames(ms[..i], path, wrap, RewriteKey(ms[i].key));
    p := |Written(ms[..i], path, wrap)|;
    assert Written(ms[i..], path, wrap)[0].key == RewriteKey(ms[i].key);
  }

  lemma PlacesGrow(ms: seq<Member>, path: bytes, wrap: bytes -> bytes, i: nat, j: nat)
    requires i < j <= |ms| && !IsLeading(path, ms[i].key)
    ensures |Written(ms[..i], path, wrap)| < |Written(ms[..j], path, wrap)|
  {
    assert ms[..j] == ms[..i] + ms[i..j];
    WrittenAppend(ms[..i], ms[i..j], path, wrap);
  }

  /** What stands before the members of the loop. */
  function Lead(ms: seq<Member>, path: bytes, wrap: bytes -> bytes): seq<Member> {
    if InContents(path) then LeadMember(ms, ROLE, path, wrap) + LeadMember(ms, PARTS, path, wrap) else []
  }

  lemma OneLead(ms: seq<Member>, key: bytes, path: bytes, wrap: bytes -> bytes)
    ensures var lead := LeadMember(ms, key, path, wrap);
            |lead| <= 1 && forall i | 0 <= i < |lead| :: lead[i].key == key
  {
  }

  lemma TwoLeads(a: seq<Member>, b: seq<Member>, x: bytes, y: bytes)
    requires |a| <= 1 && |b| <= 1 && x != y
    requires (forall i | 0 <= i < |a| :: a[i].key == x) && (forall i | 0 <= i < |b| :: b[i].key == y)
    ensures DistinctKeys(a + b) && forall i | 0 <= i < |a + b| :: (a + b)[i].key == x || (a + b)[i].key == y
  {
  }

  lemma LeadIsInserted(ms: seq<Member>, path: bytes, wrap: bytes -> bytes)
    ensures var lead := Lead(ms, path, wrap);
            InsertAll([], lead) == lead && forall i | 0 <= i < |lead| :: lead[i].key == ROLE || lead[i].key == PARTS
  {
    var lead := Lead(ms, path, wrap);
    OneLead(ms, ROLE, path, wrap);
    OneLead(ms, PARTS, path, wrap);
    assert |ROLE| == 4 && |PARTS| == 5;
    if InContents(path) {
      TwoLeads(LeadMember(ms, ROLE, path, wrap), LeadMember(ms, PARTS, path, wrap), ROLE, PARTS);
    }
    assert [] + lead == lead;
    DistinctMembersInsert([], lead);
  }

  /** An object without an image is what the leading members and then the others come to. */
  lemma ObjectInserts(ms: seq<Member>, path: bytes, wrap: bytes -> bytes)
    requires Payload(ms, wrap) == None
    ensures RewriteObject(ms, path, wrap) == InsertAll([], Lead(ms, path, wrap) + Written(ms, path, wrap))
  {
    var lead, w := Lead(ms, path, wrap), Written(ms, path, wrap);
    LoopInserts(ms, path, wrap, lead);
    LeadIsInserted(ms, path, wrap);
    InsertAllAppend([], lead, w);
  }

  lemma FirstIsBehindLead(ms: seq<Member>, path: bytes, wrap: bytes -> bytes, i: nat) returns (n: nat)
    requires IsFirst(ms, path, i)
    ensures var lead, w := Lead(ms, path, wrap), Written(ms, path, wrap);
            && n == |lead| + |Written(ms[..i], path, wrap)| < |lead + w|
            && (lead + w)[n].key == RewriteKey(ms[i].key)
            && forall k | 0 <= k < n :: (lead + w)[k].key != (lead + w)[n].key
  {
    var lead, w := Lead(ms, path, wrap), Written(ms, path, wrap);
    var p := PlaceOfFirst(ms, path, wrap, i);
    if InContents(path) {
      NotALeadingName(ms[i].key, path);
      LeadIsInserted(ms, path, wrap);
    }
    FirstBehindLead(lead, w, p);
    n := |lead| + p;
  }

  /** The order of names that do not lead, in an object without an image, is that of their first occurrence. */
  lemma NamesKeepTheirOrder(ms: seq<Member>, path: bytes, wrap: bytes -> bytes, i: nat, j: nat)
    requires Payload(ms, wrap) == None && i < j && IsFirst(ms, path, i) && IsFirst(ms, path, j)
    ensures var r := RewriteObject(ms, path, wrap);
            IndexOf(r, RewriteKey(ms[i].key)) < IndexOf(r, RewriteKey(ms[j].key)) < |r|
  {
    ObjectInserts(ms, path, wrap);
    var p := FirstIsBehindLead(ms, path, wrap, i);
    var q := FirstIsBehindLead(ms, path, wrap, j);
    PlacesGrow(ms, path, wrap, i, j);
    FirstComesFirst(Lead(ms, path, wrap) + Written(ms, path, wrap), p, q);
  }

  lemma FirstBehindLead(lead: seq<Member>, w: seq<Member>, p: nat)
    requires p < |w| && forall k | 0 <= k < p :: w[k].key != w[p].key
    requires forall k | 0 <= k < |lead| :: lead[k].key != w[p].key
    ensures var all, n := lead + w, |lead| + p;
            all[n] == w[p] && forall k | 0 <= k < n :: all[k].key != all[n].key
  {
  }

  lemma NotALeadingName(key: bytes, path: bytes)
    requires !IsLeading(path, key) && InContents(path)
    ensures RewriteKey(key) != ROLE && RewriteKey(key) != PARTS
  {
    RewriteKeyFixed(key);
    NamedKeysPlain();
  }
}
