/** `UpstreamBlockCacheKey` of `src/upstream_block_cache.rs`: which requests share a cache entry. */
module BlockCacheKey {
  import opened Wrappers
  import opened Bytes
  import opened Json
  import opened JsonEdit
  import opened JsonRoundTrip

  // ----------------------------------------------------------------- canonical form

  function InsertSorted(ms: seq<Member>, m: Member): seq<Member> {
    if ms == [] || LessEq(m.key, ms[0].key) then [m] + ms else [ms[0]] + InsertSorted(ms[1..], m)
  }

  /** `canonicalize_json`: members sorted by key at every depth. */
  function Canonical(v: Value): Value
    decreases v, 1
  {
    match v
    case Array(items) => Array(CanonicalItems(items))
    case Object(ms) => Object(CanonicalMembers(ms))
    case _ => v
  }

  function CanonicalItems(items: seq<Value>): (r: seq<Value>)
    ensures |r| == |items|
    decreases items, 0
  {
    if items == [] then [] else [Canonical(items[0])] + CanonicalItems(items[1..])
  }

  function CanonicalMembers(ms: seq<Member>): seq<Member>
    decreases ms, 0
  {
    if ms == [] then []
    else InsertSorted(CanonicalMembers(ms[1..]), Member(ms[0].key, Canonical(ms[0].value)))
  }

  /** Equal up to the order of object members, at every depth; array order counts. */
  ghost predicate Equiv(v: Value, w: Value)
    decreases v
  {
    match (v, w)
    case (Array(xs), Array(ys)) => |xs| == |ys| && forall i | 0 <= i < |xs| :: Equiv(xs[i], ys[i])
    case (Object(ms), Object(ns)) =>
      && |ms| == |ns|
      && forall i | 0 <= i < |ms| ::
           Lookup(ns, ms[i].key).Some? && Equiv(ms[i].value, Lookup(ns, ms[i].key).value)
    case _ => v == w
  }

  // ------------------------------------------------------------------- sorted lists

  ghost predicate Sorted(ms: seq<Member>) {
    forall i, j | 0 <= i < j < |ms| :: LessEq(ms[i].key, ms[j].key) && ms[i].key != ms[j].key
  }

  lemma {:induction false} InsertSortedLookup(ms: seq<Member>, m: Member, key: bytes)
    requires Sorted(ms) && Lookup(ms, m.key) == None
    ensures Lookup(InsertSorted(ms, m), key) == if key == m.key then Some(m.value) else Lookup(ms, key)
  {
    if ms == [] || LessEq(m.key, ms[0].key) {
    } else {
      InsertSortedLookup(ms[1..], m, key);
    }
  }

  lemma {:induction false} InsertSortedKeeps(ms: seq<Member>, m: Member)
    requires Sorted(ms) && Lookup(ms, m.key) == None
    ensures Sorted(InsertSorted(ms, m)) && |InsertSorted(ms, m)| == |ms| + 1
    ensures forall i | 0 <= i < |ms| + 1 :: InsertSorted(ms, m)[i] == m || InsertSorted(ms, m)[i] in ms
  {
    var r := InsertSorted(ms, m);
    if ms == [] {
    } else if LessEq(m.key, ms[0].key) {
      forall j | 0 <= j < |ms| ensures LessEq(m.key, ms[j].key) && m.key != ms[j].key {
        if j > 0 {
          LessEqTransitive(m.key, ms[0].key, ms[j].key);
        }
        LookupNone(ms, m.key, j);
      }
    } else {
      LessEqTotal(m.key, ms[0].key);
      InsertSortedKeeps(ms[1..], m);
    }
  }

  lemma {:induction false} LookupNone(ms: seq<Member>, key: bytes, i: nat)
    requires Lookup(ms, key) == None && i < |ms|
    ensures ms[i].key != key
  {
    LookupAtIndex(ms, key);
  }

  /** A sorted list is determined by its lookups. */
  lemma {:induction false} SortedUnique(a: seq<Member>, b: seq<Member>)
    requires Sorted(a) && Sorted(b)
    requires forall key :: Lookup(a, key) == Lookup(b, key)
    ensures a == b
  {
    if a == [] {
      assert b != [] ==> Lookup(b, b[0].key) == Some(b[0].value) != Lookup(a, b[0].key);
    } else {
      assert Lookup(b, a[0].key).Some?;
      LookupAtIndex(b, a[0].key);
      assert Lookup(a, b[0].key) == Some(b[0].value);
      LookupAtIndex(a, b[0].key);
      LessEqTotal(a[0].key, b[0].key);
      forall key ensures Lookup(a[1..], key) == Lookup(b[1..], key) {
        assert Lookup(a, key) == Lookup(b, key);
        LookupAtIndex(a[1..], key);
        LookupAtIndex(b[1..], key);
      }
      SortedUnique(a[1..], b[1..]);
    }
  }

  // -------------------------------------------------------------- what it preserves

  lemma DistinctTail(ms: seq<Member>)
    requires ms != [] && DistinctKeys(ms)
    ensures DistinctKeys(ms[1..]) && Lookup(ms[1..], ms[0].key) == None
  {
    LookupAtIndex(ms[1..], ms[0].key);
  }

  /** Canonical members are sorted, and look up as the canonical values of the originals. */
  lemma {:induction false} CanonicalMembersSpec(ms: seq<Member>, key: bytes)
    requires DistinctKeys(ms)
    ensures var r := CanonicalMembers(ms);
            && Sorted(r) && |r| == |ms|
            && Lookup(r, key) == match Lookup(ms, key) case Some(v) => Some(Canonical(v)) case None => None
  {
    if ms == [] {
    } else {
      DistinctTail(ms);
      CanonicalMembersSpec(ms[1..], key);
      CanonicalMembersSpec(ms[1..], ms[0].key);
      var m := Member(ms[0].key, Canonical(ms[0].value));
      InsertSortedKeeps(CanonicalMembers(ms[1..]), m);
      InsertSortedLookup(CanonicalMembers(ms[1..]), m, key);
    }
  }

  lemma {:induction false} CanonicalItemsAt(items: seq<Value>, i: nat)
    requires i < |items|
    ensures CanonicalItems(items)[i] == Canonical(items[i])
  {
    if i == 0 {
    } else {
      CanonicalItemsAt(items[1..], i - 1);
    }
  }

  // ----------------------------------------------------- equality of canonical forms

  lemma {:induction false} CanonicalImpliesEquiv(v: Value, w: Value)
    requires WellFormed(v) && WellFormed(w) && Canonical(v) == Canonical(w)
    ensures Equiv(v, w)
    decreases v
  {
    match (v, w)
    case (Array(xs), Array(ys)) =>
      assert CanonicalItems(xs) == CanonicalItems(ys);
      forall i | 0 <= i < |xs| ensures Equiv(xs[i], ys[i]) {
        CanonicalItemsAt(xs, i);
        CanonicalItemsAt(ys, i);
        CanonicalImpliesEquiv(xs[i], ys[i]);
      }
    case (Object(ms), Object(ns)) =>
      CanonicalMembersSpec(ms, []);
      CanonicalMembersSpec(ns, []);
      forall i | 0 <= i < |ms|
        ensures Lookup(ns, ms[i].key).Some? && Equiv(ms[i].value, Lookup(ns, ms[i].key).value)
      {
        CanonicalMembersSpec(ms, ms[i].key);
        CanonicalMembersSpec(ns, ms[i].key);
        LookupDistinct(ms, i);
        LookupAtIndex(ns, ms[i].key);
        CanonicalImpliesEquiv(ms[i].value, Lookup(ns, ms[i].key).value);
      }
    case _ =>
  }

  ghost function Keys(ms: seq<Member>): set<bytes> {
    set i | 0 <= i < |ms| :: ms[i].key
  }

  lemma {:induction false} DistinctKeysCount(ms: seq<Member>)
    requires DistinctKeys(ms)
    ensures |Keys(ms)| == |ms|
  {
    if ms == [] {
    } else {
      var n := |ms| - 1;
      DistinctKeysCount(ms[..n]);
      assert Keys(ms) == Keys(ms[..n]) + {ms[n].key};
    }
  }

  lemma SubsetOfSameSize<T>(a: set<T>, b: set<T>)
    requires a <= b && |a| == |b|
    ensures a == b
  {
    assert |b - a| == |b| - |a|;
  }

  /** As many members, all of them found: then no key is on one side only. */
  lemma SameKeys(ms: seq<Member>, ns: seq<Member>, key: bytes)
    requires DistinctKeys(ms) && DistinctKeys(ns) && |ms| == |ns|
    requires forall i | 0 <= i < |ms| :: Lookup(ns, ms[i].key).Some?
    ensures Lookup(ms, key).Some? <==> Lookup(ns, key).Some?
  {
    forall i | 0 <= i < |ms| ensures ms[i].key in Keys(ns) {
      LookupAtIndex(ns, ms[i].key);
    }
    DistinctKeysCount(ms);
    DistinctKeysCount(ns);
    SubsetOfSameSize(Keys(ms), Keys(ns));
    LookupAtIndex(ms, key);
    LookupAtIndex(ns, key);
    InKeys(ms, key);
    InKeys(ns, key);
  }

  lemma InKeys(ms: seq<Member>, key: bytes)
    ensures key in Keys(ms) <==> Lookup(ms, key).Some?
  {
    LookupAtIndex(ms, key);
  }

  lemma {:induction false} EquivImpliesCanonical(v: Value, w: Value)
    requires WellFormed(v) && WellFormed(w) && Equiv(v, w)
    ensures Canonical(v) == Canonical(w)
    decreases v
  {
    match (v, w)
    case (Array(xs), Array(ys)) =>
      forall i | 0 <= i < |xs| ensures CanonicalItems(xs)[i] == CanonicalItems(ys)[i] {
        CanonicalItemsAt(xs, i);
        CanonicalItemsAt(ys, i);
        EquivImpliesCanonical(xs[i], ys[i]);
      }
      assert CanonicalItems(xs) == CanonicalItems(ys);
    case (Object(ms), Object(ns)) =>
      forall key ensures Lookup(CanonicalMembers(ms), key) == Lookup(CanonicalMembers(ns), key) {
        CanonicalMembersSpec(ms, key);
        CanonicalMembersSpec(ns, key);
        SameKeys(ms, ns, key);
        LookupAtIndex(ms, key);
        LookupAtIndex(ns, key);
        var i := IndexOf(ms, key);
        if i < |ms| {
          EquivImpliesCanonical(ms[i].value, Lookup(ns, key).value);
        }
      }
      CanonicalMembersSpec(ms, []);
      CanonicalMembersSpec(ns, []);
      SortedUnique(CanonicalMembers(ms), CanonicalMembers(ns));
    case _ =>
  }

  // ---------------------------------------------------------------- well-formedness

  lemma {:induction false} InsertSortedMembers(ms: seq<Member>, m: Member, x: Member)
    requires x in InsertSorted(ms, m)
    ensures x == m || x in ms
  {
    if ms == [] || LessEq(m.key, ms[0].key) || x == ms[0] {
    } else {
      assert x in InsertSorted(ms[1..], m);
      InsertSortedMembers(ms[1..], m, x);
    }
  }

  lemma {:induction false} CanonicalMembersFrom(ms: seq<Member>, x: Member)
    requires x in CanonicalMembers(ms)
    ensures exists i :: 0 <= i < |ms| && x == Member(ms[i].key, Canonical(ms[i].value))
  {
    var m := Member(ms[0].key, Canonical(ms[0].value));
    InsertSortedMembers(CanonicalMembers(ms[1..]), m, x);
    if x != m {
      CanonicalMembersFrom(ms[1..], x);
      var i :| 0 <= i < |ms[1..]| && x == Member(ms[1..][i].key, Canonical(ms[1..][i].value));
      assert ms[i + 1] == ms[1..][i];
    }
  }

  lemma {:induction false} CanonicalWellFormed(v: Value)
    requires WellFormed(v)
    ensures WellFormed(Canonical(v))
    decreases v
  {
    match v
    case Array(items) =>
      forall i | 0 <= i < |items| ensures WellFormed(CanonicalItems(items)[i]) {
        CanonicalItemsAt(items, i);
        CanonicalWellFormed(items[i]);
      }
    case Object(ms) =>
      CanonicalMembersSpec(ms, []);
      var r := CanonicalMembers(ms);
      forall i | 0 <= i < |r| ensures ValidUtf8(r[i].key) && WellFormed(r[i].value) {
        CanonicalMembersFrom(ms, r[i]);
        var j :| 0 <= j < |ms| && r[i] == Member(ms[j].key, Canonical(ms[j].value));
        CanonicalWellFormed(ms[j].value);
      }
    case _ =>
  }

  // ------------------------------------------------------------------------ the key

  /** `hash` is the hexadecimal SHA-256. */
  function Key(path: bytes, baseUrl: bytes, body: Value, hash: bytes -> bytes): bytes {
    path + ("\n" + (baseUrl + ("\n" + hash(Print(Canonical(body))))))
  }

  predicate OneLine(s: bytes) {
    forall i | 0 <= i < |s| :: s[i] != '\n'
  }

  /** How many bytes precede the first newline. */
  function LineLength(w: bytes): nat {
    if w == [] || w[0] == '\n' then 0 else 1 + LineLength(w[1..])
  }

  lemma {:induction false} LineLengthOf(a: bytes, s: bytes)
    requires OneLine(a)
    ensures LineLength(a + ("\n" + s)) == |a|
  {
    if a == [] {
    } else {
      assert (a + ("\n" + s))[1..] == a[1..] + ("\n" + s);
      LineLengthOf(a[1..], s);
    }
  }

  /** The first newline separates. */
  lemma SplitAtNewline(a: bytes, s: bytes, b: bytes, t: bytes)
    requires OneLine(a) && OneLine(b) && a + ("\n" + s) == b + ("\n" + t)
    ensures a == b && s == t
  {
    var w := a + ("\n" + s);
    LineLengthOf(a, s);
    LineLengthOf(b, t);
    assert a == w[..|a|] && b == w[..|b|];
    assert s == w[|a| + 1..] && t == w[|b| + 1..];
  }

  /**
   Two keys are equal exactly when path and base URL are equal and the bodies
   are equal up to member order.
   */
  lemma KeysEqual(p: bytes, u: bytes, v: Value, q: bytes, b: bytes, w: Value, hash: bytes -> bytes)
    requires OneLine(p) && OneLine(u) && OneLine(q) && OneLine(b) && Injective(hash)
    requires WellFormed(v) && WellFormed(w)
    ensures Key(p, u, v, hash) == Key(q, b, w, hash) <==> p == q && u == b && Equiv(v, w)
  {
    if Key(p, u, v, hash) == Key(q, b, w, hash) {
      var x, y := hash(Print(Canonical(v))), hash(Print(Canonical(w)));
      SplitAtNewline(p, u + ("\n" + x), q, b + ("\n" + y));
      SplitAtNewline(u, x, b, y);
      CanonicalWellFormed(v);
      CanonicalWellFormed(w);
      PrintInjective(Canonical(v), Canonical(w));
      CanonicalImpliesEquiv(v, w);
    }
    if Equiv(v, w) {
      EquivImpliesCanonical(v, w);
    }
  }
}
