/** The byte-bounded LRU of `src/cache.rs`. */
module MemoryCache {
  import opened Wrappers
  import opened Bytes
  import opened LruList

  datatype CachedInlineData = CachedInlineData(mimeType: bytes, content: bytes)

  datatype MemoryEntry = MemoryEntry(value: CachedInlineData, size: nat)

  type Items = seq<Entry<MemoryEntry>>

  function SaturatingSub(a: nat, b: nat): nat {
    if b <= a then a - b else 0
  }

  // ------------------------------------------------------------- sizes of lists

  function TotalBytes(items: Items): nat {
    if items == [] then 0 else items[0].value.size + TotalBytes(items[1..])
  }

  ghost predicate Sound(items: Items, maxBytes: nat) {
    && Distinct(items) && TotalBytes(items) <= maxBytes
    && forall i | 0 <= i < |items| :: items[i].value.size == |items[i].value.value.content|
  }

  /** How many entries, from the most recently used on, fit into `room` together. */
  function FitCount(items: Items, room: nat): (n: nat)
    ensures n <= |items|
  {
    if items == [] || items[0].value.size > room then 0 else 1 + FitCount(items[1..], room - items[0].value.size)
  }

  /** A value too large for the cache changes nothing; any other evicts from the back until it fits. */
  function AfterSet(items: Items, maxBytes: nat, url: bytes, value: CachedInlineData): Items {
    var size := |value.content|;
    if size > maxBytes then items
    else
      var others := Without(items, url);
      [Entry(url, MemoryEntry(value, size))] + others[..FitCount(others, maxBytes - size)]
  }

  lemma {:induction false} TotalAppend(a: Items, b: Items)
    ensures TotalBytes(a + b) == TotalBytes(a) + TotalBytes(b)
  {
    if a == [] {
      assert a + b == b;
    } else {
      assert (a + b)[1..] == a[1..] + b;
      TotalAppend(a[1..], b);
    }
  }

  /** Exactly the prefixes up to `FitCount` fit, so it is the longest one that does. */
  lemma {:induction false} FitCountIsLongest(items: Items, room: nat, n: nat)
    requires n <= |items|
    ensures TotalBytes(items[..n]) <= room <==> n <= FitCount(items, room)
  {
    if n == 0 {
    } else {
      assert items[..n][1..] == items[1..][..n - 1];
      if items[0].value.size <= room {
        FitCountIsLongest(items[1..], room - items[0].value.size, n - 1);
      }
    }
  }

  lemma DropLast(items: Items)
    requires items != []
    ensures var n := |items| - 1; TotalBytes(items) == TotalBytes(items[..n]) + items[n].value.size
  {
    var n := |items| - 1;
    assert items == items[..n] + [items[n]];
    TotalAppend(items[..n], [items[n]]);
    assert [items[n]][1..] == [];
  }

  lemma WithoutOne(items: Items, url: bytes)
    requires PlaceOf(items, url) < |items|
    ensures TotalBytes(items) == items[PlaceOf(items, url)].value.size + TotalBytes(Without(items, url))
  {
    var i := PlaceOf(items, url);
    assert items == items[..i] + ([items[i]] + items[i + 1..]);
    TotalAppend(items[..i], [items[i]] + items[i + 1..]);
    TotalAppend(items[..i], items[i + 1..]);
    assert ([items[i]] + items[i + 1..])[1..] == items[i + 1..];
  }

  lemma WithoutSound(items: Items, maxBytes: nat, url: bytes)
    requires Sound(items, maxBytes)
    ensures Sound(Without(items, url), maxBytes)
  {
    WithoutDistinct(items, url);
    if PlaceOf(items, url) < |items| {
      WithoutOne(items, url);
    }
  }

  lemma FirstBytes(e: Entry<MemoryEntry>, rest: Items)
    ensures TotalBytes([e] + rest) == e.value.size + TotalBytes(rest)
  {
    assert ([e] + rest)[1..] == rest;
  }

  lemma AfterSetSound(items: Items, maxBytes: nat, url: bytes, value: CachedInlineData)
    requires Sound(items, maxBytes)
    ensures Sound(AfterSet(items, maxBytes, url, value), maxBytes)
  {
    var size := |value.content|;
    if size <= maxBytes {
      var others := Without(items, url);
      var kept := others[..FitCount(others, maxBytes - size)];
      WithoutSound(items, maxBytes, url);
      FitCountIsLongest(others, maxBytes - size, |kept|);
      FirstBytes(Entry(url, MemoryEntry(value, size)), kept);
    }
  }

  lemma PromoteSound(items: Items, maxBytes: nat, url: bytes)
    requires Sound(items, maxBytes)
    ensures Sound(Promote(items, url), maxBytes) && TotalBytes(Promote(items, url)) == TotalBytes(items)
  {
    var i := PlaceOf(items, url);
    if i < |items| {
      WithoutSound(items, maxBytes, url);
      WithoutOne(items, url);
      WithoutDistinct(items, url);
      FrontDistinct(items[i], Without(items, url));
      FirstBytes(items[i], Without(items, url));
    }
  }

  // ----------------------------------------------------------------- the class

  class MemoryCache {
    var items: Items
    const maxBytes: nat
    var curBytes: nat

    ghost predicate Valid()
      reads this
    {
      Sound(items, maxBytes) && curBytes == TotalBytes(items)
    }

    constructor (maxBytes: nat)
      ensures Valid() && items == [] && this.maxBytes == maxBytes
    {
      items, this.maxBytes, curBytes := [], maxBytes, 0;
    }

    /** `get`. */
    method Get(url: bytes) returns (hit: Option<CachedInlineData>)
      requires Valid()
      modifies this`items
      ensures Valid() && items == Promote(old(items), url)
      ensures hit == match Find(old(items), url) case Some(e) => Some(e.value) case None => None
    {
      PromoteSound(items, maxBytes, url);
      var i := PlaceOf(items, url);
      if i == |items| {
        return None;
      }
      hit := Some(items[i].value.value);
      items := [items[i]] + (items[..i] + items[i + 1..]);
    }

    /** `pop` of the entry that a set replaces, if there is one. */
    method PopPrevious(url: bytes)
      requires curBytes == TotalBytes(items)
      modifies this`items, this`curBytes
      ensures items == Without(old(items), url) && curBytes == TotalBytes(items)
    {
      var i := PlaceOf(items, url);
      if i < |items| {
        WithoutOne(items, url);
        curBytes := SaturatingSub(curBytes, items[i].value.size);
        items := items[..i] + items[i + 1..];
      }
    }

    /** The `pop_lru` loop; `broke` tells whether it ran out of entries before there was room. */
    method EvictFor(size: nat) returns (broke: bool)
      requires curBytes == TotalBytes(items) && size <= maxBytes
      modifies this`items, this`curBytes
      ensures items == old(items)[..FitCount(old(items), maxBytes - size)] && curBytes == TotalBytes(items)
      ensures !broke && curBytes + size <= maxBytes
    {
      broke := false;
      assert items[..|items|] == items;
      while curBytes + size > maxBytes
        invariant |items| <= |old(items)| && items == old(items)[..|items|] && curBytes == TotalBytes(items)
        invariant FitCount(old(items), maxBytes - size) <= |items| && !broke
        decreases |items|
      {
        if items == [] {
          broke := true;
          break;
        }
        FitCountIsLongest(old(items), maxBytes - size, |items|);
        DropLast(items);
        var last := |items| - 1;
        curBytes := SaturatingSub(curBytes, items[last].value.size);
        items := items[..last];
      }
      FitCountIsLongest(old(items), maxBytes - size, |items|);
    }

    /** `set`. */
    method Set(url: bytes, value: CachedInlineData)
      requires Valid()
      modifies this`items, this`curBytes
      ensures Valid() && items == AfterSet(old(items), maxBytes, url, value)
    {
      var size := |value.content|;
      if size > maxBytes {
        return;
      }
      PopPrevious(url);
      ghost var others := items;
      var broke := EvictFor(size);
      ghost var kept := items;
      items := [Entry(url, MemoryEntry(value, size))] + items;
      curBytes := curBytes + size;
      FirstBytes(Entry(url, MemoryEntry(value, size)), kept);
      assert items == AfterSet(old(items), maxBytes, url, value) by {
        assert others == Without(old(items), url) && kept == others[..FitCount(others, maxBytes - size)];
      }
      AfterSetSound(old(items), maxBytes, url, value);
    }
  }

  // ------------------------------------------------------------------ whole runs

  datatype Op = Get(url: bytes) | Set(url: bytes, value: CachedInlineData)

  function After(items: Items, maxBytes: nat, op: Op): Items {
    match op
    case Get(url) => Promote(items, url)
    case Set(url, value) => AfterSet(items, maxBytes, url, value)
  }

  /** The list after a run from the empty cache. */
  function AfterRun(ops: seq<Op>, maxBytes: nat): Items {
    if ops == [] then [] else After(AfterRun(ops[..|ops| - 1], maxBytes), maxBytes, ops[|ops| - 1])
  }

  predicate Admitted(op: Op, maxBytes: nat) {
    op.Set? && |op.value.content| <= maxBytes
  }

  /** The value of the last admitted set of `url`. */
  function LastSet(ops: seq<Op>, maxBytes: nat, url: bytes): Option<CachedInlineData> {
    if ops == [] then None
    else
      var op := ops[|ops| - 1];
      if Admitted(op, maxBytes) && op.url == url then Some(op.value) else LastSet(ops[..|ops| - 1], maxBytes, url)
  }

  /** When `url` was last read or admitted, counting from 1. */
  function LastUse(ops: seq<Op>, maxBytes: nat, url: bytes): (n: nat)
    ensures n <= |ops|
  {
    if ops == [] then 0
    else
      var op := ops[|ops| - 1];
      if op.url == url && Uses(op, maxBytes) then |ops| else LastUse(ops[..|ops| - 1], maxBytes, url)
  }

  /** Over every run the sizes add up to at most `maxBytes` and no URL occurs twice. */
  lemma {:induction false} RunSound(ops: seq<Op>, maxBytes: nat)
    ensures Sound(AfterRun(ops, maxBytes), maxBytes)
    decreases |ops|
  {
    if ops == [] {
    } else {
      var before, op := AfterRun(ops[..|ops| - 1], maxBytes), ops[|ops| - 1];
      RunSound(ops[..|ops| - 1], maxBytes);
      match op
      case Get(url) => PromoteSound(before, maxBytes, url);
      case Set(url, value) => AfterSetSound(before, maxBytes, url, value);
    }
  }

  /** A value in the list is the last one admitted for its URL. */
  lemma {:induction false} RunProvenance(ops: seq<Op>, maxBytes: nat, e: Entry<MemoryEntry>)
    requires e in AfterRun(ops, maxBytes)
    ensures LastSet(ops, maxBytes, e.key) == Some(e.value.value)
    decreases |ops|
  {
    var before, op := AfterRun(ops[..|ops| - 1], maxBytes), ops[|ops| - 1];
    RunSound(ops[..|ops| - 1], maxBytes);
    WithoutDistinct(before, op.url);
    if e in before {
      RunProvenance(ops[..|ops| - 1], maxBytes, e);
    }
  }

  /** Whether `op` counts as a use of its URL. */
  predicate Uses(op: Op, maxBytes: nat) {
    op.Get? || Admitted(op, maxBytes)
  }

  lemma StepOrdered(before: Items, maxBytes: nat, op: Op, use: bytes -> nat, use': bytes -> nat, now: nat)
    requires Distinct(before) && Ordered(before, use)
    requires if Uses(op, maxBytes) then UsedNow(use, use', op.url, now) else forall url :: use'(url) == use(url)
    ensures Ordered(After(before, maxBytes, op), use')
  {
    var i, others := PlaceOf(before, op.url), Without(before, op.url);
    if Admitted(op, maxBytes) {
      var size := |op.value.content|;
      var put := Entry(op.url, MemoryEntry(op.value, size));
      FrontOrdered(put, before, FitCount(others, maxBytes - size), use, use', now);
    } else if op.Get? && i < |before| {
      FrontOrdered(before[i], before, |others|, use, use', now);
      assert others[..|others|] == others;
    } else if op.Get? {
      WithoutOrdered(before, op.url, use, use', now);
    }
  }

  /** The list is in order of use, so what is evicted from its back is what was used least recently. */
  lemma {:induction false} RunRecency(ops: seq<Op>, maxBytes: nat)
    ensures Ordered(AfterRun(ops, maxBytes), url => LastUse(ops, maxBytes, url))
    decreases |ops|
  {
    if ops == [] {
    } else {
      var prev := ops[..|ops| - 1];
      RunSound(prev, maxBytes);
      RunRecency(prev, maxBytes);
      StepOrdered(AfterRun(prev, maxBytes), maxBytes, ops[|ops| - 1],
                  url => LastUse(prev, maxBytes, url), url => LastUse(ops, maxBytes, url), |ops|);
    }
  }

  // ------------------------------------------------------------- what is evicted

  /** The entries of other URLs than `url` that were used no earlier than `n`. */
  function UsedFrom(items: Items, use: bytes -> nat, n: nat, url: bytes): Items {
    if items == [] then []
    else
      (if items[0].key != url && use(items[0].key) >= n then [items[0]] else [])
      + UsedFrom(items[1..], use, n, url)
  }

  lemma {:induction false} UsedFromAppend(a: Items, b: Items, use: bytes -> nat, n: nat, url: bytes)
    ensures UsedFrom(a + b, use, n, url) == UsedFrom(a, use, n, url) + UsedFrom(b, use, n, url)
  {
    if a == [] {
      assert a + b == b;
    } else {
      assert (a + b)[1..] == a[1..] + b;
      UsedFromAppend(a[1..], b, use, n, url);
    }
  }

  lemma UsedFromWithout(items: Items, use: bytes -> nat, n: nat, url: bytes)
    ensures UsedFrom(Without(items, url), use, n, url) == UsedFrom(items, use, n, url)
  {
    var i := PlaceOf(items, url);
    if i < |items| {
      var head, rest := items[..i], items[i..];
      assert items == head + rest && Without(items, url) == head + rest[1..];
      UsedFromAppend(head, rest, use, n, url);
      UsedFromAppend(head, rest[1..], use, n, url);
    }
  }

  lemma {:induction false} NoneUsedFrom(items: Items, use: bytes -> nat, n: nat, url: bytes)
    requires forall i | 0 <= i < |items| :: use(items[i].key) < n
    ensures UsedFrom(items, use, n, url) == []
  {
    if items == [] {
    } else {
      NoneUsedFrom(items[1..], use, n, url);
    }
  }

  /** In order of use, what was used no earlier than an entry is the part up to it. */
  lemma {:induction false} UsedFromIsPrefix(others: Items, use: bytes -> nat, p: nat, url: bytes)
    requires p < |others| && Ordered(others, use) && forall i | 0 <= i < |others| :: others[i].key != url
    ensures UsedFrom(others, use, use(others[p].key), url) == others[..p + 1]
  {
    var n, rest := use(others[p].key), others[1..];
    assert forall i, j | 0 <= i < j < |rest| :: rest[i] == others[i + 1] && rest[j] == others[j + 1];
    if p == 0 {
      forall i | 0 <= i < |rest| ensures use(rest[i].key) < n {
        assert rest[i] == others[i + 1];
      }
      NoneUsedFrom(rest, use, n, url);
    } else {
      UsedFromIsPrefix(rest, use, p - 1, url);
      assert others[..p + 1] == [others[0]] + rest[..p];
    }
  }

  lemma PutKeeps(items: Items, maxBytes: nat, url: bytes, value: CachedInlineData, p: nat)
    requires Distinct(items) && |value.content| <= maxBytes && p < |Without(items, url)|
    ensures Without(items, url)[p] in AfterSet(items, maxBytes, url, value) <==>
            TotalBytes(Without(items, url)[..p + 1]) + |value.content| <= maxBytes
  {
    var others, room := Without(items, url), maxBytes - |value.content|;
    var n := FitCount(others, room);
    var after := AfterSet(items, maxBytes, url, value);
    WithoutDistinct(items, url);
    FitCountIsLongest(others, room, p + 1);
    if p < n {
      assert after[p + 1] == others[p];
    }
  }

  /**
   Over every run: a read, or a set too large to be admitted, takes no entry
   out, and an admitted set puts its value in and takes out the entry of another
   URL exactly when there is no room for it beside the new value and all others
   that were used no earlier than it.
   */
  lemma EvictsIff(ops: seq<Op>, maxBytes: nat, op: Op, e: Entry<MemoryEntry>)
    requires e in AfterRun(ops, maxBytes) && (Admitted(op, maxBytes) ==> e.key != op.url)
    ensures var use := url => LastUse(ops, maxBytes, url);
            e in AfterRun(ops + [op], maxBytes) <==>
            (Admitted(op, maxBytes) ==>
               TotalBytes(UsedFrom(AfterRun(ops, maxBytes), use, LastUse(ops, maxBytes, e.key), op.url))
               + |op.value.content| <= maxBytes)
    ensures Admitted(op, maxBytes) ==>
              match Find(AfterRun(ops + [op], maxBytes), op.url)
              case Some(found) => found.value == op.value
              case None => false
  {
    var items, use := AfterRun(ops, maxBytes), url => LastUse(ops, maxBytes, url);
    assert (ops + [op])[..|ops|] == ops;
    RunSound(ops, maxBytes);
    var i :| 0 <= i < |items| && items[i] == e;
    if Admitted(op, maxBytes) {
      RunRecency(ops, maxBytes);
      var p := WithoutHas(items, op.url, i);
      OthersOrdered(items, op.url, use);
      UsedFromWithout(items, use, use(e.key), op.url);
      UsedFromIsPrefix(Without(items, op.url), use, p, op.url);
      PutKeeps(items, maxBytes, op.url, op.value, p);
    } else if op.Get? {
      PromoteKeeps(items, op.url, i);
    }
  }

  lemma OthersOrdered(items: Items, url: bytes, use: bytes -> nat)
    requires Distinct(items) && Ordered(items, use)
    ensures Ordered(Without(items, url), use)
    ensures forall j | 0 <= j < |Without(items, url)| :: Without(items, url)[j].key != url
  {
    var r := Without(items, url);
    WithoutDistinct(items, url);
    forall i, j | 0 <= i < j < |r| ensures use(r[i].key) > use(r[j].key) {
      var p := WithoutAt(items, url, i);
      var q := WithoutAt(items, url, j);
    }
  }

  lemma PromoteKeeps(items: Items, url: bytes, i: nat)
    requires Distinct(items) && i < |items|
    ensures items[i] in Promote(items, url)
  {
    var after := Promote(items, url);
    if items[i].key == url {
      assert i == PlaceOf(items, url) && after[0] == items[i];
    } else {
      var p := WithoutHas(items, url, i);
      assert after == Without(items, url) || after[p + 1] == Without(items, url)[p];
    }
  }
}
