/** The TTL and LRU cache of `src/upstream_block_cache.rs`; `now` is the clock read under the lock. */
module UpstreamBlockCache {
  import opened Wrappers
  import opened Bytes
  import opened LruList
  import opened BlockCacheKey
  import opened Json

  datatype CachedBlockResponse = CachedBlockResponse(
    status: nat, upstreamStatus: nat, contentType: bytes, body: bytes, reason: bytes)

  datatype Stored = Stored(response: CachedBlockResponse, expiresAt: nat)

  type Items = seq<Entry<Stored>>

  /** `NonZeroUsize`. */
  type NonZero = n: nat | n > 0 witness 1

  // ------------------------------------------------------------- specification

  predicate IsLive(e: Entry<Stored>, now: nat) {
    now < e.value.expiresAt
  }

  /** The entries that have not expired, in order. */
  function Live(items: Items, now: nat): Items {
    if items == [] then []
    else if IsLive(items[0], now) then [items[0]] + Live(items[1..], now)
    else Live(items[1..], now)
  }

  function AfterGet(items: Items, key: bytes, now: nat): Items {
    var i := PlaceOf(items, key);
    if i < |items| && !IsLive(items[i], now) then Without(items, key) else Promote(items, key)
  }

  function Hit(items: Items, key: bytes, now: nat): Option<CachedBlockResponse> {
    var i := PlaceOf(items, key);
    if i < |items| && IsLive(items[i], now) then Some(items[i].value.response) else None
  }

  /** `put` of an `LruCache` with a capacity: the least recently used entry makes room. */
  function AfterPut(items: Items, capacity: NonZero, e: Entry<Stored>): Items {
    var others := Without(items, e.key);
    [e] + (if |others| < capacity then others else others[..capacity - 1])
  }

  function AfterInsert(items: Items, capacity: NonZero, ttl: nat, key: bytes, response: CachedBlockResponse,
        now: nat): Items
  {
    AfterPut(Live(items, now), capacity, Entry(key, Stored(response, now + ttl)))
  }

  // ----------------------------------------------------------------- expiry

  lemma {:induction false} LiveSpec(items: Items, now: nat, e: Entry<Stored>)
    ensures e in Live(items, now) <==> e in items && IsLive(e, now)
    ensures |Live(items, now)| <= |items|
  {
    if items == [] {
    } else {
      LiveSpec(items[1..], now, e);
      assert e in items <==> e == items[0] || e in items[1..];
    }
  }

  lemma {:induction false} LiveDistinct(items: Items, now: nat)
    requires Distinct(items)
    ensures Distinct(Live(items, now)) && |Live(items, now)| <= |items|
  {
    if items == [] {
    } else {
      LiveDistinct(items[1..], now);
      forall j | 0 <= j < |Live(items[1..], now)| ensures Live(items[1..], now)[j].key != items[0].key {
        LiveSpec(items[1..], now, Live(items[1..], now)[j]);
      }
    }
  }

  lemma {:induction false} LiveOrdered(items: Items, now: nat, use: bytes -> nat)
    requires Ordered(items, use)
    ensures Ordered(Live(items, now), use)
  {
    if items == [] {
    } else {
      LiveOrdered(items[1..], now, use);
      forall j | 0 <= j < |Live(items[1..], now)| ensures use(items[0].key) > use(Live(items[1..], now)[j].key) {
        LiveSpec(items[1..], now, Live(items[1..], now)[j]);
      }
    }
  }

  lemma {:induction false} LiveAppend(a: Items, b: Items, now: nat)
    ensures Live(a + b, now) == Live(a, now) + Live(b, now)
  {
    if a == [] {
      assert a + b == b;
    } else {
      assert (a + b)[1..] == a[1..] + b;
      LiveAppend(a[1..], b, now);
    }
  }

  lemma {:induction false} AllLive(items: Items, now: nat)
    requires forall e | e in items :: IsLive(e, now)
    ensures Live(items, now) == items
  {
    if items == [] {
    } else {
      AllLive(items[1..], now);
    }
  }

  /** The keys that `prune_expired_entries` collects. */
  function ExpiredKeys(items: Items, now: nat): seq<bytes> {
    if items == [] then []
    else
      var n := |items| - 1;
      ExpiredKeys(items[..n], now) + if IsLive(items[n], now) then [] else [items[n].key]
  }

  lemma {:induction false} ExpiredKeysSpec(items: Items, now: nat, key: bytes)
    ensures key in ExpiredKeys(items, now)
            <==> exists i :: 0 <= i < |items| && items[i].key == key && !IsLive(items[i], now)
    decreases |items|
  {
    if items == [] {
    } else {
      var n := |items| - 1;
      ExpiredKeysSpec(items[..n], now, key);
      if i :| 0 <= i < n && items[i].key == key && !IsLive(items[i], now) {
        assert items[..n][i] == items[i];
      }
    }
  }

  lemma ExpiredOnly(items: Items, expired: seq<bytes>, now: nat)
    requires Distinct(items) && expired == ExpiredKeys(items, now)
    ensures forall e | e in items :: IsLive(e, now) <==> e.key !in expired
  {
    forall e | e in items ensures IsLive(e, now) <==> e.key !in expired {
      var i :| 0 <= i < |items| && items[i] == e;
      ExpiredKeysSpec(items, now, e.key);
    }
  }

  lemma LiveWithout(items: Items, key: bytes, now: nat)
    requires PlaceOf(items, key) < |items| && !IsLive(items[PlaceOf(items, key)], now)
    ensures Live(Without(items, key), now) == Live(items, now)
  {
    var i := PlaceOf(items, key);
    assert items == items[..i] + ([items[i]] + items[i + 1..]);
    LiveAppend(items[..i], [items[i]] + items[i + 1..], now);
    LiveAppend(items[..i], items[i + 1..], now);
    assert ([items[i]] + items[i + 1..])[1..] == items[i + 1..];
  }

  /** Popping an expired entry leaves the live ones alone. */
  lemma PopExpired(items: Items, key: bytes, now: nat)
    requires Distinct(items) && forall e | e in items && e.key == key :: !IsLive(e, now)
    ensures var r := Without(items, key);
            && Live(r, now) == Live(items, now) && Distinct(r) && |r| <= |items|
            && forall e :: e in r ==> e in items && e.key != key
  {
    WithoutDistinct(items, key);
    if PlaceOf(items, key) < |items| {
      LiveWithout(items, key, now);
    }
  }

  lemma OneMoreKey(keys: seq<bytes>, i: nat)
    requires i < |keys|
    ensures keys[i] in keys && forall k :: k in keys[..i + 1] <==> k in keys[..i] || k == keys[i]
  {
    assert keys[..i + 1] == keys[..i] + [keys[i]];
  }

  // ----------------------------------------------------------------- the class

  class UpstreamBlockCache {
    const ttl: nat
    const capacity: NonZero
    var entries: Items

    ghost predicate Valid()
      reads this
    {
      0 < ttl && |entries| <= capacity && Distinct(entries)
    }

    /** `new`, once it has refused a zero TTL or capacity. */
    constructor (ttl: nat, capacity: NonZero)
      requires ttl > 0
      ensures Valid() && entries == [] && this.ttl == ttl && this.capacity == capacity
    {
      this.ttl, this.capacity, entries := ttl, capacity, [];
    }

    /** `get`: an expired entry is dropped, a live one becomes the most recently used. */
    method Get(key: bytes, now: nat) returns (hit: Option<CachedBlockResponse>)
      requires Valid()
      modifies this`entries
      ensures Valid() && entries == AfterGet(old(entries), key, now)
      ensures hit == Hit(old(entries), key, now)
    {
      WithoutDistinct(entries, key);
      var i := PlaceOf(entries, key);
      if i == |entries| {
        return None;
      }
      var e := entries[i];
      var others := entries[..i] + entries[i + 1..];
      entries := [e] + others;
      if e.value.expiresAt <= now {
        entries := entries[1..];
        return None;
      }
      hit := Some(e.value.response);
    }

    /** The first half of `prune_expired_entries`: collect the expired keys. */
    method CollectExpired(now: nat) returns (expired: seq<bytes>)
      ensures expired == ExpiredKeys(entries, now)
    {
      expired := [];
      for i := 0 to |entries|
        invariant expired == ExpiredKeys(entries[..i], now)
      {
        assert entries[..i + 1][..i] == entries[..i];
        if entries[i].value.expiresAt <= now {
          expired := expired + [entries[i].key];
        }
      }
      assert entries[..|entries|] == entries;
    }

    /** The second half: pop them. */
    method PopAll(expired: seq<bytes>, now: nat)
      requires Valid() && forall e | e in entries :: IsLive(e, now) <==> e.key !in expired
      modifies this`entries
      ensures Valid() && entries == Live(old(entries), now)
    {
      for i := 0 to |expired|
        invariant Valid() && Live(entries, now) == Live(old(entries), now)
        invariant forall e | e in entries :: IsLive(e, now) <==> e.key !in expired
        invariant forall e | e in entries :: e.key !in expired[..i]
      {
        PopExpired(entries, expired[i], now);
        OneMoreKey(expired, i);
        entries := Without(entries, expired[i]);
      }
      assert expired[..|expired|] == expired;
      AllLive(entries, now);
    }

    /** `prune_expired_entries`. */
    method PruneExpired(now: nat)
      requires Valid()
      modifies this`entries
      ensures Valid() && entries == Live(old(entries), now)
    {
      var expired := CollectExpired(now);
      ExpiredOnly(entries, expired, now);
      PopAll(expired, now);
    }

    /** `insert`. */
    method Insert(key: bytes, response: CachedBlockResponse, now: nat)
      requires Valid()
      modifies this`entries
      ensures Valid() && entries == AfterInsert(old(entries), capacity, ttl, key, response, now)
    {
      PruneExpired(now);
      WithoutDistinct(entries, key);
      var e := Entry(key, Stored(response, now + ttl));
      var others := Without(entries, key);
      if |others| == capacity {
        others := others[..capacity - 1];
      }
      entries := [e] + others;
    }
  }

  // ------------------------------------------------------------------ whole runs

  datatype Op =
    | Get(key: bytes, now: nat)
    | Insert(key: bytes, now: nat, response: CachedBlockResponse)

  function After(items: Items, capacity: NonZero, ttl: nat, op: Op): Items {
    match op
    case Get(key, now) => AfterGet(items, key, now)
    case Insert(key, now, response) => AfterInsert(items, capacity, ttl, key, response, now)
  }

  function AfterRun(ops: seq<Op>, capacity: NonZero, ttl: nat): Items {
    if ops == [] then [] else After(AfterRun(ops[..|ops| - 1], capacity, ttl), capacity, ttl, ops[|ops| - 1])
  }

  /** The last insertion under `key`. */
  function LastInsert(ops: seq<Op>, key: bytes): (last: Option<Op>)
    ensures last.Some? ==> last.value.Insert? && last.value.key == key && last.value in ops
  {
    if ops == [] then None
    else
      var op := ops[|ops| - 1];
      if op.Insert? && op.key == key then Some(op) else LastInsert(ops[..|ops| - 1], key)
  }

  /** When `key` was last read or written, counting from 1. */
  function LastUse(ops: seq<Op>, key: bytes): (n: nat)
    ensures n <= |ops|
  {
    if ops == [] then 0
    else if ops[|ops| - 1].key == key then |ops|
    else LastUse(ops[..|ops| - 1], key)
  }

  lemma GetDistinct(items: Items, key: bytes, now: nat)
    requires Distinct(items)
    ensures Distinct(AfterGet(items, key, now)) && |AfterGet(items, key, now)| <= |items|
  {
    var i := PlaceOf(items, key);
    WithoutDistinct(items, key);
    if i < |items| {
      FrontDistinct(items[i], Without(items, key));
    }
  }

  lemma PutDistinct(items: Items, capacity: NonZero, put: Entry<Stored>)
    requires Distinct(items)
    ensures Distinct(AfterPut(items, capacity, put)) && |AfterPut(items, capacity, put)| <= capacity
  {
    var others := Without(items, put.key);
    WithoutDistinct(items, put.key);
    FrontDistinct(put, if |others| < capacity then others else others[..capacity - 1]);
  }

  lemma AfterDistinct(items: Items, capacity: NonZero, ttl: nat, op: Op)
    requires Distinct(items) && |items| <= capacity
    ensures Distinct(After(items, capacity, ttl, op)) && |After(items, capacity, ttl, op)| <= capacity
  {
    if op.Insert? {
      LiveDistinct(items, op.now);
      PutDistinct(Live(items, op.now), capacity, Entry(op.key, Stored(op.response, op.now + ttl)));
    } else {
      GetDistinct(items, op.key, op.now);
    }
  }

  /** Over every run the cache stays within its capacity and holds a key once. */
  lemma {:induction false} RunWithinCapacity(ops: seq<Op>, capacity: NonZero, ttl: nat)
    ensures Distinct(AfterRun(ops, capacity, ttl)) && |AfterRun(ops, capacity, ttl)| <= capacity
    decreases |ops|
  {
    if ops == [] {
    } else {
      RunWithinCapacity(ops[..|ops| - 1], capacity, ttl);
      AfterDistinct(AfterRun(ops[..|ops| - 1], capacity, ttl), capacity, ttl, ops[|ops| - 1]);
    }
  }

  /** An entry is its key's last insertion, with the expiry of that insertion. */
  lemma {:induction false} RunProvenance(ops: seq<Op>, capacity: NonZero, ttl: nat, e: Entry<Stored>)
    requires e in AfterRun(ops, capacity, ttl)
    ensures var last := LastInsert(ops, e.key);
            last.Some? && last.value.response == e.value.response && e.value.expiresAt == last.value.now + ttl
    decreases |ops|
  {
    var prev, op := ops[..|ops| - 1], ops[|ops| - 1];
    var before := AfterRun(prev, capacity, ttl);
    RunWithinCapacity(prev, capacity, ttl);
    WithoutDistinct(before, op.key);
    if op.Insert? {
      LiveSpec(before, op.now, e);
      LiveDistinct(before, op.now);
      WithoutDistinct(Live(before, op.now), op.key);
    }
    if e in before {
      RunProvenance(prev, capacity, ttl, e);
    }
  }

  /** What `get` returns was inserted under that very key, most recently, less than a TTL ago. */
  lemma HitIsFresh(ops: seq<Op>, capacity: NonZero, ttl: nat, key: bytes, now: nat)
    requires Hit(AfterRun(ops, capacity, ttl), key, now).Some?
    ensures var last := LastInsert(ops, key);
            && last.Some? && Hit(AfterRun(ops, capacity, ttl), key, now) == Some(last.value.response)
            && now < last.value.now + ttl
  {
    var items := AfterRun(ops, capacity, ttl);
    RunProvenance(ops, capacity, ttl, items[PlaceOf(items, key)]);
  }

  /** No expired entry survives an insertion. */
  lemma InsertLeavesLive(items: Items, capacity: NonZero, ttl: nat, key: bytes, response: CachedBlockResponse,
        now: nat, e: Entry<Stored>)
    requires ttl > 0 && Distinct(items) && e in AfterInsert(items, capacity, ttl, key, response, now)
    ensures IsLive(e, now)
  {
    LiveDistinct(items, now);
    WithoutDistinct(Live(items, now), key);
    LiveSpec(items, now, e);
  }

  /**
   An insertion evicts a live entry of another key exactly when the cache is
   full of live entries of other keys and this one is the last in the order.
   */
  lemma EvictsOnlyTheLast(items: Items, capacity: NonZero, ttl: nat, key: bytes, response: CachedBlockResponse,
        now: nat, e: Entry<Stored>)
    requires Distinct(items) && |items| <= capacity && e in items && IsLive(e, now) && e.key != key
    ensures var live := Live(items, now);
            e !in AfterInsert(items, capacity, ttl, key, response, now) <==>
            |live| == capacity && live[|live| - 1] == e && forall f | f in live :: f.key != key
  {
    var live, put := Live(items, now), Entry(key, Stored(response, now + ttl));
    LiveDistinct(items, now);
    LiveSpec(items, now, e);
    var i :| 0 <= i < |live| && live[i] == e;
    if e !in AfterPut(live, capacity, put) {
      LastIsEvicted(live, capacity, put, i);
    } else if |live| == capacity && forall f | f in live :: f.key != key {
      LastIsDropped(live, capacity, put);
    }
  }

  /** Putting a new key into a full list drops the last entry. */
  lemma LastIsDropped(live: Items, capacity: NonZero, put: Entry<Stored>)
    requires Distinct(live) && |live| == capacity && forall f | f in live :: f.key != put.key
    ensures live[|live| - 1] !in AfterPut(live, capacity, put)
  {
    assert Without(live, put.key) == live;
  }

  lemma PutKeeps(live: Items, capacity: NonZero, put: Entry<Stored>, p: nat)
    requires p < |Without(live, put.key)|
    ensures |Without(live, put.key)| < capacity || p < capacity - 1 ==>
              Without(live, put.key)[p] in AfterPut(live, capacity, put)
  {
    if |Without(live, put.key)| < capacity || p < capacity - 1 {
      assert AfterPut(live, capacity, put)[p + 1] == Without(live, put.key)[p];
    }
  }

  lemma WithoutLength(items: Items, key: bytes)
    ensures |Without(items, key)| == if PlaceOf(items, key) < |items| then |items| - 1 else |items|
  {
  }

  lemma LastIsEvicted(live: Items, capacity: NonZero, put: Entry<Stored>, i: nat)
    requires |live| <= capacity && i < |live| && live[i].key != put.key && live[i] !in AfterPut(live, capacity, put)
    ensures |live| == capacity && i == |live| - 1 && PlaceOf(live, put.key) == |live|
  {
    var p := WithoutHas(live, put.key, i);
    PutKeeps(live, capacity, put, p);
    WithoutLength(live, put.key);
  }

  lemma StepOrdered(items: Items, capacity: NonZero, ttl: nat, op: Op, use: bytes -> nat, use': bytes -> nat, now: nat)
    requires Distinct(items) && Ordered(items, use) && UsedNow(use, use', op.key, now)
    ensures Ordered(After(items, capacity, ttl, op), use')
  {
    if op.Insert? {
      var live := Live(items, op.now);
      LiveDistinct(items, op.now);
      LiveOrdered(items, op.now, use);
      var e := Entry(op.key, Stored(op.response, op.now + ttl));
      var others := Without(live, op.key);
      FrontOrdered(e, live, if |others| < capacity then |others| else capacity - 1, use, use', now);
      assert others[..|others|] == others;
    } else {
      var i, others := PlaceOf(items, op.key), Without(items, op.key);
      WithoutOrdered(items, op.key, use, use', now);
      if i < |items| {
        FrontOrdered(items[i], items, |others|, use, use', now);
        assert others[..|others|] == others;
      }
    }
  }

  /** The order is that of last use, so the entry evicted is the least recently used one. */
  lemma {:induction false} RunRecency(ops: seq<Op>, capacity: NonZero, ttl: nat)
    ensures Ordered(AfterRun(ops, capacity, ttl), key => LastUse(ops, key))
    decreases |ops|
  {
    if ops == [] {
    } else {
      var prev := ops[..|ops| - 1];
      RunWithinCapacity(prev, capacity, ttl);
      RunRecency(prev, capacity, ttl);
      StepOrdered(AfterRun(prev, capacity, ttl), capacity, ttl, ops[|ops| - 1],
                  key => LastUse(prev, key), key => LastUse(ops, key), |ops|);
    }
  }

  /** A live entry with a later one behind it is not the least recently used. */
  lemma LeastRecentIsLast(live: Items, use: bytes -> nat, e: Entry<Stored>)
    requires Ordered(live, use) && e in live
    ensures live[|live| - 1] == e <==> forall f | f in live :: f == e || use(e.key) < use(f.key)
  {
    var last := live[|live| - 1];
    var i :| 0 <= i < |live| && live[i] == e;
    if last == e {
      forall f | f in live ensures f == e || use(e.key) < use(f.key) {
        var j :| 0 <= j < |live| && live[j] == f;
      }
    }
  }

  /**
   Over every run: an insertion takes out a live entry of another key exactly
   when the cache is full of live entries, none of them under the key inserted,
   and this one was used less recently than all others.
   */
  lemma EvictsTheLeastRecent(ops: seq<Op>, capacity: NonZero, ttl: nat, op: Op, e: Entry<Stored>)
    requires op.Insert? && e in AfterRun(ops, capacity, ttl) && IsLive(e, op.now) && e.key != op.key
    ensures var live := Live(AfterRun(ops, capacity, ttl), op.now);
            e !in AfterRun(ops + [op], capacity, ttl) <==>
            && |live| == capacity
            && forall f | f in live :: f.key != op.key && (f == e || LastUse(ops, e.key) < LastUse(ops, f.key))
  {
    var items := AfterRun(ops, capacity, ttl);
    var live := Live(items, op.now);
    assert (ops + [op])[..|ops|] == ops;
    RunWithinCapacity(ops, capacity, ttl);
    RunRecency(ops, capacity, ttl);
    LiveOrdered(items, op.now, key => LastUse(ops, key));
    LiveSpec(items, op.now, e);
    LeastRecentIsLast(live, key => LastUse(ops, key), e);
    EvictsOnlyTheLast(items, capacity, ttl, op.key, op.response, op.now, e);
  }

  // --------------------------------------------------------------- what stays

  /** A `get` takes out no entry but its own, and that one only when it has expired. */
  lemma GetKeeps(items: Items, key: bytes, now: nat, e: Entry<Stored>)
    requires Distinct(items) && e in items
    ensures e in AfterGet(items, key, now) <==> e.key != key || IsLive(e, now)
  {
    var i :| 0 <= i < |items| && items[i] == e;
    var after := AfterGet(items, key, now);
    WithoutDistinct(items, key);
    if e.key != key {
      var p := WithoutHas(items, key, i);
      assert Without(items, key)[p] in after by {
        assert after == Without(items, key) || after[p + 1] == Without(items, key)[p];
      }
    } else {
      assert i == PlaceOf(items, key);
      if IsLive(e, now) {
        assert after[0] == e;
      }
    }
  }

  /** The other keys that were read or written since `key` last was. */
  function UsedSince(ops: seq<Op>, key: bytes): set<bytes> {
    if ops == [] || ops[|ops| - 1].key == key then {}
    else UsedSince(ops[..|ops| - 1], key) + {ops[|ops| - 1].key}
  }

  /** Since its last insertion, `key` never stood behind `capacity` other keys. */
  predicate NeverCrowded(ops: seq<Op>, key: bytes, capacity: NonZero) {
    if ops == [] || (ops[|ops| - 1].Insert? && ops[|ops| - 1].key == key) then true
    else |UsedSince(ops, key)| < capacity && NeverCrowded(ops[..|ops| - 1], key, capacity)
  }

  /** The clock does not go back, and stands at `now`. */
  ghost predicate ClockAt(ops: seq<Op>, now: nat) {
    && (forall i, j | 0 <= i < j < |ops| :: ops[i].now <= ops[j].now)
    && (forall i | 0 <= i < |ops| :: ops[i].now <= now)
  }

  /** What was used after `key` is among the keys used since. */
  lemma {:induction false} LaterUseIsSince(ops: seq<Op>, key: bytes, other: bytes)
    requires LastUse(ops, key) < LastUse(ops, other)
    ensures other in UsedSince(ops, key)
    decreases |ops|
  {
    if ops == [] || ops[|ops| - 1].key == other {
    } else {
      LaterUseIsSince(ops[..|ops| - 1], key, other);
    }
  }

  function KeysOf(items: Items): set<bytes> {
    set i | 0 <= i < |items| :: items[i].key
  }

  lemma {:induction false} KeyCount(items: Items)
    requires Distinct(items)
    ensures |KeysOf(items)| == |items|
  {
    if items == [] {
    } else {
      var n := |items| - 1;
      var rest := items[..n];
      forall key ensures key in KeysOf(items) <==> key in KeysOf(rest) + {items[n].key} {
        if key in KeysOf(rest) {
          var i :| 0 <= i < |rest| && rest[i].key == key;
          assert items[i].key == key;
        }
        if key in KeysOf(items) && key != items[n].key {
          var i :| 0 <= i < |items| && items[i].key == key;
          assert rest[i].key == key;
        }
      }
      assert KeysOf(items) == KeysOf(rest) + {items[n].key} && items[n].key !in KeysOf(rest);
      KeyCount(rest);
    }
  }

  lemma SubsetCount(part: set<bytes>, all: set<bytes>)
    requires part <= all
    ensures |part| <= |all|
  {
    assert all == part + (all - part);
  }

  /** The keys of entries used later than `key`, and one more key used now, are among those used since. */
  lemma LaterKeysAreSince(ops: seq<Op>, live: Items, key: bytes, op: Op)
    requires op.key != key && forall f | f in live :: f.key == key || LastUse(ops, key) < LastUse(ops, f.key)
    ensures KeysOf(live) - {key} + {op.key} <= UsedSince(ops + [op], key)
  {
    assert (ops + [op])[..|ops|] == ops;
    forall k | k in KeysOf(live) - {key} ensures k in UsedSince(ops, key) {
      var i :| 0 <= i < |live| && live[i].key == k;
      assert live[i] in live;
      LaterUseIsSince(ops, key, k);
    }
  }

  lemma OneKeyForAnother(live: Items, e: Entry<Stored>, key: bytes)
    requires Distinct(live) && e in live && forall f | f in live :: f.key != key
    ensures |KeysOf(live) - {e.key} + {key}| == |live|
  {
    KeyCount(live);
    var j :| 0 <= j < |live| && live[j] == e;
    assert e.key in KeysOf(live);
    forall i | 0 <= i < |live| ensures live[i].key != key {
      assert live[i] in live;
    }
  }

  /** An entry that is evicted stands behind as many other keys as the cache has room for. */
  lemma EvictionCrowds(ops: seq<Op>, capacity: NonZero, ttl: nat, op: Op, e: Entry<Stored>)
    requires op.Insert? && op.key != e.key && e in AfterRun(ops, capacity, ttl) && IsLive(e, op.now)
    requires e !in AfterRun(ops + [op], capacity, ttl)
    ensures |UsedSince(ops + [op], e.key)| >= capacity
  {
    var items := AfterRun(ops, capacity, ttl);
    var live := Live(items, op.now);
    EvictsTheLeastRecent(ops, capacity, ttl, op, e);
    RunWithinCapacity(ops, capacity, ttl);
    LiveDistinct(items, op.now);
    LiveSpec(items, op.now, e);
    OneKeyForAnother(live, e, op.key);
    LaterKeysAreSince(ops, live, e.key, op);
    SubsetCount(KeysOf(live) - {e.key} + {op.key}, UsedSince(ops + [op], e.key));
  }

  /** One more operation leaves a live entry that is not crowded out. */
  lemma StepStays(ops: seq<Op>, op: Op, capacity: NonZero, ttl: nat, e: Entry<Stored>)
    requires e in AfterRun(ops, capacity, ttl) && IsLive(e, op.now)
    requires op.Get? || (op.key != e.key && |UsedSince(ops + [op], e.key)| < capacity)
    ensures e in AfterRun(ops + [op], capacity, ttl)
  {
    assert (ops + [op])[..|ops|] == ops;
    if op.Get? {
      RunWithinCapacity(ops, capacity, ttl);
      GetKeeps(AfterRun(ops, capacity, ttl), op.key, op.now, e);
    } else if e !in AfterRun(ops + [op], capacity, ttl) {
      EvictionCrowds(ops, capacity, ttl, op, e);
    }
  }

  function EntryOf(op: Op, ttl: nat): Entry<Stored>
    requires op.Insert?
  {
    Entry(op.key, Stored(op.response, op.now + ttl))
  }

  /** The entry of the last insertion is there as long as it is live and was never crowded out. */
  lemma {:induction false} EntryStays(ops: seq<Op>, capacity: NonZero, ttl: nat, key: bytes, now: nat)
    requires ClockAt(ops, now) && LastInsert(ops, key).Some? && now < LastInsert(ops, key).value.now + ttl
    requires NeverCrowded(ops, key, capacity)
    ensures EntryOf(LastInsert(ops, key).value, ttl) in AfterRun(ops, capacity, ttl)
    decreases |ops|
  {
    var n := |ops| - 1;
    var prev, last := ops[..n], ops[n];
    if last.Insert? && last.key == key {
      assert AfterRun(ops, capacity, ttl)[0] == EntryOf(last, ttl);
    } else {
      EntryStays(prev, capacity, ttl, key, now);
      assert prev + [last] == ops;
      StepStays(prev, last, capacity, ttl, EntryOf(LastInsert(ops, key).value, ttl));
    }
  }

  /**
   Over every run with a clock that does not go back: the last response inserted
   under a key is hit as long as its TTL lasts and the key never stood behind
   `capacity` other keys.
   */
  lemma RecentIsHit(ops: seq<Op>, capacity: NonZero, ttl: nat, key: bytes, now: nat)
    requires ClockAt(ops, now) && LastInsert(ops, key).Some? && now < LastInsert(ops, key).value.now + ttl
    requires NeverCrowded(ops, key, capacity)
    ensures Hit(AfterRun(ops, capacity, ttl), key, now) == Some(LastInsert(ops, key).value.response)
  {
    EntryStays(ops, capacity, ttl, key, now);
    RunWithinCapacity(ops, capacity, ttl);
    var op, items := LastInsert(ops, key).value, AfterRun(ops, capacity, ttl);
    var i :| 0 <= i < |items| && items[i] == EntryOf(op, ttl);
    assert PlaceOf(items, key) == i;
  }

  /** A key that was crowded out stays out, although it was asked for since. */
  lemma CrowdedOut(a: bytes, b: bytes, x: CachedBlockResponse, y: CachedBlockResponse, ttl: nat)
    requires a != b && ttl > 0
    ensures var ops := [Insert(a, 0, x), Insert(b, 0, y), Get(a, 0)];
            && UsedSince(ops, a) == {} && !NeverCrowded(ops, a, 1)
            && Hit(AfterRun(ops, 1, ttl), a, 0) == None
  {
    var ops := [Insert(a, 0, x), Insert(b, 0, y), Get(a, 0)];
    assert ops[..2] == [Insert(a, 0, x), Insert(b, 0, y)] && ops[..2][..1] == [Insert(a, 0, x)];
    RunWithinCapacity(ops, 1, ttl);
    var after := AfterRun(ops[..2], 1, ttl);
    assert after[0].key == b;
    RunWithinCapacity(ops[..2], 1, ttl);
    assert UsedSince(ops[..2], a) == {b};
  }

  // ------------------------------------------------------------- by request

  datatype Request = Request(path: bytes, baseUrl: bytes, body: Value)

  function KeyOf(r: Request, hash: bytes -> bytes): bytes {
    Key(r.path, r.baseUrl, r.body, hash)
  }

  ghost predicate Plausible(r: Request) {
    OneLine(r.path) && OneLine(r.baseUrl) && WellFormed(r.body)
  }

  /** A hit means that an equivalent request was stored earlier in the run, less than a TTL ago, with this response. */
  lemma HitMeansEquivalentRequest(ops: seq<Op>, requests: seq<Request>, capacity: NonZero, ttl: nat, r: Request,
        now: nat, hash: bytes -> bytes)
    requires Injective(hash) && Plausible(r)
    requires |requests| == |ops| && forall i | 0 <= i < |ops| ::
             Plausible(requests[i]) && ops[i].key == KeyOf(requests[i], hash)
    requires Hit(AfterRun(ops, capacity, ttl), KeyOf(r, hash), now).Some?
    ensures exists i ::
              && 0 <= i < |ops| && ops[i].Insert? && now < ops[i].now + ttl
              && Hit(AfterRun(ops, capacity, ttl), KeyOf(r, hash), now) == Some(ops[i].response)
              && requests[i].path == r.path && requests[i].baseUrl == r.baseUrl && Equiv(requests[i].body, r.body)
  {
    HitIsFresh(ops, capacity, ttl, KeyOf(r, hash), now);
    var last := LastInsert(ops, KeyOf(r, hash)).value;
    var i :| 0 <= i < |ops| && ops[i] == last;
    var s := requests[i];
    KeysEqual(s.path, s.baseUrl, s.body, r.path, r.baseUrl, r.body, hash);
  }
}
