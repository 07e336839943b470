/** The order of an `LruCache`: a list of entries with distinct keys, most recently used first. */
module LruList {
  import opened Wrappers
  import opened Bytes

  datatype Entry<V> = Entry(key: bytes, value: V)

  function PlaceOf<V>(items: seq<Entry<V>>, key: bytes): (i: nat)
    ensures i <= |items|
    ensures i < |items| ==> items[i].key == key
    ensures forall j | 0 <= j < i :: items[j].key != key
  {
    if items == [] then 0 else if items[0].key == key then 0 else 1 + PlaceOf(items[1..], key)
  }

  /** `pop`. */
  function Without<V>(items: seq<Entry<V>>, key: bytes): seq<Entry<V>> {
    var i := PlaceOf(items, key);
    if i == |items| then items else items[..i] + items[i + 1..]
  }

  function Find<V>(items: seq<Entry<V>>, key: bytes): Option<V> {
    var i := PlaceOf(items, key);
    if i == |items| then None else Some(items[i].value)
  }

  /** `get` moves the entry it finds to the front. */
  function Promote<V>(items: seq<Entry<V>>, key: bytes): seq<Entry<V>> {
    var i := PlaceOf(items, key);
    if i == |items| then items else [items[i]] + Without(items, key)
  }

  ghost predicate Distinct<V>(items: seq<Entry<V>>) {
    forall i, j | 0 <= i < j < |items| :: items[i].key != items[j].key
  }

  /** Where an entry of `Without` comes from. */
  lemma WithoutAt<V>(items: seq<Entry<V>>, key: bytes, j: nat) returns (p: nat)
    requires Distinct(items) && j < |Without(items, key)|
    ensures p == if j < PlaceOf(items, key) then j else j + 1
    ensures p < |items| && Without(items, key)[j] == items[p] && items[p].key != key
  {
    var i := PlaceOf(items, key);
    p := if j < i then j else j + 1;
    if i < |items| {
      assert Without(items, key)[j] == (items[..i] + items[i + 1..])[j];
    }
  }

  /** Where an entry of another key goes. */
  lemma WithoutHas<V>(items: seq<Entry<V>>, key: bytes, i: nat) returns (p: nat)
    requires i < |items| && items[i].key != key
    ensures p == if i < PlaceOf(items, key) then i else i - 1
    ensures p < |Without(items, key)| && Without(items, key)[p] == items[i]
  {
    p := if i < PlaceOf(items, key) then i else i - 1;
  }

  lemma WithoutDistinct<V>(items: seq<Entry<V>>, key: bytes)
    requires Distinct(items)
    ensures Distinct(Without(items, key))
    ensures forall j | 0 <= j < |Without(items, key)| ::
              Without(items, key)[j].key != key && Without(items, key)[j] in items
  {
    var r := Without(items, key);
    forall j | 0 <= j < |r| ensures r[j].key != key && r[j] in items {
      var p := WithoutAt(items, key, j);
    }
    forall j, k | 0 <= j < k < |r| ensures r[j].key != r[k].key {
      var p := WithoutAt(items, key, j);
      var q := WithoutAt(items, key, k);
    }
  }

  lemma FrontDistinct<V>(e: Entry<V>, rest: seq<Entry<V>>)
    requires Distinct(rest) && forall j | 0 <= j < |rest| :: rest[j].key != e.key
    ensures Distinct([e] + rest)
  {
    var r := [e] + rest;
    forall i, j | 0 <= i < j < |r| ensures r[i].key != r[j].key {
      assert r[j] == rest[j - 1] && (i > 0 ==> r[i] == rest[i - 1]);
    }
  }

  /** Entries stand in the order of their last use. */
  ghost predicate Ordered<V>(items: seq<Entry<V>>, use: bytes -> nat) {
    forall i, j | 0 <= i < j < |items| :: use(items[i].key) > use(items[j].key)
  }

  /** `use'` is `use` after `key` was used at `now`, later than everything before. */
  ghost predicate UsedNow(use: bytes -> nat, use': bytes -> nat, key: bytes, now: nat) {
    forall k :: use'(k) == (if k == key then now else use(k)) && use(k) < now
  }

  lemma WithoutOrdered<V>(items: seq<Entry<V>>, key: bytes, use: bytes -> nat, use': bytes -> nat, now: nat)
    requires Distinct(items) && Ordered(items, use) && UsedNow(use, use', key, now)
    ensures Ordered(Without(items, key), use')
  {
    var r := Without(items, key);
    forall i, j | 0 <= i < j < |r| ensures use'(r[i].key) > use'(r[j].key) {
      var p := WithoutAt(items, key, i);
      var q := WithoutAt(items, key, j);
    }
  }

  /** Putting the used key in front of part of the others keeps the order. */
  lemma FrontOrdered<V>(e: Entry<V>, items: seq<Entry<V>>, n: nat, use: bytes -> nat, use': bytes -> nat, now: nat)
    requires Distinct(items) && Ordered(items, use) && UsedNow(use, use', e.key, now)
    requires n <= |Without(items, e.key)|
    ensures Ordered([e] + Without(items, e.key)[..n], use')
  {
    WithoutOrdered(items, e.key, use, use', now);
    WithoutDistinct(items, e.key);
  }
}
