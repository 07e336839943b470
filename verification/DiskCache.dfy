/**
 The disk layer of `src/cache.rs`: a `.json` and a `.bin` file a stem. Here the
 operations on the directory are whole: no other `get` or `set`, of this
 service or of the other one, runs between two of their calls on files. What
 happens otherwise is in `SharedDirectory`, `TornEntry` and `SetRace`. `now` is
 the clock in milliseconds, `modified` the file time of a `.json` file.
 */
module DiskCache {
  import opened Wrappers
  import opened Bytes
  import opened Ledger
  import opened MemoryCache
  import M = DiskMeta

  /** `meta` is `None` if the file's text cannot be read as one. */
  datatype MetaFile = MetaFile(meta: Option<M.DiskMeta>, modified: nat)

  type Metas = map<bytes, MetaFile>

  datatype Files = Files(metas: Metas, bodies: map<bytes, bytes>)

  datatype ReadError = Unreadable

  // -------------------------------------------------------------- specification

  /** A file that `prune_if_needed` lists and adds up. */
  predicate IsListed(metas: Metas, stem: bytes) {
    stem in metas && metas[stem].meta.Some?
  }

  ghost function Sizes(metas: Metas): map<bytes, nat> {
    map stem | stem in metas && metas[stem].meta.Some? :: metas[stem].meta.value.sizeBytes
  }

  ghost function Size(metas: Metas): nat {
    Total(Sizes(metas))
  }

  /** The meta file as `set` writes it. */
  function Written(value: CachedInlineData, now: nat, ttl: nat, modified: nat): MetaFile {
    MetaFile(Some(M.DiskMeta(value.mimeType, now + ttl, |value.content|)), modified)
  }

  function WithEntry(files: Files, stem: bytes, value: CachedInlineData, now: nat, ttl: nat, modified: nat): Files {
    Files(files.metas[stem := Written(value, now, ttl, modified)], files.bodies[stem := value.content])
  }

  function WithoutEntry(files: Files, stem: bytes): Files {
    Files(files.metas - {stem}, files.bodies - {stem})
  }

  predicate Expired(m: M.DiskMeta, now: nat) {
    now > m.expiresAt
  }

  /** `after` is `before` without some of its oldest listed entries. */
  ghost predicate OldestGone(before: Metas, after: Metas) {
    && (forall stem | stem in after :: stem in before && after[stem] == before[stem])
    && (forall r | r in before && r !in after :: before[r].meta.Some?)
    && (forall r, k | r in before && r !in after && IsListed(after, k) :: before[r].modified <= after[k].modified)
  }

  /** Without the removal of `r`, the newest of those removed, the rest would not fit. */
  ghost predicate LastRemoved(before: Metas, after: Metas, maxBytes: nat, r: bytes) {
    && IsListed(before, r) && r !in after && Size(after) + before[r].meta.value.sizeBytes > maxBytes
    && forall q | q in before && q !in after :: before[q].modified <= before[r].modified
  }

  /** What pruning leaves: entries as they were, no more than fit, the newest ones, and no fewer than it must. */
  ghost predicate MetasPruned(before: Metas, after: Metas, maxBytes: nat) {
    && OldestGone(before, after) && Size(after) <= maxBytes
    && (after != before ==> exists r :: LastRemoved(before, after, maxBytes, r))
  }

  /** With its meta file goes a body. */
  ghost predicate Pruned(before: Files, after: Files, maxBytes: nat) {
    && MetasPruned(before.metas, after.metas, maxBytes)
    && after.bodies == before.bodies - (before.metas.Keys - after.metas.Keys)
  }

  lemma SizeWithout(metas: Metas, stem: bytes)
    requires IsListed(metas, stem)
    ensures Size(metas) == metas[stem].meta.value.sizeBytes + Size(metas - {stem})
  {
    TotalWithout(Sizes(metas), stem);
    assert Sizes(metas) - {stem} == Sizes(metas - {stem});
  }

  lemma NothingListed(metas: Metas)
    requires forall stem :: !IsListed(metas, stem)
    ensures Size(metas) == 0
  {
    forall stem ensures stem !in Sizes(metas) {
      assert !IsListed(metas, stem);
    }
    assert Sizes(metas) == map[];
  }

  predicate Oldest(metas: Metas, stem: bytes) {
    IsListed(metas, stem) && forall t | t in metas && IsListed(metas, t) :: metas[stem].modified <= metas[t].modified
  }

  lemma {:induction false} OldestExists(metas: Metas, s: bytes) returns (oldest: bytes)
    requires IsListed(metas, s)
    ensures Oldest(metas, oldest)
    decreases |metas|
  {
    var rest := metas - {s};
    assert rest.Keys == metas.Keys - {s};
    oldest := s;
    if t :| IsListed(rest, t) {
      var o := OldestExists(rest, t);
      oldest := if metas[s].modified <= metas[o].modified then s else o;
      OlderOf(metas, s, o, oldest);
    } else {
      assert forall t | IsListed(metas, t) :: IsListed(rest, t) || t == s;
    }
  }

  lemma OlderOf(metas: Metas, s: bytes, o: bytes, oldest: bytes)
    requires IsListed(metas, s) && Oldest(metas - {s}, o)
    requires oldest == if metas[s].modified <= metas[o].modified then s else o
    ensures Oldest(metas, oldest)
  {
    forall t | IsListed(metas, t) ensures metas[oldest].modified <= metas[t].modified {
      assert t == s || IsListed(metas - {s}, t);
    }
  }

  /** Removing the oldest entry that is left removes no entry before an older one. */
  lemma OldestNext(before: Metas, metas: Metas, stem: bytes)
    requires OldestGone(before, metas) && Oldest(metas, stem)
    ensures OldestGone(before, metas - {stem})
  {
    var after := metas - {stem};
    forall r, k | r in before && r !in after && IsListed(after, k) ensures before[r].modified <= after[k].modified {
      assert IsListed(metas, k);
      if r in metas {
        assert r == stem;
      }
    }
  }

  lemma NewestRemoved(before: Metas, metas: Metas, maxBytes: nat, stem: bytes)
    requires OldestGone(before, metas) && Oldest(metas, stem) && Size(metas) > maxBytes
    ensures LastRemoved(before, metas - {stem}, maxBytes, stem)
  {
    SizeWithout(metas, stem);
    var after := metas - {stem};
    forall q | q in before && q !in after ensures before[q].modified <= before[stem].modified {
      if q in metas {
        assert q == stem;
      }
    }
  }

  // ------------------------------------------------------------ what stays

  /** The listed entries whose file time is no earlier, the one of `stem` among them. */
  function NotOlder(metas: Metas, stem: bytes): Metas
    requires stem in metas
  {
    map s | s in metas && metas[s].meta.Some? && metas[s].modified >= metas[stem].modified :: metas[s]
  }

  /** The listed entries whose file time is later. */
  function Newer(metas: Metas, stem: bytes): Metas
    requires stem in metas
  {
    map s | s in metas && metas[s].meta.Some? && metas[s].modified > metas[stem].modified :: metas[s]
  }

  /** In whatever order entries of one time are listed. */
  ghost predicate StaysAlways(before: Metas, maxBytes: nat, stem: bytes) {
    forall after | MetasPruned(before, after, maxBytes) :: stem in after
  }

  ghost predicate StaysSometimes(before: Metas, maxBytes: nat, stem: bytes) {
    exists after :: MetasPruned(before, after, maxBytes) && stem in after
  }

  /** A part of what is listed is no larger. */
  lemma PartFits(part: Metas, metas: Metas)
    requires forall s | s in part :: s in metas && metas[s] == part[s]
    ensures Size(part) <= Size(metas)
  {
    TotalOfPart(Sizes(part), Sizes(metas));
  }

  /** A removed entry is the last one removed, or no newer than it. */
  lemma StaysIfAllFit(before: Metas, after: Metas, maxBytes: nat, stem: bytes)
    requires MetasPruned(before, after, maxBytes) && IsListed(before, stem)
    requires Size(NotOlder(before, stem)) <= maxBytes
    ensures stem in after
  {
    if stem !in after {
      var r :| LastRemoved(before, after, maxBytes, r);
      var all := NotOlder(before, stem);
      assert r in all && forall s | IsListed(after, s) :: s in all;
      SizeWithout(all, r);
      TotalOfPart(Sizes(after), Sizes(all - {r}));
    }
  }

  /** With an entry stay all newer ones. */
  lemma StaysBesideNewer(before: Metas, after: Metas, maxBytes: nat, stem: bytes)
    requires MetasPruned(before, after, maxBytes) && IsListed(before, stem) && stem in after
    ensures Size(Newer(before, stem)) + before[stem].meta.value.sizeBytes <= maxBytes
  {
    var newer := Newer(before, stem);
    forall s | s in newer ensures s in after - {stem} {
    }
    PartFits(newer, after - {stem});
    SizeWithout(after, stem);
  }

  /** A state between two removals. */
  ghost predicate IsPartly(before: Metas, metas: Metas, maxBytes: nat) {
    OldestGone(before, metas) && (metas != before ==> exists r :: LastRemoved(before, metas, maxBytes, r))
  }

  lemma RemovesOldest(before: Metas, metas: Metas, maxBytes: nat, stem: bytes)
    requires IsPartly(before, metas, maxBytes) && Oldest(metas, stem) && Size(metas) > maxBytes
    ensures IsPartly(before, metas - {stem}, maxBytes) && |metas - {stem}| < |metas|
  {
    OldestNext(before, metas, stem);
    NewestRemoved(before, metas, maxBytes, stem);
    assert (metas - {stem}).Keys == metas.Keys - {stem};
  }

  lemma SomeOldest(metas: Metas, maxBytes: nat) returns (oldest: bytes)
    requires Size(metas) > maxBytes
    ensures Oldest(metas, oldest)
  {
    if s :| IsListed(metas, s) {
      oldest := OldestExists(metas, s);
    } else {
      NothingListed(metas);
    }
  }

  /** Pruning can always go on to its end. */
  lemma {:induction false} Finishes(before: Metas, metas: Metas, maxBytes: nat) returns (after: Metas)
    requires IsPartly(before, metas, maxBytes)
    ensures MetasPruned(before, after, maxBytes) && after.Keys <= metas.Keys
    decreases |metas|
  {
    if Size(metas) <= maxBytes {
      after := metas;
    } else {
      var o := SomeOldest(metas, maxBytes);
      RemovesOldest(before, metas, maxBytes, o);
      after := Finishes(before, metas - {o}, maxBytes);
    }
  }

  /** If an entry is too large together with those no older, it may go. */
  lemma {:induction false} CanGo(before: Metas, metas: Metas, maxBytes: nat, stem: bytes) returns (after: Metas)
    requires IsPartly(before, metas, maxBytes) && IsListed(before, stem)
    requires Size(NotOlder(before, stem)) > maxBytes && NotOlder(before, stem).Keys <= metas.Keys
    ensures MetasPruned(before, after, maxBytes) && stem !in after
    decreases |metas|
  {
    PartFits(NotOlder(before, stem), metas);
    assert stem in NotOlder(before, stem);
    if Oldest(metas, stem) {
      RemovesOldest(before, metas, maxBytes, stem);
      after := Finishes(before, metas - {stem}, maxBytes);
    } else {
      var o := SomeOldest(metas, maxBytes);
      RemovesOldest(before, metas, maxBytes, o);
      assert o !in NotOlder(before, stem);
      after := CanGo(before, metas - {o}, maxBytes, stem);
    }
  }

  /** If it fits beside the newer ones, it may stay. */
  lemma {:induction false} CanStay(before: Metas, metas: Metas, maxBytes: nat, stem: bytes) returns (after: Metas)
    requires IsPartly(before, metas, maxBytes) && IsListed(before, stem) && stem in metas
    requires Size(Newer(before, stem)) + before[stem].meta.value.sizeBytes <= maxBytes
    ensures MetasPruned(before, after, maxBytes) && stem in after
    decreases |metas|
  {
    if Size(metas) <= maxBytes {
      after := metas;
    } else {
      var o := SomeOldest(metas, maxBytes);
      if o == stem {
        o := AnotherOldest(before, metas, maxBytes, stem);
      }
      RemovesOldest(before, metas, maxBytes, o);
      after := CanStay(before, metas - {o}, maxBytes, stem);
    }
  }

  lemma AnotherOldest(before: Metas, metas: Metas, maxBytes: nat, stem: bytes) returns (o: bytes)
    requires OldestGone(before, metas) && Oldest(metas, stem)
    requires Size(Newer(before, stem)) + metas[stem].meta.value.sizeBytes <= maxBytes < Size(metas)
    ensures o != stem && Oldest(metas, o)
  {
    if s :| IsListed(metas, s) && s != stem && metas[s].modified <= metas[stem].modified {
      o := s;
    } else {
      var rest := metas - {stem};
      SizeWithout(metas, stem);
      forall s | s in Sizes(rest) ensures s in Sizes(Newer(before, stem)) {
        assert IsListed(metas, s);
      }
      TotalOfPart(Sizes(rest), Sizes(Newer(before, stem)));
    }
  }

  /**
   A listed entry survives the pruning in whatever order entries of one time are
   listed exactly when it fits together with all others no older, and in some
   order exactly when it fits beside those that are newer.
   */
  lemma StaysIff(before: Metas, maxBytes: nat, stem: bytes)
    requires IsListed(before, stem)
    ensures StaysAlways(before, maxBytes, stem) <==> Size(NotOlder(before, stem)) <= maxBytes
    ensures StaysSometimes(before, maxBytes, stem) <==>
            Size(Newer(before, stem)) + before[stem].meta.value.sizeBytes <= maxBytes
  {
    if Size(NotOlder(before, stem)) <= maxBytes {
      forall after | MetasPruned(before, after, maxBytes) ensures stem in after {
        StaysIfAllFit(before, after, maxBytes, stem);
      }
    } else {
      var after := CanGo(before, before, maxBytes, stem);
    }
    if Size(Newer(before, stem)) + before[stem].meta.value.sizeBytes <= maxBytes {
      var after := CanStay(before, before, maxBytes, stem);
    } else {
      forall after | MetasPruned(before, after, maxBytes) ensures stem !in after {
        if stem in after {
          StaysBesideNewer(before, after, maxBytes, stem);
        }
      }
    }
  }

  /** No listed entry is newer; others may be as new. */
  ghost predicate IsNewest(metas: Metas, stem: bytes) {
    IsListed(metas, stem) && forall s | IsListed(metas, s) :: metas[s].modified <= metas[stem].modified
  }

  /** The listed entries of the same file time, the one of `stem` among them. */
  function SameTime(metas: Metas, stem: bytes): Metas
    requires stem in metas
  {
    map s | s in metas && metas[s].meta.Some? && metas[s].modified == metas[stem].modified :: metas[s]
  }

  lemma NoneNewer(metas: Metas, stem: bytes)
    requires IsNewest(metas, stem)
    ensures NotOlder(metas, stem) == SameTime(metas, stem) && Size(Newer(metas, stem)) == 0
  {
    forall s | s in metas && metas[s].meta.Some? ensures metas[s].modified <= metas[stem].modified {
      assert IsListed(metas, s);
    }
    NothingListed(Newer(metas, stem));
  }

  /**
   One of the newest entries survives the pruning in whatever order entries of
   one time are listed exactly when all those of its time fit together, and in
   some order exactly when it fits on its own.
   */
  lemma NewestStaysIff(before: Metas, maxBytes: nat, stem: bytes)
    requires IsNewest(before, stem)
    ensures StaysAlways(before, maxBytes, stem) <==> Size(SameTime(before, stem)) <= maxBytes
    ensures StaysSometimes(before, maxBytes, stem) <==> before[stem].meta.value.sizeBytes <= maxBytes
  {
    StaysIff(before, maxBytes, stem);
    NoneNewer(before, stem);
  }

  /** No other listed entry is as new. */
  ghost predicate StrictlyNewest(metas: Metas, stem: bytes) {
    IsListed(metas, stem) && forall s | IsListed(metas, s) && s != stem :: metas[s].modified < metas[stem].modified
  }

  /**
   One written at a later time than all others survives exactly when it is no
   larger than the budget; one that is larger takes every other listed entry
   with it.
   */
  lemma NewestStays(before: Metas, after: Metas, maxBytes: nat, stem: bytes)
    requires MetasPruned(before, after, maxBytes) && StrictlyNewest(before, stem)
    ensures stem in after <==> before[stem].meta.value.sizeBytes <= maxBytes
    ensures before[stem].meta.value.sizeBytes > maxBytes ==> forall s :: !IsListed(after, s)
  {
    AloneInTime(before, stem);
    NewestStaysIff(before, maxBytes, stem);
    if before[stem].meta.value.sizeBytes <= maxBytes {
      assert StaysAlways(before, maxBytes, stem);
    } else {
      assert !StaysSometimes(before, maxBytes, stem);
      assert forall s | IsListed(after, s) :: IsListed(before, s);
    }
  }

  lemma AloneInTime(metas: Metas, stem: bytes)
    requires StrictlyNewest(metas, stem)
    ensures SameTime(metas, stem) == map[stem := metas[stem]]
    ensures Size(SameTime(metas, stem)) == metas[stem].meta.value.sizeBytes
  {
    var alone := SameTime(metas, stem);
    assert alone - {stem} == map[];
    SizeWithout(alone, stem);
    NothingListed(alone - {stem});
  }

  /** One byte is stored and fits a budget of one byte; two bytes more, and the directory is empty. */
  lemma OversizeEmpties(a: bytes, b: bytes, small: CachedInlineData, large: CachedInlineData, ttl: nat, after: Metas)
    requires a != b && |small.content| == 1 && |large.content| == 2
    ensures var before := map[a := Written(small, 0, ttl, 0)];
            Size(before) <= 1 && (MetasPruned(before[b := Written(large, 0, ttl, 1)], after, 1) ==> after == map[])
  {
    var before := map[a := Written(small, 0, ttl, 0)];
    var written := before[b := Written(large, 0, ttl, 1)];
    assert before - {a} == map[];
    SizeWithout(before, a);
    NothingListed(map[]);
    if MetasPruned(written, after, 1) {
      NewestStays(written, after, 1, b);
      assert forall s | s in after :: IsListed(after, s);
      assert after.Keys == {};
    }
  }

  /** Two entries of one time, each as large as the budget: either may be the one that is left. */
  lemma TiedEntries(a: bytes, b: bytes, x: CachedInlineData, y: CachedInlineData, ttl: nat)
    requires a != b && |x.content| == |y.content| == 2
    ensures var before: Metas := map[a := Written(x, 0, ttl, 0), b := Written(y, 0, ttl, 0)];
            && StaysSometimes(before, 2, a) && !StaysAlways(before, 2, a)
            && StaysSometimes(before, 2, b) && !StaysAlways(before, 2, b)
  {
    var before: Metas := map[a := Written(x, 0, ttl, 0), b := Written(y, 0, ttl, 0)];
    assert SameTime(before, a) == before && SameTime(before, b) == before;
    SizeWithout(before, a);
    SizeWithout(before - {a}, b);
    NewestStaysIff(before, 2, a);
    NewestStaysIff(before, 2, b);
  }

  // -------------------------------------------------------------------- the class

  function AfterGet(files: Files, stem: bytes, now: nat): Files {
    if stem in files.metas && stem in files.bodies && files.metas[stem].meta.Some?
       && Expired(files.metas[stem].meta.value, now)
    then WithoutEntry(files, stem)
    else files
  }

  /** What `get` answers: nothing without both files or past the expiry, an error if the meta file cannot be read. */
  function Answer(files: Files, stem: bytes, now: nat): Result<Option<CachedInlineData>, ReadError> {
    if stem !in files.metas || stem !in files.bodies then Ok(None)
    else
      match files.metas[stem].meta
      case None => Err(Unreadable)
      case Some(meta) =>
        Ok(if Expired(meta, now) then None else Some(CachedInlineData(meta.mimeType, files.bodies[stem])))
  }

  /** `get` takes out the two files of its entry exactly when this can be read and has expired, and nothing else. */
  lemma GetTakesOut(files: Files, stem: bytes, now: nat, s: bytes)
    ensures var after := AfterGet(files, stem, now);
            var gone := s == stem && IsListed(files.metas, s) && s in files.bodies
                        && now > files.metas[s].meta.value.expiresAt;
            && (s in after.metas <==> s in files.metas && !gone)
            && (s in after.bodies <==> s in files.bodies && !gone)
            && (s in after.metas ==> after.metas[s] == files.metas[s])
            && (s in after.bodies ==> after.bodies[s] == files.bodies[s])
  {
  }

  /** The directory between two removals. */
  ghost predicate IsBetween(before: Files, files: Files, maxBytes: nat) {
    && IsPartly(before.metas, files.metas, maxBytes)
    && files.bodies == before.bodies - (before.metas.Keys - files.metas.Keys)
  }

  lemma RemovesEntry(before: Files, files: Files, maxBytes: nat, stem: bytes)
    requires IsBetween(before, files, maxBytes) && Oldest(files.metas, stem) && Size(files.metas) > maxBytes
    ensures IsBetween(before, WithoutEntry(files, stem), maxBytes)
    ensures |(files.metas - {stem})| < |files.metas|
    ensures Size(files.metas) == files.metas[stem].meta.value.sizeBytes + Size(files.metas - {stem})
  {
    SizeWithout(files.metas, stem);
    RemovesOldest(before.metas, files.metas, maxBytes, stem);
    OneBodyLess(before.bodies, before.metas.Keys, files.metas, stem);
  }

  lemma OneBodyLess(bodies: map<bytes, bytes>, all: set<bytes>, metas: Metas, stem: bytes)
    requires stem in metas && metas.Keys <= all
    ensures bodies - (all - metas.Keys) - {stem} == bodies - (all - (metas - {stem}).Keys)
  {
  }

  class DiskCache {
    const ttl: nat
    const maxBytes: nat
    const key: bytes -> bytes
    var metas: Metas
    var bodies: map<bytes, bytes>

    function Contents(): Files
      reads this
    {
      Files(metas, bodies)
    }

    /** The directory holds what an earlier process left in it. */
    constructor (ttl: nat, maxBytes: nat, key: bytes -> bytes, left: Files)
      ensures this.ttl == ttl && this.maxBytes == maxBytes && this.key == key && Contents() == left
    {
      this.ttl, this.maxBytes, this.key, metas, bodies := ttl, maxBytes, key, left.metas, left.bodies;
    }

    /** `get`: an expired entry is removed. */
    method Get(url: bytes, now: nat) returns (answer: Result<Option<CachedInlineData>, ReadError>)
      modifies this`metas, this`bodies
      ensures Contents() == AfterGet(old(Contents()), key(url), now)
      ensures answer == Answer(old(Contents()), key(url), now)
    {
      var stem := key(url);
      if stem !in metas || stem !in bodies {
        return Ok(None);
      }
      var file := metas[stem];
      if file.meta.None? {
        return Err(Unreadable);
      }
      var meta := file.meta.value;
      if now > meta.expiresAt {
        metas := metas - {stem};
        bodies := bodies - {stem};
        return Ok(None);
      }
      answer := Ok(Some(CachedInlineData(meta.mimeType, bodies[stem])));
    }

    /** The first loop of `prune_if_needed`; a file that cannot be read is passed over. */
    method TotalBytes() returns (total: nat)
      ensures total == Size(metas)
    {
      total := 0;
      var left := metas;
      while left != map[]
        invariant total + Size(left) == Size(metas)
        decreases |left|
      {
        assert left.Keys != {};
        var stem :| stem in left;
        assert (left - {stem}).Keys == left.Keys - {stem};
        if left[stem].meta.Some? {
          SizeWithout(left, stem);
          total := total + left[stem].meta.value.sizeBytes;
        } else {
          assert Sizes(left - {stem}) == Sizes(left);
        }
        left := left - {stem};
      }
      NothingListed(left);
    }

    /** `prune_if_needed`: the oldest entries go first; entries of one time go in whatever order they were listed. */
    method PruneIfNeeded()
      modifies this`metas, this`bodies
      ensures Pruned(old(Contents()), Contents(), maxBytes)
    {
      ghost var before, left := Contents(), Contents();
      var total := TotalBytes();
      while total > maxBytes
        invariant metas == left.metas && bodies == left.bodies && total == Size(left.metas)
        invariant IsBetween(before, left, maxBytes)
        decreases |left.metas|
      {
        ghost var oldest := SomeOldest(metas, maxBytes);
        var stem :| stem in metas && Oldest(metas, stem);
        assert Oldest(metas, stem);
        RemovesEntry(before, left, maxBytes, stem);
        total := SaturatingSub(total, metas[stem].meta.value.sizeBytes);
        metas := metas - {stem};
        bodies := bodies - {stem};
        left := WithoutEntry(left, stem);
      }
    }

    /**
     `set`: the body file is written, then the meta file, then the directory is
     pruned. If no listed file is newer, the entry stays if those of its time fit
     together; if none is as new, exactly when it fits on its own, and otherwise
     nothing listed stays.
     */
    method Set(url: bytes, value: CachedInlineData, now: nat, modified: nat)
      modifies this`metas, this`bodies
      ensures Pruned(WithEntry(old(Contents()), key(url), value, now, ttl, modified), Contents(), maxBytes)
      ensures var written := old(metas)[key(url) := Written(value, now, ttl, modified)];
              && (IsNewest(written, key(url)) && Size(SameTime(written, key(url))) <= maxBytes ==> key(url) in metas)
              && (StrictlyNewest(written, key(url)) ==>
                    && (key(url) in metas <==> |value.content| <= maxBytes)
                    && (|value.content| > maxBytes ==> forall s :: !IsListed(metas, s)))
    {
      bodies := bodies[key(url) := value.content];
      metas := metas[key(url) := Written(value, now, ttl, modified)];
      ghost var written := metas;
      PruneIfNeeded();
      if IsNewest(written, key(url)) && Size(SameTime(written, key(url))) <= maxBytes {
        NoneNewer(written, key(url));
        StaysIfAllFit(written, metas, maxBytes, key(url));
      }
      if StrictlyNewest(written, key(url)) {
        NewestStays(written, metas, maxBytes, key(url));
      }
    }
  }

  // ------------------------------------------------------------------- what it keeps

  datatype Op = Get(stem: bytes, now: nat) | Set(stem: bytes, now: nat, value: CachedInlineData, modified: nat)

  ghost predicate StepOk(before: Files, op: Op, after: Files, maxBytes: nat, ttl: nat) {
    match op
    case Get(stem, now) => after == AfterGet(before, stem, now)
    case Set(stem, now, value, modified) =>
      Pruned(WithEntry(before, stem, value, now, ttl, modified), after, maxBytes)
  }

  /** `files[i]` is the directory before the `i`-th operation; `files[0]` is whatever an earlier process left. */
  ghost predicate IsRun(ops: seq<Op>, files: seq<Files>, maxBytes: nat, ttl: nat) {
    && |files| == |ops| + 1
    && forall i | 0 <= i < |ops| :: StepOk(files[i], ops[i], files[i + 1], maxBytes, ttl)
  }

  function LastSet(ops: seq<Op>, stem: bytes): (last: Option<Op>)
    ensures last.Some? ==> last.value.Set? && last.value.stem == stem && last.value in ops
  {
    if ops == [] then None
    else
      var op := ops[|ops| - 1];
      if op.Set? && op.stem == stem then Some(op) else LastSet(ops[..|ops| - 1], stem)
  }

  /** Each file of the entry, where it is there at all, is as in the second directory. */
  ghost predicate FilesFrom(files: Files, stem: bytes, source: Files) {
    && (stem in files.metas ==> stem in source.metas && files.metas[stem] == source.metas[stem])
    && (stem in files.bodies ==> stem in source.bodies && files.bodies[stem] == source.bodies[stem])
  }

  /** Each file of the entry, where it is there at all, is as this `set` wrote it. */
  ghost predicate FilesOf(files: Files, stem: bytes, last: Op, ttl: nat)
    requires last.Set?
  {
    && (stem in files.metas ==> files.metas[stem] == Written(last.value, last.now, ttl, last.modified))
    && (stem in files.bodies ==> files.bodies[stem] == last.value.content)
  }

  lemma StepProvenance(before: Files, op: Op, after: Files, maxBytes: nat, ttl: nat, stem: bytes)
    requires StepOk(before, op, after, maxBytes, ttl)
    ensures if op.Set? && op.stem == stem then FilesOf(after, stem, op, ttl) else FilesFrom(after, stem, before)
  {
  }

  lemma RunPrefix(ops: seq<Op>, files: seq<Files>, maxBytes: nat, ttl: nat)
    requires IsRun(ops, files, maxBytes, ttl) && ops != []
    ensures var n := |ops| - 1;
            && IsRun(ops[..n], files[..n + 1], maxBytes, ttl)
            && StepOk(files[n], ops[n], files[n + 1], maxBytes, ttl)
            && files[..n + 1][n] == files[n] && files[..n + 1][0] == files[0]
  {
  }

  /** Both files of an entry are as the last set of its stem wrote them, or were there from the start and never set. */
  lemma {:induction false} RunProvenance(ops: seq<Op>, files: seq<Files>, maxBytes: nat, ttl: nat, stem: bytes)
    requires IsRun(ops, files, maxBytes, ttl)
    ensures match LastSet(ops, stem)
            case Some(last) => FilesOf(files[|ops|], stem, last, ttl)
            case None => FilesFrom(files[|ops|], stem, files[0])
    decreases |ops|
  {
    if ops == [] {
    } else {
      var n := |ops| - 1;
      RunPrefix(ops, files, maxBytes, ttl);
      StepProvenance(files[n], ops[n], files[n + 1], maxBytes, ttl, stem);
      RunProvenance(ops[..n], files[..n + 1], maxBytes, ttl, stem);
    }
  }

  lemma StepFits(before: Files, op: Op, after: Files, maxBytes: nat, ttl: nat)
    requires StepOk(before, op, after, maxBytes, ttl)
    ensures Size(after.metas) <= if op.Set? then maxBytes else Size(before.metas)
  {
    if op.Get? {
      PartFits(after.metas, before.metas);
    }
  }

  ghost predicate AnySet(ops: seq<Op>) {
    exists i :: 0 <= i < |ops| && ops[i].Set?
  }

  /** From the first set on, what is listed is within the budget; before it, nothing is added to what was there. */
  lemma {:induction false} RunFits(ops: seq<Op>, files: seq<Files>, maxBytes: nat, ttl: nat)
    requires IsRun(ops, files, maxBytes, ttl)
    ensures Size(files[|ops|].metas) <= if AnySet(ops) then maxBytes else Size(files[0].metas)
    decreases |ops|
  {
    if ops == [] {
    } else {
      var n := |ops| - 1;
      RunPrefix(ops, files, maxBytes, ttl);
      StepFits(files[n], ops[n], files[n + 1], maxBytes, ttl);
      RunFits(ops[..n], files[..n + 1], maxBytes, ttl);
      if AnySet(ops) && !ops[n].Set? {
        var i :| 0 <= i < |ops| && ops[i].Set?;
        assert ops[..n][i].Set?;
      }
    }
  }

  /** What `get` returns was set last under that stem no longer than a TTL ago, or had been there from the start. */
  lemma HitIsFresh(ops: seq<Op>, files: seq<Files>, maxBytes: nat, ttl: nat, stem: bytes, now: nat)
    requires IsRun(ops, files, maxBytes, ttl)
    requires Answer(files[|ops|], stem, now).Ok? && Answer(files[|ops|], stem, now).value.Some?
    ensures match LastSet(ops, stem)
            case Some(last) => Answer(files[|ops|], stem, now) == Ok(Some(last.value)) && now <= last.now + ttl
            case None => Answer(files[|ops|], stem, now) == Answer(files[0], stem, now)
  {
    RunProvenance(ops, files, maxBytes, ttl, stem);
  }

  /** Only an entry that is there from the start can be one that `get` fails on. */
  lemma SetIsReadable(ops: seq<Op>, files: seq<Files>, maxBytes: nat, ttl: nat, stem: bytes, now: nat)
    requires IsRun(ops, files, maxBytes, ttl) && LastSet(ops, stem).Some?
    ensures Answer(files[|ops|], stem, now).Ok?
  {
    RunProvenance(ops, files, maxBytes, ttl, stem);
  }

  predicate IsBroken(files: Files, stem: bytes) {
    stem in files.metas && stem in files.bodies && files.metas[stem].meta.None?
  }

  lemma StepKeepsBroken(before: Files, op: Op, after: Files, maxBytes: nat, ttl: nat, stem: bytes)
    requires StepOk(before, op, after, maxBytes, ttl) && IsBroken(before, stem) && !(op.Set? && op.stem == stem)
    ensures IsBroken(after, stem)
  {
    if op.Set? {
      var written := WithEntry(before, op.stem, op.value, op.now, ttl, op.modified);
      assert IsBroken(written, stem);
    }
  }

  /**
   An entry whose meta file cannot be read is never pruned and never expires:
   until it is set again, every `get` fails on it.
   */
  lemma {:induction false} BrokenStays(ops: seq<Op>, files: seq<Files>, maxBytes: nat, ttl: nat, stem: bytes, now: nat)
    requires IsRun(ops, files, maxBytes, ttl) && LastSet(ops, stem).None? && IsBroken(files[0], stem)
    ensures IsBroken(files[|ops|], stem) && Answer(files[|ops|], stem, now) == Err(Unreadable)
    decreases |ops|
  {
    if ops == [] {
    } else {
      var n := |ops| - 1;
      RunPrefix(ops, files, maxBytes, ttl);
      BrokenStays(ops[..n], files[..n + 1], maxBytes, ttl, stem, now);
      StepKeepsBroken(files[n], ops[n], files[n + 1], maxBytes, ttl, stem);
    }
  }

  // ------------------------------------------------------------ what is still there

  /** If operation `i` is a set, the entry of `stem` fits into the directory it writes with all others no older. */
  ghost predicate FitsAt(op: Op, before: Files, maxBytes: nat, ttl: nat, stem: bytes) {
    op.Set? ==>
      var written := WithEntry(before, op.stem, op.value, op.now, ttl, op.modified).metas;
      IsListed(written, stem) && Size(NotOlder(written, stem)) <= maxBytes
  }

  /** So it does from the last set of `stem` on. */
  ghost predicate FitsSince(ops: seq<Op>, files: seq<Files>, maxBytes: nat, ttl: nat, stem: bytes)
    requires |files| == |ops| + 1
  {
    && ops != []
    && var n := |ops| - 1;
       && FitsAt(ops[n], files[n], maxBytes, ttl, stem)
       && ((ops[n].Set? && ops[n].stem == stem) || FitsSince(ops[..n], files[..n + 1], maxBytes, ttl, stem))
  }

  /** Both files of the entry are there, as `last` wrote them. */
  ghost predicate IsEntryOf(files: Files, stem: bytes, last: Op, ttl: nat)
    requires last.Set?
  {
    stem in files.metas && stem in files.bodies && FilesOf(files, stem, last, ttl)
  }

  lemma SetKeeps(before: Files, op: Op, after: Files, maxBytes: nat, ttl: nat, stem: bytes, last: Op)
    requires op.Set? && last.Set? && StepOk(before, op, after, maxBytes, ttl) && FitsAt(op, before, maxBytes, ttl, stem)
    requires if op.stem == stem then last == op else IsEntryOf(before, stem, last, ttl)
    ensures IsEntryOf(after, stem, last, ttl)
  {
    var written := WithEntry(before, op.stem, op.value, op.now, ttl, op.modified);
    StaysIfAllFit(written.metas, after.metas, maxBytes, stem);
  }

  lemma GetKeeps(before: Files, op: Op, after: Files, maxBytes: nat, ttl: nat, stem: bytes, last: Op)
    requires op.Get? && last.Set? && StepOk(before, op, after, maxBytes, ttl) && IsEntryOf(before, stem, last, ttl)
    requires op.now <= last.now + ttl
    ensures IsEntryOf(after, stem, last, ttl)
  {
  }

  lemma {:induction false} EntryStays(ops: seq<Op>, files: seq<Files>, maxBytes: nat, ttl: nat, stem: bytes, now: nat)
    requires IsRun(ops, files, maxBytes, ttl) && FitsSince(ops, files, maxBytes, ttl, stem)
    requires forall op | op in ops :: op.now <= now
    requires LastSet(ops, stem).Some? && now <= LastSet(ops, stem).value.now + ttl
    ensures IsEntryOf(files[|ops|], stem, LastSet(ops, stem).value, ttl)
    decreases |ops|
  {
    var n, last := |ops| - 1, LastSet(ops, stem).value;
    var op := ops[n];
    RunPrefix(ops, files, maxBytes, ttl);
    if op.Set? && op.stem == stem {
      SetKeeps(files[n], op, files[n + 1], maxBytes, ttl, stem, last);
    } else {
      EntryStays(ops[..n], files[..n + 1], maxBytes, ttl, stem, now);
      if op.Set? {
        SetKeeps(files[n], op, files[n + 1], maxBytes, ttl, stem, last);
      } else {
        assert op in ops;
        GetKeeps(files[n], op, files[n + 1], maxBytes, ttl, stem, last);
      }
    }
  }

  /**
   The converse of `HitIsFresh`: over every run of whole operations on a clock
   that does not go back, `get` returns what was set last, as long as a TTL has
   not passed and each set since left room for it.
   */
  lemma FreshIsHit(ops: seq<Op>, files: seq<Files>, maxBytes: nat, ttl: nat, stem: bytes, now: nat)
    requires IsRun(ops, files, maxBytes, ttl) && FitsSince(ops, files, maxBytes, ttl, stem)
    requires forall op | op in ops :: op.now <= now
    requires LastSet(ops, stem).Some? && now <= LastSet(ops, stem).value.now + ttl
    ensures Answer(files[|ops|], stem, now) == Ok(Some(LastSet(ops, stem).value.value))
  {
    EntryStays(ops, files, maxBytes, ttl, stem, now);
  }
}
