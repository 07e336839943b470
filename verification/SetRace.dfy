/**
 Two sets of one entry of the shared directory, one by each service, in every
 order of their calls: what the two files can hold in the end, and exactly when
 that is always one of the two images.
 */
module SetRace {
  import opened Wrappers
  import opened Bytes
  import opened MemoryCache
  import opened SharedDirectory
  import opened TornEntry
  import M = DiskMeta

  /** Both sets; `turns` says whose call is next, true for the first. */
  datatype Race = Race(dir: Dir, a: Access, b: Access)

  function Turn(cfg: Config, r: Race, first: bool): Option<Race>
    requires r.a.Setting? && r.b.Setting?
  {
    if first then
      var (dir, done) :- SetStep(cfg, r.dir, r.a);
      Some(r.(dir := dir, a := r.a.(done := done)))
    else
      var (dir, done) :- SetStep(cfg, r.dir, r.b);
      Some(r.(dir := dir, b := r.b.(done := done)))
  }

  function RunRace(cfg: Config, r: Race, turns: seq<bool>): (end: Option<Race>)
    requires r.a.Setting? && r.b.Setting?
    ensures end.Some? ==> end.value.a.Setting? && end.value.b.Setting?
    decreases |turns|
  {
    if turns == [] then Some(r)
    else
      var next :- Turn(cfg, r, turns[0]);
      RunRace(cfg, next, turns[1..])
  }

  /** A race is a run of the two services, whatever else they are doing. */
  function Events(turns: seq<bool>): seq<Event> {
    if turns == [] then [] else [if turns[0] then NextCall(true) else OtherCall(true)] + Events(turns[1..])
  }

  lemma {:induction false} RaceIsARun(cfg: Config, sys: System, r: Race, turns: seq<bool>)
    requires r.a.Setting? && r.b.Setting? && RunRace(cfg, r, turns).Some?
    requires sys.request.Some? && sys.request.value.access == r.a && sys.response == Some(r.b) && sys.dir == r.dir
    ensures var end := RunRace(cfg, r, turns).value;
            RunAll(cfg, sys, Events(turns)) ==
            Some(sys.(dir := end.dir, request := Some(sys.request.value.(access := end.a)), response := Some(end.b)))
    decreases |turns|
  {
    if turns == [] {
    } else {
      var events, next := Events(turns), Turn(cfg, r, turns[0]).value;
      assert events[1..] == Events(turns[1..]);
      var held := Some(sys.request.value.(access := next.a));
      var sys' := sys.(dir := next.dir, request := held, response := Some(next.b));
      assert Step(cfg, sys, events[0]) == Some(sys');
      RaceIsARun(cfg, sys', next, turns[1..]);
    }
  }

  /** The two sets at their beginning. */
  function Start(url: bytes, a: CachedInlineData, textA: bytes, b: CachedInlineData, textB: bytes, dir: Dir): Race {
    Race(dir, Setting(url, a, textA, TruncateBody), Setting(url, b, textB, TruncateBody))
  }

  predicate IsEnd(end: Option<Race>) {
    end.Some? && IsOver(end.value.a) && IsOver(end.value.b)
  }

  /** The entry can be read and is one of the two images. */
  predicate IsGenuine(cfg: Config, dir: Dir, url: bytes, a: CachedInlineData, b: CachedInlineData) {
    Readable(cfg, dir, url) && (OnDisk(cfg, dir, url) == a || OnDisk(cfg, dir, url) == b)
  }

  // ------------------------------------------------------------ one file at a time

  /** What a file that both have written can hold. */
  predicate IsOutcome(text: bytes, x: bytes, y: bytes) {
    text == x || text == y || text == Overlay(x, y) || text == Overlay(y, x)
  }

  function BodyProgress(done: SetPc): nat {
    match done
    case TruncateBody => 0
    case FillBody => 1
    case _ => 2
  }

  function MetaProgress(done: SetPc): nat {
    match done
    case FillMeta => 1
    case Written => 2
    case _ => 0
  }

  /** What a file can hold when each of two writers has made 0, 1 or 2 of its calls. */
  predicate CouldHold(files: map<bytes, bytes>, stem: bytes, x: bytes, p: nat, y: bytes, q: nat) {
    p > 0 || q > 0 ==>
      && stem in files
      && var text := files[stem];
         if p == 2 && q == 2 then IsOutcome(text, x, y)
         else if p == 2 then text == x || (q == 1 && text == [])
         else if q == 2 then text == y || (p == 1 && text == [])
         else text == []
  }

  ghost predicate RaceOk(cfg: Config, r: Race) {
    && r.a.Setting? && r.b.Setting? && r.a.url == r.b.url
    && CouldHold(r.dir.bodies, cfg.key(r.a.url), r.a.value.content, BodyProgress(r.a.done),
                 r.b.value.content, BodyProgress(r.b.done))
    && CouldHold(r.dir.metas, cfg.key(r.a.url), r.a.metaText, MetaProgress(r.a.done),
                 r.b.metaText, MetaProgress(r.b.done))
  }

  lemma TurnKeeps(cfg: Config, r: Race, first: bool)
    requires RaceOk(cfg, r) && Turn(cfg, r, first).Some?
    ensures RaceOk(cfg, Turn(cfg, r, first).value)
  {
  }

  /** Over every order of the calls, each file ends with one text, or with one laid over the other. */
  lemma {:induction false} RaceKeeps(cfg: Config, r: Race, turns: seq<bool>)
    requires RaceOk(cfg, r) && RunRace(cfg, r, turns).Some?
    ensures var end := RunRace(cfg, r, turns).value;
            && RaceOk(cfg, end) && end.a == r.a.(done := end.a.done) && end.b == r.b.(done := end.b.done)
    decreases |turns|
  {
    if turns == [] {
    } else {
      TurnKeeps(cfg, r, turns[0]);
      RaceKeeps(cfg, Turn(cfg, r, turns[0]).value, turns[1..]);
    }
  }

  // ------------------------------------------------------------- every outcome occurs

  lemma {:induction false} RaceAppend(cfg: Config, r: Race, s: seq<bool>, t: seq<bool>)
    requires r.a.Setting? && r.b.Setting? && RunRace(cfg, r, s).Some?
    ensures RunRace(cfg, r, s + t) == RunRace(cfg, RunRace(cfg, r, s).value, t)
    decreases |s|
  {
    if s == [] {
      assert s + t == t;
    } else {
      assert (s + t)[0] == s[0] && (s + t)[1..] == s[1..] + t;
      RaceAppend(cfg, Turn(cfg, r, s[0]).value, s[1..], t);
    }
  }

  /** These four calls on one file leave `text` there. */
  predicate Leaves(turns: seq<bool>, text: bytes, x: bytes, y: bytes) {
    || (turns == [false, false, true, true] && text == x)
    || (turns == [true, true, false, false] && text == y)
    || (turns == [true, false, true, false] && text == Overlay(x, y))
    || (turns == [true, false, false, true] && text == Overlay(y, x))
  }

  function TurnsFor(text: bytes, x: bytes, y: bytes): (turns: seq<bool>)
    requires IsOutcome(text, x, y)
    ensures Leaves(turns, text, x, y)
  {
    if text == x then [false, false, true, true]
    else if text == y then [true, true, false, false]
    else if text == Overlay(x, y) then [true, false, true, false]
    else [true, false, false, true]
  }

  lemma FirstTurn(cfg: Config, r: Race, first: bool, turns: seq<bool>)
    requires r.a.Setting? && r.b.Setting? && Turn(cfg, r, first).Some?
    ensures RunRace(cfg, r, [first] + turns) == RunRace(cfg, Turn(cfg, r, first).value, turns)
  {
    assert ([first] + turns)[1..] == turns;
  }

  /** Four turns that can all be taken. */
  lemma FourTurns(cfg: Config, r: Race, t0: bool, r1: Race, t1: bool, r2: Race, t2: bool, r3: Race, t3: bool, r4: Race)
    requires r.a.Setting? && r.b.Setting?
    requires Turn(cfg, r, t0) == Some(r1) && Turn(cfg, r1, t1) == Some(r2)
    requires Turn(cfg, r2, t2) == Some(r3) && Turn(cfg, r3, t3) == Some(r4)
    ensures RunRace(cfg, r, [t0, t1, t2, t3]) == Some(r4)
  {
    FirstTurn(cfg, r, t0, [t1, t2, t3]);
    FirstTurn(cfg, r1, t1, [t2, t3]);
    FirstTurn(cfg, r2, t2, [t3]);
    FirstTurn(cfg, r3, t3, []);
    assert [t0, t1, t2, t3] == [t0] + [t1, t2, t3] && [t1, t2, t3] == [t1] + [t2, t3];
    assert [t2, t3] == [t2] + [t3] && [t3] == [t3] + [];
  }

  lemma BodiesEndAs(cfg: Config, r: Race, turns: seq<bool>, text: bytes)
    requires r.a.Setting? && r.b.Setting? && r.a.url == r.b.url
    requires r.a.done.TruncateBody? && r.b.done.TruncateBody?
    requires Leaves(turns, text, r.a.value.content, r.b.value.content)
    ensures RunRace(cfg, r, turns) ==
            Some(Race(WithBody(r.dir, cfg.key(r.a.url), text), r.a.(done := TruncateMeta), r.b.(done := TruncateMeta)))
  {
    var r1 := Turn(cfg, r, turns[0]).value;
    var r2 := Turn(cfg, r1, turns[1]).value;
    var r3 := Turn(cfg, r2, turns[2]).value;
    var r4 := Turn(cfg, r3, turns[3]).value;
    FourTurns(cfg, r, turns[0], r1, turns[1], r2, turns[2], r3, turns[3], r4);
    assert turns == [turns[0], turns[1], turns[2], turns[3]];
    assert r4.dir.bodies == r.dir.bodies[cfg.key(r.a.url) := text];
  }

  lemma MetasEndAs(cfg: Config, r: Race, turns: seq<bool>, text: bytes)
    requires r.a.Setting? && r.b.Setting? && r.a.url == r.b.url
    requires r.a.done.TruncateMeta? && r.b.done.TruncateMeta? && Leaves(turns, text, r.a.metaText, r.b.metaText)
    ensures RunRace(cfg, r, turns) ==
            Some(Race(WithMeta(r.dir, cfg.key(r.a.url), text), r.a.(done := Written), r.b.(done := Written)))
  {
    var r1 := Turn(cfg, r, turns[0]).value;
    var r2 := Turn(cfg, r1, turns[1]).value;
    var r3 := Turn(cfg, r2, turns[2]).value;
    var r4 := Turn(cfg, r3, turns[3]).value;
    FourTurns(cfg, r, turns[0], r1, turns[1], r2, turns[2], r3, turns[3], r4);
    assert turns == [turns[0], turns[1], turns[2], turns[3]];
    assert r4.dir.metas == r.dir.metas[cfg.key(r.a.url) := text];
  }

  /** Every outcome of the one file occurs with every outcome of the other. */
  lemma OutcomesOccur(cfg: Config, url: bytes, a: CachedInlineData, textA: bytes, b: CachedInlineData, textB: bytes,
                      dir: Dir, body: bytes, meta: bytes)
    returns (turns: seq<bool>)
    requires IsOutcome(body, a.content, b.content) && IsOutcome(meta, textA, textB)
    ensures var end := RunRace(cfg, Start(url, a, textA, b, textB, dir), turns);
            IsEnd(end) && end.value.dir == WithMeta(WithBody(dir, cfg.key(url), body), cfg.key(url), meta)
  {
    var r := Start(url, a, textA, b, textB, dir);
    var bodies, metas := TurnsFor(body, a.content, b.content), TurnsFor(meta, textA, textB);
    BodiesEndAs(cfg, r, bodies, body);
    MetasEndAs(cfg, RunRace(cfg, r, bodies).value, metas, meta);
    RaceAppend(cfg, r, bodies, metas);
    turns := bodies + metas;
  }

  // ------------------------------------------------------------------- main results

  /** Written over one another, in whatever order, they leave one of the two. */
  predicate Meet(x: bytes, y: bytes) {
    |x| == |y| || x <= y || y <= x
  }

  /** The images agree in type or in bytes. */
  predicate Agree(a: CachedInlineData, b: CachedInlineData) {
    a.mimeType == b.mimeType || a.content == b.content
  }

  /** However the calls of the two sets interleave, the entry ends as one of the two images. */
  ghost predicate AlwaysGenuine(cfg: Config, url: bytes, a: CachedInlineData, textA: bytes,
                                b: CachedInlineData, textB: bytes, dir: Dir) {
    forall turns ::
      var end := RunRace(cfg, Start(url, a, textA, b, textB, dir), turns);
      IsEnd(end) ==> IsGenuine(cfg, end.value.dir, url, a, b)
  }

  lemma MeetsAsOne(text: bytes, x: bytes, y: bytes)
    requires IsOutcome(text, x, y) && Meet(x, y)
    ensures text == x || text == y
  {
  }

  lemma MixedUnlessMeet(x: bytes, y: bytes) returns (text: bytes)
    requires !Meet(x, y)
    ensures IsOutcome(text, x, y) && text != x && text != y
  {
    text := if |x| < |y| then Overlay(y, x) else Overlay(x, y);
    assert text[..|x|] == x || text[..|y|] == y;
  }

  /** A text laid over a longer one cannot be read; `DiskMeta` shows this of what `set` writes. */
  predicate RejectsMixture(cfg: Config, textA: bytes, textB: bytes) {
    |textA| != |textB| ==>
      cfg.readMeta(if |textA| < |textB| then Overlay(textB, textA) else Overlay(textA, textB)).None?
  }

  lemma GenuineIf(cfg: Config, url: bytes, a: CachedInlineData, textA: bytes, b: CachedInlineData, textB: bytes,
                  dir: Dir, turns: seq<bool>)
    requires cfg.readMeta(textA) == Some(a.mimeType) && cfg.readMeta(textB) == Some(b.mimeType)
    requires Agree(a, b) && Meet(a.content, b.content) && |textA| == |textB|
    requires IsEnd(RunRace(cfg, Start(url, a, textA, b, textB, dir), turns))
    ensures IsGenuine(cfg, RunRace(cfg, Start(url, a, textA, b, textB, dir), turns).value.dir, url, a, b)
  {
    var r := Start(url, a, textA, b, textB, dir);
    RaceKeeps(cfg, r, turns);
    var end := RunRace(cfg, r, turns).value;
    MeetsAsOne(end.dir.bodies[cfg.key(url)], a.content, b.content);
    MeetsAsOne(end.dir.metas[cfg.key(url)], textA, textB);
  }

  lemma TornUnless(cfg: Config, url: bytes, a: CachedInlineData, textA: bytes,
        b: CachedInlineData, textB: bytes, dir: Dir)
    returns (turns: seq<bool>)
    requires cfg.readMeta(textA) == Some(a.mimeType) && cfg.readMeta(textB) == Some(b.mimeType)
    requires RejectsMixture(cfg, textA, textB)
    requires !Agree(a, b) || !Meet(a.content, b.content) || |textA| != |textB|
    ensures var end := RunRace(cfg, Start(url, a, textA, b, textB, dir), turns);
            IsEnd(end) && !IsGenuine(cfg, end.value.dir, url, a, b)
  {
    var body, meta := b.content, textA;
    if |textA| != |textB| {
      meta := if |textA| < |textB| then Overlay(textB, textA) else Overlay(textA, textB);
    } else if !Meet(a.content, b.content) {
      body := MixedUnlessMeet(a.content, b.content);
    }
    turns := OutcomesOccur(cfg, url, a, textA, b, textB, dir, body, meta);
  }

  /**
   Two overlapping sets leave one of the two images in every order of their calls
   exactly when the images agree in type or in bytes, the bytes are as long or
   one a prefix of the other, and the meta texts are as long.
   */
  lemma AlwaysGenuineIff(cfg: Config, url: bytes, a: CachedInlineData, textA: bytes,
                         b: CachedInlineData, textB: bytes, dir: Dir)
    requires cfg.readMeta(textA) == Some(a.mimeType) && cfg.readMeta(textB) == Some(b.mimeType)
    requires RejectsMixture(cfg, textA, textB)
    ensures AlwaysGenuine(cfg, url, a, textA, b, textB, dir) <==>
            Agree(a, b) && Meet(a.content, b.content) && |textA| == |textB|
  {
    if Agree(a, b) && Meet(a.content, b.content) && |textA| == |textB| {
      forall turns | IsEnd(RunRace(cfg, Start(url, a, textA, b, textB, dir), turns))
        ensures IsGenuine(cfg, RunRace(cfg, Start(url, a, textA, b, textB, dir), turns).value.dir, url, a, b)
      {
        GenuineIf(cfg, url, a, textA, b, textB, dir, turns);
      }
    } else {
      var turns := TornUnless(cfg, url, a, textA, b, textB, dir);
    }
  }

  // ---------------------------------------------------- if a file were written in one go

  /** Each file is truncated and filled in one go. */
  function InOneGo(turns: seq<bool>): seq<bool> {
    if turns == [] then [] else [turns[0], turns[0]] + InOneGo(turns[1..])
  }

  /** No file is between its truncation and its filling, and a file holds the text of one of its writers. */
  ghost predicate WholeOk(cfg: Config, r: Race) {
    && r.a.Setting? && r.b.Setting? && r.a.url == r.b.url
    && BodyProgress(r.a.done) != 1 && BodyProgress(r.b.done) != 1
    && MetaProgress(r.a.done) != 1 && MetaProgress(r.b.done) != 1
    && (BodyProgress(r.a.done) == 2 || BodyProgress(r.b.done) == 2 ==>
          WholeFile(r.dir.bodies, cfg.key(r.a.url), r.a.value.content, r.b.value.content))
    && (MetaProgress(r.a.done) == 2 || MetaProgress(r.b.done) == 2 ==>
          WholeFile(r.dir.metas, cfg.key(r.a.url), r.a.metaText, r.b.metaText))
  }

  predicate WholeFile(files: map<bytes, bytes>, stem: bytes, x: bytes, y: bytes) {
    stem in files && (files[stem] == x || files[stem] == y)
  }

  lemma TurnTwice(cfg: Config, r: Race, first: bool)
    requires WholeOk(cfg, r) && Turn(cfg, r, first).Some?
    ensures var once := Turn(cfg, r, first).value;
            && Turn(cfg, once, first).Some?
            && var twice := Turn(cfg, once, first).value;
               WholeOk(cfg, twice) && twice.a == r.a.(done := twice.a.done) && twice.b == r.b.(done := twice.b.done)
  {
  }

  lemma {:induction false} WholeKeeps(cfg: Config, r: Race, turns: seq<bool>)
    requires WholeOk(cfg, r) && RunRace(cfg, r, InOneGo(turns)).Some?
    ensures var end := RunRace(cfg, r, InOneGo(turns)).value;
            WholeOk(cfg, end) && end.a == r.a.(done := end.a.done) && end.b == r.b.(done := end.b.done)
    decreases |turns|
  {
    if turns == [] {
    } else {
      var first, rest := turns[0], InOneGo(turns[1..]);
      assert InOneGo(turns) == [first] + ([first] + rest);
      assert InOneGo(turns)[0] == first;
      FirstTurn(cfg, r, first, [first] + rest);
      TurnTwice(cfg, r, first);
      FirstTurn(cfg, Turn(cfg, r, first).value, first, rest);
      WholeKeeps(cfg, Turn(cfg, Turn(cfg, r, first).value, first).value, turns[1..]);
    }
  }

  ghost predicate GenuineInOneGo(cfg: Config, url: bytes, a: CachedInlineData, textA: bytes,
                                 b: CachedInlineData, textB: bytes, dir: Dir) {
    forall turns ::
      var end := RunRace(cfg, Start(url, a, textA, b, textB, dir), InOneGo(turns));
      IsEnd(end) ==> IsGenuine(cfg, end.value.dir, url, a, b)
  }

  lemma WholeGenuineIf(cfg: Config, url: bytes, a: CachedInlineData, textA: bytes, b: CachedInlineData, textB: bytes,
                       dir: Dir, turns: seq<bool>)
    requires cfg.readMeta(textA) == Some(a.mimeType) && cfg.readMeta(textB) == Some(b.mimeType) && Agree(a, b)
    requires IsEnd(RunRace(cfg, Start(url, a, textA, b, textB, dir), InOneGo(turns)))
    ensures IsGenuine(cfg, RunRace(cfg, Start(url, a, textA, b, textB, dir), InOneGo(turns)).value.dir, url, a, b)
  {
    WholeKeeps(cfg, Start(url, a, textA, b, textB, dir), turns);
  }

  /** The body of `a`, both files of `b`, the meta file of `a`. */
  lemma TornInOneGo(cfg: Config, url: bytes, a: CachedInlineData, textA: bytes,
        b: CachedInlineData, textB: bytes, dir: Dir)
    ensures var end := RunRace(cfg, Start(url, a, textA, b, textB, dir), InOneGo([true, false, false, true]));
            IsEnd(end) && end.value.dir == WithMeta(WithBody(dir, cfg.key(url), b.content), cfg.key(url), textA)
  {
    var r := Start(url, a, textA, b, textB, dir);
    var bodies, metas := [true, true, false, false], [false, false, true, true];
    assert InOneGo([true, false, false, true]) == bodies + metas by {
      assert [true, false, false, true][1..] == [false, false, true] && [false, false, true][1..] == [false, true];
      assert [false, true][1..] == [true] && [true][1..] == [];
      assert InOneGo([true]) == [true, true];
      assert InOneGo([false, true]) == [false, false, true, true];
      assert InOneGo([false, false, true]) == [false, false, false, false, true, true];
    }
    BodiesEndAs(cfg, r, bodies, b.content);
    MetasEndAs(cfg, RunRace(cfg, r, bodies).value, metas, textA);
    RaceAppend(cfg, r, bodies, metas);
  }

  /** Were each file written in one go, it would be exactly when the images agree in type or in bytes. */
  lemma GenuineInOneGoIff(cfg: Config, url: bytes, a: CachedInlineData, textA: bytes,
                          b: CachedInlineData, textB: bytes, dir: Dir)
    requires cfg.readMeta(textA) == Some(a.mimeType) && cfg.readMeta(textB) == Some(b.mimeType)
    ensures GenuineInOneGo(cfg, url, a, textA, b, textB, dir) <==> Agree(a, b)
  {
    if Agree(a, b) {
      forall turns | IsEnd(RunRace(cfg, Start(url, a, textA, b, textB, dir), InOneGo(turns)))
        ensures IsGenuine(cfg, RunRace(cfg, Start(url, a, textA, b, textB, dir), InOneGo(turns)).value.dir, url, a, b)
      {
        WholeGenuineIf(cfg, url, a, textA, b, textB, dir, turns);
      }
    } else {
      TornInOneGo(cfg, url, a, textA, b, textB, dir);
    }
  }

  // ------------------------------------------------------------- with the texts as written

  function MimeTypeRead(text: bytes): Option<bytes> {
    match M.Read(text)
    case Some(m) => Some(m.mimeType)
    case None => None
  }

  /** The same for the meta texts that `set` writes, whatever the clock gave each of the two. */
  lemma SetsLeaveAnImageIff(cfg: Config, url: bytes, a: CachedInlineData, m: M.DiskMeta,
                            b: CachedInlineData, n: M.DiskMeta, dir: Dir)
    requires forall text :: cfg.readMeta(text) == MimeTypeRead(text)
    requires M.InRange(m) && m.mimeType == a.mimeType && M.InRange(n) && n.mimeType == b.mimeType
    ensures AlwaysGenuine(cfg, url, a, M.Text(m), b, M.Text(n), dir) <==>
            Agree(a, b) && Meet(a.content, b.content) && |M.Text(m)| == |M.Text(n)|
    ensures GenuineInOneGo(cfg, url, a, M.Text(m), b, M.Text(n), dir) <==> Agree(a, b)
  {
    M.ReadsBack(m);
    M.ReadsBack(n);
    if |M.Text(m)| < |M.Text(n)| {
      M.MixtureRejected(m, n);
    } else if |M.Text(n)| < |M.Text(m)| {
      M.MixtureRejected(n, m);
    }
    AlwaysGenuineIff(cfg, url, a, M.Text(m), b, M.Text(n), dir);
    GenuineInOneGoIff(cfg, url, a, M.Text(m), b, M.Text(n), dir);
  }
}
