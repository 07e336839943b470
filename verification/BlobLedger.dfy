/**
 `src/blob_runtime.rs` under any interleaving. Every `next_id` starts one store,
 so the id names the thread that runs it; each step below is one atomic
 operation or one step on state no other thread can reach. Handles are cloned
 freely, so `Swap`, the first action of `remove`, may happen to a built blob
 at any time and any number of times.
 */
module BlobLedger {
  import opened Wrappers
  import opened Bytes
  import opened Ledger
  import R = BlobRuntime

  datatype Kind = Inline | Shared | Spilled

  /** How far the store of one id, and later its blob, has come; `content` is what the caller gave. */
  datatype Slot =
    | Streaming(content: bytes)               // the loop of store_stream, everything still buffered
    | Spilling(content: bytes)                // the same loop once the spill file is open
    | Sharing(content: bytes)                 // store_external_shared_bytes
    | Sized(content: bytes)                   // at the head of the compare-and-swap loop
    | Loaded(content: bytes, current: nat)    // after its load
    | Reserved(content: bytes)                // after its successful exchange
    | Refused(content: bytes)                 // try_inline_reserve answered false
    | Written(content: bytes)                 // the spill file is complete
    | Counted(content: bytes)                 // between the two additions of record_spill
    | Live(content: bytes, kind: Kind)        // the handle is built
    | Releasing(content: bytes, kind: Kind)   // one remove has swapped the flag
    | Released(content: bytes, kind: Kind)

  /** `seen` records every value that `hot` has had. */
  datatype Counters = Counters(hot: nat, spillCount: nat, spillBytesTotal: nat, seen: set<nat>)

  /** Spill paths are injective in the id (`SpillPathInjective`), so files are kept by id. */
  datatype Machine = Machine(nextId: nat, counters: Counters, files: map<nat, bytes>, slots: map<nat, Slot>)

  datatype Event =
    | BeginStore(content: bytes)
    | BeginStream
    | BeginShared(content: bytes)
    | Act(id: nat, action: Action)

  datatype Action =
    | Chunk(piece: bytes)
    | EndOfStream
    | Load(current: nat)
    | Exchange
    | WriteFile
    | CountSpill
    | AddSpillBytes
    | Build
    | Swap
    | Release

  const INITIAL := Machine(1, Counters(0, 0, 0, {0}), map[], map[])

  function Min(a: nat, b: nat): nat {
    if a <= b then a else b
  }

  /** The entry of `try_inline_reserve`, which compares with constants only. */
  function EnterReserve(cfg: R.Config, content: bytes): Slot {
    if |content| > cfg.inlineMaxBytes || |content| > cfg.requestHotBudgetBytes then Refused(content) else Sized(content)
  }

  /** `fetch_sub` on a `u64` wraps. */
  function WrappingSub(a: nat, b: nat): nat {
    (a - b) % R.U64_LIMIT
  }

  function SetHot(c: Counters, hot: nat): Counters {
    c.(hot := hot, seen := c.seen + {hot})
  }

  /** One thread's slot, the file of its id if there is one, and the shared counters. */
  datatype Local = Local(slot: Slot, file: Option<bytes>, counters: Counters)

  /** One action of one thread; `None` when the thread is not at that point of the program. */
  function Perform(cfg: R.Config, s: Local, action: Action): Option<Local> {
    var content, counters := s.slot.content, s.counters;
    match (action, s.slot)
    case (Chunk(piece), Streaming(_)) =>
      if piece == [] then None
      else if |content| + |piece| <= Min(cfg.inlineMaxBytes, cfg.requestHotBudgetBytes) then
        Some(s.(slot := Streaming(content + piece)))
      else
        Some(s.(slot := Spilling(content + piece), file := Some(content + piece)))
    case (Chunk(piece), Spilling(_)) =>
      if piece == [] then None
      else
        var written :- s.file;
        Some(s.(slot := Spilling(content + piece), file := Some(written + piece)))
    case (EndOfStream, Streaming(_)) => Some(s.(slot := EnterReserve(cfg, content)))
    case (EndOfStream, Spilling(_)) => Some(s.(slot := Written(content)))
    // A relaxed load may be stale, so it may see any value that the counter has had.
    case (Load(current), Sized(_)) =>
      if current in counters.seen then Some(s.(slot := Loaded(content, current))) else None
    case (Exchange, Loaded(_, current)) =>
      if current + |content| >= R.U64_LIMIT || current + |content| > cfg.globalHotBudgetBytes then
        Some(s.(slot := Refused(content)))
      else if counters.hot != current then
        Some(s.(slot := Sized(content)))
      else
        Some(s.(slot := Reserved(content), counters := SetHot(counters, current + |content|)))
    case (WriteFile, Refused(_)) => Some(s.(slot := Written(content), file := Some(content)))
    case (CountSpill, Written(_)) =>
      Some(s.(slot := Counted(content), counters := counters.(spillCount := counters.spillCount + 1)))
    case (AddSpillBytes, Counted(_)) =>
      Some(s.(slot := Live(content, Spilled),
              counters := counters.(spillBytesTotal := counters.spillBytesTotal + |content|)))
    case (Build, Reserved(_)) => Some(s.(slot := Live(content, Inline)))
    case (Build, Sharing(_)) => Some(s.(slot := Live(content, Shared)))
    case (Swap, Live(_, kind)) => Some(s.(slot := Releasing(content, kind)))
    case (Swap, Releasing(_, _)) => Some(s)
    case (Swap, Released(_, _)) => Some(s)
    case (Release, Releasing(_, Inline)) =>
      Some(s.(slot := Released(content, Inline), counters := SetHot(counters, WrappingSub(counters.hot, |content|))))
    case (Release, Releasing(_, Shared)) => Some(s.(slot := Released(content, Shared)))
    case (Release, Releasing(_, Spilled)) => Some(s.(slot := Released(content, Spilled), file := None))
    case _ => None
  }

  function FileOf(files: map<nat, bytes>, id: nat): Option<bytes> {
    if id in files then Some(files[id]) else None
  }

  function LocalOf(m: Machine, id: nat): Local
    requires id in m.slots
  {
    Local(m.slots[id], FileOf(m.files, id), m.counters)
  }

  function SetFile(files: map<nat, bytes>, id: nat, file: Option<bytes>): map<nat, bytes> {
    match file
    case Some(b) => files[id := b]
    case None => files - {id}
  }

  function Put(m: Machine, id: nat, s: Local): Machine {
    m.(counters := s.counters, files := SetFile(m.files, id, s.file), slots := m.slots[id := s.slot])
  }

  function Begin(m: Machine, slot: Slot): Machine {
    m.(nextId := m.nextId + 1, slots := m.slots[m.nextId := slot])
  }

  function Step(cfg: R.Config, m: Machine, e: Event): Option<Machine> {
    match e
    case BeginStore(content) => Some(Begin(m, EnterReserve(cfg, content)))
    case BeginStream => Some(Begin(m, Streaming([])))
    case BeginShared(content) => Some(Begin(m, Sharing(content)))
    case Act(id, action) =>
      if id !in m.slots then None
      else
        var s :- Perform(cfg, LocalOf(m, id), action);
        Some(Put(m, id, s))
  }

  /** Any number of threads, any order of steps. */
  function Run(cfg: R.Config, m: Machine, events: seq<Event>): Option<Machine>
    decreases |events|
  {
    if events == [] then Some(m)
    else
      var next :- Step(cfg, m, events[0]);
      Run(cfg, next, events[1..])
  }

  // -------------------------------------------------------------- the ledger

  ghost function Measured(slots: map<nat, Slot>, f: Slot -> nat): map<nat, nat> {
    map id | id in slots :: f(slots[id])
  }

  ghost function Sum(slots: map<nat, Slot>, f: Slot -> nat): nat {
    Total(Measured(slots, f))
  }

  lemma SumPut(slots: map<nat, Slot>, id: nat, slot: Slot, f: Slot -> nat)
    ensures Sum(slots[id := slot], f) + (if id in slots then f(slots[id]) else 0) == Sum(slots, f) + f(slot)
    ensures id in slots ==> f(slots[id]) <= Sum(slots, f)
  {
    TotalUpdate(Measured(slots, f), id, f(slot));
    assert Measured(slots[id := slot], f) == Measured(slots, f)[id := f(slot)];
    if id in slots {
      TotalBound(Measured(slots, f), id);
    }
  }

  /** The hot bytes a store or a blob holds: from its exchange to its release, if it is inline. */
  function Held(slot: Slot): nat {
    match slot
    case Reserved(content) => |content|
    case Live(content, Inline) => |content|
    case Releasing(content, Inline) => |content|
    case _ => 0
  }

  predicate HasSpilled(slot: Slot) {
    (slot.Live? || slot.Releasing? || slot.Released?) && slot.kind.Spilled?
  }

  function SpillsCounted(slot: Slot): nat {
    if slot.Counted? || HasSpilled(slot) then 1 else 0
  }

  function SpilledBytes(slot: Slot): nat {
    if HasSpilled(slot) then |slot.content| else 0
  }

  predicate OwnsFile(slot: Slot) {
    slot.Spilling? || slot.Written? || slot.Counted? || (HasSpilled(slot) && !slot.Released?)
  }

  /** Exactly the stores and blobs that own a file have one, and it holds what was stored. */
  predicate FileMatches(slot: Slot, file: Option<bytes>) {
    file == if OwnsFile(slot) then Some(slot.content) else None
  }

  ghost predicate Books(cfg: R.Config, c: Counters, slots: map<nat, Slot>) {
    && c.hot == Sum(slots, Held) && c.hot <= cfg.globalHotBudgetBytes && c.hot < R.U64_LIMIT
    && c.spillCount == Sum(slots, SpillsCounted)
    && c.spillBytesTotal == Sum(slots, SpilledBytes)
  }

  ghost predicate FilesOwned(files: map<nat, bytes>, slots: map<nat, Slot>) {
    && (forall id | id in files :: id in slots)
    && (forall id | id in slots :: FileMatches(slots[id], FileOf(files, id)))
  }

  ghost predicate Inv(cfg: R.Config, m: Machine) {
    && (forall id | id in m.slots :: id < m.nextId)
    && FilesOwned(m.files, m.slots) && Books(cfg, m.counters, m.slots)
  }

  lemma HeldBound(slots: map<nat, Slot>, id: nat)
    requires id in slots
    ensures Held(slots[id]) <= Sum(slots, Held)
  {
    SumPut(slots, id, slots[id], Held);
  }

  lemma SumsPut(slots: map<nat, Slot>, id: nat, slot: Slot)
    ensures var slots' := slots[id := slot];
            if id in slots then
              && Sum(slots', Held) + Held(slots[id]) == Sum(slots, Held) + Held(slot)
              && Sum(slots', SpillsCounted) + SpillsCounted(slots[id]) ==
                 Sum(slots, SpillsCounted) + SpillsCounted(slot)
              && Sum(slots', SpilledBytes) + SpilledBytes(slots[id]) == Sum(slots, SpilledBytes) + SpilledBytes(slot)
              && Held(slots[id]) <= Sum(slots, Held)
            else
              && Sum(slots', Held) == Sum(slots, Held) + Held(slot)
              && Sum(slots', SpillsCounted) == Sum(slots, SpillsCounted) + SpillsCounted(slot)
              && Sum(slots', SpilledBytes) == Sum(slots, SpilledBytes) + SpilledBytes(slot)
  {
    SumPut(slots, id, slot, Held);
    SumPut(slots, id, slot, SpillsCounted);
    SumPut(slots, id, slot, SpilledBytes);
  }

  /** What one action does to its slot it does to the counters and the file; no subtraction wraps. */
  lemma PerformBalances(cfg: R.Config, s: Local, action: Action)
    requires Perform(cfg, s, action).Some? && FileMatches(s.slot, s.file)
    requires Held(s.slot) <= s.counters.hot < R.U64_LIMIT && s.counters.hot <= cfg.globalHotBudgetBytes
    ensures var t := Perform(cfg, s, action).value;
            && FileMatches(t.slot, t.file)
            && t.counters.hot + Held(s.slot) == s.counters.hot + Held(t.slot)
            && t.counters.spillCount + SpillsCounted(s.slot) == s.counters.spillCount + SpillsCounted(t.slot)
            && t.counters.spillBytesTotal + SpilledBytes(s.slot) == s.counters.spillBytesTotal + SpilledBytes(t.slot)
            && t.counters.hot < R.U64_LIMIT && t.counters.hot <= cfg.globalHotBudgetBytes
  {
  }

  lemma FilesPut(files: map<nat, bytes>, slots: map<nat, Slot>, id: nat, slot: Slot, file: Option<bytes>)
    requires FilesOwned(files, slots) && FileMatches(slot, file)
    ensures FilesOwned(SetFile(files, id, file), slots[id := slot])
  {
    var files', slots' := SetFile(files, id, file), slots[id := slot];
    forall i | i in slots' ensures FileMatches(slots'[i], FileOf(files', i)) {
      if i != id {
        assert FileOf(files', i) == FileOf(files, i);
      }
    }
  }

  lemma BooksPut(cfg: R.Config, c: Counters, slots: map<nat, Slot>, id: nat, c': Counters, slot: Slot)
    requires Books(cfg, c, slots) && id in slots
    requires c'.hot + Held(slots[id]) == c.hot + Held(slot)
    requires c'.spillCount + SpillsCounted(slots[id]) == c.spillCount + SpillsCounted(slot)
    requires c'.spillBytesTotal + SpilledBytes(slots[id]) == c.spillBytesTotal + SpilledBytes(slot)
    requires c'.hot < R.U64_LIMIT && c'.hot <= cfg.globalHotBudgetBytes
    ensures Books(cfg, c', slots[id := slot])
  {
    SumsPut(slots, id, slot);
  }

  lemma BeginKeeps(cfg: R.Config, m: Machine, slot: Slot)
    requires Inv(cfg, m) && !OwnsFile(slot) && Held(slot) == SpillsCounted(slot) == SpilledBytes(slot) == 0
    ensures Inv(cfg, Begin(m, slot))
  {
    assert m.nextId !in m.slots && m.files - {m.nextId} == m.files;
    SumsPut(m.slots, m.nextId, slot);
    FilesPut(m.files, m.slots, m.nextId, slot, None);
  }

  /** Every step of every thread keeps the books, the files and the numbering. */
  lemma StepKeeps(cfg: R.Config, m: Machine, e: Event)
    requires Inv(cfg, m) && Step(cfg, m, e).Some?
    ensures Inv(cfg, Step(cfg, m, e).value)
  {
    match e
    case BeginStore(content) => BeginKeeps(cfg, m, EnterReserve(cfg, content));
    case BeginStream => BeginKeeps(cfg, m, Streaming([]));
    case BeginShared(content) => BeginKeeps(cfg, m, Sharing(content));
    case Act(id, action) =>
      HeldBound(m.slots, id);
      PerformBalances(cfg, LocalOf(m, id), action);
      var t := Perform(cfg, LocalOf(m, id), action).value;
      FilesPut(m.files, m.slots, id, t.slot, t.file);
      BooksPut(cfg, m.counters, m.slots, id, t.counters, t.slot);
  }

  lemma {:induction false} RunKeeps(cfg: R.Config, m: Machine, events: seq<Event>)
    requires Inv(cfg, m) && Run(cfg, m, events).Some?
    ensures Inv(cfg, Run(cfg, m, events).value)
    decreases |events|
  {
    if events == [] {
    } else {
      StepKeeps(cfg, m, events[0]);
      RunKeeps(cfg, Step(cfg, m, events[0]).value, events[1..]);
    }
  }

  // ------------------------------------------------------------ main results

  /**
   In every reachable state of any interleaving the hot counter is what the
   unreleased inline blobs and pending reservations hold, within the budget;
   the spill statistics are those of the recorded spills; and the files are
   exactly those of spilling stores and unreleased spilled blobs, each with
   the bytes that were stored.
   */
  lemma LedgerBalances(cfg: R.Config, events: seq<Event>)
    requires Run(cfg, INITIAL, events).Some?
    ensures Inv(cfg, Run(cfg, INITIAL, events).value)
  {
    var none: map<nat, Slot> := map[];
    assert Measured(none, Held) == Measured(none, SpillsCounted) == Measured(none, SpilledBytes) == map[];
    RunKeeps(cfg, INITIAL, events);
  }

  /** A release subtracts no more than the counter holds, so `fetch_sub` never wraps. */
  lemma ReleaseNeverWraps(cfg: R.Config, m: Machine, id: nat)
    requires Inv(cfg, m) && id in m.slots && m.slots[id].Releasing? && m.slots[id].kind.Inline?
    ensures |m.slots[id].content| <= m.counters.hot
    ensures WrappingSub(m.counters.hot, |m.slots[id].content|) == m.counters.hot - |m.slots[id].content|
  {
    HeldBound(m.slots, id);
  }

  predicate IsReleased(slots: map<nat, Slot>, id: nat) {
    id in slots && slots[id].Released?
  }

  /** How often a run releases the blob `id`. */
  function Releases(events: seq<Event>, id: nat): nat {
    if events == [] then 0 else (if events[0] == Act(id, Release) then 1 else 0) + Releases(events[1..], id)
  }

  lemma PerformReleases(cfg: R.Config, s: Local, action: Action)
    requires Perform(cfg, s, action).Some?
    ensures Perform(cfg, s, action).value.slot.Released? <==> action == Release || s.slot.Released?
    ensures action == Release ==> !s.slot.Released?
  {
  }

  lemma StepReleases(cfg: R.Config, m: Machine, e: Event, id: nat)
    requires m.nextId !in m.slots && Step(cfg, m, e).Some?
    ensures IsReleased(Step(cfg, m, e).value.slots, id) <==> e == Act(id, Release) || IsReleased(m.slots, id)
    ensures e == Act(id, Release) ==> !IsReleased(m.slots, id)
  {
    if e.Act? {
      PerformReleases(cfg, LocalOf(m, e.id), e.action);
    }
  }

  /** However many clones call `remove`, a blob is released at most once, and then stays released. */
  lemma {:induction false} ReleasedOnce(cfg: R.Config, m: Machine, events: seq<Event>, id: nat)
    requires Inv(cfg, m) && Run(cfg, m, events).Some?
    ensures Releases(events, id) + (if IsReleased(m.slots, id) then 1 else 0)
            == if IsReleased(Run(cfg, m, events).value.slots, id) then 1 else 0
    decreases |events|
  {
    if events == [] {
    } else {
      var next := Step(cfg, m, events[0]).value;
      StepKeeps(cfg, m, events[0]);
      StepReleases(cfg, m, events[0], id);
      ReleasedOnce(cfg, next, events[1..], id);
    }
  }

  /** When every blob is released and no store is under way, nothing is charged and no file is left. */
  lemma AllReleasedMeansZero(cfg: R.Config, m: Machine)
    requires Inv(cfg, m) && forall id | id in m.slots :: m.slots[id].Released?
    ensures m.counters.hot == 0 && m.files == map[]
  {
    TotalZero(Measured(m.slots, Held));
    assert forall id | id in m.slots :: FileOf(m.files, id) == None;
    assert m.files.Keys == {};
  }

  // ------------------------------------------------------- why a store spills

  /** It is, or will be, spilled. */
  predicate Spills(slot: Slot) {
    slot.Spilling? || slot.Refused? || slot.Written? || slot.Counted? || HasSpilled(slot)
  }

  /** It has, or had, hot bytes reserved. */
  predicate KeptInline(slot: Slot) {
    slot.Reserved? || ((slot.Live? || slot.Releasing? || slot.Released?) && slot.kind.Inline?)
  }

  predicate FitsAlone(cfg: R.Config, content: bytes) {
    |content| <= cfg.inlineMaxBytes && |content| <= cfg.requestHotBudgetBytes
  }

  /** Some value that the counter has had decided the storage of this slot. */
  ghost predicate Decided(cfg: R.Config, slot: Slot, seen: set<nat>) {
    && (Spills(slot) ==> exists h :: h in seen && !R.Fits(cfg, h, |slot.content|))
    && (KeptInline(slot) ==> exists h :: h in seen && R.Fits(cfg, h, |slot.content|))
    && (slot.Spilling? ==> !FitsAlone(cfg, slot.content))
    && (slot.Sized? || slot.Loaded? ==> FitsAlone(cfg, slot.content))
    && (slot.Loaded? ==> slot.current in seen)
  }

  ghost predicate AllDecided(cfg: R.Config, m: Machine) {
    && m.counters.hot in m.counters.seen
    && forall id | id in m.slots :: Decided(cfg, m.slots[id], m.counters.seen)
  }

  lemma PerformDecides(cfg: R.Config, s: Local, action: Action)
    requires Perform(cfg, s, action).Some? && s.counters.hot in s.counters.seen && Decided(cfg, s.slot, s.counters.seen)
    ensures var t := Perform(cfg, s, action).value;
            && t.counters.hot in t.counters.seen && s.counters.seen <= t.counters.seen
            && Decided(cfg, t.slot, t.counters.seen)
  {
    var hot, t := s.counters.hot, Perform(cfg, s, action).value;
    if action.Chunk? && t.slot.Spilling? {
      assert !R.Fits(cfg, hot, |t.slot.content|);
    } else if action.EndOfStream? && t.slot.Refused? {
      assert !R.Fits(cfg, hot, |t.slot.content|);
    } else if action.Exchange? {
      assert R.Fits(cfg, s.slot.current, |s.slot.content|) <==> !t.slot.Refused?;
    }
  }

  lemma DecidedStays(cfg: R.Config, slot: Slot, seen: set<nat>, seen': set<nat>)
    requires Decided(cfg, slot, seen) && seen <= seen'
    ensures Decided(cfg, slot, seen')
  {
  }

  lemma StepDecides(cfg: R.Config, m: Machine, e: Event)
    requires AllDecided(cfg, m) && Step(cfg, m, e).Some?
    ensures AllDecided(cfg, Step(cfg, m, e).value)
  {
    var m' := Step(cfg, m, e).value;
    if e.BeginStore? {
      assert !FitsAlone(cfg, e.content) ==> !R.Fits(cfg, m.counters.hot, |e.content|);
    } else if e.Act? {
      PerformDecides(cfg, LocalOf(m, e.id), e.action);
      forall id | id in m'.slots ensures Decided(cfg, m'.slots[id], m'.counters.seen) {
        if id != e.id {
          DecidedStays(cfg, m.slots[id], m.counters.seen, m'.counters.seen);
        }
      }
    }
  }

  lemma {:induction false} RunDecides(cfg: R.Config, m: Machine, events: seq<Event>)
    requires AllDecided(cfg, m) && Run(cfg, m, events).Some?
    ensures AllDecided(cfg, Run(cfg, m, events).value)
    decreases |events|
  {
    if events == [] {
    } else {
      StepDecides(cfg, m, events[0]);
      RunDecides(cfg, Step(cfg, m, events[0]).value, events[1..]);
    }
  }

  /** After the first `k` events the hot counter was `h`. */
  ghost predicate HeldAt(cfg: R.Config, m: Machine, events: seq<Event>, k: nat, h: nat) {
    k <= |events| && Run(cfg, m, events[..k]).Some? && Run(cfg, m, events[..k]).value.counters.hot == h
  }

  lemma StepSees(cfg: R.Config, m: Machine, e: Event)
    requires Step(cfg, m, e).Some?
    ensures var m' := Step(cfg, m, e).value; m'.counters.seen <= m.counters.seen + {m'.counters.hot}
  {
  }

  /** `seen` is the counter's past. */
  lemma {:induction false} SeenWasHeld(cfg: R.Config, m: Machine, events: seq<Event>, h: nat)
    requires Run(cfg, m, events).Some? && h in Run(cfg, m, events).value.counters.seen
    ensures h in m.counters.seen || exists k :: HeldAt(cfg, m, events, k, h)
    decreases |events|
  {
    if events == [] {
    } else {
      var next, rest := Step(cfg, m, events[0]).value, events[1..];
      SeenWasHeld(cfg, next, rest, h);
      StepSees(cfg, m, events[0]);
      if h !in m.counters.seen {
        var k: nat := 0;
        if h !in next.counters.seen {
          k :| HeldAt(cfg, next, rest, k, h);
        } else {
          assert rest[..0] == [];
        }
        assert events[..k + 1][1..] == rest[..k];
        assert HeldAt(cfg, m, events, k + 1, h);
      }
    }
  }

  /**
   In every reachable state of any interleaving: whatever is spilled did not
   fit beside a value that the hot counter held during the run, and whatever
   is inline did fit beside one.
   */
  lemma SpilledForLackOfRoom(cfg: R.Config, events: seq<Event>, id: nat)
    requires Run(cfg, INITIAL, events).Some? && id in Run(cfg, INITIAL, events).value.slots
    ensures var slot := Run(cfg, INITIAL, events).value.slots[id];
            && (Spills(slot) ==> exists k, h :: HeldAt(cfg, INITIAL, events, k, h) && !R.Fits(cfg, h, |slot.content|))
            && (KeptInline(slot) ==>
                  exists k, h :: HeldAt(cfg, INITIAL, events, k, h) && R.Fits(cfg, h, |slot.content|))
  {
    var m := Run(cfg, INITIAL, events).value;
    var slot := m.slots[id];
    RunDecides(cfg, INITIAL, events);
    assert events[..0] == [];
    assert HeldAt(cfg, INITIAL, events, 0, 0);
    forall h | h in m.counters.seen ensures exists k :: HeldAt(cfg, INITIAL, events, k, h) {
      SeenWasHeld(cfg, INITIAL, events, h);
    }
  }

  // --------------------------------------------------- agreement with the class

  /** One thread's steps from `write_spilled_bytes` to its handle. */
  function SpillAlone(cfg: R.Config, s: Local): Option<Local> {
    var t :- Perform(cfg, s, WriteFile);
    var u :- Perform(cfg, t, CountSpill);
    Perform(cfg, u, AddSpillBytes)
  }

  /** One thread's steps after `next_id`, when no other thread acts in between. */
  function StoreAlone(cfg: R.Config, s: Local): Option<Local> {
    if s.slot.Refused? then SpillAlone(cfg, s)
    else
      var t :- Perform(cfg, s, Load(s.counters.hot));
      var u :- Perform(cfg, t, Exchange);
      if u.slot.Refused? then SpillAlone(cfg, u) else Perform(cfg, u, Build)
  }

  function CountersOf(st: R.State, seen: set<nat>): Counters {
    Counters(st.hotBytes, st.spillCount, st.spillBytesTotal, seen)
  }

  lemma SpillAloneRefines(cfg: R.Config, st: R.State, content: bytes, seen: set<nat>)
    requires !R.Fits(cfg, st.hotBytes, |content|)
    ensures var st' := R.AfterStore(cfg, st, content);
            SpillAlone(cfg, Local(Refused(content), None, CountersOf(st, seen))) ==
            Some(Local(Live(content, Spilled), Some(st'.files[R.SpillPath(st.nextId)]), CountersOf(st', seen)))
  {
  }

  /** Such a store has the counters, the storage class and the file that the class `BlobRuntime` gives it. */
  lemma StoreAloneRefines(cfg: R.Config, st: R.State, content: bytes)
    ensures var st', storage := R.AfterStore(cfg, st, content), R.StorageFor(cfg, st, content);
            StoreAlone(cfg, Local(EnterReserve(cfg, content), None, CountersOf(st, {st.hotBytes}))) ==
            Some(Local(Live(content, if storage.Inline? then Inline else Spilled),
                       if storage.Inline? then None else Some(st'.files[storage.path]),
                       CountersOf(st', {st.hotBytes, st'.hotBytes})))
  {
    var h := st.hotBytes;
    if R.Fits(cfg, h, |content|) {
      assert {h} + {h + |content|} == {h, h + |content|};
    } else {
      assert {h} == {h, h};
      SpillAloneRefines(cfg, st, content, {h});
    }
  }
}
