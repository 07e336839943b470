/**
 What becomes of one store in a run of `BlobLedger`: its bytes are those it was
 given, and from wherever it stands it can be brought to its end.
 */
module BlobRuns {
  import opened Wrappers
  import opened Bytes
  import opened BlobLedger
  import R = BlobRuntime

  // ------------------------------------------------------------- bytes given

  /** How many stores a run begins. */
  function Begun(events: seq<Event>): nat {
    if events == [] then 0
    else Begun(events[..|events| - 1]) + if events[|events| - 1].Act? then 0 else 1
  }

  /** What the store with this id was begun as, and the bytes it has been given since. */
  datatype Gift = Gift(content: bytes, shared: bool)

  function Given(events: seq<Event>, id: nat): Option<Gift> {
    if events == [] then None
    else
      var before := events[..|events| - 1];
      match events[|events| - 1]
      case Act(i, action) =>
        var gift :- Given(before, id);
        Some(if i == id && action.Chunk? then gift.(content := gift.content + action.piece) else gift)
      case BeginStore(content) => if Begun(before) + 1 == id then Some(Gift(content, false)) else Given(before, id)
      case BeginShared(content) => if Begun(before) + 1 == id then Some(Gift(content, true)) else Given(before, id)
      case BeginStream => if Begun(before) + 1 == id then Some(Gift([], false)) else Given(before, id)
  }

  /** The bytes and the sharing of a slot are as given. */
  predicate HoldsGift(slot: Slot, gift: Gift) {
    && slot.content == gift.content
    && (gift.shared <==> slot.Sharing? || (slot.Live? && slot.kind.Shared?)
                         || (slot.Releasing? && slot.kind.Shared?) || (slot.Released? && slot.kind.Shared?))
  }

  ghost predicate AsGiven(events: seq<Event>, m: Machine) {
    && m.nextId == Begun(events) + 1
    && (forall id :: id in m.slots <==> Given(events, id).Some?)
    && (forall id | id in m.slots :: id < m.nextId && HoldsGift(m.slots[id], Given(events, id).value))
  }

  lemma {:induction false} RunAppend(cfg: R.Config, m: Machine, events: seq<Event>, e: Event)
    ensures Run(cfg, m, events + [e]) ==
            match Run(cfg, m, events) case Some(n) => Step(cfg, n, e) case None => None
    decreases |events|
  {
    if events == [] {
      assert [e][1..] == [] && events + [e] == [e];
    } else {
      assert (events + [e])[1..] == events[1..] + [e];
      match Step(cfg, m, events[0])
      case Some(next) => RunAppend(cfg, next, events[1..], e);
      case None =>
    }
  }

  lemma PerformHoldsGift(cfg: R.Config, s: Local, action: Action, gift: Gift)
    requires Perform(cfg, s, action).Some? && HoldsGift(s.slot, gift)
    ensures HoldsGift(Perform(cfg, s, action).value.slot,
                      if action.Chunk? then gift.(content := gift.content + action.piece) else gift)
  {
  }

  lemma ActAsGiven(cfg: R.Config, before: seq<Event>, id: nat, action: Action, m: Machine)
    requires AsGiven(before, m) && Step(cfg, m, Act(id, action)).Some?
    ensures AsGiven(before + [Act(id, action)], Step(cfg, m, Act(id, action)).value)
  {
    var events, next := before + [Act(id, action)], Step(cfg, m, Act(id, action)).value;
    assert events[..|events| - 1] == before;
    PerformHoldsGift(cfg, LocalOf(m, id), action, Given(before, id).value);
    assert next.slots.Keys == m.slots.Keys;
    forall i ensures i in next.slots <==> Given(events, i).Some? {
      assert i in m.slots <==> Given(before, i).Some?;
    }
  }

  lemma BeginAsGiven(before: seq<Event>, e: Event, m: Machine, slot: Slot, gift: Gift)
    requires AsGiven(before, m) && HoldsGift(slot, gift) && Begun(before + [e]) == Begun(before) + 1
    requires forall i ::
               Given(before + [e], i) == if i == Begun(before) + 1 then Some(gift) else Given(before, i)
    ensures AsGiven(before + [e], Begin(m, slot))
  {
    var next := Begin(m, slot);
    forall i ensures i in next.slots <==> Given(before + [e], i).Some? {
      assert i in m.slots <==> Given(before, i).Some?;
    }
  }

  lemma StepAsGiven(cfg: R.Config, before: seq<Event>, e: Event, m: Machine)
    requires AsGiven(before, m) && Step(cfg, m, e).Some?
    ensures AsGiven(before + [e], Step(cfg, m, e).value)
  {
    var events := before + [e];
    assert events[..|events| - 1] == before && events[|events| - 1] == e;
    match e
    case Act(id, action) => ActAsGiven(cfg, before, id, action, m);
    case BeginStore(content) => BeginAsGiven(before, e, m, EnterReserve(cfg, content), Gift(content, false));
    case BeginShared(content) => BeginAsGiven(before, e, m, Sharing(content), Gift(content, true));
    case BeginStream => BeginAsGiven(before, e, m, Streaming([]), Gift([], false));
  }

  /**
   In every reachable state of any interleaving: the ids are handed out one
   after another, and each store and blob holds exactly the bytes it was begun
   with and has read since, whatever the other threads do.
   */
  lemma {:induction false} ContentIsGiven(cfg: R.Config, events: seq<Event>)
    requires Run(cfg, INITIAL, events).Some?
    ensures AsGiven(events, Run(cfg, INITIAL, events).value)
    decreases |events|
  {
    if events == [] {
    } else {
      var before, e := events[..|events| - 1], events[|events| - 1];
      assert events == before + [e];
      RunAppend(cfg, INITIAL, before, e);
      ContentIsGiven(cfg, before);
      StepAsGiven(cfg, before, e, Run(cfg, INITIAL, before).value);
    }
  }

  // ------------------------------------------------------------- a store goes on

  /** One thread's actions, with nobody else in between. */
  function Alone(id: nat, actions: seq<Action>): seq<Event> {
    seq(|actions|, i requires 0 <= i < |actions| => Act(id, actions[i]))
  }

  function PerformAll(cfg: R.Config, s: Local, actions: seq<Action>): Option<Local>
    decreases |actions|
  {
    if actions == [] then Some(s)
    else
      var t :- Perform(cfg, s, actions[0]);
      PerformAll(cfg, t, actions[1..])
  }

  lemma PutTwice(m: Machine, id: nat, s: Local, t: Local)
    requires id in m.slots
    ensures Put(Put(m, id, s), id, t) == Put(m, id, t) && LocalOf(Put(m, id, s), id) == s
    ensures Put(m, id, LocalOf(m, id)) == m
  {
    assert SetFile(SetFile(m.files, id, s.file), id, t.file) == SetFile(m.files, id, t.file);
    assert SetFile(m.files, id, FileOf(m.files, id)) == m.files;
    assert m.slots[id := s.slot][id := t.slot] == m.slots[id := t.slot];
    assert m.slots[id := m.slots[id]] == m.slots;
  }

  lemma {:induction false} RunAlone(cfg: R.Config, m: Machine, id: nat, actions: seq<Action>)
    requires id in m.slots
    ensures Run(cfg, m, Alone(id, actions)) ==
            match PerformAll(cfg, LocalOf(m, id), actions)
            case Some(s) => Some(Put(m, id, s))
            case None => None
    decreases |actions|
  {
    PutTwice(m, id, LocalOf(m, id), LocalOf(m, id));
    if actions == [] {
      assert Alone(id, actions) == [];
    } else {
      var events := Alone(id, actions);
      assert events[0] == Act(id, actions[0]) && events[1..] == Alone(id, actions[1..]);
      match Perform(cfg, LocalOf(m, id), actions[0])
      case Some(t) =>
        PutTwice(m, id, t, t);
        RunAlone(cfg, Put(m, id, t), id, actions[1..]);
        if PerformAll(cfg, t, actions[1..]).Some? {
          PutTwice(m, id, t, PerformAll(cfg, t, actions[1..]).value);
        }
      case None =>
    }
  }

  predicate FitsBudget(cfg: R.Config, hot: nat, size: nat) {
    hot + size <= cfg.globalHotBudgetBytes && hot + size < 0x1_0000_0000_0000_0000
  }

  /** There is room for so many bytes beside those that are hot. */
  predicate HasRoom(cfg: R.Config, hot: nat, size: nat) {
    size <= cfg.inlineMaxBytes && size <= cfg.requestHotBudgetBytes && FitsBudget(cfg, hot, size)
  }

  predicate IsUnderWay(slot: Slot) {
    !slot.Live? && !slot.Releasing? && !slot.Released?
  }

  /** How a store under way ends if it is left alone from here on and the reader has no more. */
  function KindOf(cfg: R.Config, slot: Slot, hot: nat): Kind {
    match slot
    case Sharing(_) => Shared
    case Reserved(_) => Inline
    case Streaming(content) => if HasRoom(cfg, hot, |content|) then Inline else Spilled
    case Sized(content) => if FitsBudget(cfg, hot, |content|) then Inline else Spilled
    case Loaded(content, current) =>
      if FitsBudget(cfg, current, |content|) && FitsBudget(cfg, hot, |content|) then Inline else Spilled
    case _ => Spilled
  }

  /** `t` is `s` with its store brought to an end. */
  predicate EndOf(cfg: R.Config, s: Local, t: Local) {
    var kind, size := KindOf(cfg, s.slot, s.counters.hot), |s.slot.content|;
    && t.slot == Live(s.slot.content, kind)
    && t.counters.hot == s.counters.hot + (if kind.Inline? && !s.slot.Reserved? then size else 0)
    && t.counters.spillCount == s.counters.spillCount + (if kind.Spilled? && !s.slot.Counted? then 1 else 0)
    && t.counters.spillBytesTotal == s.counters.spillBytesTotal + if kind.Spilled? then size else 0
  }

  /** `actions` bring the store of `s` to its end. */
  predicate Finishes(cfg: R.Config, s: Local, actions: seq<Action>) {
    match PerformAll(cfg, s, actions)
    case Some(t) => EndOf(cfg, s, t)
    case None => false
  }

  lemma First(cfg: R.Config, s: Local, action: Action, rest: seq<Action>)
    requires Perform(cfg, s, action).Some?
    ensures PerformAll(cfg, s, [action] + rest) == PerformAll(cfg, Perform(cfg, s, action).value, rest)
  {
    assert ([action] + rest)[1..] == rest;
  }

  lemma SpillFinishes(cfg: R.Config, s: Local) returns (actions: seq<Action>)
    requires s.slot.Refused? || s.slot.Written? || s.slot.Counted?
    ensures |actions| == (if s.slot.Refused? then 3 else if s.slot.Written? then 2 else 1)
    ensures Finishes(cfg, s, actions)
    decreases if s.slot.Refused? then 2 else if s.slot.Written? then 1 else 0
  {
    var action := if s.slot.Refused? then WriteFile else if s.slot.Written? then CountSpill else AddSpillBytes;
    var rest := [];
    if !s.slot.Counted? {
      rest := SpillFinishes(cfg, Perform(cfg, s, action).value);
    }
    First(cfg, s, action, rest);
    actions := [action] + rest;
  }

  lemma BuildFinishes(cfg: R.Config, s: Local) returns (actions: seq<Action>)
    requires s.slot.Reserved? || s.slot.Sharing?
    ensures |actions| <= 1 && Finishes(cfg, s, actions)
  {
    actions := [Build];
    assert actions[1..] == [];
  }

  lemma LoadedFinishes(cfg: R.Config, s: Local) returns (actions: seq<Action>)
    requires s.slot.Loaded? && s.slot.current == s.counters.hot
    ensures |actions| <= 4 && Finishes(cfg, s, actions)
  {
    var t := Perform(cfg, s, Exchange).value;
    var rest;
    if FitsBudget(cfg, s.counters.hot, |s.slot.content|) {
      rest := BuildFinishes(cfg, t);
    } else {
      rest := SpillFinishes(cfg, t);
    }
    First(cfg, s, Exchange, rest);
    actions := [Exchange] + rest;
  }

  lemma SizedFinishes(cfg: R.Config, s: Local) returns (actions: seq<Action>)
    requires s.slot.Sized? && s.counters.hot in s.counters.seen
    ensures |actions| <= 5 && Finishes(cfg, s, actions)
  {
    var load := Load(s.counters.hot);
    var rest := LoadedFinishes(cfg, Perform(cfg, s, load).value);
    First(cfg, s, load, rest);
    actions := [load] + rest;
  }

  /** A value read too early costs one more round, or a spill. */
  lemma StaleFinishes(cfg: R.Config, s: Local) returns (actions: seq<Action>)
    requires s.slot.Loaded? && s.counters.hot in s.counters.seen
    ensures |actions| <= 6 && Finishes(cfg, s, actions)
  {
    if s.slot.current == s.counters.hot {
      actions := LoadedFinishes(cfg, s);
    } else {
      var t, rest := Perform(cfg, s, Exchange).value, [];
      if t.slot.Refused? {
        rest := SpillFinishes(cfg, t);
      } else {
        rest := SizedFinishes(cfg, t);
      }
      First(cfg, s, Exchange, rest);
      actions := [Exchange] + rest;
    }
  }

  lemma StreamFinishes(cfg: R.Config, s: Local) returns (actions: seq<Action>)
    requires (s.slot.Streaming? || s.slot.Spilling?) && s.counters.hot in s.counters.seen
    ensures |actions| <= 6 && Finishes(cfg, s, actions)
  {
    var t, rest := Perform(cfg, s, EndOfStream).value, [];
    if t.slot.Sized? {
      rest := SizedFinishes(cfg, t);
    } else {
      rest := SpillFinishes(cfg, t);
    }
    First(cfg, s, EndOfStream, rest);
    actions := [EndOfStream] + rest;
  }

  lemma AnyFinishes(cfg: R.Config, s: Local) returns (actions: seq<Action>)
    requires IsUnderWay(s.slot) && s.counters.hot in s.counters.seen
    ensures |actions| <= 6 && Finishes(cfg, s, actions)
  {
    match s.slot
    case Sized(_) => actions := SizedFinishes(cfg, s);
    case Loaded(_, _) => actions := StaleFinishes(cfg, s);
    case Streaming(_) => actions := StreamFinishes(cfg, s);
    case Spilling(_) => actions := StreamFinishes(cfg, s);
    case Sharing(_) => actions := BuildFinishes(cfg, s);
    case Reserved(_) => actions := BuildFinishes(cfg, s);
    case _ => actions := SpillFinishes(cfg, s);
  }

  lemma {:induction false} HotWasSeen(cfg: R.Config, m: Machine, events: seq<Event>)
    requires m.counters.hot in m.counters.seen && Run(cfg, m, events).Some?
    ensures Run(cfg, m, events).value.counters.hot in Run(cfg, m, events).value.counters.seen
    decreases |events|
  {
    if events == [] {
    } else {
      HotWasSeen(cfg, Step(cfg, m, events[0]).value, events[1..]);
    }
  }

  /**
   From every reachable state, a store under way reaches its handle in at most
   six steps of its own; it is inline exactly if there is room beside what is
   hot then, unless it was reserved, refused or shared before.
   */
  lemma StoreFinishes(cfg: R.Config, events: seq<Event>, id: nat) returns (actions: seq<Action>)
    requires Run(cfg, INITIAL, events).Some? && id in Run(cfg, INITIAL, events).value.slots
    requires IsUnderWay(Run(cfg, INITIAL, events).value.slots[id])
    ensures |actions| <= 6
    ensures var m := Run(cfg, INITIAL, events).value;
            match Run(cfg, m, Alone(id, actions))
            case Some(n) =>
              && n.nextId == m.nextId && n.slots.Keys == m.slots.Keys
              && (forall i | i in m.slots && i != id :: n.slots[i] == m.slots[i])
              && EndOf(cfg, LocalOf(m, id), LocalOf(n, id))
            case None => false
  {
    var m := Run(cfg, INITIAL, events).value;
    HotWasSeen(cfg, INITIAL, events);
    actions := AnyFinishes(cfg, LocalOf(m, id));
    RunAlone(cfg, m, id, actions);
    var t := PerformAll(cfg, LocalOf(m, id), actions).value;
    PutTwice(m, id, t, t);
  }

  /** `t` is `s` with its blob released. */
  predicate ReleasedFrom(s: Local, t: Local) {
    && !IsUnderWay(s.slot) && t.slot == Released(s.slot.content, s.slot.kind) && t.file == None
    && t.counters.hot + Held(s.slot) == s.counters.hot
  }

  lemma ReleaseFinishes(cfg: R.Config, s: Local) returns (actions: seq<Action>)
    requires !IsUnderWay(s.slot) && FileMatches(s.slot, s.file) && Held(s.slot) <= s.counters.hot < R.U64_LIMIT
    ensures |actions| <= 2 && PerformAll(cfg, s, actions).Some?
    ensures ReleasedFrom(s, PerformAll(cfg, s, actions).value)
  {
    if s.slot.Live? {
      var rest := ReleaseOnce(cfg, Perform(cfg, s, Swap).value);
      First(cfg, s, Swap, rest);
      actions := [Swap] + rest;
    } else {
      actions := ReleaseOnce(cfg, s);
    }
  }

  lemma ReleaseOnce(cfg: R.Config, s: Local) returns (actions: seq<Action>)
    requires (s.slot.Releasing? || s.slot.Released?) && FileMatches(s.slot, s.file)
    requires Held(s.slot) <= s.counters.hot < R.U64_LIMIT
    ensures |actions| <= 1 && PerformAll(cfg, s, actions).Some?
    ensures ReleasedFrom(s, PerformAll(cfg, s, actions).value)
  {
    if s.slot.Released? {
      actions := [];
    } else {
      First(cfg, s, Release, []);
      actions := [Release] + [];
    }
  }

  /** And every blob can be given back: its bytes are no longer hot and its file is gone. */
  lemma RemoveFinishes(cfg: R.Config, events: seq<Event>, id: nat) returns (actions: seq<Action>)
    requires Run(cfg, INITIAL, events).Some? && id in Run(cfg, INITIAL, events).value.slots
    requires !IsUnderWay(Run(cfg, INITIAL, events).value.slots[id])
    ensures |actions| <= 2
    ensures var m := Run(cfg, INITIAL, events).value;
            match Run(cfg, m, Alone(id, actions))
            case Some(n) =>
              && n.nextId == m.nextId && n.slots.Keys == m.slots.Keys
              && (forall i | i in m.slots && i != id :: n.slots[i] == m.slots[i])
              && ReleasedFrom(LocalOf(m, id), LocalOf(n, id))
            case None => false
  {
    var m := Run(cfg, INITIAL, events).value;
    LedgerBalances(cfg, events);
    HeldBound(m.slots, id);
    actions := ReleaseFinishes(cfg, LocalOf(m, id));
    RunAlone(cfg, m, id, actions);
    var t := PerformAll(cfg, LocalOf(m, id), actions).value;
    PutTwice(m, id, t, t);
  }
}
