/** Depth, numbers and rereading, position by position. */
module JsonPosition {
  import opened Wrappers
  import opened Bytes
  import opened Json
  import opened JsonPointer
  import opened JsonEdit
  import opened JsonRoundTrip

  lemma NodeBelowMember(ms: seq<Member>, i: nat, q: Position)
    requires DistinctKeys(ms) && i < |ms|
    ensures Node(Object(ms), [ms[i].key] + q) == Node(ms[i].value, q)
  {
    LookupDistinct(ms, i);
    assert ([ms[i].key] + q)[1..] == q;
  }

  lemma NodeBelowItem(items: seq<Value>, i: nat, q: Position)
    requires i < |items|
    ensures Node(Array(items), [Decimal(i)] + q) == Node(items[i], q)
  {
    IndexFound(i, |items|);
    assert ([Decimal(i)] + q)[1..] == q;
  }

  // ------------------------------------------------------------------ depth

  predicate HoldsContainer(v: Value, p: Position) {
    Node(v, p).Some? && (Node(v, p).value.Array? || Node(v, p).value.Object?)
  }

  lemma ChildDepth(v: Value, token: bytes)
    requires Child(v, token).Some?
    ensures Depth(Child(v, token).value) < Depth(v)
  {
    match v
    case Object(ms) =>
      LookupAtIndex(ms, token);
      MembersDepthBound(ms, MembersDepth(ms));
    case Array(items) => ItemsDepthBound(items, ItemsDepth(items));
  }

  lemma {:induction false} NodeDepth(v: Value, p: Position)
    requires Node(v, p).Some?
    ensures |p| + Depth(Node(v, p).value) <= Depth(v)
    decreases |p|
  {
    if p == [] {
    } else {
      ChildDepth(v, p[0]);
      NodeDepth(Child(v, p[0]).value, p[1..]);
    }
  }

  lemma {:induction false} DepthFromPositions(v: Value, d: nat)
    requires WellFormed(v) && forall p | HoldsContainer(v, p) :: |p| < d
    ensures Depth(v) <= d
    decreases v
  {
    if v.Array? || v.Object? {
      assert HoldsContainer(v, []);
    }
    match v
    case Object(ms) =>
      forall i | 0 <= i < |ms| ensures Depth(ms[i].value) <= d - 1 {
        forall q | HoldsContainer(ms[i].value, q) ensures |q| < d - 1 {
          NodeBelowMember(ms, i, q);
          assert HoldsContainer(v, [ms[i].key] + q);
        }
        DepthFromPositions(ms[i].value, d - 1);
      }
      MembersDepthBound(ms, d - 1);
    case Array(items) =>
      forall i | 0 <= i < |items| ensures Depth(items[i]) <= d - 1 {
        forall q | HoldsContainer(items[i], q) ensures |q| < d - 1 {
          NodeBelowItem(items, i, q);
          assert HoldsContainer(v, [Decimal(i)] + q);
        }
        DepthFromPositions(items[i], d - 1);
      }
      ItemsDepthBound(items, d - 1);
    case _ =>
  }

  /** A tree nests at most `d` deep exactly when its arrays and objects lie at positions of fewer than `d` tokens. */
  lemma DepthByPosition(v: Value, d: nat)
    requires WellFormed(v)
    ensures Depth(v) <= d <==> forall p | HoldsContainer(v, p) :: |p| < d
  {
    if forall p | HoldsContainer(v, p) :: |p| < d {
      DepthFromPositions(v, d);
    }
    forall p | HoldsContainer(v, p) ensures |p| < Depth(v) {
      NodeDepth(v, p);
    }
  }

  // ---------------------------------------------------------------- numbers

  predicate HoldsNumber(v: Value, p: Position) {
    Node(v, p).Some? && Node(v, p).value.Number?
  }

  /** The number at position `p`, if any, is read back as itself. */
  ghost predicate FixedAt(v: Value, p: Position, renumber: Renumber) {
    HoldsNumber(v, p) ==> renumber(Node(v, p).value.text) == Some(Node(v, p).value.text)
  }

  lemma {:induction false} SettledAt(v: Value, p: Position, renumber: Renumber)
    requires Settled(v, renumber)
    ensures FixedAt(v, p, renumber)
    decreases |p|
  {
    if p == [] {
    } else if Child(v, p[0]).Some? {
      if v.Object? {
        LookupAtIndex(v.members, p[0]);
      }
      SettledAt(Child(v, p[0]).value, p[1..], renumber);
    }
  }

  lemma {:induction false} SettledFromPositions(v: Value, renumber: Renumber)
    requires WellFormed(v) && forall p :: FixedAt(v, p, renumber)
    ensures Settled(v, renumber)
    decreases v
  {
    match v
    case Number(t) => assert FixedAt(v, [], renumber);
    case Object(ms) =>
      forall i | 0 <= i < |ms| ensures Settled(ms[i].value, renumber) {
        forall q ensures FixedAt(ms[i].value, q, renumber) {
          NodeBelowMember(ms, i, q);
          assert FixedAt(v, [ms[i].key] + q, renumber);
        }
        SettledFromPositions(ms[i].value, renumber);
      }
    case Array(items) =>
      forall i | 0 <= i < |items| ensures Settled(items[i], renumber) {
        forall q ensures FixedAt(items[i], q, renumber) {
          NodeBelowItem(items, i, q);
          assert FixedAt(v, [Decimal(i)] + q, renumber);
        }
        SettledFromPositions(items[i], renumber);
      }
    case _ =>
  }

  lemma SettledByPosition(v: Value, renumber: Renumber)
    requires WellFormed(v)
    ensures Settled(v, renumber) <==> forall p :: FixedAt(v, p, renumber)
  {
    if Settled(v, renumber) {
      forall p ensures FixedAt(v, p, renumber) {
        SettledAt(v, p, renumber);
      }
    }
    if forall p :: FixedAt(v, p, renumber) {
      SettledFromPositions(v, renumber);
    }
  }

  // -------------------------------------------------------------- rereading

  lemma {:induction false} RereadLookup(ms: seq<Member>, key: bytes, renumber: Renumber)
    requires RereadMembers(ms, renumber).Some?
    ensures var r := Lookup(RereadMembers(ms, renumber).value, key);
            match Lookup(ms, key)
            case Some(c) => Reread(c, renumber) == r && r.Some?
            case None => r == None
  {
    if ms == [] {
    } else {
      var rest := RereadMembers(ms[1..], renumber);
      assert RereadMembers(ms, renumber).value[1..] == rest.value;
      if ms[0].key != key {
        RereadLookup(ms[1..], key, renumber);
      }
    }
  }

  lemma RereadChild(v: Value, token: bytes, renumber: Renumber)
    requires Reread(v, renumber).Some?
    ensures var r := Child(Reread(v, renumber).value, token);
            match Child(v, token)
            case Some(c) => Reread(c, renumber) == r && r.Some?
            case None => r == None
  {
    match v
    case Object(ms) => RereadLookup(ms, token, renumber);
    case Array(items) => RereadItemsAt(items, renumber);
    case _ =>
  }

  /** Rereading a tree rereads the node at every position. */
  lemma {:induction false} RereadNode(v: Value, p: Position, renumber: Renumber)
    requires Reread(v, renumber).Some?
    ensures var r := Node(Reread(v, renumber).value, p);
            match Node(v, p)
            case Some(x) => Reread(x, renumber) == r && r.Some?
            case None => r == None
    decreases |p|
  {
    if p == [] {
    } else {
      RereadChild(v, p[0], renumber);
      if Child(v, p[0]).Some? {
        RereadNode(Child(v, p[0]).value, p[1..], renumber);
      }
    }
  }

  /** Rereading a tree gives a tree again. */
  lemma {:induction false} RereadWellFormed(v: Value, renumber: Renumber)
    requires WellFormed(v) && Renumbers(renumber) && Reread(v, renumber).Some?
    ensures WellFormed(Reread(v, renumber).value)
    decreases v
  {
    match v
    case Object(ms) =>
      RereadMembersAt(ms, renumber);
      RereadDistinct(ms, renumber);
      forall i | 0 <= i < |ms| ensures WellFormed(Reread(ms[i].value, renumber).value) {
        RereadWellFormed(ms[i].value, renumber);
      }
    case Array(items) =>
      RereadItemsAt(items, renumber);
      forall i | 0 <= i < |items| ensures WellFormed(Reread(items[i], renumber).value) {
        RereadWellFormed(items[i], renumber);
      }
    case _ =>
  }
}
