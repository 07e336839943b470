/** What removing and replacing members does to lookups, positions and depth. */
module JsonEdit {
  import opened Wrappers
  import opened Bytes
  import opened Json
  import opened JsonPointer

  lemma {:induction false} LookupAtIndex(ms: seq<Member>, key: bytes)
    ensures Lookup(ms, key) == if IndexOf(ms, key) < |ms| then Some(ms[IndexOf(ms, key)].value) else None
  {
    if ms == [] {
    } else {
      LookupAtIndex(ms[1..], key);
    }
  }

  lemma LookupDistinct(ms: seq<Member>, i: nat)
    requires DistinctKeys(ms) && i < |ms|
    ensures IndexOf(ms, ms[i].key) == i && Lookup(ms, ms[i].key) == Some(ms[i].value)
  {
    LookupAtIndex(ms, ms[i].key);
  }

  lemma PairOfMembers(a: Member, b: Member, key: bytes)
    ensures Lookup([a, b], key) == if key == a.key then Some(a.value) else if key == b.key then Some(b.value) else None
    ensures MembersDepth([a, b]) == Max(Depth(a.value), Depth(b.value))
  {
    var last := [b];
    assert [a, b][1..] == last && last[1..] == [];
    assert Lookup(last, key) == if key == b.key then Some(b.value) else None;
    assert MembersDepth(last) == Depth(b.value);
  }

  /** Where the members of a list go when one is removed. */
  lemma SwapRemoveAt(ms: seq<Member>, key: bytes)
    ensures var r, i := SwapRemove(ms, key), IndexOf(ms, key);
            && |r| == (if i < |ms| then |ms| - 1 else |ms|)
            && forall j | 0 <= j < |r| :: r[j] == if j == i then ms[|ms| - 1] else ms[j]
  {
    var r, i := SwapRemove(ms, key), IndexOf(ms, key);
    if i < |ms| - 1 {
      assert |ms[..i] + [ms[|ms| - 1]]| == i + 1;
    }
  }

  lemma SwapRemoveDistinct(ms: seq<Member>, key: bytes)
    requires DistinctKeys(ms)
    ensures DistinctKeys(SwapRemove(ms, key))
  {
    SwapRemoveAt(ms, key);
  }

  /** Removing a key hides it and nothing else, although the last member moves. */
  lemma SwapRemoveLookup(ms: seq<Member>, key: bytes, other: bytes)
    requires DistinctKeys(ms)
    ensures DistinctKeys(SwapRemove(ms, key))
    ensures Lookup(SwapRemove(ms, key), other) == if other == key then None else Lookup(ms, other)
  {
    var r, i, k := SwapRemove(ms, key), IndexOf(ms, key), IndexOf(ms, other);
    SwapRemoveAt(ms, key);
    SwapRemoveDistinct(ms, key);
    LookupAtIndex(ms, other);
    LookupAtIndex(r, other);
    if other != key && k < |ms| {
      LookupDistinct(r, if k == |ms| - 1 && i < |ms| then i else k);
    }
  }

  lemma {:induction false} InsertLookup(ms: seq<Member>, key: bytes, v: Value, other: bytes)
    ensures Lookup(Insert(ms, key, v), other) == if other == key then Some(v) else Lookup(ms, other)
  {
    if ms == [] {
    } else if ms[0].key == key {
      assert Insert(ms, key, v)[1..] == ms[1..];
    } else {
      InsertLookup(ms[1..], key, v, other);
      assert Insert(ms, key, v)[1..] == Insert(ms[1..], key, v);
    }
  }

  /** Inserting under a key that is present overwrites one value in place. */
  lemma {:induction false} InsertPresent(ms: seq<Member>, key: bytes, v: Value)
    requires Lookup(ms, key).Some?
    ensures var i := IndexOf(ms, key); i < |ms| && Insert(ms, key, v) == ms[i := Member(key, v)]
  {
    if ms[0].key == key {
    } else {
      InsertPresent(ms[1..], key, v);
    }
  }

  lemma InsertAgain(ms: seq<Member>, key: bytes, v: Value)
    requires Lookup(ms, key) == Some(v)
    ensures Insert(ms, key, v) == ms
  {
    InsertPresent(ms, key, v);
    LookupAtIndex(ms, key);
  }

  // ---------------------------------------------------------------- depth

  lemma {:induction false} MembersDepthBound(ms: seq<Member>, d: nat)
    ensures MembersDepth(ms) <= d <==> forall i | 0 <= i < |ms| :: Depth(ms[i].value) <= d
  {
    if ms == [] {
    } else {
      MembersDepthBound(ms[1..], d);
    }
  }

  lemma {:induction false} ItemsDepthBound(items: seq<Value>, d: nat)
    ensures ItemsDepth(items) <= d <==> forall i | 0 <= i < |items| :: Depth(items[i]) <= d
  {
    if items == [] {
    } else {
      ItemsDepthBound(items[1..], d);
    }
  }

  // ------------------------------------------------------------ positions

  lemma {:induction false} NodeAppend(v: Value, p: Position, q: Position)
    ensures Node(v, p + q) == match Node(v, p) case Some(x) => Node(x, q) case None => None
    decreases |p|
  {
    if p == [] {
      assert p + q == q;
    } else {
      assert (p + q)[1..] == p[1..] + q;
      if Child(v, p[0]).Some? {
        NodeAppend(Child(v, p[0]).value, p[1..], q);
      }
    }
  }

  /** A position one, two and three steps down. */
  lemma NodeSteps(v: Value, a: bytes, b: bytes, c: bytes)
    ensures Node(v, [a]) == Child(v, a)
    ensures Node(v, [a, b]) == match Child(v, a) case Some(x) => Child(x, b) case None => None
    ensures Node(v, [a, b, c]) == match Node(v, [a, b]) case Some(y) => Child(y, c) case None => None
  {
    LastStep(v, [], a);
    LastStep(v, [a], b);
    LastStep(v, [a, b], c);
    assert [] + [a] == [a] && [a] + [b] == [a, b] && [a, b] + [c] == [a, b, c];
  }

  lemma LastStep(v: Value, p: Position, token: bytes)
    ensures Node(v, p + [token]) == match Node(v, p) case Some(x) => Child(x, token) case None => None
  {
    NodeAppend(v, p, [token]);
    var last: Position := [token];
    assert last[1..] == [];
  }

  /** A node of a well-formed tree is well-formed. */
  lemma {:induction false} NodeWellFormed(v: Value, p: Position)
    requires WellFormed(v) && Node(v, p).Some?
    ensures WellFormed(Node(v, p).value)
    decreases |p|
  {
    if p == [] {
    } else {
      if v.Object? {
        LookupAtIndex(v.members, p[0]);
      }
      NodeWellFormed(Child(v, p[0]).value, p[1..]);
    }
  }

  /** Nodes agree in kind; leaves agree entirely, arrays in length. */
  predicate SameNode(x: Option<Value>, y: Option<Value>) {
    match (x, y)
    case (None, None) => true
    case (Some(Object(_)), Some(Object(_))) => true
    case (Some(Array(xs)), Some(Array(ys))) => |xs| == |ys|
    case _ => x == y
  }

  // --------------------------------------------------------- strip_output

  const OUTPUT: bytes := "out" + "put"

  /** `pointer_mut` to an object, then `remove` of the last token of `q`. */
  function RemoveAt(v: Value, q: Position): Value
    requires q != []
    decreases |q|
  {
    if !v.Object? then v
    else if |q| == 1 then Object(SwapRemove(v.members, q[0]))
    else
      match Lookup(v.members, q[0])
      case Some(c) => Object(Insert(v.members, q[0], RemoveAt(c, q[1..])))
      case None => v
  }

  const OUTPUT_POSITIONS: seq<Position> :=
    [[OUTPUT],
     ["generation" + "Config", "image" + "Config", OUTPUT],
     ["generation" + "_config", "image" + "_config", OUTPUT]]

  /** `strip_output_from_value` and `strip_output_fields`. */
  function StripOutput(v: Value): Value {
    RemoveAt(RemoveAt(RemoveAt(v, OUTPUT_POSITIONS[0]), OUTPUT_POSITIONS[1]), OUTPUT_POSITIONS[2])
  }

  /** `p` lies at or below a removed field. */
  predicate Stripped(p: Position) {
    exists i | 0 <= i < |OUTPUT_POSITIONS| :: OUTPUT_POSITIONS[i] <= p
  }

  /** No array has an element under such a token. */
  predicate NotAnIndex(token: bytes) {
    token != [] && !IsDigit(token[0])
  }

  lemma ArrayHasNoSuchChild(items: seq<Value>, token: bytes)
    requires NotAnIndex(token)
    ensures Child(Array(items), token) == None
  {
  }

  lemma SameNodeReflexive(x: Option<Value>)
    ensures SameNode(x, x)
  {
  }

  lemma {:induction false} RemoveAtNode(v: Value, q: Position, p: Position)
    requires WellFormed(v) && q != [] && forall i | 0 <= i < |q| :: NotAnIndex(q[i])
    ensures SameNode(Node(RemoveAt(v, q), p), if q <= p then None else Node(v, p))
    decreases |q|
  {
    if p == [] {
    } else if !v.Object? {
      SameNodeReflexive(Node(v, p));
      if v.Array? && p[0] == q[0] {
        ArrayHasNoSuchChild(v.items, p[0]);
      }
    } else if |q| == 1 {
      SwapRemoveLookup(v.members, q[0], p[0]);
      SameNodeReflexive(Node(v, p));
    } else if Lookup(v.members, q[0]).Some? {
      var c := Lookup(v.members, q[0]).value;
      InsertLookup(v.members, q[0], RemoveAt(c, q[1..]), p[0]);
      if p[0] == q[0] {
        LookupAtIndex(v.members, q[0]);
        RemoveAtNode(c, q[1..], p[1..]);
        assert q <= p <==> q[1..] <= p[1..];
      } else {
        SameNodeReflexive(Node(v, p));
      }
    } else {
      SameNodeReflexive(Node(v, p));
    }
  }

  /** Removing what is not there changes nothing. */
  lemma {:induction false} RemoveAtAbsent(v: Value, q: Position)
    requires q != [] && Node(v, q) == None
    ensures RemoveAt(v, q) == v
    decreases |q|
  {
    if !v.Object? {
    } else if |q| == 1 {
      LookupAtIndex(v.members, q[0]);
    } else if Lookup(v.members, q[0]).Some? {
      var c := Lookup(v.members, q[0]).value;
      RemoveAtAbsent(c, q[1..]);
      InsertAgain(v.members, q[0], c);
    }
  }

  lemma SwapRemoveKeeps(ms: seq<Member>, key: bytes)
    requires WellFormed(Object(ms))
    ensures var v := Object(SwapRemove(ms, key)); WellFormed(v) && Depth(v) <= Depth(Object(ms))
  {
    SwapRemoveAt(ms, key);
    SwapRemoveDistinct(ms, key);
    SwapRemoveDepth(ms, key);
  }

  lemma SwapRemoveDepth(ms: seq<Member>, key: bytes)
    ensures MembersDepth(SwapRemove(ms, key)) <= MembersDepth(ms)
  {
    SwapRemoveAt(ms, key);
    MembersDepthBound(ms, MembersDepth(ms));
    MembersDepthBound(SwapRemove(ms, key), MembersDepth(ms));
  }

  lemma ReplaceKeeps(ms: seq<Member>, i: nat, v: Value)
    requires WellFormed(Object(ms)) && i < |ms| && WellFormed(v) && Depth(v) <= Depth(ms[i].value)
    ensures var w := Object(ms[i := Member(ms[i].key, v)]); WellFormed(w) && Depth(w) <= Depth(Object(ms))
  {
    MembersDepthBound(ms, MembersDepth(ms));
    MembersDepthBound(ms[i := Member(ms[i].key, v)], MembersDepth(ms));
  }

  lemma {:induction false} RemoveAtKeeps(v: Value, q: Position)
    requires WellFormed(v) && q != []
    ensures WellFormed(RemoveAt(v, q)) && Depth(RemoveAt(v, q)) <= Depth(v)
    decreases |q|
  {
    if v.Object? {
      if |q| == 1 {
        SwapRemoveKeeps(v.members, q[0]);
      } else if Lookup(v.members, q[0]).Some? {
        LookupAtIndex(v.members, q[0]);
        var c := Lookup(v.members, q[0]).value;
        RemoveAtKeeps(c, q[1..]);
        InsertPresent(v.members, q[0], RemoveAt(c, q[1..]));
        ReplaceKeeps(v.members, IndexOf(v.members, q[0]), RemoveAt(c, q[1..]));
      }
    }
  }

  lemma SameNodeTransitive(x: Option<Value>, y: Option<Value>, z: Option<Value>)
    requires SameNode(x, y) && SameNode(y, z)
    ensures SameNode(x, z)
  {
  }

  /**
   Stripping removes the three `output` fields with everything below them and
   leaves the node at every other position as it was, up to member order.
   */
  lemma StripOutputNode(v: Value, p: Position)
    requires WellFormed(v)
    ensures SameNode(Node(StripOutput(v), p), if Stripped(p) then None else Node(v, p))
  {
    var a := RemoveAt(v, OUTPUT_POSITIONS[0]);
    var b := RemoveAt(a, OUTPUT_POSITIONS[1]);
    RemoveAtKeeps(v, OUTPUT_POSITIONS[0]);
    RemoveAtKeeps(a, OUTPUT_POSITIONS[1]);
    RemoveAtNode(v, OUTPUT_POSITIONS[0], p);
    RemoveAtNode(a, OUTPUT_POSITIONS[1], p);
    RemoveAtNode(b, OUTPUT_POSITIONS[2], p);
    if !Stripped(p) {
      SameNodeTransitive(Node(b, p), Node(a, p), Node(v, p));
      SameNodeTransitive(Node(StripOutput(v), p), Node(b, p), Node(v, p));
    }
  }

  lemma StripOutputKeeps(v: Value)
    requires WellFormed(v)
    ensures WellFormed(StripOutput(v)) && Depth(StripOutput(v)) <= Depth(v)
  {
    var a := RemoveAt(v, OUTPUT_POSITIONS[0]);
    RemoveAtKeeps(v, OUTPUT_POSITIONS[0]);
    RemoveAtKeeps(a, OUTPUT_POSITIONS[1]);
    RemoveAtKeeps(RemoveAt(a, OUTPUT_POSITIONS[1]), OUTPUT_POSITIONS[2]);
  }
}
