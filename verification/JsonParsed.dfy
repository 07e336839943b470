/** What every tree the parser accepts satisfies, and what inserting a member keeps. */
module JsonParsed {
  import opened Wrappers
  import opened Bytes
  import opened Json
  import opened JsonEdit
  import opened JsonRoundTrip

  lemma NoMember(ms: seq<Member>, key: bytes)
    requires Lookup(ms, key) == None
    ensures forall i | 0 <= i < |ms| :: ms[i].key != key
  {
    LookupAtIndex(ms, key);
  }

  lemma InsertWellFormed(ms: seq<Member>, key: bytes, v: Value)
    requires WellFormed(Object(ms)) && ValidUtf8(key) && WellFormed(v)
    ensures WellFormed(Object(Insert(ms, key, v)))
  {
    if Lookup(ms, key).Some? {
      InsertPresent(ms, key, v);
      LookupAtIndex(ms, key);
    } else {
      NoMember(ms, key);
      InsertFresh(ms, key, v);
    }
  }

  ghost predicate AllWellFormed(ms: seq<Member>) {
    forall i | 0 <= i < |ms| :: ValidUtf8(ms[i].key) && WellFormed(ms[i].value)
  }

  lemma {:induction false} InsertAllWellFormed(ms: seq<Member>, more: seq<Member>)
    requires WellFormed(Object(ms)) && AllWellFormed(more)
    ensures WellFormed(Object(InsertAll(ms, more)))
    decreases |more|
  {
    if more == [] {
    } else {
      InsertWellFormed(ms, more[0].key, more[0].value);
      InsertAllWellFormed(Insert(ms, more[0].key, more[0].value), more[1..]);
    }
  }

  lemma {:induction false} ParsedValueWellFormed(s: bytes, limit: nat, renumber: Renumber)
    requires ParseValue(s, limit, renumber).Some? && Renumbers(renumber)
    ensures WellFormed(ParseValue(s, limit, renumber).value.0)
    decreases |s|, 0
  {
    var t := SkipSpace(s);
    if t[0] == '[' {
      var u := SkipSpace(t[1..]);
      if u != [] && u[0] != ']' {
        ParsedItemsWellFormed(u, limit - 1, renumber);
      }
    } else if t[0] == '{' {
      var u := SkipSpace(t[1..]);
      if u != [] && u[0] != '}' {
        ParsedMembersWellFormed(u, limit - 1, renumber);
        InsertAllWellFormed([], ParseMembers(u, limit - 1, renumber).value.0);
      }
    }
  }

  lemma {:induction false} ParsedItemsWellFormed(s: bytes, limit: nat, renumber: Renumber)
    requires ParseItems(s, limit, renumber).Some? && Renumbers(renumber)
    ensures forall i | 0 <= i < |ParseItems(s, limit, renumber).value.0| ::
              WellFormed(ParseItems(s, limit, renumber).value.0[i])
    decreases |s|, 1
  {
    ParsedValueWellFormed(s, limit, renumber);
    var (v, after) := ParseValue(s, limit, renumber).value;
    var u := SkipSpace(after);
    if u[0] == ',' {
      ParsedItemsWellFormed(u[1..], limit, renumber);
    }
  }

  lemma {:induction false} ParsedMembersWellFormed(s: bytes, limit: nat, renumber: Renumber)
    requires ParseMembers(s, limit, renumber).Some? && Renumbers(renumber)
    ensures AllWellFormed(ParseMembers(s, limit, renumber).value.0)
    decreases |s|, 1
  {
    var (key, after) := ParseString(SkipSpace(s)[1..]).value;
    var colon := SkipSpace(after);
    ParsedValueWellFormed(colon[1..], limit, renumber);
    var (v, end) := ParseValue(colon[1..], limit, renumber).value;
    var u := SkipSpace(end);
    if u[0] == ',' {
      ParsedMembersWellFormed(u[1..], limit, renumber);
    }
  }

  /** A parsed tree is well-formed and nests less deeply than the recursion limit. */
  lemma ParsedTree(s: bytes, renumber: Renumber)
    requires Parse(s, renumber).Some? && Renumbers(renumber)
    ensures WellFormed(Parse(s, renumber).value) && Depth(Parse(s, renumber).value) < RECURSION_LIMIT
  {
    ParsedValueWellFormed(s, RECURSION_LIMIT, renumber);
    ParsedDepth(s, RECURSION_LIMIT, renumber);
  }
}
