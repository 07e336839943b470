/**
 Two things the grammar leaves open: which of several members of one name an
 object keeps, and which of the many texts of a value is printed.
 */
module JsonShortest {
  import opened Wrappers
  import opened Bytes
  import opened Json
  import opened JsonEdit
  import opened JsonGrammar
  import opened JsonRoundTrip

  // ------------------------------------------------------------ repeated names

  lemma {:induction false} InsertAllAppend(acc: seq<Member>, a: seq<Member>, b: seq<Member>)
    ensures InsertAll(acc, a + b) == InsertAll(InsertAll(acc, a), b)
    decreases |a|
  {
    if a == [] {
      assert a + b == b;
    } else {
      assert (a + b)[1..] == a[1..] + b;
      InsertAllAppend(Insert(acc, a[0].key, a[0].value), a[1..], b);
    }
  }

  lemma IndexStep(m: Member, ms: seq<Member>, key: bytes)
    ensures IndexOf([m] + ms, key) == if m.key == key then 0 else 1 + IndexOf(ms, key)
  {
    assert ([m] + ms)[1..] == ms;
  }

  /** A name already there keeps its place; a new one goes to the end. */
  lemma {:induction false} InsertPlaces(ms: seq<Member>, key: bytes, v: Value, other: bytes)
    ensures var r := Insert(ms, key, v);
            && |r| == (if IndexOf(ms, key) < |ms| then |ms| else |ms| + 1)
            && IndexOf(r, other) ==
               if other == key || IndexOf(ms, other) < |ms| then IndexOf(ms, other) else |r|
  {
    if ms == [] {
      IndexStep(Member(key, v), [], other);
      assert [Member(key, v)] + [] == [Member(key, v)];
    } else {
      var m, rest := ms[0], ms[1..];
      assert ms == [m] + rest;
      IndexStep(m, rest, key);
      IndexStep(m, rest, other);
      if m.key == key {
        IndexStep(Member(key, v), rest, other);
      } else {
        InsertPlaces(rest, key, v, other);
        IndexStep(m, Insert(rest, key, v), other);
      }
    }
  }

  lemma {:induction false} NamesUnused(acc: seq<Member>, ms: seq<Member>, key: bytes)
    requires forall i | 0 <= i < |ms| :: ms[i].key != key
    ensures Lookup(InsertAll(acc, ms), key) == Lookup(acc, key)
    decreases |ms|
  {
    if ms == [] {
    } else {
      InsertLookup(acc, ms[0].key, ms[0].value, key);
      NamesUnused(Insert(acc, ms[0].key, ms[0].value), ms[1..], key);
    }
  }

  lemma {:induction false} PlacesStay(acc: seq<Member>, ms: seq<Member>, key: bytes)
    requires IndexOf(acc, key) < |acc|
    ensures IndexOf(InsertAll(acc, ms), key) == IndexOf(acc, key) && |InsertAll(acc, ms)| >= |acc|
    decreases |ms|
  {
    if ms == [] {
    } else {
      InsertPlaces(acc, ms[0].key, ms[0].value, key);
      PlacesStay(Insert(acc, ms[0].key, ms[0].value), ms[1..], key);
    }
  }

  /** The last member of a name is the one whose value an object has. */
  lemma LastWins(ms: seq<Member>, i: nat)
    requires i < |ms| && forall j | i < j < |ms| :: ms[j].key != ms[i].key
    ensures Lookup(InsertAll([], ms), ms[i].key) == Some(ms[i].value)
  {
    var acc := InsertAll([], ms[..i]);
    assert ms == ms[..i] + ms[i..];
    InsertAllAppend([], ms[..i], ms[i..]);
    assert ms[i..][1..] == ms[i + 1..];
    InsertLookup(acc, ms[i].key, ms[i].value, ms[i].key);
    NamesUnused(Insert(acc, ms[i].key, ms[i].value), ms[i + 1..], ms[i].key);
  }

  /** A name that no member has is not in the object. */
  lemma NoOtherNames(ms: seq<Member>, key: bytes)
    requires forall i | 0 <= i < |ms| :: ms[i].key != key
    ensures Lookup(InsertAll([], ms), key) == None
  {
    NamesUnused([], ms, key);
  }

  lemma FirstOf(ms: seq<Member>, i: nat)
    requires i < |ms| && forall j | 0 <= j < i :: ms[j].key != ms[i].key
    ensures var acc := InsertAll([], ms[..i]);
            IndexOf(acc, ms[i].key) == |acc| && IndexOf(InsertAll([], ms), ms[i].key) == |acc|
            && |acc| < |InsertAll([], ms)|
  {
    var acc, m := InsertAll([], ms[..i]), ms[i];
    forall j | 0 <= j < i ensures ms[..i][j].key != m.key {
      assert ms[..i][j] == ms[j];
    }
    NamesUnused([], ms[..i], m.key);
    LookupAtIndex(acc, m.key);
    assert ms == ms[..i] + ms[i..] && ms[i..][1..] == ms[i + 1..];
    InsertAllAppend([], ms[..i], ms[i..]);
    InsertPlaces(acc, m.key, m.value, m.key);
    PlacesStay(Insert(acc, m.key, m.value), ms[i + 1..], m.key);
  }

  /** The names of an object are in the order in which they first occur. */
  lemma FirstComesFirst(ms: seq<Member>, i: nat, j: nat)
    requires i < j < |ms|
    requires forall k | 0 <= k < i :: ms[k].key != ms[i].key
    requires forall k | 0 <= k < j :: ms[k].key != ms[j].key
    ensures var r := InsertAll([], ms); IndexOf(r, ms[i].key) < IndexOf(r, ms[j].key) < |r|
  {
    var head := ms[..j];
    FirstOf(ms, i);
    FirstOf(ms, j);
    assert head[..i] == ms[..i];
    forall k | 0 <= k < i ensures head[k].key != head[i].key {
      assert head[k] == ms[k];
    }
    FirstOf(head, i);
  }

  // ---------------------------------------------------------- the shortest text

  /** Every number is read as it is written. */
  ghost predicate IsExact(renumber: Renumber) {
    forall t :: renumber(t) == Some(t)
  }

  lemma {:induction false} EscapeLength(a: bytes, b: bytes)
    ensures |EscapeString(a + b)| == |EscapeString(a)| + |EscapeString(b)|
  {
    if a == [] {
      assert a + b == b;
    } else {
      assert (a + b)[1..] == a[1..] + b;
      EscapeLength(a[1..], b);
    }
  }

  lemma {:induction false} HighBytesEscape(s: bytes)
    requires forall i | 0 <= i < |s| :: s[i] >= '\U{80}'
    ensures |EscapeString(s)| == |s|
  {
    if s == [] {
    } else {
      HighBytesEscape(s[1..]);
    }
  }

  lemma OneByteEscape(c: byte)
    ensures EscapeString([c]) == EscapeByte(c)
  {
    assert [c][1..] == [];
  }

  lemma ScalarEscape(cp: nat)
    requires cp < 0x110000
    ensures |EscapeString(Utf8Encode(cp))| <= 6
  {
    if cp < 0x80 {
      OneByteEscape(cp as char);
    } else {
      HighBytesEscape(Utf8Encode(cp));
    }
  }

  lemma GlyphShortest(g: Glyph)
    requires ValidGlyph(g)
    ensures |EscapeString(GlyphMeaning(g))| <= |GlyphText(g)|
  {
    match g
    case Raw(c) => OneByteEscape(c);
    case Short(c) => OneByteEscape(GlyphMeaning(g)[0]);
    case Code(_, unit) => ScalarEscape(unit);
    case Pair(_, lead, _, trail) => ScalarEscape(0x10000 + 0x400 * (lead - 0xD800) + (trail - 0xDC00));
  }

  lemma {:induction false} GlyphsShortest(gs: seq<Glyph>)
    requires ValidGlyphs(gs)
    ensures |EscapeString(GlyphsMeaning(gs))| <= |GlyphsText(gs)|
  {
    if gs == [] {
    } else {
      GlyphShortest(gs[0]);
      GlyphsShortest(gs[1..]);
      EscapeLength(GlyphMeaning(gs[0]), GlyphsMeaning(gs[1..]));
    }
  }

  /** The bytes of printed items, each with the comma or bracket behind it. */
  function ItemsSize(items: seq<Value>): nat {
    if items == [] then 0 else |Print(items[0])| + 1 + ItemsSize(items[1..])
  }

  function MemberSize(m: Member): nat {
    |PrintString(m.key)| + 1 + |Print(m.value)| + 1
  }

  function MembersSize(ms: seq<Member>): nat {
    if ms == [] then 0 else MemberSize(ms[0]) + MembersSize(ms[1..])
  }

  lemma {:induction false} PrintedItems(items: seq<Value>)
    ensures |PrintItems(items, false)| == ItemsSize(items) + 1
    ensures items != [] ==> |PrintItems(items, true)| == ItemsSize(items)
  {
    if items == [] {
    } else {
      PrintedItems(items[1..]);
    }
  }

  lemma {:induction false} PrintedMembers(ms: seq<Member>)
    ensures |PrintMembers(ms, false)| == MembersSize(ms) + 1
    ensures ms != [] ==> |PrintMembers(ms, true)| == MembersSize(ms)
  {
    if ms == [] {
    } else {
      PrintedMembers(ms[1..]);
    }
  }

  lemma {:induction false} InsertSize(ms: seq<Member>, m: Member)
    ensures MembersSize(Insert(ms, m.key, m.value)) <= MembersSize(ms) + MemberSize(m)
    ensures Insert(ms, m.key, m.value) != []
  {
    if ms == [] {
      assert [m][1..] == [];
    } else if ms[0].key == m.key {
      assert Insert(ms, m.key, m.value)[1..] == ms[1..];
    } else {
      InsertSize(ms[1..], m);
      assert Insert(ms, m.key, m.value)[1..] == Insert(ms[1..], m.key, m.value);
    }
  }

  lemma {:induction false} InsertAllSize(acc: seq<Member>, ms: seq<Member>)
    ensures MembersSize(InsertAll(acc, ms)) <= MembersSize(acc) + MembersSize(ms)
    ensures acc != [] || ms != [] ==> InsertAll(acc, ms) != []
    decreases |ms|
  {
    if ms == [] {
    } else {
      InsertSize(acc, ms[0]);
      InsertAllSize(Insert(acc, ms[0].key, ms[0].value), ms[1..]);
    }
  }

  lemma {:induction false} ItemsShortest(items: seq<Item>, renumber: Renumber)
    requires items != [] && AllValidItems(items) && IsExact(renumber) && ItemsMeaning(items, renumber).Some?
    ensures var vs := ItemsMeaning(items, renumber).value; vs != [] && ItemsSize(vs) <= |ItemsText(items)|
    decreases items, 0
  {
    var vs := ItemsMeaning(items, renumber).value;
    assert ValidItem(items[0]);
    PrintIsShortest(items[0].value, renumber);
    if |items| == 1 {
      assert items[1..] == [];
      assert vs[1..] == [];
    } else {
      ItemsShortest(items[1..], renumber);
      assert vs[1..] == ItemsMeaning(items[1..], renumber).value;
    }
  }

  lemma EntryShortest(e: Entry, renumber: Renumber)
    requires ValidEntry(e) && EntryMeaning(e, renumber).Some?
    requires |Print(EntryMeaning(e, renumber).value.value)| <= |TextOf(e.item.value)|
    ensures MemberSize(EntryMeaning(e, renumber).value) <= |EntryText(e)| + 1
  {
    GlyphsShortest(e.name);
  }

  lemma {:induction false} EntriesShortest(entries: seq<Entry>, renumber: Renumber)
    requires entries != [] && AllValidEntries(entries) && IsExact(renumber) && EntriesMeaning(entries, renumber).Some?
    ensures var ms := EntriesMeaning(entries, renumber).value; ms != [] && MembersSize(ms) <= |EntriesText(entries)|
    decreases entries, 0
  {
    var ms, e := EntriesMeaning(entries, renumber).value, entries[0];
    assert ValidEntry(e) && ValidItem(e.item);
    PrintIsShortest(e.item.value, renumber);
    EntryShortest(e, renumber);
    if |entries| == 1 {
      assert entries[1..] == [];
      assert ms[1..] == [];
    } else {
      EntriesShortest(entries[1..], renumber);
      assert ms[1..] == EntriesMeaning(entries[1..], renumber).value;
    }
  }

  /** No text that means a value is shorter than the one printed for it. */
  lemma {:induction false} PrintIsShortest(x: Syntax, renumber: Renumber)
    requires Valid(x) && IsExact(renumber) && Meaning(x, renumber).Some?
    ensures |Print(Meaning(x, renumber).value)| <= |TextOf(x)|
    decreases x, 1
  {
    match x
    case Word(_) =>
    case Numeral(_) =>
    case Quoted(gs) => GlyphsShortest(gs);
    case List(_, items) =>
      var vs := ItemsMeaning(items, renumber).value;
      if items != [] {
        ItemsShortest(items, renumber);
        PrintedItems(vs);
      }
    case Record(_, entries) =>
      var ms := EntriesMeaning(entries, renumber).value;
      if entries != [] {
        EntriesShortest(entries, renumber);
        InsertAllSize([], ms);
        PrintedMembers(InsertAll([], ms));
      }
  }

  /** Of all texts that are read as a tree, the one printed for it is a shortest one. */
  lemma NoShorterText(v: Value, s: bytes, renumber: Renumber)
    requires IsExact(renumber) && WellFormed(v) && Depth(v) < RECURSION_LIMIT && Parse(s, renumber) == Some(v)
    ensures Parse(Print(v), renumber) == Some(v) && |Print(v)| <= |s|
  {
    PrintedParses(v, renumber);
    KeptAsIs(v, renumber);
    ParsesExactly(s, v, renumber);
    var before, x, after :|
      && IsBlank(before) && IsBlank(after) && Valid(x) && s == before + (TextOf(x) + after)
      && Nesting(x) < 128 && Meaning(x, renumber) == Some(v);
    PrintIsShortest(x, renumber);
  }
}
