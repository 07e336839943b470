/**
 The names, prefixes and texts of the source as it spells them, position by
 position; the other modules build theirs from parts.
 */
module SpelledOut {
  import opened Wrappers
  import opened Bytes
  import opened Json
  import opened JsonPointer
  import opened JsonEdit
  import opened RequestScan
  import opened Substitution
  import Base64
  import M = DiskMeta

  // -------------------------------------------------------------- image URLs

  predicate IsUrl(s: bytes) {
    (|s| >= 7 && s[..7] == "http://") || (|s| >= 8 && s[..8] == "https://")
  }

  /** An object with an object under `inlineData` that holds this URL under `data`. */
  predicate HoldsUrl(v: Value, url: bytes) {
    && v.Object? && IsUrl(url) && Node(v, ["inlineData", "data"]) == Some(String(url))
    && match Node(v, ["inlineData"]) case Some(Object(_)) => true case _ => false
  }

  lemma ScanNames()
    ensures "inlineData" == INLINE_DATA && "data" == DATA && "mimeType" == MIME_TYPE
  {
  }

  lemma UrlPrefix(s: bytes)
    ensures IsUrl(s) <==> IsHttpUrl(s)
  {
    var plain, secure := "http://", "https://";
    assert plain <= s <==> |s| >= 7 && s[..7] == plain;
    assert secure <= s <==> |s| >= 8 && s[..8] == secure;
  }

  lemma TwoSteps(v: Value, a: bytes, b: bytes)
    ensures Node(v, [a]) == Child(v, a)
    ensures Node(v, [a, b]) == match Child(v, a) case Some(x) => Child(x, b) case None => None
  {
    NodeSteps(v, a, b, b);
  }

  /** A position names a URL exactly when the object there holds one, and its pointer ends in `/inlineData`. */
  lemma UrlSpelled(v: Value, p: Position, url: bytes)
    ensures NamesUrl(v, p, url) <==> Node(v, p).Some? && HoldsUrl(Node(v, p).value, url)
    ensures RefAt(p, url, "") == ImageRef(Pointer(p + ["inlineData"]), url)
  {
    ScanNames();
    if Node(v, p).Some? {
      var x := Node(v, p).value;
      UrlPrefix(url);
      TwoSteps(x, INLINE_DATA, DATA);
    }
  }

  // ---------------------------------------------------------- fields and images

  /** At or below one of the fields that are taken out. */
  predicate IsTakenOut(p: Position) {
    || ["output"] <= p || ["generationConfig", "imageConfig", "output"] <= p
    || ["generation_config", "image_config", "output"] <= p
  }

  lemma OutputNames()
    ensures "output" == OUTPUT
    ensures "generationConfig" == "generation" + "Config" && "imageConfig" == "image" + "Config"
    ensures "generation_config" == "generation" + "_config" && "image_config" == "image" + "_config"
  {
  }

  lemma TakenOutIs(p: Position)
    ensures IsTakenOut(p) <==> Stripped(p)
  {
    OutputNames();
    assert OUTPUT_POSITIONS[0] == ["output"];
    assert OUTPUT_POSITIONS[1] == ["generationConfig", "imageConfig", "output"];
    assert OUTPUT_POSITIONS[2] == ["generation_config", "image_config", "output"];
  }

  /** Stripping takes out the three fields and leaves the node everywhere else as it was. */
  lemma StripSpelled(v: Value, p: Position)
    requires WellFormed(v)
    ensures SameNode(Node(StripOutput(v), p), if IsTakenOut(p) then None else Node(v, p))
  {
    TakenOutIs(p);
    StripOutputNode(v, p);
  }

  /** The object `{"mimeType": .., "data": ..}` with the bytes in base64. */
  ghost predicate IsImage(v: Value, mimeType: bytes, data: bytes) {
    && v.Object? && |v.members| == 2
    && v.members[0] == Member("mimeType", String(mimeType))
    && v.members[1].key == "data" && v.members[1].value.String? && Base64.IsTextOf(v.members[1].value.s, data)
  }

  /** Where a URL has a replacement and nothing above it is replaced or taken out, the image arrives. */
  lemma ImageArrives(request: Value, images: Replacements, p: Position, url: bytes)
    requires WellFormed(request) && Node(request, p).Some? && HoldsUrl(Node(request, p).value, url)
    requires !IsTakenOut(p + ["inlineData"]) && Uncovered(p + ["inlineData"], "", images)
    requires Pointer(p + ["inlineData"]) in images
    ensures var image := images[Pointer(p + ["inlineData"])];
            match Node(Encoded(request, images), p + ["inlineData"])
            case Some(v) => IsImage(v, image.mimeType, image.data)
            case None => false
  {
    ScanNames();
    var q := p + [INLINE_DATA];
    LastStep(request, p, INLINE_DATA);
    StripSpelled(request, q);
    SubstituteNode(StripOutput(request), "", q, images);
    Base64.EncodeSpells(images[Pointer(q)].data);
  }

  // ------------------------------------------------------------- the meta file

  lemma MetaNames()
    ensures "mime_type" == M.MIME_TYPE && "expires_at_unix_ms" == M.EXPIRES_AT && "size_bytes" == M.SIZE_BYTES
  {
  }

  lemma {:induction false} PlainEscape(s: bytes)
    requires forall i | 0 <= i < |s| :: ' ' <= s[i] && s[i] != '"' && s[i] != '\\'
    ensures EscapeString(s) == s
  {
    if s == [] {
    } else {
      PlainEscape(s[1..]);
    }
  }

  /** A member as it is printed, when its name needs no escapes. */
  lemma PlainMember(name: bytes, named: bytes, v: Value, rest: bytes)
    requires forall i | 0 <= i < |name| :: ' ' <= name[i] && name[i] != '"' && name[i] != '\\'
    requires named == "\"" + name + "\":"
    ensures PrintString(name) + (":" + (Print(v) + rest)) == named + (Print(v) + rest)
  {
    PlainEscape(name);
    assert named == PrintString(name) + ":";
  }

  lemma ThreeMembers(a: Member, b: Member, c: Member)
    ensures Print(Object([a, b, c])) ==
            "{" + (PrintString(a.key) + (":" + (Print(a.value) +
            ("," + (PrintString(b.key) + (":" + (Print(b.value) +
            ("," + (PrintString(c.key) + (":" + (Print(c.value) + "}")))))))))))
  {
    assert [a, b, c][1..] == [b, c] && [b, c][1..] == [c] && [c][1..] == [];
    assert PrintMembers([], false) == "}";
    assert PrintMembers([c], false) == "," + (PrintString(c.key) + (":" + (Print(c.value) + "}")));
    assert PrintMembers([b, c], false) ==
           "," + (PrintString(b.key) + (":" + (Print(b.value) + PrintMembers([c], false))));
    assert PrintMembers([a, b, c], true) ==
           PrintString(a.key) + (":" + (Print(a.value) + PrintMembers([b, c], false)));
  }

  lemma MetaNamesQuoted()
    ensures "\"mime_type\":" == "\"" + M.MIME_TYPE + "\":"
    ensures "\"expires_at_unix_ms\":" == "\"" + M.EXPIRES_AT + "\":"
    ensures "\"size_bytes\":" == "\"" + M.SIZE_BYTES + "\":"
  {
  }

  lemma MetaNamesPlain()
    ensures forall i | 0 <= i < |M.MIME_TYPE| :: M.MIME_TYPE[i] == '_' || 'a' <= M.MIME_TYPE[i] <= 'z'
    ensures forall i | 0 <= i < |M.EXPIRES_AT| :: M.EXPIRES_AT[i] == '_' || 'a' <= M.EXPIRES_AT[i] <= 'z'
    ensures forall i | 0 <= i < |M.SIZE_BYTES| :: M.SIZE_BYTES[i] == '_' || 'a' <= M.SIZE_BYTES[i] <= 'z'
  {
  }

  /** The text of a meta file. */
  lemma MetaSpelled(m: M.DiskMeta)
    ensures M.Text(m) ==
            "{" + ("\"mime_type\":" + (PrintString(m.mimeType) +
            ("," + ("\"expires_at_unix_ms\":" + (Decimal(m.expiresAt) +
            ("," + ("\"size_bytes\":" + (Decimal(m.sizeBytes) + "}"))))))))
  {
    var a, b, c := M.Tree(m).members[0], M.Tree(m).members[1], M.Tree(m).members[2];
    ThreeMembers(a, b, c);
    MetaNamesQuoted();
    MetaNamesPlain();
    var third := "}";
    PlainMember(M.SIZE_BYTES, "\"size_bytes\":", c.value, third);
    var second := "," + (PrintString(c.key) + (":" + (Print(c.value) + third)));
    PlainMember(M.EXPIRES_AT, "\"expires_at_unix_ms\":", b.value, second);
    var first := "," + (PrintString(b.key) + (":" + (Print(b.value) + second)));
    PlainMember(M.MIME_TYPE, "\"mime_type\":", a.value, first);
  }
}
