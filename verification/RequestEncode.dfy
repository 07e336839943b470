/** `src/request_encode.rs`: streaming a request out, images replaced as they go by. */
module RequestEncode {
  import opened Wrappers
  import opened Bytes
  import opened Json
  import opened JsonRoundTrip
  import opened JsonPointer
  import opened JsonEdit
  import opened RequestScan
  import opened Substitution
  import opened ByteStreams
  import Base64
  import R = BlobRuntime

  const CHUNK_BYTES: nat := 48 * 1024
  const APPLICATION_JSON: bytes := "application/" + "json"

  datatype RequestReplacement = RequestReplacement(jsonPointer: bytes, mimeType: bytes, blob: R.Blob)

  /** The write end of the pipe and the `content_length` counter beside it. */
  class CountingWriter {
    var out: bytes
    var contentLength: nat

    constructor ()
      ensures out == [] && contentLength == 0
    {
      out, contentLength := [], 0;
    }

    ghost predicate Counts()
      reads this
    {
      contentLength == |out|
    }

    /** `write_counted`. */
    method Write(data: bytes)
      requires Counts()
      modifies this
      ensures out == old(out) + data && Counts()
    {
      out := out + data;
      contentLength := contentLength + |data|;
    }
  }

  // ------------------------------------------------------------------- base64

  /** `encode_slice`; `None` is its error, an output buffer that is too short. */
  method EncodeSlice(data: bytes, output: array<byte>) returns (written: Option<nat>)
    modifies output
    ensures written == if |Base64.Encode(data)| <= output.Length then Some(|Base64.Encode(data)|) else None
    ensures written.Some? ==> output[..written.value] == Base64.Encode(data)
  {
    var text := Base64.Encode(data);
    if |text| > output.Length {
      return None;
    }
    forall i | 0 <= i < |text| {
      output[i] := text[i];
    }
    written := Some(|text|);
  }

  /** `write_base64_bytes`; the result says whether the output buffer sufficed. */
  method WriteBase64Bytes(w: CountingWriter, data: bytes) returns (ok: bool)
    requires w.Counts()
    modifies w
    ensures ok && w.Counts() && w.out == old(w.out) + Base64.Encode(data)
  {
    if data == [] {
      assert w.out == old(w.out) + [];
      return true;
    }
    var out := new byte[(|data| + 2) / 3 * 4];
    Base64.EncodedText(data);
    var written := EncodeSlice(data, out);
    if written.None? {
      return false;
    }
    w.Write(out[..written.value]);
    ok := true;
  }

  lemma MultipleOfThree(groups: nat, n: nat)
    requires n == groups * 3
    ensures n % 3 == 0
  {
  }

  /** Bytes whose number is a multiple of three can be encoded before the rest is known. */
  lemma EncodeAhead(written: bytes, groups: nat, head: bytes, tail: bytes, left: bytes, target: bytes)
    requires |head| == groups * 3 && left == head + tail && written + Base64.Encode(left) == target
    ensures written + Base64.Encode(head) + Base64.Encode(tail) == target
  {
    MultipleOfThree(groups, |head|);
    Base64.EncodeAppend(head, tail);
    Assoc(written, Base64.Encode(head), Base64.Encode(tail));
  }

  /** One read into `input` behind the carried bytes. */
  method ReadInto(reader: ByteReader, input: array<byte>, carry: nat) returns (read: nat)
    requires carry + CHUNK_BYTES <= input.Length
    modifies reader, input
    ensures read <= CHUNK_BYTES && input[..carry] == old(input[..carry])
    ensures input[..carry + read] + reader.remaining == old(input[..carry] + reader.remaining)
    ensures read == 0 <==> old(reader.remaining) == []
    ensures |reader.remaining| + read == |old(reader.remaining)|
  {
    var piece := reader.Read(CHUNK_BYTES);
    read := |piece|;
    forall i | 0 <= i < read {
      input[carry + i] := piece[i];
    }
    assert input[..carry + read] == old(input[..carry]) + piece;
    Assoc(old(input[..carry]), piece, reader.remaining);
  }

  /** `copy_within`: the unencoded tail moves to the front. */
  method MoveTail(input: array<byte>, from: nat, to: nat)
    requires from <= to <= input.Length
    modifies input
    ensures input[..to - from] == old(input[from..to])
  {
    forall i | 0 <= i < to - from {
      input[i] := input[from + i];
    }
  }

  /** Write the encoding of the first `groups` groups of three bytes. */
  method EncodeGroups(w: CountingWriter, input: array<byte>, groups: nat, output: array<byte>) returns (ok: bool)
    requires w.Counts() && groups * 3 <= input.Length && input != output
    requires groups * 4 <= output.Length
    modifies w, output
    ensures ok && w.Counts() && w.out == old(w.out) + Base64.Encode(input[..groups * 3])
  {
    Base64.EncodedText(input[..groups * 3]);
    var written := EncodeSlice(input[..groups * 3], output);
    if written.None? {
      return false;
    }
    w.Write(output[..written.value]);
    ok := true;
  }

  /** One round of the loop after its read: `total` bytes are in `input`, and `rest` is still to be read. */
  method EncodeRound(w: CountingWriter, input: array<byte>, total: nat, output: array<byte>,
                     ghost rest: bytes, ghost target: bytes)
    returns (ok: bool, carry: nat)
    requires w.Counts() && total <= input.Length && input != output
    requires total / 3 * 4 <= output.Length
    requires w.out + Base64.Encode(input[..total] + rest) == target
    modifies w, input, output
    ensures ok && w.Counts() && carry <= 2 && carry <= total
    ensures w.out + Base64.Encode(input[..carry] + rest) == target
  {
    var groups := total / 3;
    var complete := groups * 3;
    if complete == 0 {
      return true, total;
    }
    ghost var written, chunk := w.out, input[..total];
    assert input[..complete] == chunk[..complete];
    SplitChunk(chunk, complete, rest);
    ok := EncodeGroups(w, input, groups, output);
    if !ok {
      return;
    }
    carry := total - complete;
    if carry > 0 {
      MoveTail(input, complete, total);
    }
    assert input[..carry] == chunk[complete..];
    EncodeAhead(written, groups, chunk[..complete], chunk[complete..] + rest, chunk + rest, target);
  }

  lemma SplitChunk(chunk: bytes, complete: nat, rest: bytes)
    requires complete <= |chunk|
    ensures chunk + rest == chunk[..complete] + (chunk[complete..] + rest)
  {
  }

  /**
   The loop of `write_blob_as_base64`: whatever the sizes of the reads, the
   text written is the one-shot encoding, no output buffer is too short and at
   most two bytes are carried.
   */
  method WriteReaderAsBase64(w: CountingWriter, reader: ByteReader) returns (ok: bool)
    requires w.Counts()
    modifies w, reader
    ensures ok && w.Counts() && w.out == old(w.out) + Base64.Encode(old(reader.remaining))
  {
    ghost var content, target := reader.remaining, w.out + Base64.Encode(reader.remaining);
    var input := new byte[CHUNK_BYTES + 2];
    var output := new byte[(CHUNK_BYTES + 2 + 2) / 3 * 4];
    var carry: nat := 0;
    assert input[..carry] + reader.remaining == content;
    while true
      invariant carry <= 2 && w.Counts()
      invariant w.out + Base64.Encode(input[..carry] + reader.remaining) == target
      decreases |reader.remaining|
    {
      var read := ReadInto(reader, input, carry);
      if read == 0 {
        break;
      }
      ok, carry := EncodeRound(w, input, carry + read, output, reader.remaining, target);
      if !ok {
        return;
      }
    }
    assert input[..carry] + reader.remaining == input[..carry];
    if carry > 0 {
      ok := WriteBase64Bytes(w, input[..carry]);
    } else {
      ok := true;
    }
  }

  /** `write_blob_as_base64`: inline, shared and spilled blobs encode alike. */
  method WriteBlobAsBase64(w: CountingWriter, runtime: R.BlobRuntime, blob: R.Blob) returns (ok: bool)
    requires w.Counts() && runtime.Valid() && blob in runtime.live
    modifies w
    ensures ok && w.Counts() && w.out == old(w.out) + Base64.Encode(runtime.Content(blob))
  {
    if blob.storage.Inline? {
      ok := WriteBase64Bytes(w, blob.storage.content);
      return;
    }
    var reader := runtime.OpenReader(blob);
    ok := WriteReaderAsBase64(w, reader);
  }

  // -------------------------------------------------------------------- JSON

  function ImageHead(mimeType: bytes): bytes {
    "{" + (PrintString(MIME_TYPE) + (":" + (PrintString(mimeType) + ("," + (PrintString(DATA) + ":\"")))))
  }

  lemma PrintedPair(a: Member, b: Member)
    ensures Print(Object([a, b])) ==
            "{" + (PrintString(a.key) + (":" + (Print(a.value) +
              ("," + (PrintString(b.key) + (":" + (Print(b.value) + "}")))))))
  {
    var ms, last, none: seq<Member> := [a, b], [b], [];
    assert ms[1..] == last && last[1..] == none;
    assert PrintMembers(none, false) == "}";
    assert PrintMembers(last, false) == "," + (PrintString(b.key) + (":" + (Print(b.value) + "}")));
  }

  /** An inline image prints as a head, the base64 text unescaped, and a tail. */
  lemma PrintedImage(mimeType: bytes, data: bytes)
    ensures Print(InlineImage(Image(mimeType, data))) == ImageHead(mimeType) + Base64.Encode(data) + "\"}"
  {
    var text := Base64.Encode(data);
    Base64.EncodedText(data);
    Base64.TextIsPlain(Base64.Encode(data));
    PlainTextUnescaped(text);
    ImageText(PrintString(MIME_TYPE), PrintString(mimeType), PrintString(DATA), text);
    PrintedPair(Member(MIME_TYPE, String(mimeType)), Member(DATA, String(text)));
  }

  lemma ImageText(k: bytes, m: bytes, d: bytes, text: bytes)
    ensures "{" + (k + (":" + (m + ("," + (d + (":" + (("\"" + text + "\"") + "}"))))))) ==
            "{" + (k + (":" + (m + ("," + (d + ":\""))))) + text + "\"}"
  {
    var a: bytes := ":\"" + text + "\"}";
    assert ":" + (("\"" + text + "\"") + "}") == a;
    assert d + a == (d + ":\"") + (text + "\"}");
    Assoc(",", d + ":\"", text + "\"}");
    Assoc(m, "," + (d + ":\""), text + "\"}");
    Assoc(":", m + ("," + (d + ":\"")), text + "\"}");
    Assoc(k, ":" + (m + ("," + (d + ":\""))), text + "\"}");
    Assoc("{", k + (":" + (m + ("," + (d + ":\"")))), text + "\"}");
    Assoc("{" + (k + (":" + (m + ("," + (d + ":\""))))), text, "\"}");
  }

  /** `write_replacement`. */
  method WriteReplacement(w: CountingWriter, r: RequestReplacement, runtime: R.BlobRuntime) returns (ok: bool)
    requires w.Counts() && runtime.Valid() && r.blob in runtime.live
    modifies w
    ensures ok && w.Counts()
    ensures w.out == old(w.out) + Print(InlineImage(Image(r.mimeType, runtime.Content(r.blob))))
  {
    ghost var start, text := w.out, Base64.Encode(runtime.Content(r.blob));
    WriteImageHead(w, r.mimeType);
    ok := WriteBlobAsBase64(w, runtime, r.blob);
    if !ok {
      return;
    }
    w.Write("\"}");
    PrintedImage(r.mimeType, runtime.Content(r.blob));
    Assoc(start, ImageHead(r.mimeType), text);
    Assoc(start, ImageHead(r.mimeType) + text, "\"}");
  }

  method WriteImageHead(w: CountingWriter, mimeType: bytes)
    requires w.Counts()
    modifies w
    ensures w.Counts() && w.out == old(w.out) + ImageHead(mimeType)
  {
    ghost var start, k, m, d := w.out, PrintString(MIME_TYPE), PrintString(mimeType), PrintString(DATA);
    w.Write("{");
    w.Write(PrintString(MIME_TYPE));
    w.Write(":");
    w.Write(PrintString(mimeType));
    w.Write(",");
    w.Write(PrintString(DATA));
    w.Write(":\"");
    Regroup(start, k, m, d);
  }

  lemma Regroup(start: bytes, k: bytes, m: bytes, d: bytes)
    ensures start + "{" + k + ":" + m + "," + d + ":\"" == start + ("{" + (k + (":" + (m + ("," + (d + ":\""))))))
  {
    Assoc(start + "{" + k + ":" + m + ",", d, ":\"");
    Assoc(start + "{" + k + ":" + m, ",", d + ":\"");
    Assoc(start + "{" + k + ":", m, "," + (d + ":\""));
    Assoc(start + "{" + k, ":", m + ("," + (d + ":\"")));
    Assoc(start + "{", k, ":" + (m + ("," + (d + ":\""))));
    Assoc(start, "{", k + (":" + (m + ("," + (d + ":\"")))));
  }

  // ------------------------------------------------------------ replacements

  type Index = map<bytes, RequestReplacement>

  /** The `HashMap` collected from the list: of two replacements for a pointer the later wins. */
  function ByPointer(rs: seq<RequestReplacement>): Index
    decreases |rs|
  {
    if rs == [] then map[]
    else
      var last := rs[|rs| - 1];
      ByPointer(rs[..|rs| - 1])[last.jsonPointer := last]
  }

  ghost predicate AllHeld(index: Index, runtime: R.BlobRuntime)
    reads runtime, runtime.blobs
  {
    runtime.Valid() && forall x | x in index :: index[x].blob in runtime.live
  }

  /** What the replacements stand for. */
  ghost function Images(index: Index, runtime: R.BlobRuntime): Replacements
    reads runtime, runtime.blobs
    requires AllHeld(index, runtime)
  {
    map x | x in index :: Image(index[x].mimeType, runtime.Content(index[x].blob))
  }

  // ---------------------------------------------------------------- streaming

  /** `images` is what the indexed replacements stand for. */
  ghost predicate Resolves(index: Index, runtime: R.BlobRuntime, images: Replacements)
    reads runtime, runtime.blobs
  {
    AllHeld(index, runtime) && images == Images(index, runtime)
  }

  /** `write_json_value`: streaming prints the substituted tree without building it. */
  method WriteJsonValue(w: CountingWriter, path: bytes, value: Value, index: Index, runtime: R.BlobRuntime,
                        ghost images: Replacements)
    returns (ok: bool)
    requires w.Counts() && Resolves(index, runtime, images)
    modifies w
    ensures ok && w.Counts() && w.out == old(w.out) + Print(Substitute(value, path, images))
    decreases value, 1
  {
    if path in index {
      ok := WriteReplacement(w, index[path], runtime);
      return;
    }
    match value
    case Object(ms) => ok := WriteObject(w, path, ms, index, runtime, images);
    case Array(items) => ok := WriteArray(w, path, items, index, runtime, images);
    case _ =>
      w.Write(Print(value));
      ok := true;
  }

  method WriteObject(w: CountingWriter, path: bytes, ms: seq<Member>, index: Index, runtime: R.BlobRuntime,
                     ghost images: Replacements)
    returns (ok: bool)
    requires w.Counts() && Resolves(index, runtime, images)
    modifies w
    ensures ok && w.Counts() && w.out == old(w.out) + ("{" + PrintMembers(SubstituteMembers(ms, path, images), true))
    decreases ms, 0
  {
    ObjectText(w.out, ms, path, images);
    ghost var target := MembersLeft(w.out + "{", ms, 0, path, images);
    w.Write("{");
    for i := 0 to |ms|
      invariant w.Counts() && Resolves(index, runtime, images)
      invariant MembersLeft(w.out, ms, i, path, images) == target
    {
      MembersStep(w.out, ms, i, path, images);
      ok := WriteMember(w, path, ms[i], i == 0, index, runtime, images);
      if !ok {
        return;
      }
    }
    ObjectText(w.out, ms, path, images);
    w.Write("}");
    ok := true;
  }

  method WriteMember(w: CountingWriter, path: bytes, m: Member, first: bool, index: Index, runtime: R.BlobRuntime,
                     ghost images: Replacements)
    returns (ok: bool)
    requires w.Counts() && Resolves(index, runtime, images)
    modifies w
    ensures ok && w.Counts()
    ensures w.out == (if first then old(w.out) else old(w.out) + ",") + PrintString(m.key) + ":"
                     + Print(Substitute(m.value, Extend(path, m.key), images))
    decreases m, 2
  {
    if !first {
      w.Write(",");
    }
    w.Write(PrintString(m.key));
    w.Write(":");
    ok := WriteJsonValue(w, Extend(path, m.key), m.value, index, runtime, images);
  }

  method WriteArray(w: CountingWriter, path: bytes, items: seq<Value>, index: Index, runtime: R.BlobRuntime,
                    ghost images: Replacements)
    returns (ok: bool)
    requires w.Counts() && Resolves(index, runtime, images)
    modifies w
    ensures ok && w.Counts() && w.out == old(w.out) + ("[" + PrintItems(SubstituteItems(items, 0, path, images), true))
    decreases items, 0
  {
    ArrayText(w.out, items, path, images);
    ghost var target := ItemsLeft(w.out + "[", items, 0, path, images);
    w.Write("[");
    for i := 0 to |items|
      invariant w.Counts() && Resolves(index, runtime, images)
      invariant ItemsLeft(w.out, items, i, path, images) == target
    {
      ItemsStep(w.out, items, i, path, images);
      ok := WriteItem(w, path, items[i], i, index, runtime, images);
      if !ok {
        return;
      }
    }
    ArrayText(w.out, items, path, images);
    w.Write("]");
    ok := true;
  }

  method WriteItem(w: CountingWriter, path: bytes, item: Value, i: nat, index: Index, runtime: R.BlobRuntime,
                   ghost images: Replacements)
    returns (ok: bool)
    requires w.Counts() && Resolves(index, runtime, images)
    modifies w
    ensures ok && w.Counts()
    ensures w.out == (if i == 0 then old(w.out) else old(w.out) + ",")
            + Print(Substitute(item, path + ("/" + Decimal(i)), images))
    decreases item, 2
  {
    if i > 0 {
      w.Write(",");
    }
    ok := WriteJsonValue(w, path + ("/" + Decimal(i)), item, index, runtime, images);
  }

  /** What will have been written once the members from `i` on are, if `out` has been so far. */
  ghost function MembersLeft(out: bytes, ms: seq<Member>, i: nat, path: bytes, images: Replacements): bytes
    requires i <= |ms|
  {
    out + PrintMembers(SubstituteMembers(ms[i..], path, images), i == 0)
  }

  lemma ObjectText(out: bytes, ms: seq<Member>, path: bytes, images: Replacements)
    ensures MembersLeft(out + "{", ms, 0, path, images)
            == out + ("{" + PrintMembers(SubstituteMembers(ms, path, images), true))
    ensures MembersLeft(out, ms, |ms|, path, images) == out + "}"
  {
    assert ms[0..] == ms && ms[|ms|..] == [];
    Assoc(out, "{", PrintMembers(SubstituteMembers(ms, path, images), true));
  }

  lemma MembersStep(out: bytes, ms: seq<Member>, i: nat, path: bytes, images: Replacements)
    requires i < |ms|
    ensures var written := (if i == 0 then out else out + ",") + PrintString(ms[i].key) + ":"
                           + Print(Substitute(ms[i].value, Extend(path, ms[i].key), images));
            MembersLeft(written, ms, i + 1, path, images) == MembersLeft(out, ms, i, path, images)
  {
    var m := Member(ms[i].key, Substitute(ms[i].value, Extend(path, ms[i].key), images));
    assert ms[i..][1..] == ms[i + 1..];
    MemberWritten(out, m, SubstituteMembers(ms[i + 1..], path, images), i == 0);
  }

  ghost function ItemsLeft(out: bytes, items: seq<Value>, i: nat, path: bytes, images: Replacements): bytes
    requires i <= |items|
  {
    out + PrintItems(SubstituteItems(items[i..], i, path, images), i == 0)
  }

  lemma ArrayText(out: bytes, items: seq<Value>, path: bytes, images: Replacements)
    ensures ItemsLeft(out + "[", items, 0, path, images)
            == out + ("[" + PrintItems(SubstituteItems(items, 0, path, images), true))
    ensures ItemsLeft(out, items, |items|, path, images) == out + "]"
  {
    assert items[0..] == items && items[|items|..] == [];
    Assoc(out, "[", PrintItems(SubstituteItems(items, 0, path, images), true));
  }

  lemma ItemsStep(out: bytes, items: seq<Value>, i: nat, path: bytes, images: Replacements)
    requires i < |items|
    ensures var text := Print(Substitute(items[i], path + ("/" + Decimal(i)), images));
            ItemsLeft((if i == 0 then out else out + ",") + text, items, i + 1, path, images)
              == ItemsLeft(out, items, i, path, images)
  {
    var v := Substitute(items[i], path + ("/" + Decimal(i)), images);
    assert items[i..][1..] == items[i + 1..];
    ItemWritten(out, v, SubstituteItems(items[i + 1..], i + 1, path, images), i == 0);
  }

  lemma MemberWritten(before: bytes, m: Member, rest: seq<Member>, first: bool)
    ensures (if first then before else before + ",") + PrintString(m.key) + ":" + Print(m.value)
            + PrintMembers(rest, false)
            == before + PrintMembers([m] + rest, first)
  {
    var start := if first then before else before + ",";
    var k, v, tail := PrintString(m.key), Print(m.value), PrintMembers(rest, false);
    assert ([m] + rest)[1..] == rest;
    Assoc(start + k + ":", v, tail);
    Assoc(start + k, ":", v + tail);
    Assoc(start, k, ":" + (v + tail));
    Assoc(before, ",", k + (":" + (v + tail)));
  }

  lemma ItemWritten(before: bytes, v: Value, rest: seq<Value>, first: bool)
    ensures (if first then before else before + ",") + Print(v) + PrintItems(rest, false)
            == before + PrintItems([v] + rest, first)
  {
    var start := if first then before else before + ",";
    assert ([v] + rest)[1..] == rest;
    Assoc(start, Print(v), PrintItems(rest, false));
    Assoc(before, ",", Print(v) + PrintItems(rest, false));
  }

  /**
   `encode_request_body`: the body blob holds the compact print of the
   substituted tree, and `contentLength` is the number of bytes written and
   the size of the blob.
   */
  method EncodeRequestBody(request: Value, replacements: seq<RequestReplacement>, runtime: R.BlobRuntime)
    returns (bodyBlob: R.Blob, contentLength: nat)
    requires AllHeld(ByPointer(replacements), runtime)
    modifies runtime
    ensures fresh(bodyBlob) && runtime.blobs == old(runtime.blobs) + {bodyBlob}
    ensures runtime.live == old(runtime.live) + {bodyBlob} && bodyBlob.id == old(runtime.nextId)
    ensures var text := Print(Encoded(request, old(Images(ByPointer(replacements), runtime))));
            && runtime.Stores(bodyBlob, APPLICATION_JSON, text)
            && contentLength == |text| == bodyBlob.sizeBytes
            && runtime.Now() == R.AfterStore(runtime.cfg, old(runtime.Now()), text)
            && bodyBlob.storage == R.StorageFor(runtime.cfg, old(runtime.Now()), text)
    ensures R.Kept(old(runtime.Now()), runtime.Now())
  {
    var stripped := StripOutput(request);
    var index := ByPointer(replacements);
    var writer := new CountingWriter();
    var written := WriteJsonValue(writer, "", stripped, index, runtime, Images(index, runtime));
    assert written;
    assert [] + writer.out == writer.out;
    contentLength := writer.contentLength;
    var reader := new ByteReader(writer.out);
    bodyBlob := runtime.StoreStream(reader, APPLICATION_JSON);
  }
}
