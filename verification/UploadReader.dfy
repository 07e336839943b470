/** The base64 upload body of `src/upload.rs`: its length, its hash and its lazy decoder. */
module UploadReader {
  import opened Wrappers
  import opened Bytes
  import Base64

  const BASE64_STREAM_INPUT_CHARS: nat := 32 * 1024

  datatype Error = InvalidLength | InvalidData

  // ------------------------------------------------------------- pure helpers

  /** `decoded_base64_len`. */
  function DecodedBase64Len(text: bytes): Result<nat, Error> {
    if text == [] then Ok(0)
    else if |text| % 4 != 0 then Err(InvalidLength)
    else
      var padding := if EndsWith(text, "==") then 2 else if EndsWith(text, "=") then 1 else 0;
      Ok(|text| / 4 * 3 - padding)
  }

  /** `next_base64_chunk_end`. */
  function NextChunkEnd(total: nat, offset: nat): (end: nat)
    requires offset < total
    ensures offset < end <= total
  {
    if total - offset <= BASE64_STREAM_INPUT_CHARS then total else offset + BASE64_STREAM_INPUT_CHARS
  }

  /** `decode_base64_chunk`; its output buffer of `len / 4 * 3` bytes is never too short. */
  function DecodeChunk(chunk: bytes): (r: Result<bytes, Error>)
    requires chunk != []
    ensures r.Ok? ==> r.value != [] && |r.value| <= |chunk| / 4 * 3
    ensures r.Err? ==> r == Err(InvalidData)
  {
    match Base64.Decode(chunk)
    case Some(b) => Base64.DecodedLength(chunk); Ok(b)
    case None => Err(InvalidData)
  }

  /** What decoding chunk after chunk comes to; `None` if some chunk is invalid. */
  function ChunkedDecode(text: bytes): Option<bytes>
    decreases |text|
  {
    if text == [] then Some([])
    else
      var end := NextChunkEnd(|text|, 0);
      var head :- Base64.Decode(text[..end]);
      var rest :- ChunkedDecode(text[end..]);
      Some(head + rest)
  }

  lemma ChunkedStep(text: bytes, offset: nat)
    requires offset < |text|
    ensures var end := NextChunkEnd(|text|, offset);
            ChunkedDecode(text[offset..]) ==
            match (Base64.Decode(text[offset..end]), ChunkedDecode(text[end..]))
            case (Some(head), Some(rest)) => Some(head + rest)
            case _ => None
  {
    var left, end := text[offset..], NextChunkEnd(|text|, offset);
    assert left[..end - offset] == text[offset..end] && left[end - offset..] == text[end..];
  }

  // ----------------------------------------------------------------- the hash

  /** `sha256_hex_base64`: `digest` stands for the hash of all bytes fed to the hasher, in order. */
  method Sha256HexBase64(text: bytes, digest: bytes -> bytes) returns (r: Result<bytes, Error>)
    ensures r == match ChunkedDecode(text)
                 case Some(content) => Ok(digest(content))
                 case None => Err(InvalidData)
  {
    var fed: bytes, offset := [], 0;
    assert text[0..] == text;
    assert ChunkedDecode(text).Some? ==> [] + ChunkedDecode(text).value == ChunkedDecode(text).value;
    while offset < |text|
      invariant offset <= |text|
      invariant match ChunkedDecode(text[offset..])
                case Some(rest) => ChunkedDecode(text) == Some(fed + rest)
                case None => ChunkedDecode(text) == None
    {
      var end := NextChunkEnd(|text|, offset);
      ChunkedStep(text, offset);
      var decoded := DecodeChunk(text[offset..end]);
      if decoded.Err? {
        return Err(decoded.error);
      }
      if ChunkedDecode(text[end..]).Some? {
        Assoc(fed, decoded.value, ChunkedDecode(text[end..]).value);
      }
      fed := fed + decoded.value;
      offset := end;
    }
    assert text[offset..] == [] && fed + [] == fed;
    r := Ok(digest(fed));
  }

  // --------------------------------------------------------------- the reader

  lemma TakePending(buf: bytes, pending: bytes, at: nat, n: nat, rest: bytes)
    requires at + n <= |pending|
    ensures buf + (pending[at..] + rest) == buf + pending[at..at + n] + (pending[at + n..] + rest)
  {
    assert pending[at..] == pending[at..at + n] + pending[at + n..];
    Assoc(pending[at..at + n], pending[at + n..], rest);
    Assoc(buf, pending[at..at + n], pending[at + n..] + rest);
  }

  class Base64DecodedReader {
    const dataBase64: bytes
    var offset: nat
    var pending: bytes
    var pendingOffset: nat

    constructor (dataBase64: bytes)
      ensures Valid() && this.dataBase64 == dataBase64 && Left() == ChunkedDecode(dataBase64)
    {
      this.dataBase64 := dataBase64;
      offset, pending, pendingOffset := 0, [], 0;
      new;
      assert dataBase64[0..] == dataBase64;
      PrependNothing();
    }

    lemma PrependNothing()
      requires Valid() && pendingOffset == |pending|
      ensures Left() == ChunkedDecode(dataBase64[offset..])
    {
      assert pending[pendingOffset..] == [];
      if ChunkedDecode(dataBase64[offset..]).Some? {
        assert [] + ChunkedDecode(dataBase64[offset..]).value == ChunkedDecode(dataBase64[offset..]).value;
      }
    }

    predicate Valid()
      reads this
    {
      offset <= |dataBase64| && pendingOffset <= |pending|
    }

    /** The bytes still to come; `None` if an invalid chunk lies ahead. */
    function Left(): Option<bytes>
      reads this
      requires Valid()
    {
      match ChunkedDecode(dataBase64[offset..])
      case Some(rest) => Some(pending[pendingOffset..] + rest)
      case None => None
    }

    /** No more bytes than this can still come. */
    function Budget(): nat
      reads this
      requires Valid()
    {
      |pending| - pendingOffset + |dataBase64| - offset
    }

    /** Put as much of the pending bytes as there is room for into `buf`. */
    method CopyPending(buf: bytes, capacity: nat) returns (buf': bytes)
      requires Valid() && pendingOffset < |pending| && |buf| < capacity
      modifies this`pending, this`pendingOffset
      ensures Valid() && |buf| < |buf'| <= capacity && Budget() + |buf'| == old(Budget()) + |buf|
      ensures pendingOffset < |pending| ==> |buf'| == capacity
      ensures match old(Left())
              case Some(left) => Left().Some? && buf' + Left().value == buf + left
              case None => Left().None?
    {
      var available := |pending| - pendingOffset;
      var toCopy := if available <= capacity - |buf| then available else capacity - |buf|;
      if ChunkedDecode(dataBase64[offset..]).Some? {
        TakePending(buf, pending, pendingOffset, toCopy, ChunkedDecode(dataBase64[offset..]).value);
      }
      buf' := buf + pending[pendingOffset..pendingOffset + toCopy];
      pendingOffset := pendingOffset + toCopy;
      if pendingOffset < |pending| {
        return;
      }
      assert pending[pendingOffset..] == [];
      pending, pendingOffset := [], 0;
    }

    /** Decode the next chunk; false is a decoding error. */
    method Refill() returns (ok: bool)
      requires Valid() && pendingOffset == |pending| && offset < |dataBase64|
      modifies this
      ensures Valid() && (ok ==> offset > old(offset) && Left() == old(Left()) && Budget() <= old(Budget()))
      ensures !ok ==> old(Left()).None?
    {
      PrependNothing();
      var end := NextChunkEnd(|dataBase64|, offset);
      ChunkedStep(dataBase64, offset);
      var decoded := DecodeChunk(dataBase64[offset..end]);
      if decoded.Err? {
        return false;
      }
      pending, pendingOffset, offset := decoded.value, 0, end;
      ok := true;
    }

    /**
     `poll_read` with room for `capacity` bytes. While valid data lies ahead
     the buffer is filled up to the end of the data; an invalid chunk ahead is
     reported or not yet reached, but never shows as end of stream.
     */
    method PollRead(capacity: nat) returns (r: Result<bytes, Error>)
      requires Valid()
      modifies this
      ensures Valid()
      ensures old(Left()).Some? ==>
                && r.Ok? && Left().Some? && r.value + Left().value == old(Left()).value
                && |r.value| <= capacity && (|r.value| < capacity ==> Left().value == [])
      ensures old(Left()).None? ==> r == Err(InvalidData) || (r.Ok? && Left().None? && |r.value| == capacity)
      ensures r.Ok? ==> Budget() + |r.value| <= old(Budget())
    {
      ghost var whole := Left();
      var buf: bytes := [];
      assert whole.Some? ==> [] + whole.value == whole.value;
      while |buf| < capacity
        invariant Valid() && |buf| <= capacity && Budget() + |buf| <= old(Budget())
        invariant match Left()
                  case Some(left) => whole == Some(buf + left)
                  case None => whole == None
        decreases |dataBase64| - offset, |pending| - pendingOffset
      {
        if pendingOffset < |pending| {
          buf := CopyPending(buf, capacity);
          if pendingOffset < |pending| {
            return Ok(buf);
          }
          continue;
        }
        if offset >= |dataBase64| {
          PrependNothing();
          return Ok(buf);
        }
        var ok := Refill();
        if !ok {
          return Err(InvalidData);
        }
      }
      r := Ok(buf);
    }
  }

  /**
   Reading to the end with buffers of any sizes terminates: a text that decodes
   chunk by chunk is emitted whole, end of stream coming only after its last
   byte, and any other text ends in an error.
   */
  method Drain(reader: Base64DecodedReader) returns (r: Result<bytes, Error>)
    requires reader.Valid()
    modifies reader
    ensures r == match old(reader.Left())
                 case Some(content) => Ok(content)
                 case None => Err(InvalidData)
  {
    ghost var whole := reader.Left();
    var content: bytes := [];
    assert whole.Some? ==> [] + whole.value == whole.value;
    while true
      invariant reader.Valid()
      invariant match reader.Left()
                case Some(left) => whole == Some(content + left)
                case None => whole == None
      decreases reader.Budget()
    {
      ghost var left := reader.Left();
      var capacity: nat :| capacity > 0;
      var piece := reader.PollRead(capacity);
      if piece.Err? {
        return piece;
      }
      if piece.value == [] {
        assert content + [] == content;
        return Ok(content);
      }
      if left.Some? {
        Assoc(content, piece.value, reader.Left().value);
      }
      content := content + piece.value;
    }
  }

  // ------------------------------------------- agreement with the one-shot decoder

  /** Some chunk before the last ends in padding. */
  predicate InteriorPadding(text: bytes)
    decreases |text|
  {
    |text| > BASE64_STREAM_INPUT_CHARS
    && (text[BASE64_STREAM_INPUT_CHARS - 1] == '=' || InteriorPadding(text[BASE64_STREAM_INPUT_CHARS..]))
  }

  /** The chunked decoder accepts exactly what the one-shot decoder does, and texts with padding inside. */
  lemma {:induction false} ChunkedAgrees(text: bytes)
    ensures Base64.Decode(text).Some? <==> ChunkedDecode(text).Some? && !InteriorPadding(text)
    ensures Base64.Decode(text).Some? ==> ChunkedDecode(text) == Base64.Decode(text)
    decreases |text|
  {
    if text == [] {
    } else {
      var end := NextChunkEnd(|text|, 0);
      var head, rest := text[..end], text[end..];
      assert text == head + rest;
      ChunkedAgrees(rest);
      if rest == [] {
        assert head == text;
        if Base64.Decode(text).Some? {
          assert Base64.Decode(text).value + [] == Base64.Decode(text).value;
        }
      } else {
        Base64.DecodeAppend(head, rest);
      }
    }
  }

  lemma AdvertisedLength(text: bytes)
    requires |text| % 4 == 0
    ensures DecodedBase64Len(text) == Ok(|text| / 4 * 3 - Base64.Padding(text))
  {
    if text != [] {
      assert EndsWith(text, "=") <==> text[|text| - 1] == '=';
      assert EndsWith(text, "==") <==> text[|text| - 2] == '=' && text[|text| - 1] == '=';
    }
  }

  lemma LengthOfJoin(head: bytes, rest: bytes, text: bytes, a: nat, b: nat)
    requires text == head + rest && |head| % 4 == 0 && |rest| % 4 == 0 && |rest| >= 4
    requires a == |head| / 4 * 3 - Base64.Padding(head) && b <= |rest| / 4 * 3 - Base64.Padding(rest)
    ensures |text| % 4 == 0
    ensures var advertised := |text| / 4 * 3 - Base64.Padding(text);
            a + b <= advertised
            && (a + b == advertised <==> Base64.Padding(head) == 0 && b == |rest| / 4 * 3 - Base64.Padding(rest))
  {
    assert Base64.Padding(text) == Base64.Padding(rest);
  }

  /** The advertised length is that of the decoded bytes exactly when no padding sits inside. */
  lemma {:induction false} LengthAgrees(text: bytes)
    requires ChunkedDecode(text).Some?
    ensures |text| % 4 == 0
    ensures var sent := |ChunkedDecode(text).value|; var advertised := |text| / 4 * 3 - Base64.Padding(text);
            sent <= advertised && (sent == advertised <==> !InteriorPadding(text))
    decreases |text|
  {
    if text == [] {
    } else {
      var end := NextChunkEnd(|text|, 0);
      var head, rest := text[..end], text[end..];
      assert text == head + rest;
      Base64.DecodedLength(head);
      if rest == [] {
        assert head == text;
      } else {
        LengthAgrees(rest);
        LengthOfJoin(head, rest, text, |Base64.Decode(head).value|, |ChunkedDecode(rest).value|);
      }
    }
  }

  /**
   For every text whose chunks decode, the content length that is advertised
   is the number of bytes the reader emits, and the one-shot decoder accepts
   the text, exactly when no chunk before the last ends in padding.
   */
  lemma UploadAgrees(text: bytes)
    requires ChunkedDecode(text).Some?
    ensures DecodedBase64Len(text) == Ok(|ChunkedDecode(text).value|) <==> !InteriorPadding(text)
    ensures Base64.Decode(text).Some? <==> !InteriorPadding(text)
    ensures !InteriorPadding(text) ==> Base64.Decode(text) == ChunkedDecode(text)
  {
    LengthAgrees(text);
    AdvertisedLength(text);
    ChunkedAgrees(text);
  }

  /** Length, hash and reader agree on every text that the one-shot decoder accepts. */
  lemma AcceptedTextAgrees(text: bytes)
    requires Base64.Decode(text).Some?
    ensures ChunkedDecode(text) == Base64.Decode(text)
    ensures DecodedBase64Len(text) == Ok(|Base64.Decode(text).value|)
  {
    ChunkedAgrees(text);
    UploadAgrees(text);
  }

  /** The upload reader undoes the encoder of `request_encode`. */
  lemma UploadUndoesEncode(content: bytes)
    ensures ChunkedDecode(Base64.Encode(content)) == Some(content)
    ensures DecodedBase64Len(Base64.Encode(content)) == Ok(|content|)
  {
    Base64.DecodeEncode(content);
    AcceptedTextAgrees(Base64.Encode(content));
  }

  // --------------------------------------------------- padding inside, concretely

  lemma {:induction false} EncodedPadding(content: bytes)
    requires |content| % 3 == 1
    ensures var text := Base64.Encode(content); text != [] && text[|text| - 1] == '='
    decreases |content|
  {
    if |content| == 1 {
    } else {
      EncodedPadding(content[3..]);
    }
  }

  const FOUR_MORE: bytes := "AA" + "AA"

  /**
   24574 bytes encode as one full chunk that ends in padding. With four more
   characters behind it the reader and the hash accept the text, the one-shot
   decoder does not, and the advertised length is larger than what is sent.
   */
  lemma PaddingInsideIsAccepted(content: bytes)
    requires |content| == 24574
    ensures var text := Base64.Encode(content) + FOUR_MORE;
            && ChunkedDecode(text).Some? && Base64.Decode(text).None?
            && DecodedBase64Len(text).Ok? && DecodedBase64Len(text).value > |ChunkedDecode(text).value|
  {
    var head, rest := Base64.Encode(content), FOUR_MORE;
    var text := head + rest;
    Base64.EncodedText(content);
    Base64.DecodeEncode(content);
    EncodedPadding(content);
    assert text[..|head|] == head && text[|head|..] == rest;
    assert NextChunkEnd(|text|, 0) == |head|;
    assert Base64.Decode(rest).Some?;
    ChunkedLast(rest);
    LengthAgrees(text);
    UploadAgrees(text);
    AdvertisedLength(text);
  }

  lemma ChunkedLast(rest: bytes)
    requires 0 < |rest| <= BASE64_STREAM_INPUT_CHARS && Base64.Decode(rest).Some?
    ensures ChunkedDecode(rest).Some?
  {
    assert rest[..|rest|] == rest && rest[|rest|..] == [];
  }
}
