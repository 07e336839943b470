/** `src/blob_runtime.rs`, one caller at a time; BlobLedger interleaves many. */
module BlobRuntime {
  import opened Wrappers
  import opened Bytes
  import opened ByteStreams
  import opened Ledger

  const U64_LIMIT: nat := 0x1_0000_0000_0000_0000
  const STREAM_CHUNK_BYTES: nat := 16 * 1024

  datatype Config = Config(inlineMaxBytes: nat, requestHotBudgetBytes: nat, globalHotBudgetBytes: nat)

  datatype BlobStorage = Inline(content: bytes) | Shared(content: bytes) | Spilled(path: bytes)

  /** What a handle's clones share; `removed` is the flag that `remove` swaps. */
  class Blob {
    const id: nat
    const mimeType: bytes
    const sizeBytes: nat
    const storage: BlobStorage
    var removed: bool

    constructor (id: nat, mimeType: bytes, sizeBytes: nat, storage: BlobStorage)
      ensures this.id == id && this.mimeType == mimeType && this.sizeBytes == sizeBytes
      ensures this.storage == storage && !removed
    {
      this.id := id;
      this.mimeType := mimeType;
      this.sizeBytes := sizeBytes;
      this.storage := storage;
      removed := false;
    }
  }

  // ------------------------------------------------------ the runtime's state

  /** `reserved` says which unreleased blob holds how many hot bytes. */
  datatype State = State(
    nextId: nat,
    hotBytes: nat,
    spillCount: nat,
    spillBytesTotal: nat,
    files: map<bytes, bytes>,
    reserved: map<nat, nat>)

  function SpillPath(id: nat): bytes {
    "blob-" + Decimal(id) + ".bin"
  }

  lemma SpillPathInjective(i: nat, j: nat)
    requires SpillPath(i) == SpillPath(j)
    ensures i == j
  {
    var p := SpillPath(i);
    assert p[5..|p| - 4] == Decimal(i);
    assert p[5..|p| - 4] == Decimal(j);
    DecimalInjective(i, j);
  }

  /** What `try_inline_reserve` answers. */
  predicate Fits(cfg: Config, hotBytes: nat, size: nat) {
    && size <= cfg.inlineMaxBytes
    && size <= cfg.requestHotBudgetBytes
    && hotBytes + size < U64_LIMIT
    && hotBytes + size <= cfg.globalHotBudgetBytes
  }

  function StorageFor(cfg: Config, st: State, content: bytes): BlobStorage {
    if Fits(cfg, st.hotBytes, |content|) then Inline(content) else Spilled(SpillPath(st.nextId))
  }

  function AfterStore(cfg: Config, st: State, content: bytes): State {
    if Fits(cfg, st.hotBytes, |content|) then
      st.(nextId := st.nextId + 1,
          hotBytes := st.hotBytes + |content|,
          reserved := st.reserved[st.nextId := |content|])
    else
      st.(nextId := st.nextId + 1,
          spillCount := st.spillCount + 1,
          spillBytesTotal := st.spillBytesTotal + |content|,
          files := st.files[SpillPath(st.nextId) := content])
  }

  function AfterStoreShared(st: State): State {
    st.(nextId := st.nextId + 1)
  }

  /** The first `remove` of a blob; later ones change nothing. */
  function AfterRemove(st: State, id: nat, storage: BlobStorage): State
    requires storage.Inline? ==> |storage.content| <= st.hotBytes
  {
    match storage
    case Inline(content) => st.(hotBytes := st.hotBytes - |content|, reserved := st.reserved - {id})
    case Shared(_) => st
    case Spilled(path) => st.(files := st.files - {path})
  }

  /** The ledger balances, the budget holds, and only issued ids own bytes or files. */
  ghost predicate Balanced(cfg: Config, st: State) {
    && st.hotBytes == Total(st.reserved)
    && st.hotBytes <= cfg.globalHotBudgetBytes
    && (forall id | id in st.reserved :: id < st.nextId)
    && (forall path | path in st.files :: exists id: nat | id < st.nextId :: path == SpillPath(id))
  }

  /** The storage of an issued, unremoved blob is backed by the state. */
  ghost predicate Backed(st: State, id: nat, storage: BlobStorage) {
    && id < st.nextId
    && match storage
       case Inline(content) => id in st.reserved && st.reserved[id] == |content|
       case Shared(_) => true
       case Spilled(path) => path == SpillPath(id) && path in st.files
  }

  /** Every blob backed before is backed after, by the same bytes. */
  ghost predicate Kept(st: State, st': State) {
    forall id, s | Backed(st, id, s) :: Backed(st', id, s) && StoredContent(st'.files, s) == StoredContent(st.files, s)
  }

  function StoredContent(files: map<bytes, bytes>, storage: BlobStorage): bytes
    requires storage.Spilled? ==> storage.path in files
  {
    match storage
    case Inline(content) => content
    case Shared(content) => content
    case Spilled(path) => files[path]
  }

  // --------------------------------------------------- laws of the state changes

  lemma NewPathIsFree(cfg: Config, st: State)
    requires Balanced(cfg, st)
    ensures SpillPath(st.nextId) !in st.files
  {
    if SpillPath(st.nextId) in st.files {
      var id: nat :| id < st.nextId && SpillPath(st.nextId) == SpillPath(id);
      SpillPathInjective(st.nextId, id);
    }
  }

  /** A store keeps the books, backs its blob with exactly the bytes given, and disturbs no other blob. */
  lemma StoreKeepsBooks(cfg: Config, st: State, content: bytes)
    requires Balanced(cfg, st)
    ensures var st', storage := AfterStore(cfg, st, content), StorageFor(cfg, st, content);
            && Balanced(cfg, st') && Backed(st', st.nextId, storage)
            && StoredContent(st'.files, storage) == content
            && Kept(st, st')
  {
    NewPathIsFree(cfg, st);
    TotalWith(st.reserved, st.nextId, |content|);
    var st' := AfterStore(cfg, st, content);
    forall path | path in st'.files ensures exists id: nat | id < st'.nextId :: path == SpillPath(id) {
      if path in st.files {
        var id: nat :| id < st.nextId && path == SpillPath(id);
      } else {
        assert path == SpillPath(st.nextId);
      }
    }
  }

  /** A remove never underflows, keeps the books and disturbs no other blob. */
  lemma RemoveKeepsBooks(cfg: Config, st: State, id: nat, storage: BlobStorage)
    requires Balanced(cfg, st) && Backed(st, id, storage)
    ensures storage.Inline? ==> |storage.content| <= st.hotBytes
    ensures var st' := AfterRemove(st, id, storage);
            && Balanced(cfg, st')
            && forall i, s | i != id && Backed(st, i, s) ::
                 Backed(st', i, s) && StoredContent(st'.files, s) == StoredContent(st.files, s)
  {
    if storage.Inline? {
      TotalWithout(st.reserved, id);
    } else if storage.Spilled? {
      var st' := AfterRemove(st, id, storage);
      forall i, s | i != id && Backed(st, i, s) ensures Backed(st', i, s) {
        if s.Spilled? && s.path == storage.path {
          SpillPathInjective(i, id);
        }
      }
    }
  }

  /** Storing and then removing restores the counter, the reservations and the files. */
  lemma StoreThenRemove(cfg: Config, st: State, content: bytes)
    requires Balanced(cfg, st)
    ensures var st', storage := AfterStore(cfg, st, content), StorageFor(cfg, st, content);
            && (storage.Inline? ==> |storage.content| <= st'.hotBytes)
            && var end := AfterRemove(st', st.nextId, storage);
               end.hotBytes == st.hotBytes && end.reserved == st.reserved && end.files == st.files
  {
    NewPathIsFree(cfg, st);
  }

  // ----------------------------------------------------------------- the class

  class BlobRuntime {
    const cfg: Config
    var nextId: nat
    var globalHotBytes: nat
    var spillCount: nat
    var spillBytesTotal: nat
    var files: map<bytes, bytes>
    ghost var reserved: map<nat, nat>
    ghost var blobs: set<Blob>
    ghost var live: set<Blob>

    ghost function Now(): State
      reads this
    {
      State(nextId, globalHotBytes, spillCount, spillBytesTotal, files, reserved)
    }

    /** `live` is the blobs that nobody has removed, and each is backed. */
    ghost predicate Valid()
      reads this, blobs
    {
      && Balanced(cfg, Now()) && live <= blobs
      && (forall b | b in blobs :: b.id < nextId && (b in live <==> !b.removed))
      && (forall b | b in live :: Backed(Now(), b.id, b.storage))
      && (forall b, c | b in blobs && c in blobs && b.id == c.id :: b == c)
    }

    /** The bytes behind a blob. */
    ghost function Content(blob: Blob): bytes
      reads this, blobs
      requires Valid() && blob in live
    {
      StoredContent(files, blob.storage)
    }

    constructor (cfg: Config)
      ensures Valid() && this.cfg == cfg && blobs == live == {}
      ensures Now() == State(1, 0, 0, 0, map[], map[])
    {
      this.cfg := cfg;
      nextId, globalHotBytes, spillCount, spillBytesTotal := 1, 0, 0, 0;
      files, reserved, blobs, live := map[], map[], {}, {};
    }

    /** An unremoved blob of this runtime with the given type and bytes. */
    ghost predicate Stores(blob: Blob, mimeType: bytes, content: bytes)
      reads this, blobs
    {
      && Valid() && blob in live
      && blob.mimeType == mimeType && blob.sizeBytes == |content| && Content(blob) == content
    }

    /** With no other caller the compare-and-swap succeeds at once. */
    method TryInlineReserve(id: nat, size: nat) returns (ok: bool)
      modifies this`globalHotBytes, this`reserved
      ensures ok <==> Fits(cfg, old(globalHotBytes), size)
      ensures globalHotBytes == if ok then old(globalHotBytes) + size else old(globalHotBytes)
      ensures reserved == if ok then old(reserved)[id := size] else old(reserved)
    {
      if size > cfg.inlineMaxBytes || size > cfg.requestHotBudgetBytes {
        return false;
      }
      if globalHotBytes + size >= U64_LIMIT {
        return false;
      }
      if globalHotBytes + size > cfg.globalHotBudgetBytes {
        return false;
      }
      globalHotBytes := globalHotBytes + size;
      reserved := reserved[id := size];
      return true;
    }

    method RecordSpill(size: nat)
      modifies this`spillCount, this`spillBytesTotal
      ensures spillCount == old(spillCount) + 1 && spillBytesTotal == old(spillBytesTotal) + size
    {
      spillCount := spillCount + 1;
      spillBytesTotal := spillBytesTotal + size;
    }

    /** `store_bytes` and `store_shared_bytes`. */
    method StoreBytes(content: bytes, mimeType: bytes) returns (blob: Blob)
      requires Valid()
      modifies this
      ensures fresh(blob) && blobs == old(blobs) + {blob} && live == old(live) + {blob} && blob.id == old(nextId)
      ensures Stores(blob, mimeType, content) && Kept(old(Now()), Now())
      ensures Now() == AfterStore(cfg, old(Now()), content)
      ensures blob.storage == StorageFor(cfg, old(Now()), content)
    {
      var id := nextId;
      nextId := nextId + 1;
      blob := StoreBuffer(id, content, mimeType);
      StoreKeepsBooks(cfg, old(Now()), content);
    }

    /** The common tail of `store_bytes` and `store_stream`. */
    method StoreBuffer(id: nat, content: bytes, mimeType: bytes) returns (blob: Blob)
      modifies this
      ensures fresh(blob) && blob.id == id && blob.mimeType == mimeType && blob.sizeBytes == |content| && !blob.removed
      ensures blobs == old(blobs) + {blob} && live == old(live) + {blob}
      ensures var st := old(Now()).(nextId := id);
              && Now() == AfterStore(cfg, st, content).(nextId := old(nextId))
              && blob.storage == StorageFor(cfg, st, content)
    {
      var storage;
      var inline := TryInlineReserve(id, |content|);
      if inline {
        storage := Inline(content);
      } else {
        files := files[SpillPath(id) := content];
        RecordSpill(|content|);
        storage := Spilled(SpillPath(id));
      }
      blob := new Blob(id, mimeType, |content|, storage);
      blobs, live := blobs + {blob}, live + {blob};
    }

    /** `store_external_shared_bytes`: no budget is charged. */
    method StoreExternalSharedBytes(content: bytes, mimeType: bytes) returns (blob: Blob)
      requires Valid()
      modifies this
      ensures fresh(blob) && blobs == old(blobs) + {blob} && live == old(live) + {blob} && blob.id == old(nextId)
      ensures Stores(blob, mimeType, content) && Kept(old(Now()), Now())
      ensures Now() == AfterStoreShared(old(Now()))
      ensures blob.storage == Shared(content)
    {
      var id := nextId;
      nextId := nextId + 1;
      blob := new Blob(id, mimeType, |content|, Shared(content));
      blobs, live := blobs + {blob}, live + {blob};
    }

    /** The read loop of `store_stream`: buffer up to the limit, beyond it append to the spill file. */
    method ReadOrSpill(reader: ByteReader, path: bytes, inlineLimit: nat) returns (buffer: bytes, spilling: bool)
      modifies this`files, reader
      ensures reader.remaining == []
      ensures spilling <==> |old(reader.remaining)| > inlineLimit
      ensures !spilling ==> buffer == old(reader.remaining) && files == old(files)
      ensures spilling ==> files == old(files)[path := old(reader.remaining)]
    {
      ghost var content := reader.remaining;
      buffer, spilling := [], false;
      while true
        invariant !spilling ==> files == old(files) && |buffer| <= inlineLimit && buffer + reader.remaining == content
        invariant spilling ==> path in files && files == old(files)[path := files[path]]
                               && files[path] + reader.remaining == content && |files[path]| > inlineLimit
        decreases |reader.remaining|
      {
        ghost var left := reader.remaining;
        var piece := reader.Read(STREAM_CHUNK_BYTES);
        if piece == [] {
          break;
        }
        if spilling {
          Assoc(files[path], piece, reader.remaining);
          files := files[path := files[path] + piece];
          continue;
        }
        Assoc(buffer, piece, reader.remaining);
        if |buffer| + |piece| <= inlineLimit {
          buffer := buffer + piece;
          continue;
        }
        files := files[path := buffer + piece];
        buffer, spilling := [], true;
      }
      assert content == if spilling then files[path] else buffer;
    }

    /** `store_stream` once it has its id. */
    method StoreStreamAs(id: nat, reader: ByteReader, mimeType: bytes) returns (blob: Blob)
      modifies this, reader
      ensures fresh(blob) && blob.id == id && blob.mimeType == mimeType && blob.sizeBytes == |old(reader.remaining)|
              && !blob.removed
      ensures blobs == old(blobs) + {blob} && live == old(live) + {blob} && reader.remaining == []
      ensures var st, content := old(Now()).(nextId := id), old(reader.remaining);
              && Now() == AfterStore(cfg, st, content).(nextId := old(nextId))
              && blob.storage == StorageFor(cfg, st, content)
    {
      var inlineLimit :=
        if cfg.inlineMaxBytes <= cfg.requestHotBudgetBytes then cfg.inlineMaxBytes else cfg.requestHotBudgetBytes;
      var path := SpillPath(id);
      var buffer, spilling := ReadOrSpill(reader, path, inlineLimit);
      if spilling {
        var size := |files[path]|;
        RecordSpill(size);
        blob := new Blob(id, mimeType, size, Spilled(path));
        blobs, live := blobs + {blob}, live + {blob};
      } else {
        blob := StoreBuffer(id, buffer, mimeType);
      }
    }

    /**
     `store_stream`: however the reader cuts its content, the outcome is that of
     `store_bytes` on the whole of it.
     */
    method StoreStream(reader: ByteReader, mimeType: bytes) returns (blob: Blob)
      requires Valid()
      modifies this, reader
      ensures fresh(blob) && blobs == old(blobs) + {blob} && live == old(live) + {blob} && blob.id == old(nextId)
      ensures Stores(blob, mimeType, old(reader.remaining)) && Kept(old(Now()), Now())
      ensures Now() == AfterStore(cfg, old(Now()), old(reader.remaining))
      ensures blob.storage == StorageFor(cfg, old(Now()), old(reader.remaining))
      ensures reader.remaining == []
    {
      var id := nextId;
      nextId := nextId + 1;
      blob := StoreStreamAs(id, reader, mimeType);
      StoreKeepsBooks(cfg, old(Now()), old(reader.remaining));
    }

    /** `open_reader`. */
    method OpenReader(blob: Blob) returns (reader: ByteReader)
      requires Valid() && blob in live
      ensures fresh(reader) && reader.remaining == Content(blob)
    {
      reader := new ByteReader(match blob.storage
                               case Inline(content) => content
                               case Shared(content) => content
                               case Spilled(path) => files[path]);
    }

    /** `read_bytes`. */
    method ReadBytes(blob: Blob) returns (content: bytes)
      requires Valid() && blob in live
      ensures content == Content(blob)
    {
      match blob.storage
      case Inline(b) => content := b;
      case Shared(b) => content := b;
      case Spilled(path) => content := files[path];
    }

    /** `remove`: the swap makes every call after the first a no-op. */
    method Remove(blob: Blob)
      requires Valid() && blob in blobs
      modifies this`globalHotBytes, this`files, this`reserved, this`live, blob`removed
      ensures Valid() && blobs == old(blobs) && live == old(live) - {blob}
      ensures blob !in old(live) ==> Now() == old(Now())
      ensures blob in old(live) ==>
                (blob.storage.Inline? ==> |blob.storage.content| <= old(globalHotBytes))
                && Now() == AfterRemove(old(Now()), blob.id, blob.storage)
      ensures forall b | b in live :: Content(b) == old(Content(b))
    {
      if blob.removed {
        return;
      }
      RemoveKeepsBooks(cfg, Now(), blob.id, blob.storage);
      blob.removed := true;
      live := live - {blob};
      match blob.storage
      case Inline(content) =>
        globalHotBytes := globalHotBytes - |content|;
        reserved := reserved - {blob.id};
      case Shared(_) =>
      case Spilled(path) =>
        files := files - {path};
    }
  }
}
