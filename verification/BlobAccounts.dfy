/** What one request still owes the blob runtime: the blobs it stored and has not yet removed. */
module BlobAccounts {
  import opened Bytes
  import opened BlobRuntime

  type Owed = map<nat, BlobStorage>

  /** Since `start`, the state has moved by exactly the reservations and files of `owed`. */
  ghost predicate Owes(start: State, now: State, owed: Owed) {
    && start.nextId <= now.nextId
    && (forall id | id in owed :: start.nextId <= id < now.nextId)
    && (forall id :: id in now.reserved <==> id in start.reserved || (id in owed && owed[id].Inline?))
    && (forall id | id in start.reserved :: now.reserved[id] == start.reserved[id])
    && (forall path :: path in now.files <==> path in start.files || HasFile(owed, path))
    && (forall path | path in start.files :: now.files[path] == start.files[path])
  }

  ghost predicate HasFile(owed: Owed, path: bytes) {
    exists id | id in owed && owed[id].Spilled? :: path == SpillPath(id)
  }

  lemma OwesNothing(st: State)
    ensures Owes(st, st, map[])
  {
  }

  lemma OwesStore(cfg: Config, start: State, st: State, owed: Owed, content: bytes)
    requires Balanced(cfg, st) && Owes(start, st, owed)
    ensures Owes(start, AfterStore(cfg, st, content), owed[st.nextId := StorageFor(cfg, st, content)])
  {
    NewPathIsFree(cfg, st);
    if Fits(cfg, st.hotBytes, |content|) {
      OwesInline(start, st, owed, content, AfterStore(cfg, st, content));
    } else {
      OwesSpill(start, st, owed, content, AfterStore(cfg, st, content));
    }
  }

  lemma OwesInline(start: State, st: State, owed: Owed, content: bytes, st': State)
    requires Owes(start, st, owed) && st.nextId !in st.reserved
    requires st'.nextId == st.nextId + 1 && st'.files == st.files && st'.reserved == st.reserved[st.nextId := |content|]
    ensures Owes(start, st', owed[st.nextId := Inline(content)])
  {
    OwedFiles(owed, st.nextId, Inline(content));
  }

  lemma OwesSpill(start: State, st: State, owed: Owed, content: bytes, st': State)
    requires Owes(start, st, owed) && SpillPath(st.nextId) !in st.files
    requires st'.nextId == st.nextId + 1 && st'.reserved == st.reserved
             && st'.files == st.files[SpillPath(st.nextId) := content]
    ensures Owes(start, st', owed[st.nextId := Spilled(SpillPath(st.nextId))])
  {
    OwedFiles(owed, st.nextId, Spilled(SpillPath(st.nextId)));
  }

  lemma OwesShared(start: State, st: State, owed: Owed, content: bytes)
    requires Owes(start, st, owed)
    ensures Owes(start, AfterStoreShared(st), owed[st.nextId := Shared(content)])
  {
    OwedFiles(owed, st.nextId, Shared(content));
  }

  /** A new id adds its own file and no other. */
  lemma OwedFiles(owed: Owed, id: nat, storage: BlobStorage)
    requires id !in owed
    ensures forall path ::
              HasFile(owed[id := storage], path) <==> HasFile(owed, path) || (storage.Spilled? && path == SpillPath(id))
  {
    var owed' := owed[id := storage];
    forall path ensures HasFile(owed', path) <==> HasFile(owed, path) || (storage.Spilled? && path == SpillPath(id)) {
      if HasFile(owed, path) {
        var i :| i in owed && owed[i].Spilled? && path == SpillPath(i);
        assert i in owed' && owed'[i] == owed[i];
      }
      if storage.Spilled? && path == SpillPath(id) {
        assert id in owed';
      }
    }
  }

  /** Removing an owed blob settles exactly its part. */
  lemma OwesRemove(cfg: Config, start: State, st: State, owed: Owed, id: nat)
    requires Balanced(cfg, start) && Balanced(cfg, st) && Owes(start, st, owed)
    requires id in owed && Backed(st, id, owed[id])
    ensures owed[id].Inline? ==> |owed[id].content| <= st.hotBytes
    ensures Owes(start, AfterRemove(st, id, owed[id]), owed - {id})
  {
    RemoveKeepsBooks(cfg, st, id, owed[id]);
    var rest := owed - {id};
    assert rest[id := owed[id]] == owed;
    OwedFiles(rest, id, owed[id]);
    if SpillPath(id) in start.files {
      var i: nat :| i < start.nextId && SpillPath(id) == SpillPath(i);
      SpillPathInjective(id, i);
    }
    if HasFile(rest, SpillPath(id)) {
      var i :| i in rest && SpillPath(id) == SpillPath(i);
      SpillPathInjective(id, i);
    }
  }

  /** Counter, reservations and files are as before; ids and spill statistics may have moved on. */
  ghost predicate Restored(start: State, now: State) {
    now.hotBytes == start.hotBytes && now.reserved == start.reserved && now.files == start.files
  }

  lemma SharedKeepsReservations(start: State, now: State, owed: Owed)
    requires Owes(start, now, owed) && forall id | id in owed :: owed[id].Shared?
    ensures now.reserved == start.reserved
  {
  }

  lemma SharedKeepsFiles(start: State, now: State, owed: Owed)
    requires Owes(start, now, owed) && forall id | id in owed :: owed[id].Shared?
    ensures now.files == start.files
  {
    assert forall path :: !HasFile(owed, path);
  }

  lemma SharedChangesNothing(cfg: Config, start: State, now: State, owed: Owed)
    requires Balanced(cfg, start) && Balanced(cfg, now) && Owes(start, now, owed)
    requires forall id | id in owed :: owed[id].Shared?
    ensures Restored(start, now)
  {
    SharedKeepsReservations(start, now, owed);
    SharedKeepsFiles(start, now, owed);
  }

  lemma OwnStorageShows(cfg: Config, start: State, now: State, owed: Owed, id: nat)
    requires Balanced(cfg, start) && Owes(start, now, owed) && id in owed && !owed[id].Shared?
    ensures !Restored(start, now)
  {
    if owed[id].Spilled? {
      assert HasFile(owed, SpillPath(id));
      if SpillPath(id) in start.files {
        var i: nat :| i < start.nextId && SpillPath(id) == SpillPath(i);
        SpillPathInjective(id, i);
      }
    } else {
      assert id in now.reserved && id !in start.reserved;
    }
  }

  /** Whoever leaves owed blobs behind has changed nothing exactly when all of them are shared. */
  lemma RestoredIfShared(cfg: Config, start: State, now: State, owed: Owed)
    requires Balanced(cfg, start) && Balanced(cfg, now) && Owes(start, now, owed)
    ensures Restored(start, now) <==> forall id | id in owed :: owed[id].Shared?
  {
    if forall id | id in owed :: owed[id].Shared? {
      SharedChangesNothing(cfg, start, now, owed);
    } else {
      var id :| id in owed && !owed[id].Shared?;
      OwnStorageShows(cfg, start, now, owed, id);
    }
  }
}
