/** What reconciling the local store with a freshly fetched remote list
    produces, and the properties of that result. */
module InAppSync {
  import opened InAppMessages

  /** The store after a sync: every remote message whose id was not stored yet
      is appended (first occurrence of each id), then every record whose id is
      not in the remote list is dropped. */
  function Reconciled(local: seq<Message>, remote: seq<Message>): seq<Message>
  {
    KeepIds(AddMissing(local, remote), IdSet(remote))
  }

  /** The stored ids are exactly the remote ids. */
  lemma SyncStoresRemoteIds(local: seq<Message>, remote: seq<Message>)
    ensures IdSet(Reconciled(local, remote)) == IdSet(remote)
  {
    AddMissingSpec(local, remote);
    KeepIdsSpec(AddMissing(local, remote), IdSet(remote));
  }

  lemma SyncKeepsIdsUnique(local: seq<Message>, remote: seq<Message>)
    requires UniqueIds(local)
    ensures UniqueIds(Reconciled(local, remote))
  {
    AddMissingSpec(local, remote);
    KeepIdsSpec(AddMissing(local, remote), IdSet(remote));
  }

  /** The record stored for each id: none when the remote list lacks it, the
      local record unchanged (flags included) when there was one, otherwise the
      first remote message with that id. */
  lemma SyncRecordFor(local: seq<Message>, remote: seq<Message>, id: string)
    ensures Lookup(Reconciled(local, remote), id)
         == if id !in IdSet(remote) then None
            else if id in IdSet(local) then Lookup(local, id)
            else Lookup(remote, id)
  {
    KeepIdsLookup(AddMissing(local, remote), IdSet(remote), id);
    AddMissingLookup(local, remote, id);
  }

  /** A local message the remote list still names is kept as it is. */
  lemma SyncKeepsLocalRecord(local: seq<Message>, remote: seq<Message>, m: Message)
    requires UniqueIds(local) && m in local && m.id in IdSet(remote)
    ensures m in Reconciled(local, remote)
  {
    SyncRecordFor(local, remote, m.id);
    LookupUnique(local, m);
  }

  /** A remote id that was not stored gets its first remote message, and only that one. */
  lemma SyncAddsFirstOccurrence(local: seq<Message>, remote: seq<Message>, k: nat)
    requires UniqueIds(local) && k < |remote| && remote[k].id !in IdSet(local)
    requires forall j :: 0 <= j < k ==> remote[j].id != remote[k].id
    ensures remote[k] in Reconciled(local, remote)
    ensures forall m :: m in Reconciled(local, remote) && m.id == remote[k].id ==> m == remote[k]
  {
    var id := remote[k].id;
    var r := Reconciled(local, remote);
    assert remote[k] in remote;
    SyncRecordFor(local, remote, id);
    LookupFirst(remote, id, k);
    assert Lookup(r, id) == Some(remote[k]);
    SyncKeepsIdsUnique(local, remote);
    forall m | m in r && m.id == id ensures m == remote[k] {
      LookupUnique(r, m);
    }
  }

  /** Nothing is invented: every stored record was either stored before or fetched. */
  lemma SyncRecordsComeFromInputs(local: seq<Message>, remote: seq<Message>, m: Message)
    requires m in Reconciled(local, remote)
    ensures m in local || m in remote
  {
    AddMissingSpec(local, remote);
    KeepIdsSpec(AddMissing(local, remote), IdSet(remote));
  }

  /** The surviving local records come first, in their old order. */
  lemma {:induction false} SyncKeepsLocalOrder(local: seq<Message>, remote: seq<Message>)
    ensures KeepIds(local, IdSet(remote)) <= Reconciled(local, remote)
  {
    var merged := AddMissing(local, remote);
    AddMissingSpec(local, remote);
    var extra := merged[|local|..];
    assert merged == local + extra;
    KeepIdsConcat(local, extra, IdSet(remote));
  }

  /** A remote list that omits a stored id removes that record. */
  lemma SyncDropsOmitted(local: seq<Message>, remote: seq<Message>, m: Message)
    requires m.id !in IdSet(remote)
    ensures m !in Reconciled(local, remote)
  {
    KeepIdsSpec(AddMissing(local, remote), IdSet(remote));
  }

  /** Syncing twice with the same remote list changes nothing the second time. */
  lemma SyncIdempotent(local: seq<Message>, remote: seq<Message>)
    requires UniqueIds(local)
    ensures Reconciled(Reconciled(local, remote), remote) == Reconciled(local, remote)
  {
    var r := Reconciled(local, remote);
    SyncStoresRemoteIds(local, remote);
    SyncKeepsIdsUnique(local, remote);
    AddMissingNoNew(r, remote);
    KeepIdsAll(r, IdSet(remote));
  }

  /** Merging records whose ids are all already present adds nothing. */
  lemma {:induction false} AddMissingNoNew(local: seq<Message>, incoming: seq<Message>)
    requires IdSet(incoming) <= IdSet(local)
    ensures AddMissing(local, incoming) == local
    decreases |incoming|
  {
    if incoming != [] {
      var init, m := incoming[..|incoming| - 1], incoming[|incoming| - 1];
      assert incoming == init + [m];
      IdSetConcat(init, [m]);
      AddMissingNoNew(local, init);
    }
  }

  /** Remote messages whose ids were already seen, locally or earlier in the
      remote list, add nothing: the order built so far is left alone. */
  lemma RepeatedIdsAddNothing(local: seq<Message>, a: seq<Message>, b: seq<Message>)
    requires IdSet(b) <= IdSet(local) + IdSet(a)
    ensures AddMissing(local, a + b) == AddMissing(local, a)
  {
    AddMissingAppend(local, a, b);
    AddMissingSpec(local, a);
    AddMissingNoNew(AddMissing(local, a), b);
  }

  /** Keeping every id present keeps the whole sequence. */
  lemma {:induction false} KeepIdsAll(s: seq<Message>, ids: set<string>)
    requires IdSet(s) <= ids
    ensures KeepIds(s, ids) == s
    decreases |s|
  {
    if s != [] {
      var init := s[..|s| - 1];
      assert s == init + [s[|s| - 1]];
      IdSetConcat(init, [s[|s| - 1]]);
      KeepIdsAll(init, ids);
    }
  }
}
