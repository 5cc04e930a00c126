/** The in-app manager: keeps the in-memory message store in step with the
    server's list and picks at most one message to display per pass.

    Platform state enters as inputs: whether the app is in the foreground and
    whether there is a current activity are parameters; `renders` is the
    platform's answer to a display request; `showing` is the "a notification
    is on screen" state that display sets. The display handler and the
    consume request to the server are observed through `consulted` and
    `consumeRequests`. */
module InAppManager {
  import opened InAppMessages
  import opened InAppStorage
  import opened InAppSync
  import opened InAppSelection
  import opened InAppPayload
  import opened InAppActions

  class Manager {
    const store: MessageStore
    const handler: Message -> Response
    const renders: Message -> bool
    var showing: bool
    /** Every message the handler has been asked about, in order. */
    var consulted: seq<Message>
    /** The ids of the consume requests sent to the server, in order. */
    var consumeRequests: seq<string>

    ghost predicate Valid()
      reads this, store
    {
      store.Valid() && store.disk.None?
    }

    constructor (handler: Message -> Response, renders: Message -> bool)
      ensures Valid() && fresh(store)
      ensures store.messages == [] && this.handler == handler && this.renders == renders
      ensures !showing && consulted == [] && consumeRequests == []
    {
      store := new MessageStore.InMemory();
      this.handler := handler;
      this.renders := renders;
      showing := false;
      consulted := [];
      consumeRequests := [];
    }

    function GetMessages(): (r: seq<Message>)
      reads this, store
      requires Valid()
      ensures UniqueIds(r)
    {
      store.messages
    }

    /** Displays `m` when there is a current activity and no notification is on
        screen already, and sends a consume request when asked to and display
        succeeded. */
    method ShowMessage(m: Message, consume: bool, hasActivity: bool) returns (displayed: bool)
      modifies this
      ensures displayed == (hasActivity && !old(showing) && renders(m))
      ensures showing == (old(showing) || displayed)
      ensures consumeRequests == old(consumeRequests) + (if Consumes(consume, hasActivity, displayed) then [m.id] else [])
      ensures consulted == old(consulted)
    {
      displayed := false;
      if hasActivity {
        displayed := !showing && renders(m);
        if displayed {
          showing := true;
        }
        if Consumes(consume, hasActivity, displayed) {
          consumeRequests := consumeRequests + [m.id];
        }
      }
    }

    /** The state after a selection pass run on a store holding `msgs`, from
        `wasShowing`, `asked` and `requested`. */
    ghost predicate PassedFrom(msgs: seq<Message>, wasShowing: bool, asked: seq<Message>, requested: seq<string>,
                               inForeground: bool, hasActivity: bool)
      reads this, store
    {
      if !inForeground || wasShowing then
        store.messages == msgs && showing == wasShowing && consulted == asked && consumeRequests == requested
      else
        store.messages == AfterPass(msgs, handler) &&
        consulted == asked + Consulted(msgs, handler) &&
        match Shown(msgs, handler)
        case None => showing == wasShowing && consumeRequests == requested
        case Some(m) =>
          var displayed := hasActivity && renders(m);
          showing == displayed &&
          consumeRequests == requested + (if displayed then [m.id] else [])
    }

    method ProcessMessages(inForeground: bool, hasActivity: bool)
      requires Valid()
      modifies this, store
      ensures Valid()
      ensures PassedFrom(old(store.messages), old(showing), old(consulted), old(consumeRequests), inForeground, hasActivity)
    {
      if !inForeground || showing {
        return;
      }
      var msgs := store.messages;
      var asked, shown := SelectAndMark(msgs);
      consulted := consulted + asked;
      if shown.Some? {
        var _ := ShowMessage(shown.value, true, hasActivity);
      }
    }

    /** The loop of the selection pass: asks the handler about each unprocessed
        message in store order, marks it processed whatever the answer, and stops
        after the first one the handler wants shown. */
    method SelectAndMark(msgs: seq<Message>) returns (asked: seq<Message>, shown: Option<Message>)
      requires Valid() && store.messages == msgs
      modifies store
      ensures Valid()
      ensures store.messages == AfterPass(msgs, handler)
      ensures asked == Consulted(msgs, handler)
      ensures shown == Shown(msgs, handler)
    {
      asked, shown := [], None;
      var i := 0;
      while i < |msgs|
        invariant 0 <= i <= |msgs|
        invariant Valid()
        invariant store.messages == MarkProcessed(msgs, i)
        invariant asked == Unprocessed(msgs[..i])
        invariant FirstShowFrom(msgs, handler, i) == FirstShow(msgs, handler)
      {
        var m := msgs[i];
        PassStep(msgs, handler, i);
        if !m.processed {
          var response := handler(m);
          asked := asked + [m];
          assert store.Repr() == {store};
          store.SetFlag(m.id, Processed, true);
          if response == Show {
            shown := Some(m.(processed := true));
            return;
          }
        }
        i := i + 1;
      }
      PassEnd(msgs, handler);
    }

    /** Merges `remote` into the store, then runs a selection pass. */
    method SyncWithRemoteQueue(remote: seq<Message>, inForeground: bool, hasActivity: bool)
      requires Valid()
      modifies this, store
      ensures Valid()
      ensures PassedFrom(Reconciled(old(store.messages), remote), old(showing), old(consulted), old(consumeRequests),
                         inForeground, hasActivity)
    {
      var remoteIds := AddNewMessages(remote);
      RemoveAbsentMessages(remoteIds);
      ProcessMessages(inForeground, hasActivity);
    }

    /** The first loop of the sync: stores each remote message whose id is not
        stored yet, and collects the remote ids. */
    method AddNewMessages(remote: seq<Message>) returns (remoteIds: set<string>)
      requires Valid()
      modifies store
      ensures Valid()
      ensures store.messages == AddMissing(old(store.messages), remote)
      ensures remoteIds == IdSet(remote)
    {
      var remoteMap: map<string, Message> := map[];
      var i := 0;
      while i < |remote|
        invariant 0 <= i <= |remote|
        invariant Valid()
        invariant store.messages == AddMissing(old(store.messages), remote[..i])
        invariant remoteMap.Keys == IdSet(remote[..i])
      {
        var m := remote[i];
        AddMissingStep(old(store.messages), remote, i);
        remoteMap := remoteMap[m.id := m];
        assert store.Repr() == {store};
        if store.GetMessage(m.id).None? {
          store.AddMessage(m);
        }
        assert store.messages == AddMissing(old(store.messages), remote[..i + 1]);
        i := i + 1;
      }
      assert remote[..|remote|] == remote;
      remoteIds := remoteMap.Keys;
    }

    /** The second loop of the sync: drops every stored message whose id is not
        among `remoteIds`. */
    method RemoveAbsentMessages(remoteIds: set<string>)
      requires Valid()
      modifies store
      ensures Valid()
      ensures store.messages == KeepIds(old(store.messages), remoteIds)
    {
      var snapshot := store.messages;
      var j := 0;
      while j < |snapshot|
        invariant 0 <= j <= |snapshot|
        invariant Valid()
        invariant store.messages == KeepIds(snapshot[..j], remoteIds) + snapshot[j..]
      {
        var local := snapshot[j];
        DropStep(snapshot, j, remoteIds);
        assert store.Repr() == {store};
        if local.id !in remoteIds {
          store.RemoveMessage(local);
        }
        assert store.messages == KeepIds(snapshot[..j + 1], remoteIds) + snapshot[j + 1..];
        j := j + 1;
      }
      assert snapshot[..|snapshot|] == snapshot;
    }

    /** Handles the payload of an in-app fetch: an empty or unreadable payload
        leaves everything as it was; otherwise the decoded list is synced. */
    method SyncInApp(payload: Option<string>, parse: string -> ParsedPayload, inForeground: bool, hasActivity: bool)
      requires Valid()
      modifies this, store
      ensures Valid()
      ensures RemoteList(payload, parse).None? ==>
        store.messages == old(store.messages) && showing == old(showing) &&
        consulted == old(consulted) && consumeRequests == old(consumeRequests)
      ensures RemoteList(payload, parse).Some? ==>
        PassedFrom(Reconciled(old(store.messages), RemoteList(payload, parse).value), old(showing), old(consulted),
                   old(consumeRequests), inForeground, hasActivity)
    {
      var remote := RemoteList(payload, parse);
      if remote.Some? {
        SyncWithRemoteQueue(remote.value, inForeground, hasActivity);
      }
    }
  }

  /** One step of the pass at position `i`, given that nothing before it was selected. */
  lemma PassStep(msgs: seq<Message>, handler: Message -> Response, i: nat)
    requires UniqueIds(msgs) && i < |msgs|
    requires FirstShowFrom(msgs, handler, i) == FirstShow(msgs, handler)
    ensures msgs[..i + 1] == msgs[..i] + [msgs[i]]
    ensures Unprocessed(msgs[..i + 1]) == if msgs[i].processed then Unprocessed(msgs[..i]) else Unprocessed(msgs[..i]) + [msgs[i]]
    ensures msgs[i].processed ==> MarkProcessed(msgs, i + 1) == MarkProcessed(msgs, i)
    ensures WithFlag(MarkProcessed(msgs, i), msgs[i].id, Processed, true) == MarkProcessed(msgs, i + 1)
    ensures !Selected(msgs[i], handler) ==> FirstShowFrom(msgs, handler, i + 1) == FirstShow(msgs, handler)
    ensures Selected(msgs[i], handler) ==>
      FirstShow(msgs, handler) == Some(i) && Visited(msgs, handler) == i + 1 &&
      Shown(msgs, handler) == Some(msgs[i].(processed := true))
  {
    assert msgs[..i + 1] == msgs[..i] + [msgs[i]];
    assert (msgs[..i] + [msgs[i]])[..i] == msgs[..i];
    MarkProcessedStep(msgs, i);
    if msgs[i].processed {
      assert forall j :: 0 <= j < |msgs| ==> MarkProcessed(msgs, i + 1)[j] == MarkProcessed(msgs, i)[j];
    }
  }

  /** A pass that walked to the end selected nothing. */
  lemma PassEnd(msgs: seq<Message>, handler: Message -> Response)
    requires FirstShowFrom(msgs, handler, |msgs|) == FirstShow(msgs, handler)
    ensures msgs[..|msgs|] == msgs
    ensures FirstShow(msgs, handler).None? && Visited(msgs, handler) == |msgs| && Shown(msgs, handler).None?
  {
    assert msgs[..|msgs|] == msgs;
  }

  /** Marking message `i` processed by id extends the processed prefix by one. */
  lemma MarkProcessedStep(msgs: seq<Message>, i: nat)
    requires UniqueIds(msgs) && i < |msgs|
    ensures WithFlag(MarkProcessed(msgs, i), msgs[i].id, Processed, true) == MarkProcessed(msgs, i + 1)
  {
    var before := MarkProcessed(msgs, i);
    var after := WithFlag(before, msgs[i].id, Processed, true);
    WithFlagSpec(before, msgs[i].id, Processed, true);
    assert forall j :: 0 <= j < |msgs| ==> after[j] == MarkProcessed(msgs, i + 1)[j];
  }

  /** One step of the first sync loop. */
  lemma AddMissingStep(local: seq<Message>, remote: seq<Message>, i: nat)
    requires i < |remote|
    ensures IdSet(remote[..i + 1]) == IdSet(remote[..i]) + {remote[i].id}
    ensures var acc := AddMissing(local, remote[..i]);
      AddMissing(local, remote[..i + 1]) == if remote[i].id in IdSet(acc) then acc else acc + [remote[i]]
  {
    assert remote[..i + 1] == remote[..i] + [remote[i]];
    assert remote[..i + 1][..i] == remote[..i];
    IdSetConcat(remote[..i], [remote[i]]);
    assert IdSet([remote[i]]) == {remote[i].id};
  }

  /** One step of the second sync loop: position `j` is kept or dropped. */
  lemma DropStep(snapshot: seq<Message>, j: nat, ids: set<string>)
    requires UniqueIds(snapshot) && j < |snapshot|
    ensures snapshot[j].id in ids ==>
      KeepIds(snapshot[..j], ids) + snapshot[j..] == KeepIds(snapshot[..j + 1], ids) + snapshot[j + 1..]
    ensures snapshot[j].id !in ids ==>
      Without(KeepIds(snapshot[..j], ids) + snapshot[j..], snapshot[j].id) == KeepIds(snapshot[..j + 1], ids) + snapshot[j + 1..]
  {
    var x := snapshot[j];
    var kept := KeepIds(snapshot[..j], ids);
    assert snapshot[j..] == [x] + snapshot[j + 1..];
    assert snapshot[..j + 1] == snapshot[..j] + [x];
    assert snapshot[..j + 1][..j] == snapshot[..j];
    if x.id in ids {
      assert KeepIds(snapshot[..j + 1], ids) == kept + [x];
    } else {
      assert KeepIds(snapshot[..j + 1], ids) == kept;
      KeepIdsSpec(snapshot[..j], ids);
      forall m | m in kept ensures m.id != x.id {
        var k :| 0 <= k < j && snapshot[k] == m;
      }
      forall m | m in snapshot[j + 1..] ensures m.id != x.id {
        var k :| j < k < |snapshot| && snapshot[k] == m;
      }
      assert kept + snapshot[j..] == kept + [x] + snapshot[j + 1..];
      WithoutMiddle(kept, x, snapshot[j + 1..]);
    }
  }
}
