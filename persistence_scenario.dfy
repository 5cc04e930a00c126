/** The store's persistence contract, as the file-storage test exercises it:
    add, look up, change flags, save, reload, remove, reload again. */
module InAppPersistenceScenario {
  import opened InAppMessages
  import opened InAppStorage

  /** The whole test: ends with an empty store on an empty saved document. */
  method InAppPersistence(d: Disk, m: Message) returns (reloaded: MessageStore)
    requires d.content.None?
    modifies d
    ensures reloaded.disk == Some(d) && reloaded.messages == [] && d.content == Some([])
  {
    AddUpdateSave(d, m);
    var _ := ReloadAndRemove(d, m.(processed := true, consumed := true));
    reloaded := new MessageStore.Load(d);
    assert reloaded.messages == [];
  }

  /** A fresh store is empty; after adding `m` it holds `m` alone and finds it
      by id; its flags are then set and the store saved. */
  method AddUpdateSave(d: Disk, m: Message)
    requires d.content.None?
    modifies d
    ensures d.content == Some([m.(processed := true, consumed := true)])
  {
    var storage := new MessageStore.Load(d);
    assert storage.messages == [];

    storage.AddMessage(m);
    assert storage.messages == [m];
    assert storage.GetMessage(m.id) == Some(m);

    storage.SetFlag(m.id, Processed, true);
    var marked := m.(processed := true);
    assert storage.messages == [marked] by {
      assert [m][0] == m;
      assert |storage.messages| == 1 && storage.messages[0] == marked;
    }
    storage.SetFlag(m.id, Consumed, true);
    var updated := m.(processed := true, consumed := true);
    assert storage.messages == [updated] by {
      assert [marked][0] == marked;
      assert |storage.messages| == 1 && storage.messages[0] == updated;
    }
    storage.Save();
  }

  /** Reloading gives back exactly the saved message, flags included; removing
      it empties the store and the saved document at once. */
  method ReloadAndRemove(d: Disk, saved: Message) returns (storage: MessageStore)
    requires d.content == Some([saved])
    modifies d
    ensures storage.messages == [] && d.content == Some([])
  {
    LoadSaved([saved]);
    storage := new MessageStore.Load(d);
    assert storage.messages == [saved];

    var found := storage.GetMessage(saved.id);
    assert found == Some(saved);
    RemoveOnly(saved);
    storage.RemoveMessage(found.value);
  }

  /** Removing the only record by its id leaves nothing. */
  lemma RemoveOnly(m: Message)
    ensures Without([m], m.id) == []
  {
    assert [m][..0] == [];
  }
}
