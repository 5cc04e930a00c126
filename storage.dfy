/** The message store: an ordered collection of in-app messages with unique
    ids, optionally backed by a persisted snapshot (the file of the file
    storage). The in-memory storage the manager uses is a store without one. */
module InAppStorage {
  import opened InAppMessages

  /** The persisted document. `None` stands for a missing or unreadable file. */
  class Disk {
    var content: Option<seq<Message>>

    /** A device on which nothing has been saved yet. */
    constructor Empty()
      ensures content == None
    {
      content := None;
    }
  }

  /** What a store finds on start-up: nothing when the file is missing or
      malformed, otherwise the saved records, the first record of each id kept. */
  function Loaded(content: Option<seq<Message>>): (r: seq<Message>)
    ensures UniqueIds(r)
    ensures content.None? ==> r == []
  {
    match content
    case None => []
    case Some(saved) => AddMissingSpec([], saved); AddMissing([], saved)
  }

  /** Loading a saved document keeps its ids and invents no record. */
  lemma LoadedFromSaved(saved: seq<Message>)
    ensures IdSet(Loaded(Some(saved))) == IdSet(saved)
    ensures forall m :: m in Loaded(Some(saved)) ==> m in saved
  {
    AddMissingSpec([], saved);
  }

  /** Saving a store and loading it again gives back the same records in the same order. */
  lemma LoadSaved(s: seq<Message>)
    requires UniqueIds(s)
    ensures Loaded(Some(s)) == s
  {
    assert [] + s == s;
    AddMissingDistinct([], s);
  }

  class MessageStore {
    var messages: seq<Message>
    const disk: Option<Disk>

    ghost predicate Valid()
      reads this
    {
      UniqueIds(messages)
    }

    ghost function Repr(): set<object>
      reads this
    {
      if disk.Some? then {this, disk.value} else {this}
    }

    /** The persisted snapshot, if there is one, holds exactly the current records. */
    ghost predicate Persisted()
      reads this, Repr()
    {
      disk.Some? ==> disk.value.content == Some(messages)
    }

    /** The in-memory storage: starts empty and persists nothing. */
    constructor InMemory()
      ensures Valid() && messages == [] && disk.None?
    {
      messages := [];
      disk := None;
    }

    /** The file storage: loads whatever `d` holds. */
    constructor Load(d: Disk)
      ensures Valid() && disk == Some(d) && messages == Loaded(d.content)
    {
      messages := Loaded(d.content);
      disk := Some(d);
    }

    function GetMessage(id: string): (r: Option<Message>)
      reads this
      ensures r.Some? <==> id in IdSet(messages)
      ensures r.Some? ==> r.value.id == id && r.value in messages
    {
      Lookup(messages, id)
    }

    method AddMessage(m: Message)
      requires Valid() && m.id !in IdSet(messages)
      modifies Repr()
      ensures Valid() && Persisted()
      ensures messages == old(messages) + [m]
    {
      UniqueSnoc(messages, m);
      messages := messages + [m];
      if disk.Some? {
        disk.value.content := Some(messages);
      }
    }

    /** Removes the record with `m`'s id and writes the snapshot at once. */
    method RemoveMessage(m: Message)
      requires Valid()
      modifies Repr()
      ensures Valid() && Persisted()
      ensures messages == Without(old(messages), m.id)
    {
      WithoutSpec(messages, m.id);
      messages := Without(messages, m.id);
      if disk.Some? {
        disk.value.content := Some(messages);
      }
    }

    /** A flag setter called on a stored message: changes memory only. */
    method SetFlag(id: string, flag: Flag, value: bool)
      requires Valid()
      modifies this
      ensures Valid()
      ensures messages == WithFlag(old(messages), id, flag, value)
    {
      WithFlagSpec(messages, id, flag, value);
      messages := WithFlag(messages, id, flag, value);
    }

    method Save()
      requires Valid()
      modifies Repr()
      ensures Valid() && Persisted()
      ensures messages == old(messages)
    {
      if disk.Some? {
        disk.value.content := Some(messages);
      }
    }
  }
}
