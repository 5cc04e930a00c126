/** In-app message records and the keyed-sequence operations the store and
    the manager are built from. A store is an ordered sequence of records
    whose ids are unique. */
module InAppMessages {

  datatype Option<T> = None | Some(value: T)

  /** Display parameters of a message. The logic here never looks inside. */
  datatype Padding = Padding(top: int, left: int, bottom: int, right: int)
  datatype Content = Content(html: string, padding: Padding)

  /** One in-app message: `processed` says the display handler has been asked
      about it, `consumed` that it has been shown and reported. */
  datatype Message = Message(id: string, content: Content, processed: bool, consumed: bool)

  /** The two boolean flags a message exposes setters for. */
  datatype Flag = Processed | Consumed

  function SetFlag(m: Message, flag: Flag, value: bool): (r: Message)
    ensures r.id == m.id && r.content == m.content
    ensures flag == Processed ==> r.processed == value && r.consumed == m.consumed
    ensures flag == Consumed ==> r.consumed == value && r.processed == m.processed
  {
    match flag
    case Processed => m.(processed := value)
    case Consumed => m.(consumed := value)
  }

  function IdSet(s: seq<Message>): set<string>
  {
    set m | m in s :: m.id
  }

  predicate UniqueIds(s: seq<Message>)
  {
    forall i, j :: 0 <= i < j < |s| ==> s[i].id != s[j].id
  }

  lemma IdSetConcat(a: seq<Message>, b: seq<Message>)
    ensures IdSet(a + b) == IdSet(a) + IdSet(b)
  {
    assert forall m :: m in a + b <==> m in a || m in b;
  }

  /** Appending a record keeps ids unique exactly when its id is new. */
  lemma UniqueSnoc(s: seq<Message>, m: Message)
    ensures UniqueIds(s + [m]) <==> UniqueIds(s) && m.id !in IdSet(s)
  {
    if UniqueIds(s + [m]) {
      assert s == (s + [m])[..|s|];
      forall x | x in s ensures x.id != m.id {
        var i :| 0 <= i < |s| && s[i] == x;
        assert (s + [m])[i] == x && (s + [m])[|s|] == m;
      }
    }
    if UniqueIds(s) && m.id !in IdSet(s) {
      forall i, j | 0 <= i < j < |s + [m]| ensures (s + [m])[i].id != (s + [m])[j].id {
        if j == |s| {
          assert s[i] in s;
        }
      }
    }
  }

  /** The first record with the given id, as `getMessage(id)` answers. */
  function Lookup(s: seq<Message>, id: string): (r: Option<Message>)
    ensures r.Some? <==> id in IdSet(s)
    ensures r.Some? ==> r.value.id == id && r.value in s
  {
    if s == [] then None
    else if s[0].id == id then Some(s[0])
    else
      assert s == [s[0]] + s[1..];
      IdSetConcat([s[0]], s[1..]);
      Lookup(s[1..], id)
  }

  /** Lookup finds the record at the first position holding the id. */
  lemma {:induction false} LookupFirst(s: seq<Message>, id: string, k: nat)
    requires k < |s| && s[k].id == id
    requires forall j :: 0 <= j < k ==> s[j].id != id
    ensures Lookup(s, id) == Some(s[k])
  {
    if k > 0 {
      LookupFirst(s[1..], id, k - 1);
    }
  }

  /** In a store with unique ids, a record is what lookup by its own id finds. */
  lemma LookupUnique(s: seq<Message>, m: Message)
    requires UniqueIds(s) && m in s
    ensures Lookup(s, m.id) == Some(m)
  {
    var i :| 0 <= i < |s| && s[i] == m;
    LookupFirst(s, m.id, i);
  }

  lemma {:induction false} LookupConcat(a: seq<Message>, b: seq<Message>, id: string)
    ensures Lookup(a + b, id) == if id in IdSet(a) then Lookup(a, id) else Lookup(b, id)
  {
    if a != [] {
      assert (a + b)[0] == a[0];
      assert (a + b)[1..] == a[1..] + b;
      assert a == [a[0]] + a[1..];
      IdSetConcat([a[0]], a[1..]);
      assert IdSet([a[0]]) == {a[0].id};
      if a[0].id != id {
        LookupConcat(a[1..], b, id);
      }
    } else {
      assert a + b == b;
    }
  }

  /** The store with every record of the given id removed (`removeMessage`). */
  function Without(s: seq<Message>, id: string): seq<Message>
    decreases |s|
  {
    if s == [] then []
    else Without(s[..|s| - 1], id) + (if s[|s| - 1].id == id then [] else [s[|s| - 1]])
  }

  /** Removal keeps exactly the records with another id, and keeps ids unique. */
  lemma WithoutSpec(s: seq<Message>, id: string)
    ensures forall m :: m in Without(s, id) <==> m in s && m.id != id
    ensures IdSet(Without(s, id)) == IdSet(s) - {id}
    ensures UniqueIds(s) ==> UniqueIds(Without(s, id))
  {
    WithoutMembers(s, id);
    if UniqueIds(s) {
      WithoutUnique(s, id);
    }
  }

  lemma {:induction false} WithoutMembers(s: seq<Message>, id: string)
    ensures forall m :: m in Without(s, id) <==> m in s && m.id != id
    decreases |s|
  {
    if s != [] {
      var init, last := s[..|s| - 1], s[|s| - 1];
      assert s == init + [last];
      WithoutMembers(init, id);
    }
  }

  lemma {:induction false} WithoutUnique(s: seq<Message>, id: string)
    requires UniqueIds(s)
    ensures UniqueIds(Without(s, id))
    decreases |s|
  {
    if s != [] {
      var init, last := s[..|s| - 1], s[|s| - 1];
      assert s == init + [last];
      UniqueSnoc(init, last);
      WithoutUnique(init, id);
      if last.id != id {
        var rest := Without(init, id);
        WithoutMembers(init, id);
        assert IdSet(rest) <= IdSet(init);
        UniqueSnoc(rest, last);
      }
    }
  }

  lemma {:induction false} WithoutConcat(a: seq<Message>, b: seq<Message>, id: string)
    ensures Without(a + b, id) == Without(a, id) + Without(b, id)
    decreases |b|
  {
    if b == [] {
      assert a + b == a;
    } else {
      var init := b[..|b| - 1];
      assert (a + b)[..|a + b| - 1] == a + init;
      assert (a + b)[|a + b| - 1] == b[|b| - 1];
      WithoutConcat(a, init, id);
    }
  }

  lemma {:induction false} WithoutAbsent(s: seq<Message>, id: string)
    requires id !in IdSet(s)
    ensures Without(s, id) == s
    decreases |s|
  {
    if s != [] {
      var init := s[..|s| - 1];
      assert s == init + [s[|s| - 1]];
      IdSetConcat(init, [s[|s| - 1]]);
      WithoutAbsent(init, id);
    }
  }

  /** Removing the one record `x` from the middle of a store leaves the rest in order. */
  lemma WithoutMiddle(a: seq<Message>, x: Message, b: seq<Message>)
    requires x.id !in IdSet(a) && x.id !in IdSet(b)
    ensures Without(a + [x] + b, x.id) == a + b
  {
    var single := [x];
    assert single[..|single| - 1] == [];
    assert Without(single, x.id) == [];
    WithoutConcat(a, single, x.id);
    WithoutAbsent(a, x.id);
    assert Without(a + single, x.id) == a;
    WithoutConcat(a + single, b, x.id);
    WithoutAbsent(b, x.id);
  }

  /** The records whose id is in `ids`, in store order. */
  function KeepIds(s: seq<Message>, ids: set<string>): seq<Message>
    decreases |s|
  {
    if s == [] then []
    else KeepIds(s[..|s| - 1], ids) + (if s[|s| - 1].id in ids then [s[|s| - 1]] else [])
  }

  /** Filtering keeps exactly the records whose id is in `ids`, and keeps ids unique. */
  lemma KeepIdsSpec(s: seq<Message>, ids: set<string>)
    ensures forall m :: m in KeepIds(s, ids) <==> m in s && m.id in ids
    ensures IdSet(KeepIds(s, ids)) == IdSet(s) * ids
    ensures UniqueIds(s) ==> UniqueIds(KeepIds(s, ids))
  {
    KeepIdsMembers(s, ids);
    if UniqueIds(s) {
      KeepIdsUnique(s, ids);
    }
  }

  lemma {:induction false} KeepIdsMembers(s: seq<Message>, ids: set<string>)
    ensures forall m :: m in KeepIds(s, ids) <==> m in s && m.id in ids
    decreases |s|
  {
    if s != [] {
      var init, last := s[..|s| - 1], s[|s| - 1];
      assert s == init + [last];
      KeepIdsMembers(init, ids);
    }
  }

  lemma {:induction false} KeepIdsUnique(s: seq<Message>, ids: set<string>)
    requires UniqueIds(s)
    ensures UniqueIds(KeepIds(s, ids))
    decreases |s|
  {
    if s != [] {
      var init, last := s[..|s| - 1], s[|s| - 1];
      assert s == init + [last];
      UniqueSnoc(init, last);
      KeepIdsUnique(init, ids);
      if last.id in ids {
        var rest := KeepIds(init, ids);
        KeepIdsMembers(init, ids);
        assert IdSet(rest) <= IdSet(init);
        UniqueSnoc(rest, last);
      }
    }
  }

  lemma {:induction false} KeepIdsConcat(a: seq<Message>, b: seq<Message>, ids: set<string>)
    ensures KeepIds(a + b, ids) == KeepIds(a, ids) + KeepIds(b, ids)
    decreases |b|
  {
    if b == [] {
      assert a + b == a;
    } else {
      var init := b[..|b| - 1];
      assert (a + b)[..|a + b| - 1] == a + init;
      assert (a + b)[|a + b| - 1] == b[|b| - 1];
      KeepIdsConcat(a, init, ids);
    }
  }

  lemma {:induction false} KeepIdsLookup(s: seq<Message>, ids: set<string>, id: string)
    ensures Lookup(KeepIds(s, ids), id) == if id in ids then Lookup(s, id) else None
    decreases |s|
  {
    if s != [] {
      var init, last := s[..|s| - 1], s[|s| - 1];
      assert s == init + [last];
      KeepIdsLookup(init, ids, id);
      KeepIdsSpec(init, ids);
      LookupConcat(init, [last], id);
      if last.id in ids {
        LookupConcat(KeepIds(init, ids), [last], id);
      } else {
        assert KeepIds(s, ids) == KeepIds(init, ids);
      }
    }
  }

  /** Every record with the given id has `flag` set to `value`; nothing else changes. */
  function WithFlag(s: seq<Message>, id: string, flag: Flag, value: bool): seq<Message>
  {
    seq(|s|, i requires 0 <= i < |s| => if s[i].id == id then SetFlag(s[i], flag, value) else s[i])
  }

  /** Only the records with the given id change, and only in `flag`; the ids,
      and so their uniqueness and the record found for each id, are kept. */
  lemma WithFlagSpec(s: seq<Message>, id: string, flag: Flag, value: bool)
    ensures |WithFlag(s, id, flag, value)| == |s|
    ensures forall i :: 0 <= i < |s| ==> WithFlag(s, id, flag, value)[i].id == s[i].id
    ensures IdSet(WithFlag(s, id, flag, value)) == IdSet(s)
    ensures UniqueIds(s) ==> UniqueIds(WithFlag(s, id, flag, value))
    ensures forall x :: Lookup(WithFlag(s, id, flag, value), x)
                     == if x == id && x in IdSet(s) then Some(SetFlag(Lookup(s, x).value, flag, value)) else Lookup(s, x)
  {
    var r := WithFlag(s, id, flag, value);
    forall x | x in IdSet(s) ensures x in IdSet(r) {
      var m :| m in s && m.id == x;
      var i :| 0 <= i < |s| && s[i] == m;
      assert r[i] in r;
    }
    forall x ensures Lookup(r, x) == if x == id && x in IdSet(s) then Some(SetFlag(Lookup(s, x).value, flag, value)) else Lookup(s, x) {
      WithFlagLookup(s, id, flag, value, x);
    }
  }

  lemma {:induction false} WithFlagLookup(s: seq<Message>, id: string, flag: Flag, value: bool, x: string)
    ensures Lookup(WithFlag(s, id, flag, value), x)
         == if x == id && x in IdSet(s) then Some(SetFlag(Lookup(s, x).value, flag, value)) else Lookup(s, x)
    decreases |s|
  {
    if s != [] {
      var r := WithFlag(s, id, flag, value);
      assert r[1..] == WithFlag(s[1..], id, flag, value);
      assert s == [s[0]] + s[1..];
      IdSetConcat([s[0]], s[1..]);
      assert IdSet([s[0]]) == {s[0].id};
      WithFlagLookup(s[1..], id, flag, value, x);
    }
  }

  /** `incoming` merged into `local`: each incoming record whose id is not yet
      present is appended, in incoming order; the first record of each id wins. */
  function AddMissing(local: seq<Message>, incoming: seq<Message>): seq<Message>
    decreases |incoming|
  {
    if incoming == [] then local
    else
      var acc := AddMissing(local, incoming[..|incoming| - 1]);
      var m := incoming[|incoming| - 1];
      if m.id in IdSet(acc) then acc else acc + [m]
  }

  /** The merge extends `local`, takes every record from one of its inputs,
      covers the ids of both, and keeps ids unique. */
  lemma {:induction false} AddMissingSpec(local: seq<Message>, incoming: seq<Message>)
    ensures local <= AddMissing(local, incoming)
    ensures forall m :: m in AddMissing(local, incoming) ==> m in local || m in incoming
    ensures IdSet(AddMissing(local, incoming)) == IdSet(local) + IdSet(incoming)
    ensures UniqueIds(local) ==> UniqueIds(AddMissing(local, incoming))
    decreases |incoming|
  {
    if incoming != [] {
      var init, m := incoming[..|incoming| - 1], incoming[|incoming| - 1];
      assert incoming == init + [m];
      IdSetConcat(init, [m]);
      assert IdSet([m]) == {m.id};
      AddMissingSpec(local, init);
      var acc := AddMissing(local, init);
      if m.id !in IdSet(acc) {
        UniqueSnoc(acc, m);
        IdSetConcat(acc, [m]);
      }
    }
  }

  /** Which record each id ends up with: the local one if there was one,
      otherwise the first incoming one. */
  lemma {:induction false} AddMissingLookup(local: seq<Message>, incoming: seq<Message>, id: string)
    ensures Lookup(AddMissing(local, incoming), id)
         == if id in IdSet(local) then Lookup(local, id) else Lookup(incoming, id)
    decreases |incoming|
  {
    if incoming != [] {
      var init, m := incoming[..|incoming| - 1], incoming[|incoming| - 1];
      assert incoming == init + [m];
      var acc := AddMissing(local, init);
      AddMissingLookup(local, init, id);
      LookupConcat(init, [m], id);
      if m.id !in IdSet(acc) {
        LookupConcat(acc, [m], id);
      }
    }
  }

  /** Merging in two batches is merging once: a later batch is merged into the
      result of the earlier one, so what it adds comes after, in its own order. */
  lemma {:induction false} AddMissingAppend(local: seq<Message>, a: seq<Message>, b: seq<Message>)
    ensures AddMissing(local, a + b) == AddMissing(AddMissing(local, a), b)
    decreases |b|
  {
    if b == [] {
      assert a + b == a;
    } else {
      var init := b[..|b| - 1];
      assert b == init + [b[|b| - 1]];
      assert (a + b)[..|a + b| - 1] == a + init;
      AddMissingAppend(local, a, init);
    }
  }

  /** Merging records whose ids are all distinct simply appends them. */
  lemma {:induction false} AddMissingDistinct(local: seq<Message>, incoming: seq<Message>)
    requires UniqueIds(local + incoming)
    ensures AddMissing(local, incoming) == local + incoming
    decreases |incoming|
  {
    if incoming != [] {
      var init, m := incoming[..|incoming| - 1], incoming[|incoming| - 1];
      assert local + incoming == (local + init) + [m];
      UniqueSnoc(local + init, m);
      AddMissingDistinct(local, init);
    }
  }
}
