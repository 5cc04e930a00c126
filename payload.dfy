/** Turning the payload of the in-app fetch into the remote list a sync runs on.
    JSON parsing is a parameter: `parse` gives the parsed shape of a payload. */
module InAppPayload {
  import opened InAppMessages

  /** A payload as the JSON reader sees it: unreadable, or an object whose
      in-app array may be missing and whose entries may fail to decode. */
  datatype ParsedPayload =
    | ParseError
    | Parsed(inApp: Option<seq<Option<Message>>>)

  /** The decoded entries, in payload order, with the ones that failed dropped. */
  function Decoded(entries: seq<Option<Message>>): (r: seq<Message>)
    ensures forall m :: m in r <==> Some(m) in entries
    ensures |r| <= |entries|
    decreases |entries|
  {
    if entries == [] then []
    else
      var init, last := entries[..|entries| - 1], entries[|entries| - 1];
      assert entries == init + [last];
      match last
      case None => Decoded(init)
      case Some(m) => Decoded(init) + [m]
  }

  /** Entries that all decode come through unchanged and in order. */
  lemma {:induction false} DecodedAll(s: seq<Message>)
    ensures Decoded(seq(|s|, i requires 0 <= i < |s| => Some(s[i]))) == s
    decreases |s|
  {
    if s != [] {
      var init := s[..|s| - 1];
      var entries := seq(|s|, i requires 0 <= i < |s| => Some(s[i]));
      assert entries[..|entries| - 1] == seq(|init|, i requires 0 <= i < |init| => Some(init[i]));
      DecodedAll(init);
      assert s == init + [s[|s| - 1]];
    }
  }

  /** Decoding a payload in two parts decodes each part and joins the results,
      so the kept entries keep their payload order and multiplicity. */
  lemma {:induction false} DecodedConcat(a: seq<Option<Message>>, b: seq<Option<Message>>)
    ensures Decoded(a + b) == Decoded(a) + Decoded(b)
    decreases |b|
  {
    if b == [] {
      assert a + b == a;
    } else {
      var init := b[..|b| - 1];
      assert b == init + [b[|b| - 1]];
      assert a + b == (a + init) + [b[|b| - 1]];
      DecodedConcat(a, init);
    }
  }

  /** An entry that fails to decode contributes nothing; one that decodes
      contributes its message. */
  lemma DecodedSingle(e: Option<Message>)
    ensures Decoded([e]) == if e.Some? then [e.value] else []
  {
    assert [e][..0] == [];
  }

  /** The list to sync with, or `None` when the payload leaves the store alone. */
  function RemoteList(payload: Option<string>, parse: string -> ParsedPayload): (r: Option<seq<Message>>)
    ensures r.None? <==> payload.None? || payload.value == "" || parse(payload.value).ParseError?
    ensures r.Some? && parse(payload.value).inApp.None? ==> r.value == []
    ensures r.Some? ==> forall m :: m in r.value <==> parse(payload.value).inApp.Some? && Some(m) in parse(payload.value).inApp.value
    ensures r.Some? && parse(payload.value).inApp.Some? ==> r.value == Decoded(parse(payload.value).inApp.value)
  {
    if payload.None? || payload.value == "" then None
    else
      match parse(payload.value)
      case ParseError => None
      case Parsed(None) => Some([])
      case Parsed(Some(entries)) => Some(Decoded(entries))
  }
}
