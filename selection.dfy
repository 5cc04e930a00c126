/** The selection pass over the stored messages: which messages the display
    handler is asked about, which get marked processed, and which one is shown. */
module InAppSelection {
  import opened InAppMessages

  /** The handler's answer for one message. */
  datatype Response = Show | Skip

  /** A message the pass would stop at: not yet processed, and the handler says show. */
  predicate Selected(m: Message, handler: Message -> Response)
  {
    !m.processed && handler(m) == Show
  }

  /** Index of the first selected message at or after `i`. */
  function FirstShowFrom(msgs: seq<Message>, handler: Message -> Response, i: nat): (r: Option<nat>)
    requires i <= |msgs|
    ensures r.Some? ==> i <= r.value < |msgs| && Selected(msgs[r.value], handler)
    ensures r.Some? ==> forall j :: i <= j < r.value ==> !Selected(msgs[j], handler)
    ensures r.None? ==> forall j :: i <= j < |msgs| ==> !Selected(msgs[j], handler)
    decreases |msgs| - i
  {
    if i == |msgs| then None
    else if Selected(msgs[i], handler) then Some(i)
    else FirstShowFrom(msgs, handler, i + 1)
  }

  function FirstShow(msgs: seq<Message>, handler: Message -> Response): Option<nat>
  {
    FirstShowFrom(msgs, handler, 0)
  }

  /** How many positions the pass walks: up to and including the shown one, or all. */
  function Visited(msgs: seq<Message>, handler: Message -> Response): (n: nat)
    ensures n <= |msgs|
  {
    match FirstShow(msgs, handler)
    case Some(k) => k + 1
    case None => |msgs|
  }

  /** The first `n` messages marked processed, the rest as they were. */
  function MarkProcessed(msgs: seq<Message>, n: nat): (r: seq<Message>)
    requires n <= |msgs|
  {
    seq(|msgs|, j requires 0 <= j < |msgs| => if j < n then msgs[j].(processed := true) else msgs[j])
  }

  /** The unprocessed messages of `s`, in order. */
  function Unprocessed(s: seq<Message>): (r: seq<Message>)
    ensures forall m :: m in r <==> m in s && !m.processed
    ensures |r| <= |s|
    decreases |s|
  {
    if s == [] then []
    else
      var init, last := s[..|s| - 1], s[|s| - 1];
      assert s == init + [last];
      if last.processed then Unprocessed(init) else Unprocessed(init) + [last]
  }

  /** The store after one pass. */
  function AfterPass(msgs: seq<Message>, handler: Message -> Response): seq<Message>
  {
    MarkProcessed(msgs, Visited(msgs, handler))
  }

  /** The messages the handler is asked about during one pass, in the order asked. */
  function Consulted(msgs: seq<Message>, handler: Message -> Response): seq<Message>
  {
    Unprocessed(msgs[..Visited(msgs, handler)])
  }

  /** The message handed to display, already marked processed. */
  function Shown(msgs: seq<Message>, handler: Message -> Response): Option<Message>
  {
    match FirstShow(msgs, handler)
    case Some(k) => Some(msgs[k].(processed := true))
    case None => None
  }

  /** The handler is never asked about a processed message, and is asked about
      every unprocessed one up to the shown one (or to the end). */
  lemma ConsultsExactlyUnprocessed(msgs: seq<Message>, handler: Message -> Response, m: Message)
    ensures m in Consulted(msgs, handler) <==> m in msgs[..Visited(msgs, handler)] && !m.processed
  {
  }

  /** Every consulted message ends up processed, whatever the handler answered;
      the records keep their ids and contents. */
  lemma PassMarksConsulted(msgs: seq<Message>, handler: Message -> Response, i: nat)
    requires i < |msgs|
    ensures |AfterPass(msgs, handler)| == |msgs|
    ensures AfterPass(msgs, handler)[i].id == msgs[i].id
    ensures AfterPass(msgs, handler)[i].content == msgs[i].content
    ensures !msgs[i].processed && i < Visited(msgs, handler) ==> AfterPass(msgs, handler)[i] == msgs[i].(processed := true)
    ensures msgs[i].processed ==> AfterPass(msgs, handler)[i] == msgs[i]
  {
  }

  /** The pass stops at the first show: every consulted message but the last
      was answered with something other than show, and messages after the shown
      one are left untouched. */
  lemma PassStopsAtFirstShow(msgs: seq<Message>, handler: Message -> Response)
    ensures forall j :: 0 <= j < Visited(msgs, handler) - 1 ==> !Selected(msgs[j], handler)
    ensures FirstShow(msgs, handler).Some? ==>
      var k := FirstShow(msgs, handler).value;
      Visited(msgs, handler) == k + 1 &&
      Shown(msgs, handler) == Some(msgs[k].(processed := true)) &&
      !msgs[k].processed && handler(msgs[k]) == Show &&
      forall j :: k < j < |msgs| ==> AfterPass(msgs, handler)[j] == msgs[j]
    ensures FirstShow(msgs, handler).None? ==> Shown(msgs, handler).None? && Visited(msgs, handler) == |msgs|
  {
  }

  /** The messages asked about but not shown were all answered with something other than show. */
  lemma ConsultedBeforeShowSkipped(msgs: seq<Message>, handler: Message -> Response, j: nat)
    requires j < |Consulted(msgs, handler)|
    requires Shown(msgs, handler).None? || j < |Consulted(msgs, handler)| - 1
    ensures handler(Consulted(msgs, handler)[j]) != Show
  {
    var n := Visited(msgs, handler);
    var c := Consulted(msgs, handler);
    var scope := msgs[..n];
    match FirstShow(msgs, handler)
    case Some(k) =>
      assert scope == msgs[..k] + [msgs[k]];
      UnprocessedSnoc(msgs[..k], msgs[k]);
      assert c[j] in Unprocessed(msgs[..k]);
      var i :| 0 <= i < k && msgs[..k][i] == c[j];
      assert !Selected(msgs[i], handler);
    case None =>
      assert c[j] in c;
      var i :| 0 <= i < n && scope[i] == c[j];
      assert !Selected(msgs[i], handler);
  }

  lemma UnprocessedSnoc(s: seq<Message>, m: Message)
    requires !m.processed
    ensures Unprocessed(s + [m]) == Unprocessed(s) + [m]
  {
    assert (s + [m])[..|s|] == s;
  }

  /** A pass with no show leaves nothing unprocessed, so the next pass asks the handler nothing. */
  lemma {:induction false} PassWithoutShowIsFinal(msgs: seq<Message>, handler: Message -> Response)
    requires FirstShow(msgs, handler).None?
    ensures Consulted(AfterPass(msgs, handler), handler) == []
    ensures AfterPass(AfterPass(msgs, handler), handler) == AfterPass(msgs, handler)
  {
    var after := AfterPass(msgs, handler);
    assert forall j :: 0 <= j < |after| ==> after[j].processed;
    NoneSelectedWhenAllProcessed(after, handler, 0);
    assert after[..|after|] == after;
    NoUnprocessed(after);
  }

  lemma {:induction false} NoneSelectedWhenAllProcessed(msgs: seq<Message>, handler: Message -> Response, i: nat)
    requires i <= |msgs|
    requires forall j :: 0 <= j < |msgs| ==> msgs[j].processed
    ensures FirstShowFrom(msgs, handler, i).None?
    decreases |msgs| - i
  {
    if i < |msgs| {
      NoneSelectedWhenAllProcessed(msgs, handler, i + 1);
    }
  }

  lemma NoUnprocessed(s: seq<Message>)
    requires forall j :: 0 <= j < |s| ==> s[j].processed
    ensures Unprocessed(s) == []
  {
    assert forall m :: m in s ==> m.processed;
  }

  /** Three unprocessed messages, the handler says show only for the second:
      the first and second are marked processed, the second is shown, the
      third is neither asked about nor touched. */
  lemma ThreeMessagePass(a: Message, b: Message, c: Message, handler: Message -> Response)
    requires !a.processed && !b.processed && !c.processed
    requires handler(a) != Show && handler(b) == Show
    ensures AfterPass([a, b, c], handler) == [a.(processed := true), b.(processed := true), c]
    ensures Consulted([a, b, c], handler) == [a, b]
    ensures Shown([a, b, c], handler) == Some(b.(processed := true))
  {
    var msgs := [a, b, c];
    assert FirstShowFrom(msgs, handler, 0) == FirstShowFrom(msgs, handler, 1) == Some(1);
    assert msgs[..2] == [a, b];
    assert [a, b][..1] == [a];
    assert [a][..0] == [];
  }
}
