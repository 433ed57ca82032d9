/** Merging consecutive text and reasoning deltas of a provider's event stream, live (event by
    event) and in a batch (a whole list at once). */
module StreamCoalescers {
  import opened Strings

  /** A stream event; all kinds but the two deltas pass through whole. */
  datatype Event = TextDelta(delta: string) | ReasoningDelta(delta: string) | Other(id: nat) {
    predicate EmptyDelta() {
      !Other? && delta == ""
    }

    predicate SameKind(that: Event) {
      (TextDelta? && that.TextDelta?) || (ReasoningDelta? && that.ReasoningDelta?)
    }
  }

  // ----- what the buffers do ---------------------------------------------------------------

  datatype Buffers = Buffers(text: string, reasoning: string) {
    predicate OneEmpty() {
      text == "" || reasoning == ""
    }
  }

  const EMPTY := Buffers("", "")

  function TextOut(text: string): seq<Event> {
    if text == "" then [] else [TextDelta(text)]
  }

  function ReasoningOut(reasoning: string): seq<Event> {
    if reasoning == "" then [] else [ReasoningDelta(reasoning)]
  }

  /** New buffers and the events released. */
  datatype Turn = Turn(buffers: Buffers, ready: seq<Event>)

  function PushTurn(b: Buffers, event: Event, maxBytes: nat): Turn {
    match event
    case TextDelta(delta) =>
      var text := b.text + delta;
      if ByteLen(text) >= maxBytes then Turn(Buffers("", ""), ReasoningOut(b.reasoning) + TextOut(text))
      else Turn(Buffers(text, ""), ReasoningOut(b.reasoning))
    case ReasoningDelta(delta) =>
      var reasoning := b.reasoning + delta;
      if ByteLen(reasoning) >= maxBytes then Turn(Buffers("", ""), TextOut(b.text) + ReasoningOut(reasoning))
      else Turn(Buffers("", reasoning), TextOut(b.text))
    case Other(id) => Turn(EMPTY, TextOut(b.text) + ReasoningOut(b.reasoning) + [event])
  }

  function FlushOut(b: Buffers): seq<Event> {
    TextOut(b.text) + ReasoningOut(b.reasoning)
  }

  /** All events pushed in turn from given buffers. */
  function PushAll(events: seq<Event>, maxBytes: nat): Turn {
    if events == [] then Turn(EMPTY, [])
    else
      var before := PushAll(events[..|events| - 1], maxBytes);
      var turn := PushTurn(before.buffers, events[|events| - 1], maxBytes);
      Turn(turn.buffers, before.ready + turn.ready)
  }

  /** The coalesced form of a whole stream. */
  function Coalesced(events: seq<Event>, maxBytes: nat): seq<Event> {
    var all := PushAll(events, maxBytes);
    all.ready + FlushOut(all.buffers)
  }

  // ----- the coalescers -----------------------------------------------------------------------

  class DeltaCoalescer {
    const maxBytes: nat
    var text: string
    var reasoning: string

    constructor (maxBytes: nat)
      ensures this.maxBytes == maxBytes && State() == EMPTY
    {
      this.maxBytes, text, reasoning := maxBytes, "", "";
    }

    function State(): Buffers
      reads this
    {
      Buffers(text, reasoning)
    }

    method PushText(delta: string) returns (r: Option<string>)
      modifies this
      ensures reasoning == old(reasoning)
      ensures if ByteLen(old(text) + delta) >= maxBytes
              then text == "" && OptionalText(r) == TextOut(old(text) + delta)
              else text == old(text) + delta && r == None
    {
      text := text + delta;
      if ByteLen(text) >= maxBytes {
        r := FlushText();
      } else {
        r := None;
      }
    }

    method PushReasoning(delta: string) returns (r: Option<string>)
      modifies this
      ensures text == old(text)
      ensures if ByteLen(old(reasoning) + delta) >= maxBytes
              then reasoning == "" && OptionalReasoning(r) == ReasoningOut(old(reasoning) + delta)
              else reasoning == old(reasoning) + delta && r == None
    {
      reasoning := reasoning + delta;
      if ByteLen(reasoning) >= maxBytes {
        r := FlushReasoning();
      } else {
        r := None;
      }
    }

    method FlushText() returns (r: Option<string>)
      modifies this
      ensures State() == Buffers("", old(reasoning)) && OptionalText(r) == TextOut(old(text))
    {
      if text == "" {
        return None;
      }
      r := Some(text);
      text := "";
    }

    method FlushReasoning() returns (r: Option<string>)
      modifies this
      ensures State() == Buffers(old(text), "") && OptionalReasoning(r) == ReasoningOut(old(reasoning))
    {
      if reasoning == "" {
        return None;
      }
      r := Some(reasoning);
      reasoning := "";
    }
  }

  function OptionalText(r: Option<string>): seq<Event> {
    match r case Some(delta) => [TextDelta(delta)] case None => []
  }

  function OptionalReasoning(r: Option<string>): seq<Event> {
    match r case Some(delta) => [ReasoningDelta(delta)] case None => []
  }

  class LiveEventCoalescer {
    const coalescer: DeltaCoalescer

    constructor (maxBytes: nat)
      ensures fresh(coalescer) && coalescer.maxBytes == maxBytes && coalescer.State() == EMPTY
    {
      coalescer := new DeltaCoalescer(maxBytes);
    }

    method Push(event: Event) returns (ready: seq<Event>)
      modifies coalescer
      ensures Turn(coalescer.State(), ready) == PushTurn(old(coalescer.State()), event, coalescer.maxBytes)
    {
      hide TextOut, ReasoningOut, ByteLen;
      ready := [];
      match event
      case TextDelta(delta) =>
        var flushed := coalescer.FlushReasoning();
        var pushed := coalescer.PushText(delta);
        ready := ready + OptionalReasoning(flushed) + OptionalText(pushed);
      case ReasoningDelta(delta) =>
        var flushed := coalescer.FlushText();
        var pushed := coalescer.PushReasoning(delta);
        ready := ready + OptionalText(flushed) + OptionalReasoning(pushed);
      case Other(id) =>
        ready := FlushBuffered();
        ready := ready + [event];
    }

    method Finish() returns (ready: seq<Event>)
      modifies coalescer
      ensures coalescer.State() == EMPTY && ready == FlushOut(old(coalescer.State()))
    {
      ready := FlushBuffered();
    }

    method FlushBuffered() returns (ready: seq<Event>)
      modifies coalescer
      ensures coalescer.State() == EMPTY && ready == FlushOut(old(coalescer.State()))
    {
      var text := coalescer.FlushText();
      var reasoning := coalescer.FlushReasoning();
      ready := OptionalText(text) + OptionalReasoning(reasoning);
    }
  }

  lemma PushAllStep(events: seq<Event>, i: nat, maxBytes: nat)
    requires i < |events|
    ensures var before, after := PushAll(events[..i], maxBytes), PushAll(events[..i + 1], maxBytes);
            var turn := PushTurn(before.buffers, events[i], maxBytes);
            after == Turn(turn.buffers, before.ready + turn.ready)
  {
    assert events[..i + 1][..i] == events[..i];
  }

  /** A live stream: every event pushed as it arrives, then the end. */
  method CoalesceLive(events: seq<Event>, maxBytes: nat) returns (out: seq<Event>)
    ensures out == Coalesced(events, maxBytes)
  {
    hide PushAll, PushTurn;
    var live := new LiveEventCoalescer(maxBytes);
    out := [];
    NothingPushed(maxBytes);
    assert events[..0] == [];
    for i := 0 to |events|
      invariant PushAll(events[..i], maxBytes) == Turn(live.coalescer.State(), out)
      invariant fresh(live.coalescer)
    {
      PushAllStep(events, i, maxBytes);
      var ready := live.Push(events[i]);
      out := out + ready;
    }
    assert events[..|events|] == events;
    var rest := live.Finish();
    out := out + rest;
  }

  lemma NothingPushed(maxBytes: nat)
    ensures PushAll([], maxBytes) == Turn(EMPTY, [])
  {
  }

  /** `coalesce_provider_stream_events`: the same stream as a batch, and what it published. */
  method CoalesceBatch(events: seq<Event>, maxBytes: nat) returns (coalesced: seq<Event>, published: seq<Event>)
    ensures coalesced == Coalesced(events, maxBytes) && published == coalesced
  {
    hide PushAll, PushTurn;
    var coalescer := new DeltaCoalescer(maxBytes);
    coalesced, published := [], [];
    NothingPushed(maxBytes);
    assert events[..0] == [];
    for i := 0 to |events|
      invariant PushAll(events[..i], maxBytes) == Turn(coalescer.State(), coalesced) && published == coalesced
      invariant fresh(coalescer)
    {
      PushAllStep(events, i, maxBytes);
      var ready := BatchTurn(coalescer, events[i]);
      coalesced := coalesced + ready;
      published := published + ready;
    }
    assert events[..|events|] == events;
    var text := coalescer.FlushText();
    var reasoning := coalescer.FlushReasoning();
    coalesced := coalesced + (OptionalText(text) + OptionalReasoning(reasoning));
    published := published + (OptionalText(text) + OptionalReasoning(reasoning));
  }

  /** One turn of the batch loop. */
  method BatchTurn(coalescer: DeltaCoalescer, event: Event) returns (ready: seq<Event>)
    modifies coalescer
    ensures Turn(coalescer.State(), ready) == PushTurn(old(coalescer.State()), event, coalescer.maxBytes)
  {
    match event
    case TextDelta(delta) =>
      var flushed := coalescer.FlushReasoning();
      var pushed := coalescer.PushText(delta);
      ready := OptionalReasoning(flushed) + OptionalText(pushed);
    case ReasoningDelta(delta) =>
      var flushed := coalescer.FlushText();
      var pushed := coalescer.PushReasoning(delta);
      ready := OptionalText(flushed) + OptionalReasoning(pushed);
    case Other(id) =>
      var text := coalescer.FlushText();
      var reasoning := coalescer.FlushReasoning();
      ready := OptionalText(text) + OptionalReasoning(reasoning) + [event];
  }

  // ----- nothing is lost, reordered or invented ----------------------------------------------------

  datatype Item = TextChar(c: char) | ReasoningChar(c: char) | Opaque(id: nat)

  function TextItems(s: string): seq<Item> {
    if s == "" then [] else [TextChar(s[0])] + TextItems(s[1..])
  }

  function ReasoningItems(s: string): seq<Item> {
    if s == "" then [] else [ReasoningChar(s[0])] + ReasoningItems(s[1..])
  }

  function Items(event: Event): seq<Item> {
    match event
    case TextDelta(delta) => TextItems(delta)
    case ReasoningDelta(delta) => ReasoningItems(delta)
    case Other(id) => [Opaque(id)]
  }

  function Flatten(events: seq<Event>): seq<Item> {
    if events == [] then [] else Flatten(events[..|events| - 1]) + Items(events[|events| - 1])
  }

  lemma {:induction false} FlattenAppend(a: seq<Event>, b: seq<Event>)
    ensures Flatten(a + b) == Flatten(a) + Flatten(b)
    decreases |b|
  {
    if b == [] {
      assert a + b == a && Flatten(a) + [] == Flatten(a);
    } else {
      var n := |b| - 1;
      assert (a + b)[..|a + b| - 1] == a + b[..n];
      FlattenAppend(a, b[..n]);
      Associative(Flatten(a), Flatten(b[..n]), Items(b[n]));
    }
  }

  lemma {:induction false} TextItemsAppend(a: string, b: string)
    ensures TextItems(a + b) == TextItems(a) + TextItems(b)
  {
    if a == "" {
      assert a + b == b;
    } else {
      assert (a + b)[1..] == a[1..] + b;
      TextItemsAppend(a[1..], b);
    }
  }

  lemma {:induction false} ReasoningItemsAppend(a: string, b: string)
    ensures ReasoningItems(a + b) == ReasoningItems(a) + ReasoningItems(b)
  {
    if a == "" {
      assert a + b == b;
    } else {
      assert (a + b)[1..] == a[1..] + b;
      ReasoningItemsAppend(a[1..], b);
    }
  }

  /** The flattened content of the buffers; one is empty, so their order does not matter. */
  function Buffered(b: Buffers): seq<Item> {
    TextItems(b.text) + ReasoningItems(b.reasoning)
  }

  lemma OutItems(s: string)
    ensures Flatten(TextOut(s)) == TextItems(s) && Flatten(ReasoningOut(s)) == ReasoningItems(s)
  {
    assert [TextDelta(s)][..0] == [] && [ReasoningDelta(s)][..0] == [];
  }

  lemma TurnKeepsItems(b: Buffers, event: Event, maxBytes: nat)
    requires b.OneEmpty()
    ensures var turn := PushTurn(b, event, maxBytes);
            turn.buffers.OneEmpty() && Flatten(turn.ready) + Buffered(turn.buffers) == Buffered(b) + Items(event)
  {
    hide PushTurn, Flatten, Buffered, Items;
    match event
    case TextDelta(delta) => TextKeepsItems(b, delta, maxBytes);
    case ReasoningDelta(delta) => ReasoningKeepsItems(b, delta, maxBytes);
    case Other(id) => OtherKeepsItems(b, event, maxBytes);
  }

  lemma TextKeepsItems(b: Buffers, delta: string, maxBytes: nat)
    requires b.OneEmpty()
    ensures var turn := PushTurn(b, TextDelta(delta), maxBytes);
            && turn.buffers.OneEmpty()
            && Flatten(turn.ready) + Buffered(turn.buffers) == Buffered(b) + Items(TextDelta(delta))
  {
    hide Flatten, TextItems, ReasoningItems, ByteLen;
    NoItems();
    OutItems(b.reasoning);
    OutItems(b.text + delta);
    TextItemsAppend(b.text, delta);
    FlattenAppend(ReasoningOut(b.reasoning), TextOut(b.text + delta));
  }

  lemma ReasoningKeepsItems(b: Buffers, delta: string, maxBytes: nat)
    requires b.OneEmpty()
    ensures var turn := PushTurn(b, ReasoningDelta(delta), maxBytes);
            && turn.buffers.OneEmpty()
            && Flatten(turn.ready) + Buffered(turn.buffers) == Buffered(b) + Items(ReasoningDelta(delta))
  {
    hide Flatten, TextItems, ReasoningItems, ByteLen;
    NoItems();
    OutItems(b.text);
    OutItems(b.reasoning + delta);
    ReasoningItemsAppend(b.reasoning, delta);
    FlattenAppend(TextOut(b.text), ReasoningOut(b.reasoning + delta));
  }

  lemma OtherKeepsItems(b: Buffers, event: Event, maxBytes: nat)
    requires b.OneEmpty() && event.Other?
    ensures var turn := PushTurn(b, event, maxBytes);
            turn.buffers.OneEmpty() && Flatten(turn.ready) + Buffered(turn.buffers) == Buffered(b) + Items(event)
  {
    hide Flatten, TextItems, ReasoningItems;
    NoItems();
    OutItems(b.text);
    OutItems(b.reasoning);
    FlattenAppend(TextOut(b.text), ReasoningOut(b.reasoning));
    FlattenAppend(TextOut(b.text) + ReasoningOut(b.reasoning), [event]);
    FlattenOne(event);
  }

  /** Nothing waits longer than it has to: at every point a buffer is below the limit in UTF-8 bytes,
      or empty; a delta releases the other kind, and any other event releases both. */
  lemma ReleasedPromptly(events: seq<Event>, maxBytes: nat)
    ensures var b := PushAll(events, maxBytes).buffers;
            && (b.text == "" || |Utf8Text(b.text)| < maxBytes)
            && (b.reasoning == "" || |Utf8Text(b.reasoning)| < maxBytes)
    ensures events != [] ==>
              var b, last := PushAll(events, maxBytes).buffers, events[|events| - 1];
              && (last.Other? ==> b == EMPTY)
              && (last.TextDelta? ==> b.reasoning == "") && (last.ReasoningDelta? ==> b.text == "")
  {
    hide ByteLen;
    var b := PushAll(events, maxBytes).buffers;
    ByteLenIsUtf8(b.text);
    ByteLenIsUtf8(b.reasoning);
  }

  lemma FlattenOne(event: Event)
    ensures Flatten([event]) == Items(event)
  {
    assert [event][..0] == [];
  }

  lemma NoItems()
    ensures TextItems("") == [] && ReasoningItems("") == [] && Flatten([]) == []
  {
  }

  /** At every point of a stream the two buffers are never both filled, and what was released plus
      what is buffered is what came in. */
  lemma {:induction false} PushAllKeepsItems(events: seq<Event>, maxBytes: nat)
    ensures var all := PushAll(events, maxBytes);
            all.buffers.OneEmpty() && Flatten(all.ready) + Buffered(all.buffers) == Flatten(events)
    decreases |events|
  {
    if events == [] {
      NoItems();
    } else {
      hide Flatten, Buffered, Items, PushTurn, PushAll;
      var n := |events| - 1;
      var before := PushAll(events[..n], maxBytes);
      PushAllKeepsItems(events[..n], maxBytes);
      assert events[..n + 1] == events;
      PushAllStep(events, n, maxBytes);
      TurnKeepsItems(before.buffers, events[n], maxBytes);
      var turn := PushTurn(before.buffers, events[n], maxBytes);
      FlattenAppend(before.ready, turn.ready);
      FlattenSnoc(events);
      Balance(Flatten(before.ready), Buffered(before.buffers), Flatten(events[..n]), Items(events[n]),
              Flatten(turn.ready), Buffered(turn.buffers));
    }
  }

  lemma FlattenSnoc(events: seq<Event>)
    requires events != []
    ensures Flatten(events) == Flatten(events[..|events| - 1]) + Items(events[|events| - 1])
  {
  }

  lemma Balance(
    released: seq<Item>, held: seq<Item>, input: seq<Item>, more: seq<Item>, next: seq<Item>, rest: seq<Item>)
    requires released + held == input && next + rest == held + more
    ensures (released + next) + rest == input + more
  {
    Associative(released, next, rest);
    Associative(released, held, more);
  }

  /** Coalescing keeps the flattened sequence of text, reasoning and opaque events. */
  lemma CoalescedKeepsItems(events: seq<Event>, maxBytes: nat)
    ensures Flatten(Coalesced(events, maxBytes)) == Flatten(events)
  {
    hide Flatten, TextItems, ReasoningItems;
    PushAllKeepsItems(events, maxBytes);
    var all := PushAll(events, maxBytes);
    OutItems(all.buffers.text);
    OutItems(all.buffers.reasoning);
    FlattenAppend(TextOut(all.buffers.text), ReasoningOut(all.buffers.reasoning));
    FlattenAppend(all.ready, FlushOut(all.buffers));
  }

  // ----- how far it coalesces ---------------------------------------------------------------------------

  /** Of two adjacent deltas of one kind the first had reached the limit, and none is empty. */
  ghost predicate Merged(out: seq<Event>, maxBytes: nat) {
    && (forall i | 0 <= i < |out| :: !out[i].EmptyDelta())
    && (forall i | 0 <= i < |out| - 1 :: out[i].SameKind(out[i + 1]) ==> ByteLen(out[i].delta) >= maxBytes)
  }

  /** The delta kind: text or reasoning. */
  predicate IsKind(event: Event, text: bool) {
    if text then event.TextDelta? else event.ReasoningDelta?
  }

  function Held(b: Buffers, text: bool): string {
    if text then b.text else b.reasoning
  }

  /** An empty delta that flushes the filling buffer of the other kind. */
  predicate Interrupts(events: seq<Event>, i: nat, text: bool, maxBytes: nat)
    requires i < |events|
  {
    IsKind(events[i], !text) && events[i].EmptyDelta() && Held(PushAll(events[..i], maxBytes).buffers, text) != ""
  }

  /** The interrupted kind goes on at `j`, with only empty deltas since `i`. */
  predicate Resumes(events: seq<Event>, i: nat, j: nat, text: bool)
    requires i < j < |events|
  {
    IsKind(events[j], text) && !events[j].EmptyDelta() && forall k | i < k < j :: events[k].EmptyDelta()
  }

  /** Somewhere an empty delta interrupts a kind that then goes on. */
  ghost predicate Splits(events: seq<Event>, maxBytes: nat) {
    exists i: nat, j: nat, text: bool | i < j < |events| ::
      Interrupts(events, i, text, maxBytes) && Resumes(events, i, j, text)
  }

  /** An interruption of a kind after which only empty deltas came. */
  ghost predicate Interrupted(events: seq<Event>, text: bool, maxBytes: nat) {
    exists i: nat | i < |events| ::
      Interrupts(events, i, text, maxBytes) && forall k | i < k < |events| :: events[k].EmptyDelta()
  }

  /** The last released event is a delta of a kind, short of the limit. */
  predicate ShortLast(out: seq<Event>, text: bool, maxBytes: nat) {
    out != [] && IsKind(out[|out| - 1], text) && ByteLen(out[|out| - 1].delta) < maxBytes
  }

  /** What a stream's history shows in the coalescer's state. */
  ghost predicate Tracked(events: seq<Event>, all: Turn, maxBytes: nat) {
    && all.buffers.OneEmpty()
    && (all.buffers.text != "" ==> ByteLen(all.buffers.text) < maxBytes)
    && (all.buffers.reasoning != "" ==> ByteLen(all.buffers.reasoning) < maxBytes)
    && (forall text ::
          Interrupted(events, text, maxBytes) <==> all.buffers == EMPTY && ShortLast(all.ready, text, maxBytes))
    && (Merged(all.ready + FlushOut(all.buffers), maxBytes) <==> !Splits(events, maxBytes))
  }

  // How the two histories grow by one event.

  lemma InterruptsBefore(events: seq<Event>, e: Event, i: nat, text: bool, maxBytes: nat)
    requires i < |events|
    ensures Interrupts(events + [e], i, text, maxBytes) <==> Interrupts(events, i, text, maxBytes)
  {
    hide PushAll;
    assert (events + [e])[..i] == events[..i];
  }

  lemma InterruptedNext(events: seq<Event>, e: Event, text: bool, maxBytes: nat)
    ensures Interrupted(events + [e], text, maxBytes)
            <==> e.EmptyDelta() && (Interrupted(events, text, maxBytes)
                                    || (IsKind(e, !text) && Held(PushAll(events, maxBytes).buffers, text) != ""))
  {
    hide PushAll, Interrupts;
    var n, all := |events|, events + [e];
    assert Interrupts(all, n, text, maxBytes)
      <==> IsKind(e, !text) && e.EmptyDelta() && Held(PushAll(events, maxBytes).buffers, text) != "" by {
      InterruptsLast(events, e, text, maxBytes);
    }
    if Interrupted(all, text, maxBytes) {
      var i: nat :| i < |all| && Interrupts(all, i, text, maxBytes) && forall k | i < k < |all| :: all[k].EmptyDelta();
      if i < n {
        InterruptsBefore(events, e, i, text, maxBytes);
        assert all[n].EmptyDelta();
        assert forall k | i < k < n :: all[k] == events[k];
      } else {
        EmptyItself(all, n, text, maxBytes);
      }
    }
    if e.EmptyDelta() && Interrupted(events, text, maxBytes) {
      var i: nat :| i < n && Interrupts(events, i, text, maxBytes) && forall k | i < k < n :: events[k].EmptyDelta();
      InterruptsBefore(events, e, i, text, maxBytes);
      assert forall k | i < k < n + 1 :: all[k] == if k < n then events[k] else e;
    }
  }

  lemma InterruptsLast(events: seq<Event>, e: Event, text: bool, maxBytes: nat)
    ensures Interrupts(events + [e], |events|, text, maxBytes)
            <==> IsKind(e, !text) && e.EmptyDelta() && Held(PushAll(events, maxBytes).buffers, text) != ""
  {
    hide PushAll;
    assert (events + [e])[..|events|] == events;
  }

  lemma EmptyItself(events: seq<Event>, i: nat, text: bool, maxBytes: nat)
    requires i < |events| && Interrupts(events, i, text, maxBytes)
    ensures events[i].EmptyDelta()
  {
  }

  lemma SplitsNext(events: seq<Event>, e: Event, maxBytes: nat)
    ensures Splits(events + [e], maxBytes)
            <==> Splits(events, maxBytes)
                 || exists text: bool :: Interrupted(events, text, maxBytes) && IsKind(e, text) && !e.EmptyDelta()
  {
    hide PushAll, Interrupts;
    var n, all := |events|, events + [e];
    if Splits(all, maxBytes) {
      var i: nat, j: nat, text: bool :| i < j < |all| && Interrupts(all, i, text, maxBytes) && Resumes(all, i, j, text);
      InterruptsBefore(events, e, i, text, maxBytes);
      assert forall k | i < k < j :: all[k] == events[k];
      if j < n {
        assert Resumes(events, i, j, text);
      } else {
        assert Interrupted(events, text, maxBytes);
      }
    }
    if Splits(events, maxBytes) {
      var i: nat, j: nat, text: bool :| i < j < n && Interrupts(events, i, text, maxBytes)
        && Resumes(events, i, j, text);
      InterruptsBefore(events, e, i, text, maxBytes);
      assert Resumes(all, i, j, text);
    }
    if text: bool :| Interrupted(events, text, maxBytes) && IsKind(e, text) && !e.EmptyDelta() {
      var i: nat :| i < n && Interrupts(events, i, text, maxBytes) && forall k | i < k < n :: events[k].EmptyDelta();
      InterruptsBefore(events, e, i, text, maxBytes);
      assert Resumes(all, i, n, text);
    }
  }

  // How the coalescer's state follows.

  lemma MergedSnoc(out: seq<Event>, e: Event, maxBytes: nat)
    ensures Merged(out + [e], maxBytes)
            <==> && Merged(out, maxBytes) && !e.EmptyDelta()
                 && forall text: bool :: IsKind(e, text) ==> !ShortLast(out, text, maxBytes)
  {
    hide ByteLen;
    var all, n := out + [e], |out|;
    assert all[n] == e && forall i | 0 <= i < n :: all[i] == out[i];
    JoinsShort(out, e, maxBytes);
    if Merged(all, maxBytes) {
      forall i | 0 <= i < n - 1 ensures out[i].SameKind(out[i + 1]) ==> ByteLen(out[i].delta) >= maxBytes {
        assert all[i] == out[i] && all[i + 1] == out[i + 1];
      }
      assert n > 0 && all[n - 1].SameKind(all[n - 1 + 1]) ==> ByteLen(all[n - 1].delta) >= maxBytes;
    }
  }

  lemma JoinsShort(out: seq<Event>, e: Event, maxBytes: nat)
    ensures (forall text: bool :: IsKind(e, text) ==> !ShortLast(out, text, maxBytes))
            <==> (out != [] && out[|out| - 1].SameKind(e) ==> ByteLen(out[|out| - 1].delta) >= maxBytes)
  {
    assert IsKind(e, true) <==> e.TextDelta?;
    assert IsKind(e, false) <==> e.ReasoningDelta?;
    assert ShortLast(out, true, maxBytes) || !ShortLast(out, true, maxBytes);
    assert ShortLast(out, false, maxBytes) || !ShortLast(out, false, maxBytes);
  }

  function DeltaOut(text: bool, s: string): seq<Event> {
    if text then TextOut(s) else ReasoningOut(s)
  }

  function Fill(text: bool, s: string): Buffers {
    if text then Buffers(s, "") else Buffers("", s)
  }

  /** A delta's turn, for either kind. */
  lemma DeltaTurn(b: Buffers, e: Event, text: bool, maxBytes: nat)
    requires IsKind(e, text)
    ensures var s := Held(b, text) + e.delta;
            PushTurn(b, e, maxBytes)
            == if ByteLen(s) >= maxBytes then Turn(EMPTY, DeltaOut(!text, Held(b, !text)) + DeltaOut(text, s))
               else Turn(Fill(text, s), DeltaOut(!text, Held(b, !text)))
  {
    hide ByteLen;
  }

  lemma FlushFilled(text: bool, s: string)
    ensures FlushOut(Fill(text, s)) == DeltaOut(text, s)
  {
    assert [] + DeltaOut(text, s) == DeltaOut(text, s) == DeltaOut(text, s) + [];
  }

  /** An empty delta releases the other kind's buffer, or nothing. */
  lemma EmptyTurn(b: Buffers, e: Event, text: bool, maxBytes: nat)
    requires IsKind(e, text) && e.EmptyDelta() && b.OneEmpty()
    requires Held(b, text) != "" ==> ByteLen(Held(b, text)) < maxBytes
    ensures PushTurn(b, e, maxBytes)
            == if Held(b, !text) == "" then Turn(b, []) else Turn(EMPTY, DeltaOut(!text, Held(b, !text)))
    ensures var turn := PushTurn(b, e, maxBytes); turn.ready + FlushOut(turn.buffers) == FlushOut(b)
  {
    hide PushTurn, ByteLen;
    DeltaTurn(b, e, text, maxBytes);
    NoBytes();
    assert Held(b, text) + e.delta == Held(b, text);
    FlushFilled(!text, Held(b, !text));
    var out := DeltaOut(!text, Held(b, !text));
    assert DeltaOut(text, "") == [] && DeltaOut(!text, "") == [] && out + [] == out && [] + FlushOut(b) == FlushOut(b);
  }

  lemma EmptyNext(events: seq<Event>, all: Turn, e: Event, maxBytes: nat)
    requires all == PushAll(events, maxBytes) && Tracked(events, all, maxBytes) && e.EmptyDelta()
    ensures var turn := PushTurn(all.buffers, e, maxBytes);
            Tracked(events + [e], Turn(turn.buffers, all.ready + turn.ready), maxBytes)
  {
    hide PushAll, PushTurn, Interrupted, Splits, Merged, ByteLen, FlushOut;
    var b, text := all.buffers, e.TextDelta?;
    EmptyTurn(b, e, text, maxBytes);
    SplitsNext(events, e, maxBytes);
    var turn := PushTurn(b, e, maxBytes);
    Associative(all.ready, turn.ready, FlushOut(turn.buffers));
    forall k: bool
      ensures Interrupted(events + [e], k, maxBytes)
              <==> turn.buffers == EMPTY && ShortLast(all.ready + turn.ready, k, maxBytes)
    {
      InterruptedNext(events, e, k, maxBytes);
      EmptyShort(all, e, text, k, maxBytes);
    }
  }

  /** The empty delta leaves a short last delta of a kind exactly when it found one, with nothing
      buffered, or released one. */
  lemma EmptyShort(all: Turn, e: Event, text: bool, k: bool, maxBytes: nat)
    requires IsKind(e, text) && all.buffers.OneEmpty()
    requires Held(all.buffers, !text) != "" ==> ByteLen(Held(all.buffers, !text)) < maxBytes
    ensures var b, other := all.buffers, Held(all.buffers, !text);
            var ready := all.ready + if other == "" then [] else DeltaOut(!text, other);
            ((if other == "" then b else EMPTY) == EMPTY && ShortLast(ready, k, maxBytes))
            <==> (b == EMPTY && ShortLast(all.ready, k, maxBytes)) || (IsKind(e, !k) && Held(b, k) != "")
  {
    hide ByteLen;
    assert all.ready + [] == all.ready;
  }

  lemma NoBytes()
    ensures ByteLen("") == 0
  {
  }

  /** A non-empty delta comes out, now or later, behind what the other kind releases before it. */
  lemma DeltaComesOut(b: Buffers, e: Event, text: bool, maxBytes: nat) returns (released: Event)
    requires IsKind(e, text) && !e.EmptyDelta()
    ensures IsKind(released, text) && !released.EmptyDelta()
    ensures var turn := PushTurn(b, e, maxBytes);
            && turn.ready + FlushOut(turn.buffers) == DeltaOut(!text, Held(b, !text)) + [released]
            && turn.buffers.OneEmpty()
            && (turn.buffers.text != "" ==> ByteLen(turn.buffers.text) < maxBytes)
            && (turn.buffers.reasoning != "" ==> ByteLen(turn.buffers.reasoning) < maxBytes)
            && (turn.buffers == EMPTY ==>
                  && turn.ready != [] && turn.ready[|turn.ready| - 1] == released
                  && ByteLen(released.delta) >= maxBytes)
  {
    hide PushTurn, ByteLen;
    var s := Held(b, text) + e.delta;
    DeltaTurn(b, e, text, maxBytes);
    FlushFilled(text, s);
    FlushFilled(text, "");
    released := DeltaOut(text, s)[0];
    assert DeltaOut(text, s) == [released];
    assert FlushOut(EMPTY) == [];
  }

  /** A non-empty delta joins its buffer; it splits a run exactly after an interruption. */
  lemma DeltaNext(events: seq<Event>, all: Turn, e: Event, text: bool, maxBytes: nat)
    requires all == PushAll(events, maxBytes) && Tracked(events, all, maxBytes) && IsKind(e, text) && !e.EmptyDelta()
    ensures var turn := PushTurn(all.buffers, e, maxBytes);
            Tracked(events + [e], Turn(turn.buffers, all.ready + turn.ready), maxBytes)
  {
    hide PushAll, PushTurn, Interrupted, Splits, Merged, ByteLen, FlushOut;
    var turn := PushTurn(all.buffers, e, maxBytes);
    var released := DeltaComesOut(all.buffers, e, text, maxBytes);
    forall k: bool ensures !Interrupted(events + [e], k, maxBytes) {
      InterruptedNext(events, e, k, maxBytes);
    }
    SplitsNext(events, e, maxBytes);
    assert forall k: bool :: IsKind(e, k) ==> k == text;
    DeltaMerges(events, all, released, text, maxBytes);
    Associative(all.ready, turn.ready, FlushOut(turn.buffers));
    Associative(all.ready, DeltaOut(!text, Held(all.buffers, !text)), [released]);
  }

  /** Where the delta is released, behind what the other kind released before it. */
  lemma DeltaMerges(events: seq<Event>, all: Turn, released: Event, text: bool, maxBytes: nat)
    requires Tracked(events, all, maxBytes) && IsKind(released, text) && !released.EmptyDelta()
    ensures Merged(all.ready + DeltaOut(!text, Held(all.buffers, !text)) + [released], maxBytes)
            <==> !Splits(events, maxBytes) && !Interrupted(events, text, maxBytes)
  {
    hide PushAll, Interrupted, Splits, Merged, ByteLen;
    var b := all.buffers;
    var held, other := Held(b, text), Held(b, !text);
    FlushFilled(!text, other);
    FlushFilled(text, held);
    assert all.ready + [] == all.ready && DeltaOut(!text, "") == [];
    MergedSnoc(all.ready + DeltaOut(!text, other), released, maxBytes);
    if other != "" {
      assert b == Fill(!text, other);
    } else if held != "" {
      assert b == Fill(text, held) && DeltaOut(text, held) == [DeltaOut(text, held)[0]];
      MergedSnoc(all.ready, DeltaOut(text, held)[0], maxBytes);
    } else {
      assert b == EMPTY;
    }
  }

  lemma OtherNext(events: seq<Event>, all: Turn, e: Event, maxBytes: nat)
    requires all == PushAll(events, maxBytes) && Tracked(events, all, maxBytes) && e.Other?
    ensures var turn := PushTurn(all.buffers, e, maxBytes);
            Tracked(events + [e], Turn(turn.buffers, all.ready + turn.ready), maxBytes)
  {
    hide PushAll, Interrupted, Splits, Merged, ByteLen;
    var out := FlushOut(all.buffers);
    forall k: bool ensures !Interrupted(events + [e], k, maxBytes) {
      InterruptedNext(events, e, k, maxBytes);
    }
    SplitsNext(events, e, maxBytes);
    MergedSnoc(all.ready + out, e, maxBytes);
    Associative(all.ready, out, [e]);
    assert FlushOut(EMPTY) == [] && all.ready + (out + [e]) + [] == all.ready + (out + [e]);
  }

  lemma {:induction false} PushAllTracked(events: seq<Event>, maxBytes: nat)
    ensures Tracked(events, PushAll(events, maxBytes), maxBytes)
    decreases |events|
  {
    hide PushAll, PushTurn;
    if events == [] {
      NothingPushed(maxBytes);
    } else {
      hide Tracked;
      var n := |events| - 1;
      var first, e := events[..n], events[n];
      assert events == first + [e] && events[..n + 1] == events;
      PushAllTracked(first, maxBytes);
      PushAllStep(events, n, maxBytes);
      var all := PushAll(first, maxBytes);
      if e.Other? {
        OtherNext(first, all, e, maxBytes);
      } else if e.EmptyDelta() {
        EmptyNext(first, all, e, maxBytes);
      } else {
        DeltaNext(first, all, e, e.TextDelta?, maxBytes);
      }
    }
  }

  /** Coalescing goes as far as the limit allows if and only if no empty delta interrupts a filling
      buffer of the other kind that then goes on with nothing but empty deltas between. */
  lemma MergedExactly(events: seq<Event>, maxBytes: nat)
    ensures Merged(Coalesced(events, maxBytes), maxBytes) <==> !Splits(events, maxBytes)
  {
    PushAllTracked(events, maxBytes);
  }

  /** So it does for every stream without empty deltas... */
  lemma CoalescedMerges(events: seq<Event>, maxBytes: nat)
    requires forall i | 0 <= i < |events| :: !events[i].EmptyDelta()
    ensures Merged(Coalesced(events, maxBytes), maxBytes)
  {
    hide PushAll;
    MergedExactly(events, maxBytes);
    assert forall i: nat, text: bool | i < |events| :: !Interrupts(events, i, text, maxBytes);
  }

  /** ...and not when an empty delta of the other kind comes between two short ones. */
  lemma EmptyDeltaSplits(a: string, b: string, maxBytes: nat)
    requires a != "" && b != "" && ByteLen(a) < maxBytes && ByteLen(b) < maxBytes
    ensures var out := Coalesced([TextDelta(a), ReasoningDelta(""), TextDelta(b)], maxBytes);
            out == [TextDelta(a), TextDelta(b)] && !Merged(out, maxBytes)
  {
    hide PushAll, PushTurn, Coalesced, ByteLen;
    var events := [TextDelta(a), ReasoningDelta(""), TextDelta(b)];
    EmptyDeltaOutput(a, b, maxBytes);
    PushedOne(events, a, maxBytes);
    assert Interrupts(events, 1, true, maxBytes) && Resumes(events, 1, 2, true);
    MergedExactly(events, maxBytes);
  }

  lemma EmptyDeltaOutput(a: string, b: string, maxBytes: nat)
    requires a != "" && b != "" && ByteLen(a) < maxBytes && ByteLen(b) < maxBytes
    ensures Coalesced([TextDelta(a), ReasoningDelta(""), TextDelta(b)], maxBytes) == [TextDelta(a), TextDelta(b)]
  {
    hide PushAll, PushTurn, ByteLen;
    var events := [TextDelta(a), ReasoningDelta(""), TextDelta(b)];
    ShortTurns(a, maxBytes);
    ShortTurns(b, maxBytes);
    PushedOne(events, a, maxBytes);
    PushAllStep(events, 1, maxBytes);
    assert PushAll(events[..2], maxBytes) == Turn(EMPTY, [TextDelta(a)]);
    PushAllStep(events, 2, maxBytes);
    assert events[..3] == events;
  }

  lemma PushedOne(events: seq<Event>, a: string, maxBytes: nat)
    requires events != [] && events[0] == TextDelta(a) && a != "" && ByteLen(a) < maxBytes
    ensures PushAll(events[..1], maxBytes) == Turn(Buffers(a, ""), [])
  {
    hide PushAll, PushTurn, ByteLen;
    NothingPushed(maxBytes);
    assert events[..0] == [];
    ShortTurns(a, maxBytes);
    PushAllStep(events, 0, maxBytes);
  }

  lemma ShortTurns(s: string, maxBytes: nat)
    requires s != "" && ByteLen(s) < maxBytes
    ensures PushTurn(EMPTY, TextDelta(s), maxBytes) == Turn(Buffers(s, ""), [])
    ensures PushTurn(Buffers(s, ""), ReasoningDelta(""), maxBytes) == Turn(EMPTY, [TextDelta(s)])
  {
    assert "" + s == s && "" + "" == "";
  }
}
