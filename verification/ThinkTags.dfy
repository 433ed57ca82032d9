/** The splitter that turns a model's text stream, cut into arbitrary deltas, into Text and
    Reasoning parts around `<think>` and `</think>`. The reference is `Scan`, a parser that
    sees the whole text at once and moves one character at a time. */
module ThinkTags {
  import opened Strings

  datatype Kind = Text | Reasoning

  datatype Part = Part(kind: Kind, text: string)

  /** One emitted character with the kind it was emitted under. */
  datatype Cell = Cell(kind: Kind, ch: char)

  /** The pair of tags. */
  datatype TagPair = TagPair(open: string, close: string) {
    /** The tag looked for: the closing one inside a think block, else the opening one. */
    function At(inside: bool): string {
      if inside then close else open
    }
  }

  type Tags = t: TagPair | t.open != "" && t.close != "" witness TagPair("<", ">")

  const THINK_TAGS: Tags := TagPair("<think>", "</think>")

  function KindOf(inside: bool): Kind {
    if inside then Reasoning else Text
  }

  function Cells(kind: Kind, text: string): (cells: seq<Cell>)
    ensures |cells| == |text|
    ensures forall i | 0 <= i < |text| :: cells[i] == Cell(kind, text[i])
  {
    if text == "" then [] else [Cell(kind, text[0])] + Cells(kind, text[1..])
  }

  // ----- the one-shot reference parser ----------------------------------------

  /** What a parse of a whole text yields: its characters without the tags, the final mode, the
      text after the last tag, and how many tags of each sort were consumed. */
  datatype Scanned = Scanned(cells: seq<Cell>, inside: bool, tail: string, opens: nat, closes: nat) {
    predicate Tagless() {
      opens == 0 && closes == 0
    }

    /** This parse, preceded by `text` emitted under `kind` with no tag in between. */
    function After(kind: Kind, text: string): Scanned {
      Scanned(Cells(kind, text) + cells, inside, if Tagless() then text + tail else tail, opens, closes)
    }

    /** This parse, preceded by a tag. */
    function AfterTag(closing: bool): Scanned {
      if closing then this.(closes := closes + 1) else this.(opens := opens + 1)
    }
  }

  function Scan(tags: Tags, inside: bool, text: string): Scanned
    decreases |text|
  {
    if text == "" then Scanned([], inside, "", 0, 0)
    else if OccursAt(text, tags.At(inside), 0) then
      Scan(tags, !inside, text[|tags.At(inside)|..]).AfterTag(inside)
    else
      Scan(tags, inside, text[1..]).After(KindOf(inside), text[..1])
  }

  // ----- the splitter ----------------------------------------------------------

  predicate SuffixStarts(buffer: string, tag: string, length: nat) {
    length <= |buffer| && OccursAt(tag, buffer[|buffer| - length..], 0)
  }

  /** `partial_tag_prefix_len`: the length of the longest suffix of `buffer` that is a proper
      prefix of `tag`. */
  function PartialTagPrefixLen(buffer: string, tag: string): (k: nat)
    ensures k <= |buffer| && (k == 0 || k < |tag|) && SuffixStarts(buffer, tag, k)
    ensures forall j: nat | k < j < |tag| :: !SuffixStarts(buffer, tag, j)
  {
    LongestFrom(buffer, tag, if |buffer| < |tag| then |buffer| else if |tag| == 0 then 0 else |tag| - 1)
  }

  function LongestFrom(buffer: string, tag: string, length: nat): (k: nat)
    requires length <= |buffer| && (length == 0 || length < |tag|)
    ensures k <= length && SuffixStarts(buffer, tag, k)
    ensures forall j: nat | k < j <= length :: !SuffixStarts(buffer, tag, j)
  {
    if length == 0 || SuffixStarts(buffer, tag, length) then length else LongestFrom(buffer, tag, length - 1)
  }

  /** What feeding text to a splitter yields: the characters released and the new state. */
  datatype Outcome = Outcome(cells: seq<Cell>, inside: bool, pending: string) {
    function After(earlier: seq<Cell>): Outcome {
      this.(cells := earlier + cells)
    }
  }

  /** The longest suffix of `buffer` that is a proper prefix of `tag`. */
  function Pending(buffer: string, tag: string): (held: string)
    ensures |held| <= |buffer| && held == buffer[|buffer| - |held|..]
    ensures |held| == PartialTagPrefixLen(buffer, tag)
  {
    buffer[|buffer| - PartialTagPrefixLen(buffer, tag)..]
  }

  /** A parse minus its held tail. */
  function Hold(tags: Tags, r: Scanned): Outcome
    requires |r.tail| <= |r.cells|
  {
    var held := Pending(r.tail, tags.At(r.inside));
    Outcome(r.cells[..|r.cells| - |held|], r.inside, held)
  }

  /** The reference parse of `text` minus its held tail. */
  function Released(tags: Tags, inside: bool, text: string): Outcome {
    ScanTail(tags, inside, text);
    Hold(tags, Scan(tags, inside, text))
  }

  /** The facts about a parse that later proofs need. */
  predicate TailFacts(tags: Tags, inside: bool, text: string, r: Scanned) {
    && |r.tail| <= |r.cells|
    && |r.tail| <= |text|
    && text[|text| - |r.tail|..] == r.tail
    && (if r.Tagless() then |r.tail| == |text| == |r.cells| && r.inside == inside
        else |r.tail| < |text| && |tags.At(inside)| <= |text|)
  }

  lemma {:induction false} ScanTail(tags: Tags, inside: bool, text: string)
    ensures TailFacts(tags, inside, text, Scan(tags, inside, text))
    decreases |text|
  {
    if text == "" {
    } else if OccursAt(text, tags.At(inside), 0) {
      var rest := text[|tags.At(inside)|..];
      ScanTail(tags, !inside, rest);
      TailAfterTag(tags, inside, text, Scan(tags, !inside, rest));
    } else {
      ScanTail(tags, inside, text[1..]);
      TailAfterChar(tags, inside, text, Scan(tags, inside, text[1..]));
    }
  }

  lemma TailAfterTag(tags: Tags, inside: bool, text: string, r: Scanned)
    requires OccursAt(text, tags.At(inside), 0) && TailFacts(tags, !inside, text[|tags.At(inside)|..], r)
    ensures TailFacts(tags, inside, text, r.AfterTag(inside))
  {
  }

  lemma TailAfterChar(tags: Tags, inside: bool, text: string, r: Scanned)
    requires text != "" && TailFacts(tags, inside, text[1..], r)
    ensures TailFacts(tags, inside, text, r.After(KindOf(inside), text[..1]))
  {
    if r.Tagless() {
      assert text[1..][0..] == text[1..] == r.tail;
      assert text[..1] + text[1..] == text == text[0..];
    }
  }

  // ----- cutting a text in two --------------------------------------------------

  /** The parse of `a + b`, given the parse `r` of `a`, the number `k` of its last characters
      that are held, and the parse `s` of the held characters followed by `b`. */
  function Joined(r: Scanned, k: nat, b: string, s: Scanned): Scanned
    requires k <= |r.tail| <= |r.cells|
  {
    Scanned(r.cells[..|r.cells| - k] + s.cells, s.inside, if s.Tagless() then r.tail + b else s.tail,
            r.opens + s.opens, r.closes + s.closes)
  }

  /** `held` is what stays pending after the parse `r`. */
  predicate IsHeld(tags: Tags, r: Scanned, held: string) {
    |r.tail| <= |r.cells| && held == Pending(r.tail, tags.At(r.inside))
  }

  lemma HeldAfterChar(tags: Tags, kind: Kind, c: string, r: Scanned, held: string)
    requires IsHeld(tags, r, held)
    requires r.Tagless() ==> |Pending(c + r.tail, tags.At(r.inside))| == |held|
    ensures IsHeld(tags, r.After(kind, c), held)
  {
    hide Pending, PartialTagPrefixLen, Cells;
    DropLast(c, r.tail, |held|);
  }

  lemma JoinedAfterChar(kind: Kind, c: string, r: Scanned, k: nat, b: string, s: Scanned)
    requires k <= |r.tail| <= |r.cells|
    ensures |r.After(kind, c).tail| <= |r.After(kind, c).cells|
    ensures Joined(r.After(kind, c), k, b, s) == Joined(r, k, b, s).After(kind, c)
  {
    hide Cells;
    DropLast(Cells(kind, c), r.cells, k);
    Associative(Cells(kind, c), r.cells[..|r.cells| - k], s.cells);
    Associative(c, r.tail, b);
  }

  lemma JoinedAfterTag(tags: Tags, inside: bool, r: Scanned, held: string, b: string, s: Scanned)
    requires IsHeld(tags, r, held)
    ensures IsHeld(tags, r.AfterTag(inside), held)
    ensures Joined(r.AfterTag(inside), |held|, b, s) == Joined(r, |held|, b, s).AfterTag(inside)
  {
    hide Pending, PartialTagPrefixLen, Joined;
    HeldShort(tags, r, held);
    JoinedCounts(inside, r, |held|, b, s);
  }

  lemma JoinedCounts(closing: bool, r: Scanned, k: nat, b: string, s: Scanned)
    requires k <= |r.tail| <= |r.cells|
    ensures Joined(r.AfterTag(closing), k, b, s) == Joined(r, k, b, s).AfterTag(closing)
  {
  }

  lemma SuffixShift(buffer: string, tag: string, j: nat)
    requires j < |buffer|
    ensures SuffixStarts(buffer, tag, j) <==> SuffixStarts(buffer[1..], tag, j)
  {
    hide OccursAt;
    assert buffer[|buffer| - j..] == buffer[1..][|buffer| - 1 - j..];
  }

  /** A longer buffer holds the same suffix, unless it is itself a proper prefix of the tag. */
  lemma HeldByRest(buffer: string, tag: string)
    requires buffer != "" && PartialTagPrefixLen(buffer, tag) < |buffer|
    ensures PartialTagPrefixLen(buffer[1..], tag) == PartialTagPrefixLen(buffer, tag)
  {
    hide SuffixStarts;
    var k, k' := PartialTagPrefixLen(buffer, tag), PartialTagPrefixLen(buffer[1..], tag);
    SuffixShift(buffer, tag, k);
    SuffixShift(buffer, tag, k');
  }

  /** If no tag starts `a`, and `a` is not itself held, no tag starts any continuation of `a`. */
  lemma NoTagAtStart(a: string, b: string, tag: string)
    requires !OccursAt(a, tag, 0)
    requires |tag| <= |a| || PartialTagPrefixLen(a, tag) < |a|
    ensures !OccursAt(a + b, tag, 0)
  {
    if |tag| <= |a| {
      assert (a + b)[..|tag|] == a[..|tag|];
    } else {
      assert a[0..] == a;
      assert !SuffixStarts(a, tag, |a|);
      assert |tag| <= |a + b| ==> (a + b)[..|tag|][..|a|] == a;
    }
  }

  /** `held` stays pending after `a`, and the parse of `a + b` is the parse of `a` without it,
      followed by the parse of `held + b` from the mode reached. */
  predicate SplitsAt(tags: Tags, inside: bool, a: string, b: string, held: string) {
    var r := Scan(tags, inside, a);
    && IsHeld(tags, r, held)
    && Scan(tags, inside, a + b) == Joined(r, |held|, b, Scan(tags, r.inside, held + b))
  }

  lemma {:induction false} ScanAppend(tags: Tags, inside: bool, a: string, b: string) returns (held: string)
    ensures SplitsAt(tags, inside, a, b, held)
    decreases |a|, 1
  {
    hide Scan, SplitsAt;
    var tag := tags.At(inside);
    if a == "" {
      held := "";
      EmptySplits(tags, inside, b);
    } else if OccursAt(a, tag, 0) {
      held := ScanAppend(tags, !inside, a[|tag|..], b);
      TagSplits(tags, inside, a, b, held);
    } else {
      ScanTail(tags, inside, a[1..]);
      ScanAtChar(tags, inside, a);
      if Scan(tags, inside, a[1..]).Tagless() && PartialTagPrefixLen(a, tag) == |a| {
        held := a;
        WhollyHeld(tags, inside, a, b);
      } else {
        held := ScanAppend(tags, inside, a[1..], b);
        CharSplits(tags, inside, a, b, held);
      }
    }
  }

  lemma ScanAtTag(tags: Tags, inside: bool, text: string)
    requires OccursAt(text, tags.At(inside), 0)
    ensures Scan(tags, inside, text) == Scan(tags, !inside, text[|tags.At(inside)|..]).AfterTag(inside)
  {
  }

  lemma ScanAtChar(tags: Tags, inside: bool, text: string)
    requires text != "" && !OccursAt(text, tags.At(inside), 0)
    ensures Scan(tags, inside, text) == Scan(tags, inside, text[1..]).After(KindOf(inside), text[..1])
  {
  }

  lemma EmptySplits(tags: Tags, inside: bool, b: string)
    ensures SplitsAt(tags, inside, "", b, "")
  {
    hide Scan;
    ScanEmpty(tags, inside);
    ScanTail(tags, inside, b);
    Rejoin(b, 0);
    assert "" + b == b;
    JoinedToNothing(inside, b, Scan(tags, inside, b));
  }

  lemma JoinedToNothing(inside: bool, b: string, s: Scanned)
    requires s.Tagless() ==> s.tail == b
    ensures Joined(Scanned([], inside, "", 0, 0), 0, b, s) == s
  {
    assert [] + s.cells == s.cells && "" + b == b;
  }

  lemma TagSplits(tags: Tags, inside: bool, a: string, b: string, held: string)
    requires OccursAt(a, tags.At(inside), 0)
    requires SplitsAt(tags, !inside, a[|tags.At(inside)|..], b, held)
    ensures SplitsAt(tags, inside, a, b, held)
  {
    hide Scan, Joined, IsHeld;
    var rest := a[|tags.At(inside)|..];
    var r := Scan(tags, !inside, rest);
    HeldShort(tags, r, held);
    JoinedAfterTag(tags, inside, r, held, b, Scan(tags, r.inside, held + b));
    SplitConcat(a, b, |tags.At(inside)|);
    ScanAtTag(tags, inside, a);
    ScanAtTag(tags, inside, a + b);
  }

  lemma HeldShort(tags: Tags, r: Scanned, held: string)
    requires IsHeld(tags, r, held)
    ensures |held| <= |r.tail| <= |r.cells|
  {
  }

  lemma CharSplits(tags: Tags, inside: bool, a: string, b: string, held: string)
    requires a != "" && !OccursAt(a, tags.At(inside), 0)
    requires Scan(tags, inside, a[1..]).Tagless() ==> PartialTagPrefixLen(a, tags.At(inside)) < |a|
    requires SplitsAt(tags, inside, a[1..], b, held)
    ensures SplitsAt(tags, inside, a, b, held)
  {
    hide Scan, PartialTagPrefixLen;
    var tag, r := tags.At(inside), Scan(tags, inside, a[1..]);
    ScanTail(tags, inside, a[1..]);
    Rejoin(a, 1);
    Rejoin(a[1..], 0);
    if r.Tagless() {
      HeldByRest(a, tag);
    }
    HeldAfterChar(tags, KindOf(inside), a[..1], r, held);
    JoinedAfterChar(KindOf(inside), a[..1], r, |held|, b, Scan(tags, r.inside, held + b));
    ScanAtChar(tags, inside, a);
    NoTagAtStart(a, b, tag);
    SplitConcat(a, b, 1);
    ScanAtChar(tags, inside, a + b);
  }

  lemma WhollyHeld(tags: Tags, inside: bool, a: string, b: string)
    requires Scan(tags, inside, a).Tagless()
    requires PartialTagPrefixLen(a, tags.At(inside)) == |a|
    ensures SplitsAt(tags, inside, a, b, a)
  {
    hide Scan;
    ScanTail(tags, inside, a);
    ScanTail(tags, inside, a + b);
    var r, s := Scan(tags, inside, a), Scan(tags, inside, a + b);
    assert a[0..] == a && (a + b)[0..] == a + b && r.cells[..0] + s.cells == s.cells;
  }

  // ----- chunking does not matter ------------------------------------------------

  /** Text before the held tail cannot lengthen what is held later. */
  lemma HeldAppend(tail: string, b: string, tag: string)
    ensures Pending(tail + b, tag) == Pending(Pending(tail, tag) + b, tag)
  {
    hide SuffixStarts;
    var held := Pending(tail, tag);
    var long, short := PartialTagPrefixLen(tail + b, tag), PartialTagPrefixLen(held + b, tag);
    SameSuffix(tail, held, b, tag, short);
    if long <= |held| + |b| {
      SameSuffix(tail, held, b, tag, long);
    } else {
      SuffixEarlier(tail, b, tag, long);
    }
  }

  lemma SameSuffix(tail: string, held: string, b: string, tag: string, j: nat)
    requires |held| <= |tail| && held == tail[|tail| - |held|..] && j <= |held| + |b|
    ensures (tail + b)[|tail + b| - j..] == (held + b)[|held + b| - j..]
    ensures SuffixStarts(tail + b, tag, j) <==> SuffixStarts(held + b, tag, j)
  {
    hide OccursAt;
    assert (tail + b)[|tail + b| - j..] == (held + b)[|held + b| - j..];
  }

  lemma SuffixEarlier(tail: string, b: string, tag: string, j: nat)
    requires |b| <= j && SuffixStarts(tail + b, tag, j)
    ensures SuffixStarts(tail, tag, j - |b|)
  {
    var i := j - |b|;
    assert (tail + b)[|tail + b| - j..] == tail[|tail| - i..] + b;
    assert tag[..j][..i] == tag[..i];
  }

  /** Feeding `a + b` at once is feeding `a`, then `b`. */
  lemma ReleasedAppend(tags: Tags, inside: bool, a: string, b: string)
    ensures var o := Released(tags, inside, a);
            Released(tags, inside, a + b) == Released(tags, o.inside, o.pending + b).After(o.cells)
  {
    hide Scan, Hold;
    var held := ScanAppend(tags, inside, a, b);
    var r := Scan(tags, inside, a);
    var s := Scan(tags, r.inside, held + b);
    ScanTail(tags, r.inside, held + b);
    JoinedHeld(tags, r, held, b, s);
    HoldIs(tags, r, held);
  }

  lemma HoldIs(tags: Tags, r: Scanned, held: string)
    requires IsHeld(tags, r, held)
    ensures Hold(tags, r) == Outcome(r.cells[..|r.cells| - |held|], r.inside, held)
  {
  }

  lemma SameTailHeld(tags: Tags, r: Scanned, held: string, b: string, s: Scanned)
    requires IsHeld(tags, r, held) && TailFacts(tags, r.inside, held + b, s)
    ensures |s.tail| <= |s.cells|
    ensures var whole := Joined(r, |held|, b, s);
            && |whole.tail| <= |whole.cells|
            && Pending(whole.tail, tags.At(whole.inside)) == Pending(s.tail, tags.At(s.inside))
  {
    hide Pending, PartialTagPrefixLen;
    if s.Tagless() {
      Rejoin(held + b, 0);
      HeldAppend(r.tail, b, tags.At(r.inside));
    }
  }

  lemma JoinedHeld(tags: Tags, r: Scanned, held: string, b: string, s: Scanned)
    requires IsHeld(tags, r, held) && TailFacts(tags, r.inside, held + b, s)
    ensures var whole := Joined(r, |held|, b, s);
            && |whole.tail| <= |whole.cells|
            && Hold(tags, whole) == Hold(tags, s).After(r.cells[..|r.cells| - |held|])
  {
    hide Pending, PartialTagPrefixLen, TailFacts;
    SameTailHeld(tags, r, held, b, s);
    DropLast(r.cells[..|r.cells| - |held|], s.cells, |Pending(s.tail, tags.At(s.inside))|);
  }

  /** Feeding one delta to a splitter that has released `o.cells` so far. */
  function Feed(tags: Tags, o: Outcome, delta: string): Outcome {
    Released(tags, o.inside, o.pending + delta).After(o.cells)
  }

  function FeedAll(tags: Tags, inside: bool, deltas: seq<string>): Outcome {
    if deltas == [] then Outcome([], inside, "")
    else Feed(tags, FeedAll(tags, inside, deltas[..|deltas| - 1]), deltas[|deltas| - 1])
  }

  function Concat(deltas: seq<string>): string {
    if deltas == [] then "" else Concat(deltas[..|deltas| - 1]) + deltas[|deltas| - 1]
  }

  /** However a text is cut into deltas, the splitter ends in the state, and has released the
      characters, of the reference parse of the whole text minus its held tail. */
  lemma {:induction false} ChunkingIrrelevant(tags: Tags, inside: bool, deltas: seq<string>, text: string)
    requires text == Concat(deltas)
    ensures FeedAll(tags, inside, deltas) == Released(tags, inside, text)
  {
    if deltas != [] {
      var before := Concat(deltas[..|deltas| - 1]);
      ChunkingIrrelevant(tags, inside, deltas[..|deltas| - 1], before);
      ReleasedAppend(tags, inside, before, deltas[|deltas| - 1]);
    }
  }

  // ----- texts between tags --------------------------------------------------------

  /** The tag that ends a segment: `<think>` ends text, `</think>` ends reasoning. */
  function Ending(reasoning: bool): string {
    if reasoning then "</think>" else "<think>"
  }

  /** Segments with their tags between them; `reasoning` says of which sort the first one is. */
  function Woven(segments: seq<string>, reasoning: bool): string
    requires segments != []
  {
    if |segments| == 1 then segments[0]
    else segments[0] + (Ending(reasoning) + Woven(segments[1..], !reasoning))
  }

  /** The characters of the segments, in turns text and reasoning. */
  function Shown(segments: seq<string>, reasoning: bool): seq<Cell> {
    if segments == [] then []
    else Cells(if reasoning then Reasoning else Text, segments[0]) + Shown(segments[1..], !reasoning)
  }

  /** The tag that ends a segment does not occur earlier, and does not occur in the last one. */
  predicate Leftmost(segments: seq<string>, reasoning: bool)
    requires segments != []
  {
    var tag := Ending(reasoning);
    if |segments| == 1 then !Occurs(segments[0], tag)
    else
      && (forall j: nat | j < |segments[0]| :: !OccursAt(segments[0] + tag, tag, j))
      && Leftmost(segments[1..], !reasoning)
  }

  /** What a parse finds in a text: the segments are its text and reasoning in turns. */
  predicate Finds(r: Scanned, segments: seq<string>, reasoning: bool) {
    && segments != []
    && r.cells == Shown(segments, reasoning) && r.tail == segments[|segments| - 1]
    && r.inside == (if |segments| % 2 == 1 then reasoning else !reasoning)
    && r.opens + r.closes == |segments| - 1
  }

  /** The parse of a text is its segments: reasoning stands between `<think>` and the next
      `</think>`, and everything else is text. */
  lemma {:induction false} ScanFinds(segments: seq<string>, reasoning: bool)
    requires segments != [] && Leftmost(segments, reasoning)
    ensures Finds(Scan(THINK_TAGS, reasoning, Woven(segments, reasoning)), segments, reasoning)
    decreases |segments|
  {
    hide Scan;
    var first, tag := segments[0], Ending(reasoning);
    assert tag == THINK_TAGS.At(reasoning);
    if |segments| == 1 {
      NoTagScan(THINK_TAGS, reasoning, first);
      assert Shown(segments, reasoning) == Cells(KindOf(reasoning), first) + [] == Cells(KindOf(reasoning), first);
    } else {
      var rest := Woven(segments[1..], !reasoning);
      ScanFinds(segments[1..], !reasoning);
      FirstTag(first, tag, rest);
      ScanEmits(THINK_TAGS, reasoning, first + (tag + rest), |first|);
      SplitConcat(first, tag + rest, |first|);
      assert first[|first|..] + (tag + rest) == tag + rest && first[..|first|] == first;
      TagFirst(tag, rest);
      ScanAtTag(THINK_TAGS, reasoning, tag + rest);
    }
  }

  lemma FirstTag(first: string, tag: string, rest: string)
    requires forall j: nat | j < |first| :: !OccursAt(first + tag, tag, j)
    ensures forall j: nat | j < |first| :: !OccursAt(first + (tag + rest), tag, j)
  {
    forall j: nat | j < |first| ensures !OccursAt(first + (tag + rest), tag, j) {
      Associative(first, tag, rest);
      OccursInside(first + tag, rest, tag, j);
    }
  }

  lemma TagFirst(tag: string, rest: string)
    ensures OccursAt(tag + rest, tag, 0) && (tag + rest)[|tag|..] == rest
  {
  }

  /** Every text has such segments. */
  lemma {:induction false} SegmentsExist(text: string, reasoning: bool) returns (segments: seq<string>)
    ensures segments != [] && Woven(segments, reasoning) == text && Leftmost(segments, reasoning)
    decreases |text|
  {
    var tag := Ending(reasoning);
    var found := Find(text, tag);
    if found.None? {
      segments := [text];
    } else {
      var i := found.value;
      var first := text[..i];
      var more := SegmentsExist(text[i + |tag|..], !reasoning);
      segments := [first] + more;
      assert segments[1..] == more;
      assert text == first + (tag + text[i + |tag|..]);
      EndsFirst(text, tag, i);
    }
  }

  /** What a fresh splitter has released of a text are the characters of its segments, all but the
      held end of the last one. */
  ghost predicate Shows(o: Outcome, segments: seq<string>, text: string) {
    && segments != [] && Woven(segments, false) == text && Leftmost(segments, false)
    && o.inside == (|segments| % 2 == 0)
    && |o.pending| <= |segments[|segments| - 1]| <= |Shown(segments, false)|
    && o.pending == segments[|segments| - 1][|segments[|segments| - 1]| - |o.pending|..]
    && o.cells == Shown(segments, false)[..|Shown(segments, false)| - |o.pending|]
  }

  lemma ReleasedShows(text: string) returns (segments: seq<string>)
    ensures Shows(Released(THINK_TAGS, false, text), segments, text)
  {
    hide Scan, Woven, Leftmost, Shown, PartialTagPrefixLen;
    segments := SegmentsExist(text, false);
    ScanFinds(segments, false);
    ScanTail(THINK_TAGS, false, text);
  }

  /** Without `<` in the segments nothing is held, so all of them are shown. */
  lemma PlainSegments(segments: seq<string>)
    requires segments != [] && forall s | s in segments :: '<' !in s
    ensures Released(THINK_TAGS, false, Woven(segments, false))
            == Outcome(Shown(segments, false), |segments| % 2 == 0, "")
  {
    hide Scan, Woven, Leftmost, Shown, Pending;
    PlainLeftmost(segments, false);
    ScanFinds(segments, false);
    ScanTail(THINK_TAGS, false, Woven(segments, false));
    var r := Scan(THINK_TAGS, false, Woven(segments, false));
    HoldsNothing(THINK_TAGS, r);
  }

  lemma HoldsNothing(tags: Tags, r: Scanned)
    requires |r.tail| <= |r.cells| && tags.At(r.inside)[0] !in r.tail
    ensures Hold(tags, r) == Outcome(r.cells, r.inside, "")
  {
    hide PartialTagPrefixLen;
    HeldStartsTag(r.tail, tags.At(r.inside));
  }

  lemma HeldStartsTag(text: string, tag: string)
    requires tag != ""
    ensures PartialTagPrefixLen(text, tag) > 0 ==> tag[0] in text
  {
    var k := PartialTagPrefixLen(text, tag);
    if k > 0 {
      var held := text[|text| - k..];
      assert held[0] == text[|text| - k] && tag[0..k][0] == tag[0];
    }
  }

  lemma {:induction false} PlainLeftmost(segments: seq<string>, reasoning: bool)
    requires segments != [] && forall s | s in segments :: '<' !in s
    ensures Leftmost(segments, reasoning)
    decreases |segments|
  {
    var first, tag := segments[0], Ending(reasoning);
    StartsElsewhere(first, "", tag);
    StartsElsewhere(first, tag, tag);
    assert first + "" == first;
    if |segments| > 1 {
      PlainLeftmost(segments[1..], !reasoning);
    }
  }

  lemma StartsElsewhere(s: string, rest: string, tag: string)
    requires tag != "" && tag[0] !in s
    ensures forall j: nat | j < |s| :: !OccursAt(s + rest, tag, j)
  {
    forall j: nat | j < |s| ensures !OccursAt(s + rest, tag, j) {
      assert s[j] in s && (s + rest)[j] == s[j];
      HeadDiffers(s + rest, tag, j);
    }
  }

  /** The commonest text: what stands between the two tags is reasoning, the rest is text. */
  lemma OneThought(before: string, thought: string, after: string)
    requires '<' !in before && '<' !in thought && '<' !in after
    ensures Released(THINK_TAGS, false, before + ("<think>" + (thought + ("</think>" + after))))
            == Outcome(Cells(Text, before) + (Cells(Reasoning, thought) + Cells(Text, after)), false, "")
  {
    hide Released, Cells;
    var segments := [before, thought, after];
    PlainSegments(segments);
    assert segments[1..] == [thought, after] && [thought, after][1..] == [after] && [after][1..] == [];
    assert Woven([after], false) == after;
    assert Woven([thought, after], true) == thought + ("</think>" + after);
    assert Shown([after], false) == Cells(Text, after) + [] == Cells(Text, after);
    assert Shown([thought, after], true) == Cells(Reasoning, thought) + Cells(Text, after);
  }

  // ----- what is held, and why -----------------------------------------------------

  /** Whatever text follows, the parse of the whole starts with what was released. */
  lemma ReleasedIsCertain(tags: Tags, inside: bool, text: string, more: string)
    ensures Released(tags, inside, text).cells <= Scan(tags, inside, text + more).cells
  {
    hide Scan, PartialTagPrefixLen;
    var held := ScanAppend(tags, inside, text, more);
  }

  /** Nothing more could have been released: one continuation turns all held characters into a
      tag, and its parse has exactly the released characters. */
  lemma HeldIsUncertain(tags: Tags, inside: bool, text: string)
    requires Released(tags, inside, text).pending != ""
    ensures var o := Released(tags, inside, text);
            && o.pending <= tags.At(o.inside)
            && Scan(tags, inside, text + tags.At(o.inside)[|o.pending|..]).cells == o.cells
  {
    var r := Scan(tags, inside, text);
    var tag := tags.At(r.inside);
    var o := Released(tags, inside, text);
    assert OccursAt(tag, o.pending, 0);
    var held := ScanAppend(tags, inside, text, tag[|o.pending|..]);
    WholeTag(tags, r.inside);
    Rejoin(tag, |held|);
  }

  lemma WholeTag(tags: Tags, inside: bool)
    ensures Scan(tags, inside, tags.At(inside)).cells == []
  {
    var tag := tags.At(inside);
    assert OccursAt(tag, tag, 0) && tag[|tag|..] == "";
    ScanAtTag(tags, inside, tag);
  }

  /** Every input character is released, consumed in a tag, or pending; tags alternate. */
  lemma {:induction false} Conservation(inside: bool, text: string)
    ensures var o, r := Released(THINK_TAGS, inside, text), Scan(THINK_TAGS, inside, text);
            && |text| == |o.cells| + 7 * r.opens + 8 * r.closes + |o.pending|
            && |o.pending| < |THINK_TAGS.At(o.inside)|
            && (if inside then 1 else 0) + r.opens == (if o.inside then 1 else 0) + r.closes
  {
    hide Scan;
    ScanConserves(inside, text);
    ScanTail(THINK_TAGS, inside, text);
  }

  lemma {:induction false} ScanConserves(inside: bool, text: string)
    ensures var r := Scan(THINK_TAGS, inside, text);
            && |text| == |r.cells| + 7 * r.opens + 8 * r.closes
            && (if inside then 1 else 0) + r.opens == (if r.inside then 1 else 0) + r.closes
    decreases |text|
  {
    hide Scan;
    if text == "" {
      assert Scan(THINK_TAGS, inside, text) == Scanned([], inside, "", 0, 0) by { ScanEmpty(THINK_TAGS, inside); }
    } else if OccursAt(text, THINK_TAGS.At(inside), 0) {
      ScanAtTag(THINK_TAGS, inside, text);
      ScanConserves(!inside, text[|THINK_TAGS.At(inside)|..]);
    } else {
      ScanAtChar(THINK_TAGS, inside, text);
      ScanConserves(inside, text[1..]);
    }
  }

  lemma ScanEmpty(tags: Tags, inside: bool)
    ensures Scan(tags, inside, "") == Scanned([], inside, "", 0, 0)
  {
  }

  // ----- parts ----------------------------------------------------------------------

  function Flatten(parts: seq<Part>): seq<Cell> {
    if parts == [] then [] else Flatten(parts[..|parts| - 1]) + Cells(parts[|parts| - 1].kind, parts[|parts| - 1].text)
  }

  /** Parts are non-empty and adjacent parts differ in kind. */
  predicate Canonical(parts: seq<Part>) {
    && (forall i | 0 <= i < |parts| :: parts[i].text != "")
    && (forall i | 0 <= i < |parts| - 1 :: parts[i].kind != parts[i + 1].kind)
  }

  /** `push_debug_delta_part`: append, merging into the last part when the kinds agree. */
  function PushPart(parts: seq<Part>, kind: Kind, text: string): seq<Part> {
    if text == "" then parts
    else if parts != [] && parts[|parts| - 1].kind == kind then
      parts[..|parts| - 1] + [Part(kind, parts[|parts| - 1].text + text)]
    else parts + [Part(kind, text)]
  }

  lemma CellsConcat(kind: Kind, a: string, b: string)
    ensures Cells(kind, a + b) == Cells(kind, a) + Cells(kind, b)
  {
  }

  lemma FlattenSnoc(parts: seq<Part>, part: Part)
    ensures Flatten(parts + [part]) == Flatten(parts) + Cells(part.kind, part.text)
  {
    assert (parts + [part])[..|parts|] == parts;
  }

  lemma PushPartAppends(parts: seq<Part>, kind: Kind, text: string)
    ensures Flatten(PushPart(parts, kind, text)) == Flatten(parts) + Cells(kind, text)
    ensures Canonical(parts) ==> Canonical(PushPart(parts, kind, text))
  {
    hide Cells, Flatten, Canonical;
    if Canonical(parts) {
      PushPartCanonical(parts, kind, text);
    }
    if text == "" {
      NoCells(parts, kind);
    } else if parts != [] && parts[|parts| - 1].kind == kind {
      PushPartMerges(parts[..|parts| - 1], parts[|parts| - 1], text);
      assert parts == parts[..|parts| - 1] + [parts[|parts| - 1]];
    } else {
      FlattenSnoc(parts, Part(kind, text));
    }
  }

  lemma NoCells(parts: seq<Part>, kind: Kind)
    ensures Flatten(parts) == Flatten(parts) + Cells(kind, "")
  {
  }

  lemma PushPartMerges(first: seq<Part>, last: Part, text: string)
    ensures Flatten(first + [Part(last.kind, last.text + text)]) == Flatten(first + [last]) + Cells(last.kind, text)
  {
    hide Cells, Flatten;
    CellsConcat(last.kind, last.text, text);
    Associative(Flatten(first), Cells(last.kind, last.text), Cells(last.kind, text));
    FlattenSnoc(first, Part(last.kind, last.text + text));
    FlattenSnoc(first, last);
  }

  lemma PushPartCanonical(parts: seq<Part>, kind: Kind, text: string)
    requires Canonical(parts)
    ensures Canonical(PushPart(parts, kind, text))
  {
  }

  /** The parts of one call are determined by the released characters: they are the maximal
      runs of one kind. */
  lemma {:induction false} PartsAreRuns(p: seq<Part>, q: seq<Part>)
    requires Canonical(p) && Canonical(q) && Flatten(p) == Flatten(q)
    ensures p == q
  {
    if p == [] || q == [] {
    } else {
      var m, n := |p| - 1, |q| - 1;
      SameLastRun(p, q);
      assert Flatten(p[..m]) == Flatten(p)[..|Flatten(p)| - |p[m].text|];
      assert Flatten(q[..n]) == Flatten(q)[..|Flatten(q)| - |q[n].text|];
      PartsAreRuns(p[..m], q[..n]);
      assert p == p[..m] + [p[m]] && q == q[..n] + [q[n]];
    }
  }

  lemma SameLastRun(p: seq<Part>, q: seq<Part>)
    requires p != [] && q != [] && Canonical(p) && Canonical(q) && Flatten(p) == Flatten(q)
    ensures p[|p| - 1] == q[|q| - 1]
  {
    hide Flatten, Canonical, Cells, IsRun;
    var a, b := p[|p| - 1], q[|q| - 1];
    LastRun(p);
    LastRun(q);
    var cells := Flatten(p);
    assert a.kind == b.kind;
    RunsNest(cells, a, b);
    RunsNest(cells, b, a);
    SameRun(cells, a, b);
  }

  predicate IsRun(cells: seq<Cell>, last: Part) {
    && 0 < |last.text| <= |cells|
    && cells[|cells| - |last.text|..] == Cells(last.kind, last.text)
  }

  lemma RunKinds(cells: seq<Cell>, last: Part)
    requires IsRun(cells, last)
    ensures forall i | |cells| - |last.text| <= i < |cells| :: cells[i].kind == last.kind
  {
    var n := |cells| - |last.text|;
    assert forall i | n <= i < |cells| :: cells[i] == cells[n..][i - n];
  }

  lemma RunsNest(cells: seq<Cell>, a: Part, b: Part)
    requires IsRun(cells, a) && IsRun(cells, b) && a.kind == b.kind
    requires |a.text| < |cells| ==> cells[|cells| - |a.text| - 1].kind != a.kind
    ensures |b.text| <= |a.text|
  {
    RunKinds(cells, b);
  }

  lemma SameRun(cells: seq<Cell>, a: Part, b: Part)
    requires IsRun(cells, a) && IsRun(cells, b) && a.kind == b.kind && |a.text| == |b.text|
    ensures a == b
  {
    hide Cells;
    CellsInjective(a.kind, a.text, b.text);
  }

  lemma CellsInjective(kind: Kind, a: string, b: string)
    requires Cells(kind, a) == Cells(kind, b)
    ensures a == b
  {
    assert forall i | 0 <= i < |a| :: a[i] == Cells(kind, a)[i].ch;
    assert forall i | 0 <= i < |a| :: b[i] == Cells(kind, b)[i].ch;
  }

  /** The last part is the longest one-kind suffix of the cells. */
  lemma LastRun(parts: seq<Part>)
    requires parts != [] && Canonical(parts)
    ensures var cells, last := Flatten(parts), parts[|parts| - 1];
            && IsRun(cells, last)
            && cells[|cells| - 1].kind == last.kind
            && (|last.text| < |cells| ==> cells[|cells| - |last.text| - 1].kind != last.kind)
  {
    hide Cells, IsRun;
    var n := |parts| - 1;
    var first := parts[..n];
    if n > 0 {
      assert Canonical(first);
      LastRun(first);
      assert first[n - 1] == parts[n - 1];
    }
    NextRun(Flatten(first), parts[n]);
  }

  lemma NextRun(before: seq<Cell>, last: Part)
    requires last.text != "" && (before != [] ==> before[|before| - 1].kind != last.kind)
    ensures var cells := before + Cells(last.kind, last.text);
            && IsRun(cells, last)
            && cells[|cells| - 1].kind == last.kind
            && (|last.text| < |cells| ==> cells[|cells| - |last.text| - 1].kind != last.kind)
  {
  }

  // ----- the splitter's loop ----------------------------------------------------------

  class ThinkTagStreamSplitter {
    var insideThink: bool
    var pending: string

    constructor ()
      ensures !insideThink && pending == ""
    {
      insideThink, pending := false, "";
    }

    /** Feed one delta: the parts are the released characters grouped into maximal runs. */
    method Split(delta: string) returns (parts: seq<Part>)
      modifies this
      ensures Canonical(parts)
      ensures Outcome(Flatten(parts), insideThink, pending)
              == Released(THINK_TAGS, old(insideThink), old(pending) + delta)
    {
      hide Released, PushPart, Flatten, Canonical, THINK_TAGS, Tags.At, Cells, Outcome.After;
      pending := pending + delta;
      parts := [];
      ghost var all := Released(THINK_TAGS, insideThink, pending);
      StartEmpty(all);
      while true
        invariant Canonical(parts)
        invariant all == Released(THINK_TAGS, insideThink, pending).After(Flatten(parts))
        decreases |pending|
      {
        var tag := THINK_TAGS.At(insideThink);
        var tagIndex := Find(pending, tag);
        if tagIndex.Some? {
          var i := tagIndex.value;
          TurnAtTag(THINK_TAGS, insideThink, pending, i, parts);
          parts := PushPart(parts, KindOf(insideThink), pending[..i]);
          pending := pending[i + |tag|..];
          insideThink := !insideThink;
        } else {
          var keepLen := PartialTagPrefixLen(pending, tag);
          var emitLen := |pending| - keepLen;
          LastTurn(THINK_TAGS, insideThink, pending, parts);
          if emitLen > 0 {
            var text := pending[..emitLen];
            pending := pending[emitLen..];
            parts := PushPart(parts, KindOf(insideThink), text);
          }
          break;
        }
      }
    }
  }

  /** A turn that finds the tag releases what stands before it. */
  lemma TurnAtTag(tags: Tags, inside: bool, pending: string, i: nat, parts: seq<Part>)
    requires Canonical(parts) && OccursAt(pending, tags.At(inside), i)
    requires forall j: nat | j < i :: !OccursAt(pending, tags.At(inside), j)
    ensures var tag, more := tags.At(inside), PushPart(parts, KindOf(inside), pending[..i]);
            && tag != "" && Canonical(more)
            && Released(tags, inside, pending).After(Flatten(parts))
               == Released(tags, !inside, pending[i + |tag|..]).After(Flatten(more))
  {
    hide Released, PushPart, Flatten, Canonical, Cells;
    var tag, cells := tags.At(inside), Cells(KindOf(inside), pending[..i]);
    ReleasedAtTag(tags, inside, pending, i);
    PushPartAppends(parts, KindOf(inside), pending[..i]);
    AfterAfter(Released(tags, !inside, pending[i + |tag|..]), cells, Flatten(parts));
  }

  /** The last turn releases all but what may be the start of a tag. */
  lemma LastTurn(tags: Tags, inside: bool, pending: string, parts: seq<Part>)
    requires Canonical(parts) && !Occurs(pending, tags.At(inside))
    ensures var n := |pending| - PartialTagPrefixLen(pending, tags.At(inside));
            var more := if n > 0 then PushPart(parts, KindOf(inside), pending[..n]) else parts;
            && Canonical(more)
            && Released(tags, inside, pending).After(Flatten(parts)) == Outcome(Flatten(more), inside, pending[n..])
            && (n == 0 ==> pending[n..] == pending)
  {
    hide Released, PushPart, Flatten, Canonical, Cells, PartialTagPrefixLen;
    ReleasedWithoutTag(tags, inside, pending);
    var n := |pending| - PartialTagPrefixLen(pending, tags.At(inside));
    if n > 0 {
      PushPartAppends(parts, KindOf(inside), pending[..n]);
    } else {
      NothingToRelease(pending, Flatten(parts), KindOf(inside));
    }
  }

  lemma StartEmpty(all: Outcome)
    ensures Canonical([]) && Flatten([]) == [] && all == all.After([])
  {
    assert [] + all.cells == all.cells;
  }

  lemma AfterAfter(o: Outcome, a: seq<Cell>, b: seq<Cell>)
    ensures o.After(a).After(b) == o.After(b + a)
  {
    Associative(b, a, o.cells);
  }

  lemma NothingToRelease(pending: string, cells: seq<Cell>, kind: Kind)
    ensures pending[..0] == "" && pending[0..] == pending && cells + Cells(kind, "") == cells
  {
  }

  /** Characters at which no tag starts are emitted as they are. */
  lemma {:induction false} ScanEmits(tags: Tags, inside: bool, text: string, n: nat)
    requires n <= |text|
    requires forall i: nat | i < n :: !OccursAt(text, tags.At(inside), i)
    ensures Scan(tags, inside, text) == Scan(tags, inside, text[n..]).After(KindOf(inside), text[..n])
    decreases n
  {
    hide Scan;
    var kind, tag := KindOf(inside), tags.At(inside);
    if n == 0 {
      Rejoin(text, 0);
      AfterNothing(Scan(tags, inside, text), kind);
    } else {
      ScanAtChar(tags, inside, text);
      forall i: nat | i < n - 1 ensures !OccursAt(text[1..], tag, i) {
        assert |tag| + i + 1 <= |text| ==> text[1..][i..i + |tag|] == text[i + 1..i + 1 + |tag|];
        assert !OccursAt(text, tag, i + 1);
      }
      ScanEmits(tags, inside, text[1..], n - 1);
      assert text[1..][n - 1..] == text[n..];
      assert text[..n] == text[..1] + text[1..][..n - 1];
      AfterTwice(Scan(tags, inside, text[n..]), kind, text[..1], text[1..][..n - 1]);
    }
  }

  lemma AfterNothing(r: Scanned, kind: Kind)
    ensures r.After(kind, "") == r
  {
    assert Cells(kind, "") + r.cells == r.cells && "" + r.tail == r.tail;
  }

  lemma AfterTwice(r: Scanned, kind: Kind, a: string, b: string)
    ensures r.After(kind, b).After(kind, a) == r.After(kind, a + b)
  {
    CellsConcat(kind, a, b);
    Associative(Cells(kind, a), Cells(kind, b), r.cells);
    Associative(a, b, r.tail);
  }

  lemma ReleasedAtTag(tags: Tags, inside: bool, text: string, i: nat)
    requires OccursAt(text, tags.At(inside), i)
    requires forall j: nat | j < i :: !OccursAt(text, tags.At(inside), j)
    ensures Released(tags, inside, text)
            == Released(tags, !inside, text[i + |tags.At(inside)|..]).After(Cells(KindOf(inside), text[..i]))
  {
    hide Scan, Hold, Cells;
    var tag := tags.At(inside);
    var rest := text[i + |tag|..];
    ScanEmits(tags, inside, text, i);
    TagAt(text, tag, i);
    ScanAtTag(tags, inside, text[i..]);
    ScanTail(tags, !inside, rest);
    HoldAfter(tags, inside, Scan(tags, !inside, rest), text[..i]);
  }

  lemma TagAt(text: string, tag: string, i: nat)
    requires OccursAt(text, tag, i)
    ensures OccursAt(text[i..], tag, 0) && text[i..][|tag|..] == text[i + |tag|..]
  {
    assert text[i..][..|tag|] == text[i..i + |tag|];
  }

  lemma HoldAfter(tags: Tags, inside: bool, r: Scanned, text: string)
    requires |r.tail| <= |r.cells|
    ensures Hold(tags, r.AfterTag(inside).After(KindOf(inside), text))
            == Hold(tags, r).After(Cells(KindOf(inside), text))
  {
    hide Pending;
    DropLast(Cells(KindOf(inside), text), r.cells, |Pending(r.tail, tags.At(r.inside))|);
  }

  lemma NoTagScan(tags: Tags, inside: bool, text: string)
    requires !Occurs(text, tags.At(inside))
    ensures Scan(tags, inside, text) == Scanned(Cells(KindOf(inside), text), inside, text, 0, 0)
  {
    hide Scan;
    ScanEmits(tags, inside, text, |text|);
    assert text[..|text|] == text && text[|text|..] == "" && text + "" == text;
    ScanEmpty(tags, inside);
    assert Cells(KindOf(inside), text) + [] == Cells(KindOf(inside), text);
  }

  lemma ReleasedWithoutTag(tags: Tags, inside: bool, text: string)
    requires !Occurs(text, tags.At(inside))
    ensures var n := |text| - PartialTagPrefixLen(text, tags.At(inside));
            && Released(tags, inside, text) == Outcome(Cells(KindOf(inside), text[..n]), inside, text[n..])
            && Released(tags, inside, text[n..]) == Outcome([], inside, text[n..])
  {
    hide Scan, PartialTagPrefixLen;
    NoTagScan(tags, inside, text);
    var n := |text| - PartialTagPrefixLen(text, tags.At(inside));
    assert Cells(KindOf(inside), text)[..n] == Cells(KindOf(inside), text[..n]);
    ReleasedHeld(tags, inside, text[n..]);
  }

  /** A held tail is held again, with nothing released. */
  lemma ReleasedHeld(tags: Tags, inside: bool, held: string)
    requires OccursAt(tags.At(inside), held, 0) && |held| < |tags.At(inside)|
    ensures Released(tags, inside, held) == Outcome([], inside, held)
  {
    hide Scan;
    NoTagScan(tags, inside, held);
    Rejoin(held, 0);
    assert SuffixStarts(held, tags.At(inside), |held|);
  }

  /** The forwarding loop: one splitter fed every text delta of a stream. */
  method SplitStream(deltas: seq<string>) returns (batches: seq<seq<Part>>, held: string, ghost segments: seq<string>)
    ensures |batches| == |deltas| && forall i | 0 <= i < |batches| :: Canonical(batches[i])
    ensures var o := Released(THINK_TAGS, false, Concat(deltas));
            FlattenAll(batches) == o.cells && held == o.pending && Shows(o, segments, Concat(deltas))
  {
    hide Released, Flatten, Canonical, THINK_TAGS, Shows;
    var splitter := new ThinkTagStreamSplitter();
    batches := [];
    for i := 0 to |deltas|
      invariant |batches| == i && forall j | 0 <= j < i :: Canonical(batches[j])
      invariant fresh(splitter)
      invariant FeedAll(THINK_TAGS, false, deltas[..i])
                == Outcome(FlattenAll(batches), splitter.insideThink, splitter.pending)
    {
      assert deltas[..i + 1][..i] == deltas[..i];
      var parts := splitter.Split(deltas[i]);
      batches := batches + [parts];
      assert batches[..i] + [parts] == batches;
      assert batches[..|batches| - 1] == batches[..i];
    }
    assert deltas[..|deltas|] == deltas;
    ChunkingIrrelevant(THINK_TAGS, false, deltas, Concat(deltas));
    held := splitter.pending;
    segments := ReleasedShows(Concat(deltas));
  }

  function FlattenAll(batches: seq<seq<Part>>): seq<Cell> {
    if batches == [] then [] else FlattenAll(batches[..|batches| - 1]) + Flatten(batches[|batches| - 1])
  }
}
