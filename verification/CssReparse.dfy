/**
What a second run of the auditor sees after `--apply`: the text without the deleted blocks is read as
the blocks that stay exactly when the deletions leave no harmful text stranded in a header.
*/
module CssReparse {
  import opened Wrappers
  import opened CssSource
  import opened CssScanner
  import opened CssDeletion
  import opened CssHeaders
  import opened CssReading

  /******* Deletions that have their lines to themselves *******/

  ghost predicate IsRecord(text: string, tok: Tokenizer, b: Block) {
    WellFormed(StripComments(text), tok, b) && !b.kind.DescendedBlock? && b.next.Some?
  }

  ghost function RangeOf(text: string, b: Block): Range
    requires b.cut <= b.opener <= |text| && b.next.Some?
  {
    Range(StartOf(StripComments(text), b.cut, b.opener), b.next.value)
  }

  /** Nothing but blanks precedes the block on its line. */
  ghost predicate OwnLine(text: string, r: Range)
    requires r.start <= |text|
  {
    forall p: nat :: InIndent(text, r, p) ==> IsSpace(text[p])
  }

  /** No text is left over in front of the header: its selector is what its range says. */
  ghost predicate CleanHeader(text: string, b: Block)
    requires b.cut <= b.opener <= |text|
  {
    var t := StripComments(text);
    forall k :: b.cut <= k < StartOf(t, b.cut, b.opener) ==> IsSpace(t[k]) || t[k] == '}'
  }

  /** Alone on its line, with a header that starts no later than that line. */
  ghost predicate Removable(text: string, tok: Tokenizer, b: Block) {
    && IsRecord(text, tok, b) && OwnLine(text, RangeOf(text, b))
    && b.cut <= LineStart(text, RangeOf(text, b).start)
  }

  /** A header starts at the beginning of the text or right after a brace or a semicolon. */
  lemma {:induction false} CutAfterInk(t: string, tok: Tokenizer, i: nat, cut: nat)
    requires cut <= i <= |t| && (cut == 0 || !IsSpace(t[cut - 1]))
    ensures forall b :: b in Blocks(t, tok, i, cut) ==> b.cut <= |t| && (b.cut == 0 || !IsSpace(t[b.cut - 1]))
    decreases |t| - i
  {
    if i < |t| {
      if t[i] == '{' {
        var b := BlockAt(t, tok, cut, i);
        if b.next.Some? { CutAfterInk(t, tok, b.next.value, b.next.value); }
      } else if EndsStatement(t, cut, i) {
        CutAfterInk(t, tok, i + 1, i + 1);
      } else {
        CutAfterInk(t, tok, i + 1, cut);
      }
    }
  }

  lemma RecordLooksLikeBlock(text: string, tok: Tokenizer, b: Block)
    requires IsRecord(text, tok, b)
    ensures var r := RangeOf(text, b);
            && BlockLike(text, r) && r.start <= b.opener < r.end
            && !IsSpace(StripComments(text)[r.start]) && StripComments(text)[r.end - 1] == '}'
  {
    var t, r := StripComments(text), RangeOf(text, b);
    assert Matches(t, b.opener, r.end - 1);
    assert !IsSpace('{') && !IsSpace('}');
  }

  lemma HeaderStartsBeforeLine(text: string, tok: Tokenizer, b: Block)
    requires b in BlocksOf(text, tok) && IsRecord(text, tok, b) && OwnLine(text, RangeOf(text, b))
    ensures b.cut <= LineStart(text, RangeOf(text, b).start)
  {
    var t, r := StripComments(text), RangeOf(text, b);
    CutAfterInk(t, tok, 0, 0);
    if b.cut > 0 {
      assert !IsSpace(t[b.cut - 1]) && !IsSpace(text[b.cut - 1]);
      assert !InIndent(text, r, b.cut - 1);
    }
  }

  /** Comments do not reach into the indentation of an isolated block, nor past its end. */
  lemma WidenedStops(text: string, r: Range)
    requires BlockLike(text, r) && OwnLine(text, r)
    requires !IsSpace(StripComments(text)[r.start]) && !IsSpace(StripComments(text)[r.end - 1])
    ensures Stops(text, 0, Expand(text, r).start) && Stops(text, 0, Expand(text, r).end)
  {
    var a := LineStart(text, r.start);
    StopBesideInk(text, r.start);
    forall p | a <= p < r.start ensures text[p] != '/' { assert InIndent(text, r, p) && !IsSpace('/'); }
    StopBackwards(text, 0, a, r.start);
    StopBesideInk(text, r.end - 1);
    if r.end < |text| && text[r.end] == '\n' { StopAfterNewline(text, 0, r.end); }
  }

  ghost function CutOf(text: string, tok: Tokenizer, b: Block): (e: Range)
    requires IsRecord(text, tok, b)
  {
    RecordLooksLikeBlock(text, tok, b);
    Expand(text, RangeOf(text, b))
  }

  /** For each block, the range to cut out with it, if it is deleted. */
  ghost predicate Chosen(text: string, tok: Tokenizer, bs: seq<Block>, es: Choices) {
    |es| == |bs| && forall m {:trigger es[m]} :: 0 <= m < |es| && es[m].Some? ==> IsChoice(text, tok, bs[m], es[m].value)
  }

  ghost predicate IsChoice(text: string, tok: Tokenizer, b: Block, e: Range) {
    Removable(text, tok, b) && e == CutOf(text, tok, b)
  }

  /** How the cut of a block lies in the text: from a line start to its end, or one newline further. */
  predicate LinesUp(text: string, b: Block, e: Range) {
    && b.next.Some? && 0 < b.next.value <= e.end <= |text| && text[b.next.value - 1] != '\n'
    && (e.end == b.next.value || (e.end == b.next.value + 1 && text[b.next.value] == '\n'))
    && b.cut <= e.start < b.next.value && (e.start == 0 || text[e.start - 1] == '\n')
  }

  lemma ChoiceLinesUp(text: string, tok: Tokenizer, b: Block, e: Range)
    requires IsChoice(text, tok, b, e)
    ensures LinesUp(text, b, e)
  {
    RecordLooksLikeBlock(text, tok, b);
    hide IsRecord, StripComments, StartOf;
  }

  predicate AllLineUp(text: string, bs: seq<Block>, es: Choices) {
    |es| == |bs| && forall m :: 0 <= m < |es| && es[m].Some? ==> LinesUp(text, bs[m], es[m].value)
  }

  /** The cuts of the deleted blocks from the `m`-th on, last block first. */
  function Cuts(es: Choices, m: nat): seq<Range>
    decreases |es| - m
  {
    if m >= |es| then []
    else if es[m].Some? then Cuts(es, m + 1) + [es[m].value]
    else Cuts(es, m + 1)
  }

  /** Descending cuts that do not touch, the last of them at a line start. */
  ghost predicate Spaced(text: string, cuts: seq<Range>) {
    var n := |text|;
    var a := Reach(n, cuts);
    && InBounds(n, cuts) && Descending(cuts) && NoBad(n, cuts)
    && a <= n && (a == n || a == 0 || text[a - 1] == '\n')
  }

  lemma SpacedSnoc(text: string, cuts: seq<Range>, r: Range)
    requires Spaced(text, cuts) && r.start < r.end <= Reach(|text|, cuts)
    requires r.start == 0 || text[r.start - 1] == '\n'
    ensures Spaced(text, cuts + [r])
  {
    assert InBounds(|text|, cuts + [r]);
    BadApart(|text|, cuts, r);
  }

  /** Every block before the `m`-th ends before the cuts start. */
  predicate EndBefore(bs: seq<Block>, m: nat, a: nat) {
    forall p :: 0 <= p < m && p < |bs| && bs[p].next.Some? ==> bs[p].next.value <= a
  }

  lemma {:induction false} CutsStayApart(text: string, bs: seq<Block>, es: Choices, m: nat)
    requires AllLineUp(text, bs, es) && m <= |es| && Separated(bs) && InText(text, bs)
    ensures Spaced(text, Cuts(es, m)) && EndBefore(bs, m, Reach(|text|, Cuts(es, m)))
    decreases |es| - m
  {
    if m == |es| {
    } else {
      CutsStayApart(text, bs, es, m + 1);
      if es[m].Some? {
        assert LinesUp(text, bs[m], es[m].value);
        SpacedSnoc(text, Cuts(es, m + 1), es[m].value);
      }
    }
  }

  /******* Cutting and stripping *******/

  lemma {:induction false} StopsBelowCut(t: string, u: string, a: nat, e: nat, i: nat, k: nat)
    requires IsCut(t, u, a, e) && i <= k <= a && (a == 0 || t[a - 1] == '\n') && Stops(t, i, k) && Stops(t, i, a)
    ensures Stops(u, i, k)
    decreases a - i
  {
    if i < k {
      StepBeforeCut(t, u, a, e, i);
      StopsBelowCut(t, u, a, e, Step(t, i), k);
    }
  }

  lemma CutIsCut(cur: string, r: Range)
    requires r.start <= r.end <= |cur|
    ensures IsCut(cur, Without(cur, r), r.start, r.end)
  {
  }

  lemma CutDetermines(t: string, u: string, r: Range)
    requires IsCut(t, u, r.start, r.end)
    ensures u == Without(t, r)
  {
  }

  /** The cut starts a line and no comment reaches over its ends. */
  ghost predicate CutsClean(text: string, r: Range) {
    && r.start <= r.end <= |text| && (r.start == 0 || text[r.start - 1] == '\n')
    && Stops(text, 0, r.start) && Stops(text, 0, r.end)
  }

  /** After some cuts, up to where they start: the same text, stopping where it did. */
  ghost predicate Untouched(text: string, cur: string, a: nat) {
    && a <= |text| && a <= |cur|
    && (forall k :: 0 <= k < a ==> cur[k] == text[k])
    && (forall k :: 0 <= k <= a && Stops(text, 0, k) ==> Stops(cur, 0, k))
  }

  lemma OneMoreCut(text: string, cur: string, a: nat, r: Range)
    requires Untouched(text, cur, a) && CutsClean(text, r) && r.end <= a
    ensures Untouched(text, Without(cur, r), r.start)
    ensures StripComments(Without(cur, r)) == Without(StripComments(cur), r)
  {
    var u := Without(cur, r);
    CutIsCut(cur, r);
    StripOfCut(cur, u, r.start, r.end);
    CutDetermines(StripComments(cur), StripComments(u), r);
    forall k | 0 <= k <= r.start && Stops(text, 0, k) ensures Stops(u, 0, k) {
      StopsBelowCut(cur, u, r.start, r.end, 0, k);
    }
  }

  lemma CutFitsBelow(text: string, bs: seq<Block>, es: Choices, m: nat)
    requires AllLineUp(text, bs, es) && m < |es| && es[m].Some? && Separated(bs) && InText(text, bs)
    ensures es[m].value.end <= Reach(|text|, Cuts(es, m + 1))
  {
    CutsStayApart(text, bs, es, m + 1);
    assert LinesUp(text, bs[m], es[m].value);
  }

  /** Stripping the comments and cutting out the blocks commute. */
  lemma {:induction false} StripOfCuts(text: string, bs: seq<Block>, es: Choices, m: nat)
    requires AllLineUp(text, bs, es) && m <= |es| && Separated(bs) && InText(text, bs)
    requires forall k :: 0 <= k < |es| && es[k].Some? ==> CutsClean(text, es[k].value)
    ensures Untouched(text, CutAll(text, Cuts(es, m)), Reach(|text|, Cuts(es, m)))
    ensures StripComments(CutAll(text, Cuts(es, m))) == CutAll(StripComments(text), Cuts(es, m))
    decreases |es| - m
  {
    hide Stops, StripComments;
    if m < |es| {
      StripOfCuts(text, bs, es, m + 1);
      CutsStayApart(text, bs, es, m + 1);
      if es[m].Some? {
        assert LinesUp(text, bs[m], es[m].value);
        var cuts, r := Cuts(es, m + 1), es[m].value;
        CutFitsBelow(text, bs, es, m);
        OneMoreCut(text, CutAll(text, cuts), Reach(|text|, cuts), r);
      }
    }
  }

  lemma WithoutMiddle(t: string, q: nat, r: Range, rest: string)
    requires q <= r.start <= r.end <= |t|
    ensures Without(t[..r.end] + rest, r) == t[..q] + (t[q..r.start] + rest)
  {
    assert (t[..r.end] + rest)[..r.start] == t[..q] + t[q..r.start];
    assert (t[..r.end] + rest)[r.end..] == rest;
  }

  /** The cuts, made one after the other from the last, leave the text without them. */
  lemma {:induction false} CutsLeaveRest(t: string, es: Choices, m: nat, q: nat)
    requires InOrder(es, |t|) && q <= |t| && m <= |es| && StartFrom(es, m, q)
    ensures CutAll(t, Cuts(es, m)) == t[..q] + Rest(t, es, m, q)
    decreases |es| - m
  {
    if m == |es| {
      assert t == t[..q] + t[q..];
    } else if es[m].Some? {
      var r := es[m].value;
      var rest := Rest(t, es, m + 1, r.end);
      CutsLeaveRest(t, es, m + 1, r.end);
      hide Without;
      WithoutMiddle(t, q, r, rest);
    } else {
      CutsLeaveRest(t, es, m + 1, q);
    }
  }

  /******* How blocks and cuts lie *******/

  /** Between a block and the next one, no block opens. */
  lemma NoBraceBetween(t: string, tok: Tokenizer, bs: seq<Block>, m: nat, p: nat)
    requires bs == Blocks(t, tok, 0, 0) && Ordered(t, tok, bs) && m <= |bs| && p < |t|
    requires m > 0 ==> bs[m - 1].next.Some? && bs[m - 1].next.value <= p
    requires m < |bs| ==> p < bs[m].opener
    ensures t[p] != '{'
  {
    hide Blocks, WellFormed;
    forall b | b in bs ensures b.opener != p && (b.opener < p ==> b.next.Some? && b.next.value <= p) {
      var k :| 0 <= k < |bs| && bs[k] == b;
      BlockLies(t, tok, bs, k);
      if k + 1 < m { assert Before(bs[k], bs[m - 1]); BlockLies(t, tok, bs, m - 1); }
      if m < k { assert Before(bs[m], bs[k]); BlockLies(t, tok, bs, m); }
    }
    assert !Covered(bs, p);
    if t[p] == '{' { BlocksCoverBraces(t, tok, 0, 0, p); }
  }

  lemma BlockLies(t: string, tok: Tokenizer, bs: seq<Block>, k: nat)
    requires Ordered(t, tok, bs) && k < |bs|
    ensures Fits(t, bs[k]) && WellFormed(t, tok, bs[k])
  {
    assert bs[k] in bs;
  }

  /** In the order of the blocks: each ends before the header of the next, and so do their cuts. */
  lemma CutsInOrder(text: string, bs: seq<Block>, es: Choices, k: nat, l: nat)
    requires AllLineUp(text, bs, es) && Separated(bs) && k < l < |bs|
    ensures bs[k].next.Some?
    ensures es[l].Some? ==> bs[k].next.value <= es[l].value.start
    ensures es[k].Some? && es[l].Some? ==> es[k].value.end <= es[l].value.start
  {
    assert Before(bs[k], bs[l]);
    if es[l].Some? {
      assert LinesUp(text, bs[l], es[l].value);
      if es[k].Some? { assert LinesUp(text, bs[k], es[k].value); }
    }
  }

  lemma CutsAreInOrder(text: string, bs: seq<Block>, es: Choices)
    requires AllLineUp(text, bs, es) && Separated(bs)
    ensures InOrder(es, |text|)
  {
    forall k, l | 0 <= k < l < |es| && es[k].Some? && es[l].Some? ensures es[k].value.end <= es[l].value.start {
      CutsInOrder(text, bs, es, k, l);
    }
    forall k | 0 <= k < |es| && es[k].Some? ensures es[k].value.start <= es[k].value.end <= |text| {
      assert LinesUp(text, bs[k], es[k].value);
    }
  }

  /** Where the text goes on after a block, cut or not: not past the next opener, and before all later cuts. */
  lemma FromLies(text: string, tok: Tokenizer, bs: seq<Block>, es: Choices, m: nat)
    requires AllLineUp(text, bs, es) && bs == BlocksOf(text, tok) && m <= |bs| && (m > 0 ==> bs[m - 1].next.Some?)
    ensures m > 0 ==> bs[m - 1].next.value <= From(bs, es, m)
    ensures From(bs, es, m) <= |text| && StartFrom(es, m, From(bs, es, m))
    ensures m < |bs| ==> From(bs, es, m) <= bs[m].opener
  {
    BlocksInOrder(text, tok);
    hide BlocksOf, WellFormed, LinesUp;
    var t := StripComments(text);
    if m > 0 {
      BlockLies(t, tok, bs, m - 1);
      forall k | m <= k < |es| && es[k].Some? ensures From(bs, es, m) <= es[k].value.start {
        CutsInOrder(text, bs, es, m - 1, k);
      }
      if es[m - 1].Some? { CutEnds(text, bs, es, m - 1); }
      if m < |bs| {
        BlockLies(t, tok, bs, m);
        assert Before(bs[m - 1], bs[m]);
        OpenerLies(text, tok, bs, m);
      }
    }
  }

  lemma CutEnds(text: string, bs: seq<Block>, es: Choices, m: nat)
    requires AllLineUp(text, bs, es) && m < |bs| && es[m].Some?
    ensures bs[m].next.Some? && bs[m].cut <= es[m].value.start && bs[m].next.value <= es[m].value.end <= |text|
    ensures es[m].value.end == bs[m].next.value || (es[m].value.end == bs[m].next.value + 1 && text[bs[m].next.value] == '\n')
  {
    assert LinesUp(text, bs[m], es[m].value);
  }

  lemma OpenerLies(text: string, tok: Tokenizer, bs: seq<Block>, m: nat)
    requires bs == BlocksOf(text, tok) && m < |bs|
    ensures bs[m].cut <= bs[m].opener < |text| && text[bs[m].opener] == '{'
  {
    BlocksInOrder(text, tok);
    BlockLies(StripComments(text), tok, bs, m);
  }

  lemma BlockIsLaid(text: string, tok: Tokenizer, bs: seq<Block>, es: Choices, m: nat)
    requires Chosen(text, tok, bs, es) && AllLineUp(text, bs, es) && bs == BlocksOf(text, tok) && m < |bs|
    ensures IsLaid(StripComments(text), tok, bs, es, m)
  {
    BlocksInOrder(text, tok);
    var t, b := StripComments(text), bs[m];
    assert bs == Blocks(t, tok, 0, 0);
    hide BlocksOf, BlockAt, LinesUp, IsChoice, HeaderText;
    BlockLies(t, tok, bs, m);
    if m > 0 { assert Before(bs[m - 1], bs[m]); }
    FromLies(text, tok, bs, es, m);
    var q := From(bs, es, m);
    forall p | q <= p < b.opener ensures t[p] != '{' { NoBraceBetween(t, tok, bs, m, p); }
    if es[m].Some? {
      CutEnds(text, bs, es, m);
      ChoiceStarts(text, tok, bs[m], es[m].value);
    } else if b.next.Some? {
      forall k | m + 1 <= k < |es| && es[k].Some? ensures b.next.value <= es[k].value.start {
        CutsInOrder(text, bs, es, m, k);
      }
    }
    if m + 1 < |bs| { assert Before(bs[m], bs[m + 1]); }
  }

  lemma ChoiceStarts(text: string, tok: Tokenizer, b: Block, e: Range)
    requires IsChoice(text, tok, b, e)
    ensures e.start <= b.opener && CutsClean(text, e)
  {
    RecordLooksLikeBlock(text, tok, b);
    NoSpaceBrace();
    hide IsRecord, StripComments, StartOf, Stops, IsSpace;
    WidenedCutsClean(text, RangeOf(text, b));
  }

  lemma WidenedCutsClean(text: string, r: Range)
    requires BlockLike(text, r) && OwnLine(text, r)
    requires !IsSpace(StripComments(text)[r.start]) && !IsSpace(StripComments(text)[r.end - 1])
    ensures Expand(text, r).start <= r.start && CutsClean(text, Expand(text, r))
  {
    WidenedStops(text, r);
    hide Stops, StripComments, OwnLine, BlockLike;
  }

  lemma NoSpaceBrace()
    ensures !IsSpace('}')
  {
  }

  lemma ChoicesAreLaid(text: string, tok: Tokenizer, bs: seq<Block>, es: Choices)
    requires Chosen(text, tok, bs, es) && AllLineUp(text, bs, es) && bs == BlocksOf(text, tok)
    ensures Laid(StripComments(text), tok, bs, es)
  {
    BlocksInOrder(text, tok);
    var t := StripComments(text);
    assert bs == Blocks(t, tok, 0, 0);
    hide BlocksOf, Blocks, BlockAt, LinesUp, IsChoice, IsLaid, InOrder;
    CutsAreInOrder(text, bs, es);
    forall m | 0 <= m < |bs| ensures IsLaid(t, tok, bs, es, m) { BlockIsLaid(text, tok, bs, es, m); }
    if bs == [] || bs[|bs| - 1].next.Some? {
      FromLies(text, tok, bs, es, |bs|);
      forall p | From(bs, es, |bs|) <= p < |t| ensures t[p] != '{' { NoBraceBetween(t, tok, bs, |bs|, p); }
    }
  }

  lemma ChosenLineUp(text: string, tok: Tokenizer, bs: seq<Block>, es: Choices)
    requires Chosen(text, tok, bs, es)
    ensures AllLineUp(text, bs, es) && forall m :: 0 <= m < |es| && es[m].Some? ==> CutsClean(text, es[m].value)
  {
    forall m | 0 <= m < |es| && es[m].Some? ensures LinesUp(text, bs[m], es[m].value) && CutsClean(text, es[m].value) {
      ChoiceLinesUp(text, tok, bs[m], es[m].value);
      ChoiceStarts(text, tok, bs[m], es[m].value);
    }
  }

  /** A newline cut off in front is not missed. */
  lemma NewlineNotMissed(t: string, q: nat, o: nat)
    requires q < o <= |t| && t[q] == '\n'
    ensures TrimStart(Advance("", t[q + 1..o])) == TrimStart(Advance("", t[q..o]))
  {
    hide TrimStart;
    assert t[q..o] == ['\n'] + t[q + 1..o];
    AdvanceStep("", '\n', t[q + 1..o]);
    NewlineIsBlank();
    AdvanceTrimmed("\n", "", t[q + 1..o]);
  }

  lemma NewlineIsBlank()
    ensures TrimStart("\n") == TrimStart("") && After("", '\n') == "\n"
  {
    assert "\n"[1..] == "" && "" + ['\n'] == "\n";
  }

  /** Up to a place in its header, a block gathers its pending header, but for blanks in front. */
  lemma GatheredBehindCut(text: string, tok: Tokenizer, bs: seq<Block>, es: Choices, m: nat, a: nat)
    requires AllLineUp(text, bs, es) && bs == BlocksOf(text, tok) && m < |bs| && (m > 0 ==> bs[m - 1].next.Some?)
    requires bs[m].cut <= a <= bs[m].opener && a <= |text| && From(bs, es, m) <= a
    ensures TrimStart(Advance("", StripComments(text)[From(bs, es, m)..a])) == TrimStart(Pending(StripComments(text), bs[m].cut, a))
  {
    var t := StripComments(text);
    assert bs == Blocks(t, tok, 0, 0);
    hide BlocksOf, Blocks, LinesUp, Advance, TrimStart, Pending;
    FromLies(text, tok, bs, es, m);
    Gathered(t, tok, bs, m, a);
    hide StripComments;
    if m > 0 && es[m - 1].Some? {
      CutEnds(text, bs, es, m - 1);
      var n := bs[m - 1].next.value;
      if es[m - 1].value.end == n + 1 { NewlineNotMissed(t, n, a); }
    }
  }

  lemma ChosenHaveOwnHeader(text: string, tok: Tokenizer, bs: seq<Block>, es: Choices, m: nat)
    requires Chosen(text, tok, bs, es) && AllLineUp(text, bs, es) && bs == BlocksOf(text, tok) && m < |bs|
    requires Laid(StripComments(text), tok, bs, es) && IsLaid(StripComments(text), tok, bs, es, m)
    ensures HasOwnHeader(StripComments(text), tok, bs, es, m)
  {
    hide BlocksOf, LinesUp, Advance, TrimStart, IsChoice;
    GatheredBehindCut(text, tok, bs, es, m, bs[m].opener);
  }

  /** No deletion leaves text behind that changes the header of a block that stays. */
  ghost predicate LeavesHeaders(text: string, tok: Tokenizer, es: Choices)
    requires Chosen(text, tok, BlocksOf(text, tok), es)
  {
    ChosenLineUp(text, tok, BlocksOf(text, tok), es);
    ChoicesAreLaid(text, tok, BlocksOf(text, tok), es);
    Harmless(StripComments(text), tok, BlocksOf(text, tok), es, 0, "")
  }

  /**
  For every text and every choice of recorded blocks that have their lines to themselves: the text
  without them is read as the blocks that stay, in order and as they read, if and only if, for each
  block that stays, no deletion before it leaves text stranded in its header or an at-statement
  swallows that text first.
  */
  lemma ReparseIff(text: string, tok: Tokenizer, es: Choices)
    requires Chosen(text, tok, BlocksOf(text, tok), es)
    ensures var u := CutAll(text, Cuts(es, 0));
            Trace(StripComments(u), BlocksOf(u, tok)) == KeptItems(StripComments(text), BlocksOf(text, tok), es, 0)
            <==> LeavesHeaders(text, tok, es)
    ensures Spaced(text, Cuts(es, 0))
  {
    BlocksInOrder(text, tok);
    var t, bs, u := StripComments(text), BlocksOf(text, tok), CutAll(text, Cuts(es, 0));
    assert BlocksOf(u, tok) == Blocks(StripComments(u), tok, 0, 0);
    hide Read, Harmless, KeepsHeaders, IsChoice, LinesUp, CutsClean, BlocksOf, HasOwnHeader, IsLaid;
    ChosenLineUp(text, tok, bs, es);
    ChoicesAreLaid(text, tok, bs, es);
    CutsStayApart(text, bs, es, 0);
    ReadCutsIff(text, tok, bs, es);
    ReadIsTrace(StripComments(u), tok, 0, 0);
    assert StripComments(u)[0..] == StripComments(u);
    forall m | 0 <= m < |bs| && IsLaid(t, tok, bs, es, m) ensures HasOwnHeader(t, tok, bs, es, m) {
      ChosenHaveOwnHeader(text, tok, bs, es, m);
    }
    HarmlessIff(t, tok, bs, es, 0, "");
  }

  lemma ReadCutsIff(text: string, tok: Tokenizer, bs: seq<Block>, es: Choices)
    requires Chosen(text, tok, bs, es) && AllLineUp(text, bs, es) && bs == BlocksOf(text, tok)
    requires Laid(StripComments(text), tok, bs, es)
    requires forall m :: 0 <= m < |es| && es[m].Some? ==> CutsClean(text, es[m].value)
    ensures Read(StripComments(CutAll(text, Cuts(es, 0))), tok, "") == KeptItems(StripComments(text), bs, es, 0)
            <==> KeepsHeaders(StripComments(text), tok, bs, es, 0, "")
  {
    BlocksInOrder(text, tok);
    hide Read, KeepsHeaders, IsChoice, LinesUp, CutsClean, IsLaid;
    var t := StripComments(text);
    StripOfCuts(text, bs, es, 0);
    CutsLeaveRest(t, es, 0, 0);
    assert t[..0] + Rest(t, es, 0, 0) == Rest(t, es, 0, 0);
    ReadRestIff(t, tok, bs, es, 0, "");
  }

  /******* Clean headers *******/

  lemma {:induction false} BlankPending(t: string, cut: nat, i: nat)
    requires cut <= i <= |t| && forall k :: cut <= k < i ==> IsSpace(t[k]) || t[k] == '}'
    ensures IsBlank(Pending(t, cut, i))
    decreases i
  {
    if cut < i {
      BlankPending(t, cut, i - 1);
      TrimStartSnoc(Pending(t, cut, i - 1), t[i - 1]);
    }
  }

  /** A removed block with a clean header strands nothing. */
  lemma CleanStrandsNothing(text: string, tok: Tokenizer, bs: seq<Block>, es: Choices, m: nat, x: string)
    requires Chosen(text, tok, bs, es) && AllLineUp(text, bs, es) && bs == BlocksOf(text, tok) && m < |bs|
    requires Laid(StripComments(text), tok, bs, es) && IsLaid(StripComments(text), tok, bs, es, m)
    requires es[m].Some? && bs[m].cut <= bs[m].opener <= |text| && CleanHeader(text, bs[m]) && IsBlank(x)
    ensures IsBlank(Advance(x, StripComments(text)[From(bs, es, m)..es[m].value.start]))
  {
    var t, a := StripComments(text), es[m].value.start;
    CutEnds(text, bs, es, m);
    hide BlocksOf, LinesUp, Advance, TrimStart, IsChoice, StripComments;
    BlankPending(t, bs[m].cut, a);
    GatheredBehindCut(text, tok, bs, es, m, a);
    AdvanceTrimmed(x, "", t[From(bs, es, m)..a]);
  }

  /** Where every deleted block has a clean header, nothing is stranded. */
  lemma {:induction false} CleanIsHarmless(text: string, tok: Tokenizer, bs: seq<Block>, es: Choices, m: nat, x: string)
    requires Chosen(text, tok, bs, es) && AllLineUp(text, bs, es) && bs == BlocksOf(text, tok) && m <= |bs|
    requires Laid(StripComments(text), tok, bs, es) && IsBlank(x)
    requires forall k :: 0 <= k < |bs| && es[k].Some? && bs[k].cut <= bs[k].opener <= |text| ==> CleanHeader(text, bs[k])
    ensures Harmless(StripComments(text), tok, bs, es, m, x)
    decreases |bs| - m
  {
    hide BlocksOf, LinesUp, Advance, IsChoice, CleanHeader, Swallowed;
    if m < |bs| {
      var t := StripComments(text);
      assert IsLaid(t, tok, bs, es, m);
      if es[m].Some? {
        CleanStrandsNothing(text, tok, bs, es, m, x);
        CleanIsHarmless(text, tok, bs, es, m + 1, Advance(x, t[From(bs, es, m)..es[m].value.start]));
      } else {
        CleanIsHarmless(text, tok, bs, es, m + 1, "");
      }
    }
  }
}
