/**
The block scanner of the CSS auditor (`parse_css`): a single pass that keeps a character
index, a line counter, the pending header and where that header started. It is proved
against `Blocks`, which recomputes all of that from positions in the text.

The regular expressions that read a header are a parameter (`Tokenizer`).
*/
module CssScanner {
  import opened Wrappers
  import opened CssSource

  datatype Selector = Selector(classes: set<string>, definedClass: Option<string>, isDecoration: bool)

  datatype Tokenizer = Tokenizer(
    isWord: char -> bool,
    selector: string -> Selector,
    keyframesName: string -> Option<string>,
    utilityName: string -> Option<string>,
    animations: string -> set<string>,
    themeAnimations: string -> set<string>)

  datatype Rule = Rule(selector: string, line: nat, tokens: Selector, startByte: nat, endByte: nat)

  datatype Keyframes = Keyframes(name: string, line: nat, startByte: nat, endByte: nat)

  /******* Headers *******/

  /** Python's `str.strip`. */
  function TrimStart(s: string): string {
    if s != "" && IsSpace(s[0]) then TrimStart(s[1..]) else s
  }

  function TrimEnd(s: string): string {
    if s != "" && IsSpace(s[|s| - 1]) then TrimEnd(s[..|s| - 1]) else s
  }

  function Trim(s: string): string {
    TrimEnd(TrimStart(s))
  }

  predicate IsAtHeader(header: string) {
    header != "" && header[0] == '@'
  }

  function WordPrefix(s: string, isWord: char -> bool): string {
    if s != "" && (isWord(s[0]) || s[0] == '-') then [s[0]] + WordPrefix(s[1..], isWord) else ""
  }

  datatype Kind = SelectorRule | KeyframesBlock | UtilityBlock | SkippedBlock | DescendedBlock

  function KindOf(header: string, tok: Tokenizer): Kind {
    if !IsAtHeader(header) then SelectorRule
    else
      var word := WordPrefix(header[1..], tok.isWord);
      if word == "keyframes" then KeyframesBlock
      else if word == "utility" then UtilityBlock
      else if word in {"theme", "plugin"} then SkippedBlock
      else if word in {"media", "layer", "supports", "container"} then DescendedBlock
      else SkippedBlock
  }

  /** The pending header: what follows the last cut, closing braces left out. */
  function Pending(t: string, cut: nat, i: nat): string
    requires i <= |t|
  {
    if i <= cut then ""
    else if t[i - 1] == '}' then Pending(t, cut, i - 1)
    else Pending(t, cut, i - 1) + [t[i - 1]]
  }

  function HeaderText(t: string, cut: nat, i: nat): string
    requires i <= |t|
  {
    Trim(Pending(t, cut, i))
  }

  /** The first character of the header that is not blank, forgetting anything before a closing brace. */
  function HeaderStart(t: string, cut: nat, i: nat): (s: Option<nat>)
    requires i <= |t|
    ensures s.Some? ==> cut <= s.value < i && !IsSpace(t[s.value]) && forall k :: s.value <= k < i ==> t[k] != '}'
    ensures s.None? ==> i <= cut || IsSpace(t[i - 1]) || t[i - 1] == '}'
  {
    if i <= cut || t[i - 1] == '}' then None
    else if HeaderStart(t, cut, i - 1).Some? then HeaderStart(t, cut, i - 1)
    else if IsSpace(t[i - 1]) then None
    else Some(i - 1)
  }

  function StartOf(t: string, cut: nat, opener: nat): (s: nat)
    requires cut <= opener <= |t|
    ensures cut <= s <= opener
  {
    if HeaderStart(t, cut, opener).Some? then HeaderStart(t, cut, opener).value else opener
  }

  /******* The blocks of a text *******/

  /** A header and its opening brace; `next` is where the scan goes on, if it does. */
  datatype Block = Block(cut: nat, opener: nat, kind: Kind, next: Option<nat>)

  /** Where the scan resumes after the block opened at `o`: inside it, or past its closing brace. */
  ghost function NextAfter(t: string, o: nat, kind: Kind): (n: Option<nat>)
    requires o < |t|
    ensures n.Some? ==> o < n.value <= |t|
  {
    if kind.DescendedBlock? then Some(o + 1)
    else if MatchOf(t, o).Some? then Some(MatchOf(t, o).value + 1)
    else None
  }

  predicate EndsStatement(t: string, cut: nat, i: nat)
    requires i < |t|
  {
    t[i] == ';' && IsAtHeader(HeaderText(t, cut, i))
  }

  ghost function BlockAt(t: string, tok: Tokenizer, cut: nat, o: nat): Block
    requires o < |t|
  {
    var kind := KindOf(HeaderText(t, cut, o), tok);
    Block(cut, o, kind, NextAfter(t, o, kind))
  }

  /** Every block the scan meets from `i` on, the current header starting at `cut`. */
  ghost function Blocks(t: string, tok: Tokenizer, i: nat, cut: nat): seq<Block>
    requires i <= |t|
    decreases |t| - i
  {
    if i == |t| then []
    else if t[i] == '{' then
      var b := BlockAt(t, tok, cut, i);
      [b] + if b.next.Some? then Blocks(t, tok, b.next.value, b.next.value) else []
    else if EndsStatement(t, cut, i) then Blocks(t, tok, i + 1, i + 1)
    else Blocks(t, tok, i + 1, cut)
  }

  /** `b` lies in `t`, its braces match, and nothing between its start and its opener is a brace. */
  ghost predicate WellFormed(t: string, tok: Tokenizer, b: Block) {
    && b.cut <= b.opener < |t|
    && b == BlockAt(t, tok, b.cut, b.opener)
    && t[b.opener] == '{'
    && forall k :: b.cut <= k < b.opener ==> t[k] != '{'
  }

  /** Each block but the last is scanned past, and the next header starts after that. */
  predicate Separated(bs: seq<Block>) {
    forall k, l :: 0 <= k < l < |bs| ==> Before(bs[k], bs[l])
  }

  predicate Before(b: Block, c: Block) {
    b.next.Some? && b.next.value <= c.cut
  }

  ghost predicate Ordered(t: string, tok: Tokenizer, bs: seq<Block>) {
    (forall b :: b in bs ==> WellFormed(t, tok, b)) && Separated(bs)
  }

  lemma {:induction false} BlocksOrdered(t: string, tok: Tokenizer, i: nat, cut: nat)
    requires cut <= i <= |t| && forall k :: cut <= k < i ==> t[k] != '{'
    ensures Ordered(t, tok, Blocks(t, tok, i, cut))
    ensures forall b :: b in Blocks(t, tok, i, cut) ==> cut <= b.cut && i <= b.opener
    decreases |t| - i
  {
    if i < |t| {
      if t[i] == '{' {
        var b := BlockAt(t, tok, cut, i);
        if b.next.Some? {
          BlocksOrdered(t, tok, b.next.value, b.next.value);
        }
      } else if EndsStatement(t, cut, i) {
        BlocksOrdered(t, tok, i + 1, i + 1);
      } else {
        BlocksOrdered(t, tok, i + 1, cut);
      }
    }
  }

  /** An opening brace is met by the scan, or lies past the opener of a block whose body is skipped. */
  ghost predicate Covered(bs: seq<Block>, p: nat) {
    exists b :: b in bs && (b.opener == p ||
      (b.opener < p && !b.kind.DescendedBlock? && (b.next.Some? ==> p < b.next.value)))
  }

  /** Nothing is missed: every opening brace is covered. */
  lemma {:induction false} BlocksCoverBraces(t: string, tok: Tokenizer, i: nat, cut: nat, p: nat)
    requires i <= p < |t| && t[p] == '{'
    ensures Covered(Blocks(t, tok, i, cut), p)
    decreases |t| - i
  {
    if t[i] == '{' {
      var b := BlockAt(t, tok, cut, i);
      assert b in Blocks(t, tok, i, cut);
      if b.next.Some? && b.next.value <= p {
        BlocksCoverBraces(t, tok, b.next.value, b.next.value, p);
      }
    } else if EndsStatement(t, cut, i) {
      BlocksCoverBraces(t, tok, i + 1, i + 1, p);
    } else {
      BlocksCoverBraces(t, tok, i + 1, cut, p);
    }
  }

  /******* What is recorded *******/

  /** The rules and keyframes found, the animation names in use and the `@utility` classes. */
  datatype Inventory = Inventory(
    rules: seq<Rule>, keyframes: seq<Keyframes>, refs: set<string>, utilities: set<string>)

  /** Adds what one block contributes; `next` is past its closing brace, or nothing if it is unbalanced. */
  function AddBlock(inv: Inventory, t: string, tok: Tokenizer, kind: Kind, opener: nat, next: Option<nat>,
                    header: string, line: nat, start: nat): Inventory
    requires next.Some? ==> opener <= next.value <= |t|
  {
    match kind
    case SelectorRule =>
      if next.None? then inv else
        inv.(rules := inv.rules + [Rule(header, line, tok.selector(header), start, next.value)],
             refs := inv.refs + tok.animations(t[opener..next.value]))
    case KeyframesBlock =>
      var name := tok.keyframesName(header);
      if next.None? || name.None? then inv else
        inv.(keyframes := inv.keyframes + [Keyframes(name.value, line, start, next.value)])
    case UtilityBlock =>
      var name := tok.utilityName(header);
      if name.None? then inv else inv.(utilities := inv.utilities + {name.value})
    case SkippedBlock => inv
    case DescendedBlock => inv
  }

  predicate InText(text: string, bs: seq<Block>) {
    forall b :: b in bs ==> b.cut <= b.opener < |text| && (b.next.Some? ==> b.opener < b.next.value <= |text|)
  }

  /** The inventory of a list of blocks: every position and line is read off the original text. */
  ghost function InventoryOf(text: string, tok: Tokenizer, bs: seq<Block>): Inventory
    requires InText(text, bs)
  {
    var t := StripComments(text);
    if bs == [] then Inventory([], [], tok.themeAnimations(t), {})
    else
      var b := bs[|bs| - 1];
      var start := StartOf(t, b.cut, b.opener);
      AddBlock(InventoryOf(text, tok, bs[..|bs| - 1]), t, tok, b.kind, b.opener, b.next,
               HeaderText(t, b.cut, b.opener), LineAt(text, start), start)
  }

  ghost function BlocksOf(text: string, tok: Tokenizer): (bs: seq<Block>)
    ensures InText(text, bs)
  {
    BlocksOrdered(StripComments(text), tok, 0, 0);
    Blocks(StripComments(text), tok, 0, 0)
  }

  lemma BlocksInOrder(text: string, tok: Tokenizer)
    ensures Ordered(StripComments(text), tok, BlocksOf(text, tok))
  {
    BlocksOrdered(StripComments(text), tok, 0, 0);
  }

  lemma InventorySnoc(text: string, tok: Tokenizer, bs: seq<Block>, b: Block)
    requires InText(text, bs + [b])
    ensures InText(text, bs)
    ensures InventoryOf(text, tok, bs + [b]) ==
            var t := StripComments(text);
            var start := StartOf(t, b.cut, b.opener);
            AddBlock(InventoryOf(text, tok, bs), t, tok, b.kind, b.opener, b.next,
                     HeaderText(t, b.cut, b.opener), LineAt(text, start), start)
  {
  }

  lemma OneMoreCharacter(t: string, i: nat)
    requires i < |t|
    ensures LineAt(t, i + 1) == LineAt(t, i) + if t[i] == '\n' then 1 else 0
  {
    assert t[..i + 1][..i] == t[..i];
  }

  /** What the pass knows about the text before `i`: its variables are functions of the position. */
  ghost predicate Scanned(text: string, tok: Tokenizer, done: seq<Block>, cut: nat, i: nat, lineNo: nat, headerBuf: string,
                          headerStartLine: Option<nat>, headerStartByte: Option<nat>)
  {
    var t := StripComments(text);
    && cut <= i <= |t|
    && done + Blocks(t, tok, i, cut) == BlocksOf(text, tok)
    && headerBuf == Pending(t, cut, i)
    && headerStartByte == HeaderStart(t, cut, i)
    && headerStartLine == (if headerStartByte.Some? then Some(LineAt(t, headerStartByte.value)) else None)
    && lineNo == LineAt(t, i)
  }

  /** A character that is not an opening brace only moves the variables along. */
  lemma PlainCharacter(text: string, tok: Tokenizer, done: seq<Block>, cut: nat, i: nat, lineNo: nat, headerBuf: string,
                       headerStartLine: Option<nat>, headerStartByte: Option<nat>)
    requires Scanned(text, tok, done, cut, i, lineNo, headerBuf, headerStartLine, headerStartByte)
    requires i < |text| && StripComments(text)[i] != '{'
    ensures var t := StripComments(text);
            var line := if t[i] == '\n' then lineNo + 1 else lineNo;
            if t[i] == ';' && IsAtHeader(Trim(headerBuf)) then
              Scanned(text, tok, done, i + 1, i + 1, line, "", None, None)
            else if t[i] == '}' then
              Scanned(text, tok, done, cut, i + 1, line, headerBuf, None, None)
            else if !IsSpace(t[i]) && headerStartLine.None? then
              Scanned(text, tok, done, cut, i + 1, line, headerBuf + [t[i]], Some(line), Some(i))
            else
              Scanned(text, tok, done, cut, i + 1, line, headerBuf + [t[i]], headerStartLine, headerStartByte)
  {
    OneMoreCharacter(StripComments(text), i);
  }

  /** An opening brace puts its block on record, with its line in the original text, and restarts the header. */
  lemma OpeningBrace(text: string, tok: Tokenizer, done: seq<Block>, cut: nat, i: nat, lineNo: nat, headerBuf: string,
                     headerStartLine: Option<nat>, headerStartByte: Option<nat>)
    requires Scanned(text, tok, done, cut, i, lineNo, headerBuf, headerStartLine, headerStartByte)
    requires InText(text, done) && i < |text| && StripComments(text)[i] == '{'
    ensures var t := StripComments(text);
            var b := BlockAt(t, tok, cut, i);
            var line := if headerStartLine.Some? then headerStartLine.value else lineNo;
            var start := if headerStartByte.Some? then headerStartByte.value else i;
            && b == Block(cut, i, KindOf(Trim(headerBuf), tok), NextAfter(t, i, KindOf(Trim(headerBuf), tok)))
            && lineNo == LineAt(t, i) && InText(text, done + [b])
            && InventoryOf(text, tok, done + [b]) ==
               AddBlock(InventoryOf(text, tok, done), t, tok, b.kind, i, b.next, Trim(headerBuf), line, start)
            && (if b.next.None? then done + [b] == BlocksOf(text, tok) else
                Scanned(text, tok, done + [b], b.next.value, b.next.value, LineAt(t, b.next.value), "", None, None))
  {
    var t, all := StripComments(text), BlocksOf(text, tok);
    var b := BlockAt(t, tok, cut, i);
    var rest := if b.next.Some? then Blocks(t, tok, b.next.value, b.next.value) else [];
    assert all == done + ([b] + rest) == (done + [b]) + rest;
    assert forall c :: c in done + [b] ==> c in all;
    StripKeepsLines(text, StartOf(t, cut, i));
  }

  lemma ScanStarts(text: string, tok: Tokenizer)
    ensures Scanned(text, tok, [], 0, 0, 1, "", None, None) && InText(text, [])
    ensures InventoryOf(text, tok, []) == Inventory([], [], tok.themeAnimations(StripComments(text)), {})
  {
  }

  lemma ScanEnds(text: string, tok: Tokenizer, done: seq<Block>, cut: nat, i: nat, lineNo: nat, headerBuf: string,
                 headerStartLine: Option<nat>, headerStartByte: Option<nat>)
    requires Scanned(text, tok, done, cut, i, lineNo, headerBuf, headerStartLine, headerStartByte) && i >= |text|
    ensures done == BlocksOf(text, tok)
  {
    hide Pending, HeaderStart, LineAt;
    assert done == done + Blocks(StripComments(text), tok, i, cut);
  }

  /** `parse_css`: the pass over the text finds exactly the blocks of the text. */
  method ParseCss(text: string, tok: Tokenizer) returns (inv: Inventory)
    ensures inv == InventoryOf(text, tok, BlocksOf(text, tok))
  {
    hide Scanned, Blocks, BlockAt, BlocksOf, InventoryOf, InText, AddBlock, Trim, KindOf, NextAfter, LineAt, StripComments;
    var t := StripComments(text);
    ScanStarts(text, tok);
    inv := Inventory([], [], tok.themeAnimations(t), {});
    var headerBuf := "";
    var headerStartLine: Option<nat>, headerStartByte: Option<nat> := None, None;
    var lineNo, i := 1, 0;
    ghost var done, cut: nat := [], 0;
    while i < |t|
      invariant 0 <= i <= |t| && Scanned(text, tok, done, cut, i, lineNo, headerBuf, headerStartLine, headerStartByte)
      invariant InText(text, done) && inv == InventoryOf(text, tok, done)
    {
      var c := t[i];
      if c == '{' {
        OpeningBrace(text, tok, done, cut, i, lineNo, headerBuf, headerStartLine, headerStartByte);
      } else {
        PlainCharacter(text, tok, done, cut, i, lineNo, headerBuf, headerStartLine, headerStartByte);
      }
      if c == '\n' { lineNo := lineNo + 1; }

      if c == ';' && IsAtHeader(Trim(headerBuf)) {
        headerBuf, headerStartLine, headerStartByte := "", None, None;
        i := i + 1;
        cut := i;
        continue;
      }

      if c == '{' {
        var header := Trim(headerBuf);
        var lineAtBrace := if headerStartLine.Some? then headerStartLine.value else lineNo;
        var ruleStartByte := if headerStartByte.Some? then headerStartByte.value else i;
        headerBuf, headerStartLine, headerStartByte := "", None, None;
        var kind := KindOf(header, tok);
        var next, newLines := SkipBlock(t, i, kind);
        inv := AddBlock(inv, t, tok, kind, i, next, header, lineAtBrace, ruleStartByte);
        done := done + [BlockAt(t, tok, cut, i)];
        if next.None? { return; }
        lineNo := lineNo + newLines;
        i := next.value;
        cut := i;
        continue;
      }

      if c == '}' {
        headerStartLine, headerStartByte := None, None;
      } else {
        if !IsSpace(c) && headerStartLine.None? {
          headerStartLine, headerStartByte := Some(lineNo), Some(i);
        }
        headerBuf := headerBuf + [c];
      }
      i := i + 1;
    }
    ScanEnds(text, tok, done, cut, i, lineNo, headerBuf, headerStartLine, headerStartByte);
  }

  /** Steps into a block or past its closing brace, counting the lines crossed. */
  method SkipBlock(t: string, opener: nat, kind: Kind) returns (next: Option<nat>, newLines: nat)
    requires opener < |t| && t[opener] == '{'
    ensures next == NextAfter(t, opener, kind)
    ensures next.Some? ==> LineAt(t, next.value) == LineAt(t, opener) + newLines
  {
    if kind.DescendedBlock? {
      OneMoreCharacter(t, opener);
      return Some(opener + 1), 0;
    }
    var end := FindMatchingBrace(t, opener);
    if end < 0 { return None, 0; }
    LineAfter(t, opener, end + 1);
    return Some(end + 1), Newlines(t[opener..end + 1]);
  }

  /******* Properties of the record *******/

  /** A blank-free start, a header without braces, then the block from `o` to its matching brace. */
  ghost predicate BlockRangeVia(t: string, start: nat, o: nat, end: nat) {
    && start <= o && o < end <= |t| && Matches(t, o, end - 1)
    && (forall k :: start <= k < o ==> t[k] != '{' && t[k] != '}')
    && !IsSpace(t[start])
  }

  ghost predicate IsBlockRange(text: string, start: nat, end: nat) {
    exists o :: BlockRangeVia(StripComments(text), start, o, end)
  }

  ghost predicate Records(text: string, b: Block, start: nat, end: nat, line: nat) {
    b.cut <= b.opener <= |text| && b.next == Some(end)
    && start == StartOf(StripComments(text), b.cut, b.opener) && line == LineAt(text, start)
  }

  /** What is recorded of a rule, in terms of its block. */
  ghost predicate RuleFor(text: string, tok: Tokenizer, b: Block, r: Rule) {
    && b.kind.SelectorRule? && Records(text, b, r.startByte, r.endByte, r.line)
    && r.selector == HeaderText(StripComments(text), b.cut, b.opener) && r.tokens == tok.selector(r.selector)
  }

  lemma {:induction false} RuleHasBlock(text: string, tok: Tokenizer, bs: seq<Block>, r: Rule) returns (b: Block)
    requires InText(text, bs) && r in InventoryOf(text, tok, bs).rules
    ensures b in bs && RuleFor(text, tok, b, r)
    decreases |bs|
  {
    var init := bs[..|bs| - 1];
    if r in InventoryOf(text, tok, init).rules {
      b := RuleHasBlock(text, tok, init, r);
    } else {
      b := bs[|bs| - 1];
    }
  }

  lemma {:induction false} KeyframesHaveBlock(text: string, tok: Tokenizer, bs: seq<Block>, f: Keyframes) returns (b: Block)
    requires InText(text, bs) && f in InventoryOf(text, tok, bs).keyframes
    ensures b in bs && b.kind.KeyframesBlock? && Records(text, b, f.startByte, f.endByte, f.line)
    ensures tok.keyframesName(HeaderText(StripComments(text), b.cut, b.opener)) == Some(f.name)
    decreases |bs|
  {
    var init := bs[..|bs| - 1];
    if f in InventoryOf(text, tok, init).keyframes {
      b := KeyframesHaveBlock(text, tok, init, f);
    } else {
      b := bs[|bs| - 1];
    }
  }

  ghost predicate Ascending(inv: Inventory) {
    && (forall i, j :: 0 <= i < j < |inv.rules| ==> inv.rules[i].endByte <= inv.rules[j].startByte)
    && (forall i, j :: 0 <= i < j < |inv.keyframes| ==> inv.keyframes[i].endByte <= inv.keyframes[j].startByte)
  }

  /** Everything on record ends before the header of a later block. */
  ghost predicate EndsBy(inv: Inventory, n: nat) {
    (forall r :: r in inv.rules ==> r.endByte <= n) && (forall f :: f in inv.keyframes ==> f.endByte <= n)
  }

  lemma AddBlockAscends(inv: Inventory, t: string, tok: Tokenizer, kind: Kind, opener: nat, next: Option<nat>,
                        header: string, line: nat, start: nat, n: nat)
    requires next.Some? ==> opener <= next.value <= |t| && next.value <= n
    requires Ascending(inv) && EndsBy(inv, start) && EndsBy(inv, n)
    ensures Ascending(AddBlock(inv, t, tok, kind, opener, next, header, line, start))
    ensures EndsBy(AddBlock(inv, t, tok, kind, opener, next, header, line, start), n)
  {
  }

  lemma {:induction false} RecordAscends(text: string, tok: Tokenizer, bs: seq<Block>, n: nat)
    requires InText(text, bs) && Separated(bs)
    requires forall b :: b in bs && b.next.Some? ==> b.next.value <= n
    ensures Ascending(InventoryOf(text, tok, bs)) && EndsBy(InventoryOf(text, tok, bs), n)
    decreases |bs|
  {
    if bs != [] {
      var init, b := bs[..|bs| - 1], bs[|bs| - 1];
      forall c | c in init ensures c in bs && Before(c, b) {
        var k :| 0 <= k < |init| && init[k] == c;
        assert Before(bs[k], bs[|bs| - 1]);
      }
      var t := StripComments(text);
      var start := StartOf(t, b.cut, b.opener);
      RecordAscends(text, tok, init, start);
      RecordAscends(text, tok, init, n);
      AddBlockAscends(InventoryOf(text, tok, init), t, tok, b.kind, b.opener, b.next,
                      HeaderText(t, b.cut, b.opener), LineAt(text, start), start, n);
    }
  }

  lemma BlockRange(text: string, tok: Tokenizer, b: Block, start: nat, end: nat, line: nat)
    requires WellFormed(StripComments(text), tok, b) && !b.kind.DescendedBlock? && Records(text, b, start, end, line)
    ensures IsBlockRange(text, start, end)
  {
    assert !IsSpace('{');
    assert BlockRangeVia(StripComments(text), start, b.opener, end);
  }

  lemma RuleRange(text: string, tok: Tokenizer, r: Rule)
    requires r in InventoryOf(text, tok, BlocksOf(text, tok)).rules
    ensures IsBlockRange(text, r.startByte, r.endByte) && r.line == LineAt(text, r.startByte)
  {
    BlocksInOrder(text, tok);
    var bs := BlocksOf(text, tok);
    var b := RuleHasBlock(text, tok, bs, r);
    BlockRange(text, tok, b, r.startByte, r.endByte, r.line);
  }

  lemma KeyframesRange(text: string, tok: Tokenizer, f: Keyframes)
    requires f in InventoryOf(text, tok, BlocksOf(text, tok)).keyframes
    ensures IsBlockRange(text, f.startByte, f.endByte) && f.line == LineAt(text, f.startByte)
  {
    BlocksInOrder(text, tok);
    var bs := BlocksOf(text, tok);
    var b := KeyframesHaveBlock(text, tok, bs, f);
    BlockRange(text, tok, b, f.startByte, f.endByte, f.line);
  }

  lemma TwoBlocksApart(bs: seq<Block>, b: Block, c: Block)
    requires Separated(bs) && b in bs && c in bs && b != c
    ensures Before(b, c) || Before(c, b)
  {
  }

  lemma RuleApartFromKeyframes(text: string, tok: Tokenizer, r: Rule, f: Keyframes)
    requires r in InventoryOf(text, tok, BlocksOf(text, tok)).rules
    requires f in InventoryOf(text, tok, BlocksOf(text, tok)).keyframes
    ensures r.endByte <= f.startByte || f.endByte <= r.startByte
  {
    BlocksInOrder(text, tok);
    var bs := BlocksOf(text, tok);
    var b := RuleHasBlock(text, tok, bs, r);
    var c := KeyframesHaveBlock(text, tok, bs, f);
    TwoBlocksApart(bs, b, c);
  }

  /**
  For every text: recorded ranges ascend and are disjoint, each is a block closed by its matching
  brace, and each line is counted in the original text.
  */
  lemma RecordedRanges(text: string, tok: Tokenizer)
    ensures var inv := InventoryOf(text, tok, BlocksOf(text, tok));
            && Ascending(inv)
            && (forall r, f :: r in inv.rules && f in inv.keyframes ==> r.endByte <= f.startByte || f.endByte <= r.startByte)
            && (forall r :: r in inv.rules ==> IsBlockRange(text, r.startByte, r.endByte) && r.line == LineAt(text, r.startByte))
            && (forall f :: f in inv.keyframes ==> IsBlockRange(text, f.startByte, f.endByte) && f.line == LineAt(text, f.startByte))
  {
    BlocksInOrder(text, tok);
    var bs := BlocksOf(text, tok);
    var inv := InventoryOf(text, tok, bs);
    RecordAscends(text, tok, bs, |text|);
    forall r | r in inv.rules { RuleRange(text, tok, r); }
    forall f | f in inv.keyframes { KeyframesRange(text, tok, f); }
    forall r, f | r in inv.rules && f in inv.keyframes { RuleApartFromKeyframes(text, tok, r, f); }
  }

  /******* What a header says *******/

  lemma {:induction false} WordIs(word: string, rest: string, isWord: char -> bool)
    requires forall i :: 0 <= i < |word| ==> isWord(word[i]) || word[i] == '-'
    requires rest == "" || !(isWord(rest[0]) || rest[0] == '-')
    ensures WordPrefix(word + rest, isWord) == word
  {
    if word == "" {
      assert word + rest == rest;
    } else {
      assert (word + rest)[0] == word[0] && (word + rest)[1..] == word[1..] + rest;
      WordIs(word[1..], rest, isWord);
    }
  }

  /**
  For every at-header: the scan goes on inside exactly the blocks of `media`, `layer`, `supports` and
  `container`, and skips every other body. Keyframes and utilities are what they are called.
  */
  lemma AtHeaderKind(word: string, rest: string, t: string, o: nat, tok: Tokenizer)
    requires forall i :: 0 <= i < |word| ==> tok.isWord(word[i]) || word[i] == '-'
    requires rest == "" || !(tok.isWord(rest[0]) || rest[0] == '-')
    requires o < |t| && t[o] == '{'
    ensures var kind := KindOf("@" + word + rest, tok);
            && NextAfter(t, o, kind) == (
                 if word in {"media", "layer", "supports", "container"} then Some(o + 1)
                 else match MatchOf(t, o) case Some(e) => Some(e + 1) case None => None)
            && (kind == KeyframesBlock <==> word == "keyframes")
            && (kind == UtilityBlock <==> word == "utility")
            && kind != SelectorRule
  {
    var header := "@" + word + rest;
    assert header[0] == '@' && header[1..] == word + rest;
    WordIs(word, rest, tok.isWord);
  }

  /** For every other header: a rule. */
  lemma PlainHeaderKind(header: string, tok: Tokenizer)
    requires header == "" || header[0] != '@'
    ensures KindOf(header, tok) == SelectorRule
  {
  }

  /** A block starts at the first ink of its header: before it, there are blanks, or what a brace closed off. */
  lemma {:induction false} StartIsFirstInk(t: string, cut: nat, i: nat, k: nat)
    requires i <= |t| && cut <= k < i && HeaderStart(t, cut, i).Some? && k < HeaderStart(t, cut, i).value
    ensures IsSpace(t[k]) || exists p :: k <= p < HeaderStart(t, cut, i).value && t[p] == '}'
    decreases i
  {
    if HeaderStart(t, cut, i - 1).Some? {
      StartIsFirstInk(t, cut, i - 1, k);
    } else {
      NoInkSinceBrace(t, cut, i - 1, k);
    }
  }

  lemma {:induction false} NoInkSinceBrace(t: string, cut: nat, i: nat, k: nat)
    requires i <= |t| && cut <= k < i && HeaderStart(t, cut, i).None?
    ensures IsSpace(t[k]) || exists p :: k <= p < i && t[p] == '}'
    decreases i
  {
    if t[i - 1] != '}' && k < i - 1 { NoInkSinceBrace(t, cut, i - 1, k); }
  }

  /** Without a closing brace in it, the header is the text between the cut and the opener, trimmed. */
  lemma {:induction false} HeaderIsSlice(t: string, cut: nat, i: nat)
    requires cut <= i <= |t| && forall k :: cut <= k < i ==> t[k] != '}'
    ensures Pending(t, cut, i) == t[cut..i] && HeaderText(t, cut, i) == Trim(t[cut..i])
    decreases i
  {
    if cut < i {
      HeaderIsSlice(t, cut, i - 1);
      assert t[cut..i] == t[cut..i - 1] + [t[i - 1]];
    }
  }
}
