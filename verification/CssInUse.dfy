/**
What is in use stays: what is on record, and which rules and keyframes the auditor plans to delete, told
from the text.
*/
module CssInUse {
  import opened Wrappers
  import opened CssSource
  import opened CssScanner
  import opened CssClassifier
  import opened CssDeletion
  import opened CssReparse
  import opened CssAudit

  /******* What is on record *******/

  ghost predicate FramesFor(text: string, tok: Tokenizer, b: Block, f: Keyframes) {
    && b.kind.KeyframesBlock? && Records(text, b, f.startByte, f.endByte, f.line)
    && tok.keyframesName(HeaderText(StripComments(text), b.cut, b.opener)) == Some(f.name)
  }

  /** For every text: the rules on record are those of the balanced blocks met whose header starts no at-rule. */
  lemma RulesAre(text: string, tok: Tokenizer, r: Rule)
    ensures r in Audit(text, tok).rules <==> exists b :: b in BlocksOf(text, tok) && RuleFor(text, tok, b, r)
  {
    var bs := BlocksOf(text, tok);
    hide BlocksOf, InventoryOf, HeaderText, StartOf, LineAt, StripComments;
    if r in Audit(text, tok).rules {
      var b := RuleHasBlock(text, tok, bs, r);
    }
    if b :| b in bs && RuleFor(text, tok, b, r) {
      var s := BlockHasRule(text, tok, bs, b);
    }
  }

  /** For every text: the keyframes on record are those of the balanced `@keyframes` blocks met that have a name. */
  lemma KeyframesAre(text: string, tok: Tokenizer, f: Keyframes)
    ensures f in Audit(text, tok).keyframes <==> exists b :: b in BlocksOf(text, tok) && FramesFor(text, tok, b, f)
  {
    var bs := BlocksOf(text, tok);
    hide BlocksOf, InventoryOf, HeaderText, StartOf, LineAt, StripComments;
    if f in Audit(text, tok).keyframes {
      var b := KeyframesHaveBlock(text, tok, bs, f);
    }
    if b :| b in bs && FramesFor(text, tok, b, f) {
      BlockHasKeyframes(text, tok, bs, b, f);
    }
  }

  lemma {:induction false} BlockHasKeyframes(text: string, tok: Tokenizer, bs: seq<Block>, b: Block, f: Keyframes)
    requires InText(text, bs) && b in bs && FramesFor(text, tok, b, f)
    ensures f in InventoryOf(text, tok, bs).keyframes
    decreases |bs|
  {
    if b != bs[|bs| - 1] { BlockHasKeyframes(text, tok, bs[..|bs| - 1], b, f); }
  }

  /** For every text: the utilities on record are those named by the `@utility` blocks met, balanced or not. */
  lemma UtilitiesAre(text: string, tok: Tokenizer, name: string)
    ensures name in Audit(text, tok).utilities <==> exists b :: b in BlocksOf(text, tok) && Declares(text, tok, b, name)
  {
    var bs := BlocksOf(text, tok);
    hide BlocksOf, InventoryOf, Declares;
    if name in Audit(text, tok).utilities {
      var b := UtilityHasBlock(text, tok, bs, name);
    }
    if b :| b in bs && Declares(text, tok, b, name) {
      BlockDeclares(text, tok, bs, b, name);
    }
  }

  /******* Animations *******/

  /** The body of the block from `start` to `end`, read off the text without its comments, names the animation. */
  ghost predicate Names(text: string, tok: Tokenizer, start: nat, end: nat, name: string) {
    exists o: nat :: BlockRangeVia(StripComments(text), start, o, end) && name in tok.animations(StripComments(text)[o..end])
  }

  /** Some rule on record, or a theme, names the animation. */
  ghost predicate IsAnimated(text: string, tok: Tokenizer, name: string) {
    || name in tok.themeAnimations(StripComments(text))
    || exists r :: r in Audit(text, tok).rules && Names(text, tok, r.startByte, r.endByte, name)
  }

  ghost predicate BlockNames(text: string, tok: Tokenizer, b: Block, name: string) {
    && b.kind.SelectorRule? && b.next.Some? && b.opener <= b.next.value <= |text|
    && name in tok.animations(StripComments(text)[b.opener..b.next.value])
  }

  lemma {:induction false} RefsOfBlocks(text: string, tok: Tokenizer, bs: seq<Block>, name: string)
    requires InText(text, bs)
    ensures name in InventoryOf(text, tok, bs).refs <==>
            name in tok.themeAnimations(StripComments(text)) || exists b :: b in bs && BlockNames(text, tok, b, name)
    decreases |bs|
  {
    hide HeaderText, StartOf, StripComments, LineAt;
    if bs != [] {
      var init, last := bs[..|bs| - 1], bs[|bs| - 1];
      RefsOfBlocks(text, tok, init, name);
      assert bs == init + [last];
      RefsOfBlock(text, tok, init, last, name);
      if b :| b in bs && BlockNames(text, tok, b, name) { assert b in init || b == last; }
      if b :| b in init && BlockNames(text, tok, b, name) { assert b in bs; }
      assert last in bs;
    }
  }

  lemma RefsOfBlock(text: string, tok: Tokenizer, bs: seq<Block>, b: Block, name: string)
    requires InText(text, bs + [b])
    ensures InText(text, bs) && InText(text, [b])
    ensures name in InventoryOf(text, tok, bs + [b]).refs <==> name in InventoryOf(text, tok, bs).refs || BlockNames(text, tok, b, name)
  {
    hide HeaderText, StartOf, StripComments, LineAt, InventoryOf;
    InventorySnoc(text, tok, bs, b);
    assert b in bs + [b];
  }

  lemma OpenerUnique(t: string, start: nat, o: nat, p: nat, end: nat)
    requires BlockRangeVia(t, start, o, end) && BlockRangeVia(t, start, p, end)
    ensures o == p
  {
  }

  /** The range of a rule block names what the block names. */
  lemma RangeNames(text: string, tok: Tokenizer, b: Block, r: Rule, name: string)
    requires b in BlocksOf(text, tok) && RuleFor(text, tok, b, r)
    ensures Names(text, tok, r.startByte, r.endByte, name) <==> BlockNames(text, tok, b, name)
  {
    BlocksInOrder(text, tok);
    var t := StripComments(text);
    assert WellFormed(t, tok, b);
    BlockOpensAt(text, tok, b, r);
    hide BlocksOf, WellFormed, HeaderText, StartOf, StripComments, BlockRangeVia;
    if o: nat :| BlockRangeVia(t, r.startByte, o, r.endByte) && name in tok.animations(t[o..r.endByte]) {
      OpenerUnique(t, r.startByte, o, b.opener, r.endByte);
    }
  }

  lemma BlockOpensAt(text: string, tok: Tokenizer, b: Block, r: Rule)
    requires WellFormed(StripComments(text), tok, b) && RuleFor(text, tok, b, r)
    ensures BlockRangeVia(StripComments(text), r.startByte, b.opener, r.endByte) && b.next == Some(r.endByte)
  {
    assert !IsSpace('{');
  }

  /** For every text: the animation names collected are those that a theme or a recorded rule names. */
  lemma RefsIff(text: string, tok: Tokenizer, name: string)
    ensures name in Audit(text, tok).refs <==> IsAnimated(text, tok, name)
  {
    var bs := BlocksOf(text, tok);
    RefsOfBlocks(text, tok, bs, name);
    hide BlocksOf, BlockNames, Names, InventoryOf, RuleFor;
    if b :| b in bs && BlockNames(text, tok, b, name) {
      BlockNamesARule(text, tok, b, name);
      var r := BlockHasRule(text, tok, bs, b);
      RangeNames(text, tok, b, r, name);
    }
    if r :| r in Audit(text, tok).rules && Names(text, tok, r.startByte, r.endByte, name) {
      var b := RuleHasBlock(text, tok, bs, r);
      RangeNames(text, tok, b, r, name);
    }
  }

  lemma BlockNamesARule(text: string, tok: Tokenizer, b: Block, name: string)
    requires BlockNames(text, tok, b, name)
    ensures b.kind.SelectorRule? && b.next.Some?
  {
  }

  /******* What is planned *******/

  ghost predicate PlansRange(text: string, tok: Tokenizer, base: set<string>, prefixes: set<string>, start: nat, end: nat) {
    Range(start, end) in Plan(Audit(text, tok), base, prefixes)
  }

  /** No two records share a range. */
  lemma RangesDiffer(text: string, tok: Tokenizer)
    ensures var inv := Audit(text, tok);
            && (forall r, s :: r in inv.rules && s in inv.rules && r.startByte == s.startByte ==> r == s)
            && (forall f, g :: f in inv.keyframes && g in inv.keyframes && f.startByte == g.startByte ==> f == g)
            && (forall r, f :: r in inv.rules && f in inv.keyframes ==> r.startByte != f.startByte)
  {
    var inv := Audit(text, tok);
    RecordedRanges(text, tok);
    hide BlocksOf, InventoryOf, IsBlockRange;
    forall r | r in inv.rules ensures r.startByte < r.endByte { RangeIsNotEmpty(text, r.startByte, r.endByte); }
    forall f | f in inv.keyframes ensures f.startByte < f.endByte { RangeIsNotEmpty(text, f.startByte, f.endByte); }
    RulesDiffer(inv);
    FramesDiffer(inv);
  }

  lemma RangeIsNotEmpty(text: string, start: nat, end: nat)
    requires IsBlockRange(text, start, end)
    ensures start < end
  {
  }

  lemma RulesDiffer(inv: Inventory)
    requires Ascending(inv) && forall r :: r in inv.rules ==> r.startByte < r.endByte
    ensures forall r, s :: r in inv.rules && s in inv.rules && r.startByte == s.startByte ==> r == s
  {
    forall r, s | r in inv.rules && s in inv.rules && r.startByte == s.startByte ensures r == s {
      var i :| 0 <= i < |inv.rules| && inv.rules[i] == r;
      var j :| 0 <= j < |inv.rules| && inv.rules[j] == s;
    }
  }

  lemma FramesDiffer(inv: Inventory)
    requires Ascending(inv) && forall f :: f in inv.keyframes ==> f.startByte < f.endByte
    ensures forall f, g :: f in inv.keyframes && g in inv.keyframes && f.startByte == g.startByte ==> f == g
  {
    forall f, g | f in inv.keyframes && g in inv.keyframes && f.startByte == g.startByte ensures f == g {
      var i :| 0 <= i < |inv.keyframes| && inv.keyframes[i] == f;
      var j :| 0 <= j < |inv.keyframes| && inv.keyframes[j] == g;
    }
  }

  /** For every text: recorded keyframes are planned exactly if no theme and no recorded rule names them. */
  lemma KeyframesPlannedIff(text: string, tok: Tokenizer, base: set<string>, prefixes: set<string>, f: Keyframes)
    requires f in Audit(text, tok).keyframes
    ensures PlansRange(text, tok, base, prefixes, f.startByte, f.endByte) <==> !IsAnimated(text, tok, f.name)
  {
    hide Audit, Plan, IsAnimated;
    PlannedRange(Audit(text, tok), base, prefixes, Range(f.startByte, f.endByte));
    RangesDiffer(text, tok);
    RefsIff(text, tok, f.name);
  }

  /** For every text: a recorded rule is planned exactly if some class it names is not alive. */
  lemma RulePlannedIff(text: string, tok: Tokenizer, base: set<string>, prefixes: set<string>, r: Rule)
    requires r in Audit(text, tok).rules
    ensures PlansRange(text, tok, base, prefixes, r.startByte, r.endByte) <==>
            exists c :: c in r.tokens.classes && c !in base && c !in Audit(text, tok).utilities && !AliveByPrefix(c, prefixes)
  {
    hide Audit, Plan, AliveByPrefix;
    var inv := Audit(text, tok);
    PlannedRange(inv, base, prefixes, Range(r.startByte, r.endByte));
    RangesDiffer(text, tok);
    LiveIff(inv.rules, base + inv.utilities, prefixes, r);
  }

  lemma LiveIff(rules: seq<Rule>, alive: set<string>, prefixes: set<string>, r: Rule)
    requires r in rules
    ensures IsLive(r.tokens, EffectiveAlive(rules, alive, prefixes)) <==>
            forall c :: c in r.tokens.classes ==> c in alive || AliveByPrefix(c, prefixes)
  {
    hide AliveByPrefix;
  }
}
