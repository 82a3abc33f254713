/**
The auditor end to end: after `--apply`, a second run finds the surviving rules and no orphans.
*/
module CssAudit {
  import opened Wrappers
  import opened CssSource
  import opened CssScanner
  import opened CssClassifier
  import opened CssDeletion
  import opened CssReading
  import opened CssReparse

  ghost function Audit(text: string, tok: Tokenizer): Inventory {
    InventoryOf(text, tok, BlocksOf(text, tok))
  }

  /******* From blocks to deletions *******/

  /** The ranges to delete are those of recorded blocks. */
  ghost predicate FromRecords(text: string, tok: Tokenizer, rs: seq<Range>) {
    forall r :: r in rs ==> exists b :: b in BlocksOf(text, tok) && IsRecord(text, tok, b) && RangeOf(text, b) == r
  }

  ghost predicate IsDeleted(text: string, tok: Tokenizer, b: Block, rs: seq<Range>) {
    IsRecord(text, tok, b) && RangeOf(text, b) in rs
  }

  ghost function ChoiceFor(text: string, tok: Tokenizer, b: Block, rs: seq<Range>): Option<Range> {
    if IsDeleted(text, tok, b, rs) then Some(CutOf(text, tok, b)) else None
  }

  /** The cut that goes with each block. */
  ghost function ChoicesFor(text: string, tok: Tokenizer, bs: seq<Block>, rs: seq<Range>): (es: Choices)
    ensures |es| == |bs| && forall m :: 0 <= m < |bs| ==> es[m] == ChoiceFor(text, tok, bs[m], rs)
  {
    seq(|bs|, m requires 0 <= m < |bs| => ChoiceFor(text, tok, bs[m], rs))
  }

  lemma DeletedIsRemovable(text: string, tok: Tokenizer, rs: seq<Range>, b: Block)
    requires InBounds(|text|, rs) && Isolated(text, rs) && FromRecords(text, tok, rs)
    requires b in BlocksOf(text, tok) && IsDeleted(text, tok, b, rs)
    ensures Removable(text, tok, b)
  {
    HeaderStartsBeforeLine(text, tok, b);
  }

  lemma ChoicesAreChosen(text: string, tok: Tokenizer, rs: seq<Range>)
    requires InBounds(|text|, rs) && Isolated(text, rs) && FromRecords(text, tok, rs)
    ensures Chosen(text, tok, BlocksOf(text, tok), ChoicesFor(text, tok, BlocksOf(text, tok), rs))
  {
    var bs := BlocksOf(text, tok);
    var es := ChoicesFor(text, tok, bs, rs);
    forall m | 0 <= m < |es| && es[m].Some? ensures IsChoice(text, tok, bs[m], es[m].value) {
      assert bs[m] in bs;
      DeletedIsRemovable(text, tok, rs, bs[m]);
    }
  }

  lemma {:induction false} CutsCover(es: Choices, m: nat, p: nat)
    ensures CoveredBy(Cuts(es, m), p) <==> exists k :: m <= k < |es| && es[k].Some? && Inside(es[k].value, p)
    decreases |es| - m
  {
    if m < |es| {
      CutsCover(es, m + 1, p);
      if es[m].Some? { CoverSnoc(Cuts(es, m + 1), es[m].value, p); }
    }
  }

  lemma DeletedIsCut(text: string, tok: Tokenizer, rs: seq<Range>, r: Range) returns (m: nat)
    requires InBounds(|text|, rs) && FromRecords(text, tok, rs) && r in rs
    ensures var es := ChoicesFor(text, tok, BlocksOf(text, tok), rs); m < |es| && es[m] == Some(Expand(text, r))
  {
    var bs := BlocksOf(text, tok);
    var b :| b in bs && IsRecord(text, tok, b) && RangeOf(text, b) == r;
    m :| 0 <= m < |bs| && bs[m] == b;
    assert ChoicesFor(text, tok, bs, rs)[m] == ChoiceFor(text, tok, b, rs);
  }

  lemma CutIsDeleted(text: string, tok: Tokenizer, rs: seq<Range>, m: nat) returns (r: Range)
    requires InBounds(|text|, rs) && m < |BlocksOf(text, tok)| && ChoicesFor(text, tok, BlocksOf(text, tok), rs)[m].Some?
    ensures r in rs && ChoicesFor(text, tok, BlocksOf(text, tok), rs)[m].value == Expand(text, r)
  {
    var bs := BlocksOf(text, tok);
    assert ChoicesFor(text, tok, bs, rs)[m] == ChoiceFor(text, tok, bs[m], rs);
    r := RangeOf(text, bs[m]);
  }

  /** Cutting block by block removes what the sorted loop removes. */
  lemma SameCover(text: string, tok: Tokenizer, rs: seq<Range>, p: nat)
    requires InBounds(|text|, rs) && FromRecords(text, tok, rs)
    ensures CoveredBy(Cuts(ChoicesFor(text, tok, BlocksOf(text, tok), rs), 0), p) <==> CoveredBy(ExpandAll(text, rs), p)
  {
    var es := ChoicesFor(text, tok, BlocksOf(text, tok), rs);
    CutsCover(es, 0, p);
    if r :| r in rs && Inside(Expand(text, r), p) {
      var m := DeletedIsCut(text, tok, rs, r);
      assert es[m].Some?;
    }
    if m :| 0 <= m < |es| && es[m].Some? && Inside(es[m].value, p) {
      var r := CutIsDeleted(text, tok, rs, m);
    }
  }

  lemma SamePositionsSameText(text: string, cuts: seq<Range>, cuts': seq<Range>)
    requires CutAll<nat>(Interval(0, |text|), cuts) == CutAll<nat>(Interval(0, |text|), cuts')
    ensures CutAll(text, cuts) == CutAll(text, cuts')
  {
    CutOfPositions(text, cuts);
    CutOfPositions(text, cuts');
  }

  lemma SameAsApplied(text: string, rs: seq<Range>, cuts: seq<Range>)
    requires Deletable(text, rs) && InBounds(|text|, rs) && Isolated(text, rs) && Spaced(text, cuts)
    requires forall p: nat :: CoveredBy(cuts, p) <==> CoveredBy(ExpandAll(text, rs), p)
    ensures CutAll(text, cuts) == Applied(text, rs)
  {
    CutsAreExact(|text|, cuts);
    KeptSame(0, |text|, cuts, ExpandAll(text, rs));
    IsolatedIsExact(text, rs);
    SamePositionsSameText(text, cuts, SortDescending(ExpandAll(text, rs)));
  }

  /** For no block that stays, a deletion before it leaves text stranded in its header that is not swallowed. */
  ghost predicate StrandsNothing(text: string, tok: Tokenizer, rs: seq<Range>)
    requires InBounds(|text|, rs) && Isolated(text, rs) && FromRecords(text, tok, rs)
  {
    ChoicesAreChosen(text, tok, rs);
    LeavesHeaders(text, tok, ChoicesFor(text, tok, BlocksOf(text, tok), rs))
  }

  /**
  For every text and every set of recorded blocks that are alone on their lines: parsing the text that
  `--apply` writes finds the blocks that were not deleted, in order and as they read, if and only if
  no deletion leaves text stranded in the header of one of them.
  */
  lemma ReparseApplied(text: string, tok: Tokenizer, rs: seq<Range>)
    requires Deletable(text, rs) && InBounds(|text|, rs) && Isolated(text, rs) && FromRecords(text, tok, rs)
    ensures var u, bs := Applied(text, rs), BlocksOf(text, tok);
            Trace(StripComments(u), BlocksOf(u, tok)) == KeptItems(StripComments(text), bs, ChoicesFor(text, tok, bs, rs), 0)
            <==> StrandsNothing(text, tok, rs)
  {
    var es := ChoicesFor(text, tok, BlocksOf(text, tok), rs);
    hide BlocksOf, LeavesHeaders;
    ChoicesAreChosen(text, tok, rs);
    ReparseIff(text, tok, es);
    forall p: nat ensures CoveredBy(Cuts(es, 0), p) <==> CoveredBy(ExpandAll(text, rs), p) { SameCover(text, tok, rs, p); }
    SameAsApplied(text, rs, Cuts(es, 0));
  }

  /** Clean headers strand nothing. */
  lemma CleanHeadersStrandNothing(text: string, tok: Tokenizer, rs: seq<Range>)
    requires InBounds(|text|, rs) && Isolated(text, rs) && FromRecords(text, tok, rs)
    requires forall b :: b in BlocksOf(text, tok) && IsDeleted(text, tok, b, rs) ==> CleanHeader(text, b)
    ensures StrandsNothing(text, tok, rs)
  {
    var bs := BlocksOf(text, tok);
    var es := ChoicesFor(text, tok, bs, rs);
    hide BlocksOf, CleanHeader, IsDeleted;
    ChoicesAreChosen(text, tok, rs);
    ChosenLineUp(text, tok, bs, es);
    ChoicesAreLaid(text, tok, bs, es);
    forall k | 0 <= k < |bs| && es[k].Some? && bs[k].cut <= bs[k].opener <= |text| ensures CleanHeader(text, bs[k]) {
      assert es[k] == ChoiceFor(text, tok, bs[k], rs);
    }
    CleanIsHarmless(text, tok, bs, es, 0, "");
  }

  /******* From blocks to rules *******/

  lemma {:induction false} BlockHasRule(text: string, tok: Tokenizer, bs: seq<Block>, b: Block) returns (r: Rule)
    requires InText(text, bs) && b in bs && b.kind.SelectorRule? && b.next.Some?
    ensures r in InventoryOf(text, tok, bs).rules && RuleFor(text, tok, b, r)
    decreases |bs|
  {
    var init := bs[..|bs| - 1];
    if b == bs[|bs| - 1] {
      var rules := InventoryOf(text, tok, bs).rules;
      r := rules[|rules| - 1];
    } else {
      r := BlockHasRule(text, tok, init, b);
    }
  }

  /** `name` is declared by the `@utility` block `b`. */
  ghost predicate Declares(text: string, tok: Tokenizer, b: Block, name: string) {
    b.cut <= b.opener <= |text| && b.kind.UtilityBlock?
    && tok.utilityName(HeaderText(StripComments(text), b.cut, b.opener)) == Some(name)
  }

  lemma {:induction false} UtilityHasBlock(text: string, tok: Tokenizer, bs: seq<Block>, name: string) returns (b: Block)
    requires InText(text, bs) && name in InventoryOf(text, tok, bs).utilities
    ensures b in bs && Declares(text, tok, b, name)
    decreases |bs|
  {
    var init := bs[..|bs| - 1];
    if name in InventoryOf(text, tok, init).utilities {
      b := UtilityHasBlock(text, tok, init, name);
    } else {
      b := bs[|bs| - 1];
    }
  }

  lemma {:induction false} BlockDeclares(text: string, tok: Tokenizer, bs: seq<Block>, b: Block, name: string)
    requires InText(text, bs) && b in bs && Declares(text, tok, b, name)
    ensures name in InventoryOf(text, tok, bs).utilities
    decreases |bs|
  {
    if b != bs[|bs| - 1] { BlockDeclares(text, tok, bs[..|bs| - 1], b, name); }
  }

  lemma {:induction false} TraceMember(t: string, bs: seq<Block>, k: nat)
    requires k < |bs|
    ensures Trace(t, bs)[k] == ItemOf(t, bs[k])
    decreases |bs|
  {
    if k > 0 { TraceMember(t, bs[1..], k - 1); }
  }

  lemma {:induction false} KeptItemOrigin(t: string, bs: seq<Block>, es: Choices, m: nat, k: nat) returns (l: nat)
    requires |es| == |bs| && k < |KeptItems(t, bs, es, m)|
    ensures m <= l < |bs| && es[l].None? && KeptItems(t, bs, es, m)[k] == ItemOf(t, bs[l])
    decreases |es| - m
  {
    if es[m].Some? {
      l := KeptItemOrigin(t, bs, es, m + 1, k);
    } else if k == 0 {
      l := m;
    } else {
      l := KeptItemOrigin(t, bs, es, m + 1, k - 1);
    }
  }

  lemma {:induction false} KeptItemPlace(t: string, bs: seq<Block>, es: Choices, m: nat, l: nat) returns (k: nat)
    requires |es| == |bs| && m <= l < |bs| && es[l].None?
    ensures k < |KeptItems(t, bs, es, m)| && KeptItems(t, bs, es, m)[k] == ItemOf(t, bs[l])
    decreases |es| - m
  {
    if m == l {
      k := 0;
    } else {
      var i := KeptItemPlace(t, bs, es, m + 1, l);
      k := if es[m].Some? then i else i + 1;
    }
  }

  /** What `--apply` is given: recorded blocks, alone on their lines, that strand nothing. */
  ghost predicate ReadyToApply(text: string, tok: Tokenizer, rs: seq<Range>) {
    Deletable(text, rs) && InBounds(|text|, rs) && Isolated(text, rs) && FromRecords(text, tok, rs) && StrandsNothing(text, tok, rs)
  }

  /** A block of the new text was a block of the old one that was not deleted. */
  lemma BlockBefore(text: string, tok: Tokenizer, rs: seq<Range>, k: nat) returns (b: Block)
    requires ReadyToApply(text, tok, rs) && k < |BlocksOf(Applied(text, rs), tok)|
    ensures b in BlocksOf(text, tok) && !IsDeleted(text, tok, b, rs)
    ensures ItemOf(StripComments(Applied(text, rs)), BlocksOf(Applied(text, rs), tok)[k]) == ItemOf(StripComments(text), b)
  {
    var u, bs := Applied(text, rs), BlocksOf(text, tok);
    var es := ChoicesFor(text, tok, bs, rs);
    ReparseApplied(text, tok, rs);
    TraceMember(StripComments(u), BlocksOf(u, tok), k);
    var l := KeptItemOrigin(StripComments(text), bs, es, 0, k);
    b := bs[l];
    assert es[l] == ChoiceFor(text, tok, bs[l], rs);
  }

  /** A block that is not deleted is a block of the new text. */
  lemma BlockAfterwards(text: string, tok: Tokenizer, rs: seq<Range>, b: Block) returns (c: Block)
    requires ReadyToApply(text, tok, rs) && b in BlocksOf(text, tok) && !IsDeleted(text, tok, b, rs)
    ensures c in BlocksOf(Applied(text, rs), tok)
    ensures ItemOf(StripComments(Applied(text, rs)), c) == ItemOf(StripComments(text), b)
  {
    var u, bs := Applied(text, rs), BlocksOf(text, tok);
    var es := ChoicesFor(text, tok, bs, rs);
    ReparseApplied(text, tok, rs);
    var l :| 0 <= l < |bs| && bs[l] == b;
    assert es[l] == ChoiceFor(text, tok, bs[l], rs);
    var k := KeptItemPlace(StripComments(text), bs, es, 0, l);
    TraceMember(StripComments(u), BlocksOf(u, tok), k);
    c := BlocksOf(u, tok)[k];
  }

  lemma BlockFits(text: string, tok: Tokenizer, b: Block)
    requires b in BlocksOf(text, tok)
    ensures Fits(StripComments(text), b) && WellFormed(StripComments(text), tok, b)
  {
    BlocksInOrder(text, tok);
  }

  /** Every rule of the second run was a rule of the first that was not deleted. */
  lemma RuleBefore(text: string, tok: Tokenizer, rs: seq<Range>, r: Rule) returns (s: Rule)
    requires ReadyToApply(text, tok, rs) && r in Audit(Applied(text, rs), tok).rules
    ensures s in Audit(text, tok).rules && s.selector == r.selector && s.tokens == r.tokens
    ensures Range(s.startByte, s.endByte) !in rs
  {
    var u := Applied(text, rs);
    var c := RuleHasBlock(u, tok, BlocksOf(u, tok), r);
    var k :| 0 <= k < |BlocksOf(u, tok)| && BlocksOf(u, tok)[k] == c;
    BlockFits(u, tok, c);
    var b := BlockBefore(text, tok, rs, k);
    BlockFits(text, tok, b);
    s := BlockHasRule(text, tok, BlocksOf(text, tok), b);
  }

  lemma UtilitiesStay(text: string, tok: Tokenizer, rs: seq<Range>, name: string)
    requires ReadyToApply(text, tok, rs) && name in Audit(text, tok).utilities
    requires forall b :: b in BlocksOf(text, tok) && IsDeleted(text, tok, b, rs) ==> !b.kind.UtilityBlock?
    ensures name in Audit(Applied(text, rs), tok).utilities
  {
    var u := Applied(text, rs);
    var b := UtilityHasBlock(text, tok, BlocksOf(text, tok), name);
    var c := BlockAfterwards(text, tok, rs, b);
    BlockDeclares(u, tok, BlocksOf(u, tok), c, name);
  }

  /** Every rule that is not live is among the deletions, and no `@utility` block is. */
  ghost predicate DeletesDeadRules(text: string, tok: Tokenizer, rs: seq<Range>, alive: set<string>, prefixes: set<string>) {
    var rules := Audit(text, tok).rules;
    && (forall r :: r in rules && !IsLive(r.tokens, EffectiveAlive(rules, alive, prefixes)) ==> Range(r.startByte, r.endByte) in rs)
    && (forall b :: b in BlocksOf(text, tok) && IsDeleted(text, tok, b, rs) ==> !b.kind.UtilityBlock?)
  }

  lemma RuleStaysLive(text: string, tok: Tokenizer, rs: seq<Range>, alive: set<string>, alive': set<string>, prefixes: set<string>, r: Rule)
    requires ReadyToApply(text, tok, rs) && DeletesDeadRules(text, tok, rs, alive, prefixes) && alive <= alive'
    requires r in Audit(Applied(text, rs), tok).rules
    ensures var rules := Audit(text, tok).rules;
            exists s :: s in rules && s.tokens == r.tokens && IsLive(s.tokens, EffectiveAlive(rules, alive', prefixes))
  {
    var s := RuleBefore(text, tok, rs, r);
    LiveStaysLive(Audit(text, tok).rules, alive, alive', prefixes, prefixes, s);
  }

  /**
  The whole point of `--apply`: when the deleted blocks stand alone on their lines with clean headers
  and every dead rule is among them, running the auditor on the text it wrote finds no orphan rule.
  `base` is what Rust and HTML refer to; each run adds the `@utility` classes it parsed itself.
  */
  lemma SecondRunFindsNoOrphans(text: string, tok: Tokenizer, rs: seq<Range>, base: set<string>, prefixes: set<string>)
    requires ReadyToApply(text, tok, rs) && DeletesDeadRules(text, tok, rs, base + Audit(text, tok).utilities, prefixes)
    ensures var again := Audit(Applied(text, rs), tok);
            var buckets := BucketsOf(again.rules, EffectiveAlive(again.rules, base + again.utilities, prefixes));
            buckets.orphan == [] && buckets.orphanChain == []
  {
    var first, again := Audit(text, tok), Audit(Applied(text, rs), tok);
    var alive, alive' := base + first.utilities, base + again.utilities;
    forall name | name in first.utilities ensures name in again.utilities { UtilitiesStay(text, tok, rs, name); }
    forall r | r in again.rules
      ensures exists s :: s in first.rules && s.tokens == r.tokens && IsLive(s.tokens, EffectiveAlive(first.rules, alive', prefixes))
    {
      RuleStaysLive(text, tok, rs, alive, alive', prefixes, r);
    }
    SurvivorsStayLive(first.rules, again.rules, alive', prefixes);
  }

  /******* What main deletes *******/

  /** Where each item lies. */
  function Ranges<T>(items: seq<T>, where: T -> Range): (rs: seq<Range>)
    ensures |rs| == |items| && forall i :: 0 <= i < |rs| ==> rs[i] == where(items[i])
  {
    seq(|items|, i requires 0 <= i < |items| => where(items[i]))
  }

  function RuleRanges(rules: seq<Rule>): seq<Range> {
    Ranges(rules, (r: Rule) => Range(r.startByte, r.endByte))
  }

  /** The keyframes that no animation refers to. */
  function OrphanKeyframes(frames: seq<Keyframes>, refs: set<string>): seq<Keyframes> {
    if frames == [] then []
    else
      OrphanKeyframes(frames[..|frames| - 1], refs) +
      if frames[|frames| - 1].name !in refs then [frames[|frames| - 1]] else []
  }

  function KeyframesRanges(frames: seq<Keyframes>): seq<Range> {
    Ranges(frames, (f: Keyframes) => Range(f.startByte, f.endByte))
  }

  /** The deletions, in the order `main` collects them. */
  function Plan(inv: Inventory, base: set<string>, prefixes: set<string>): seq<Range> {
    var buckets := BucketsOf(inv.rules, EffectiveAlive(inv.rules, base + inv.utilities, prefixes));
    RuleRanges(buckets.orphan + buckets.orphanChain) + KeyframesRanges(OrphanKeyframes(inv.keyframes, inv.refs))
  }

  /** `main` with `--apply`, from the text to the new text. */
  method AuditAndApply(text: string, tok: Tokenizer, base: set<string>, prefixes: set<string>) returns (newText: string)
    ensures InBounds(|text|, Plan(Audit(text, tok), base, prefixes))
    ensures newText == Applied(text, Plan(Audit(text, tok), base, prefixes))
  {
    var inv := ParseCss(text, tok);
    var buckets, _, _ := Categorize(inv.rules, base + inv.utilities, prefixes);
    var deletions := RuleRanges(buckets.orphan + buckets.orphanChain) + KeyframesRanges(OrphanKeyframes(inv.keyframes, inv.refs));
    PlanIsDeletable(text, tok, base, prefixes);
    newText := ApplyDeletions(text, deletions);
  }

  predicate RulesAscend(rules: seq<Rule>) {
    forall i, j :: 0 <= i < j < |rules| ==> rules[i].endByte <= rules[j].startByte
  }

  predicate FramesAscend(frames: seq<Keyframes>) {
    forall i, j :: 0 <= i < j < |frames| ==> frames[i].endByte <= frames[j].startByte
  }

  lemma {:induction false} BucketMembers(rules: seq<Rule>, alive: set<string>, b: Bucket, r: Rule)
    ensures r in InBucket(rules, alive, b) <==> r in rules && BucketFor(r.tokens, alive) == b
    decreases |rules|
  {
    if rules != [] { BucketMembers(rules[..|rules| - 1], alive, b, r); }
  }

  lemma {:induction false} BucketAscends(rules: seq<Rule>, alive: set<string>, b: Bucket)
    requires RulesAscend(rules)
    ensures RulesAscend(InBucket(rules, alive, b))
    decreases |rules|
  {
    if rules != [] {
      var init, last := rules[..|rules| - 1], rules[|rules| - 1];
      BucketAscends(init, alive, b);
      forall r | r in InBucket(init, alive, b) ensures r.endByte <= last.startByte {
        BucketMembers(init, alive, b, r);
        var i :| 0 <= i < |init| && init[i] == r;
        assert rules[i].endByte <= rules[|rules| - 1].startByte;
      }
    }
  }

  lemma {:induction false} OrphanFramesMembers(frames: seq<Keyframes>, refs: set<string>, f: Keyframes)
    ensures f in OrphanKeyframes(frames, refs) <==> f in frames && f.name !in refs
    decreases |frames|
  {
    if frames != [] { OrphanFramesMembers(frames[..|frames| - 1], refs, f); }
  }

  lemma {:induction false} OrphanFramesAscend(frames: seq<Keyframes>, refs: set<string>)
    requires FramesAscend(frames)
    ensures FramesAscend(OrphanKeyframes(frames, refs))
    decreases |frames|
  {
    if frames != [] {
      var init, last := frames[..|frames| - 1], frames[|frames| - 1];
      OrphanFramesAscend(init, refs);
      forall f | f in OrphanKeyframes(init, refs) ensures f.endByte <= last.startByte {
        OrphanFramesMembers(init, refs, f);
        var i :| 0 <= i < |init| && init[i] == f;
        assert frames[i].endByte <= frames[|frames| - 1].startByte;
      }
    }
  }

  lemma RulesApart(rules: seq<Rule>, r: Rule, s: Rule)
    requires RulesAscend(rules) && r in rules && s in rules && r != s
    ensures Apart(Range(r.startByte, r.endByte), Range(s.startByte, s.endByte))
  {
  }

  predicate AllApart(rs: seq<Range>) {
    forall i, j :: 0 <= i < j < |rs| ==> Apart(rs[i], rs[j])
  }

  lemma ApartAppend(rs: seq<Range>, ss: seq<Range>)
    requires AllApart(rs) && AllApart(ss) && forall r, s :: r in rs && s in ss ==> Apart(r, s)
    ensures AllApart(rs + ss)
  {
  }

  lemma BlockRangeLooksLikeBlock(text: string, start: nat, end: nat)
    requires IsBlockRange(text, start, end)
    ensures BlockLike(text, Range(start, end))
  {
  }

  /** The dead rules, orphans first, are apart from each other. */
  lemma DeadRulesApart(rules: seq<Rule>, alive: set<string>)
    requires RulesAscend(rules)
    ensures var b := BucketsOf(rules, alive); AllApart(RuleRanges(b.orphan + b.orphanChain))
  {
    var orphan, chain := InBucket(rules, alive, Orphan), InBucket(rules, alive, OrphanChain);
    BucketAscends(rules, alive, Orphan);
    BucketAscends(rules, alive, OrphanChain);
    forall r, s | r in RuleRanges(orphan) && s in RuleRanges(chain) ensures Apart(r, s) {
      var i :| 0 <= i < |orphan| && RuleRanges(orphan)[i] == r;
      var j :| 0 <= j < |chain| && RuleRanges(chain)[j] == s;
      assert orphan[i] in orphan && chain[j] in chain;
      BucketMembers(rules, alive, Orphan, orphan[i]);
      BucketMembers(rules, alive, OrphanChain, chain[j]);
      RulesApart(rules, orphan[i], chain[j]);
    }
    ApartAppend(RuleRanges(orphan), RuleRanges(chain));
    assert RuleRanges(orphan + chain) == RuleRanges(orphan) + RuleRanges(chain);
  }

  /** A planned deletion is the range of a dead rule or of orphan keyframes. */
  lemma PlannedRange(inv: Inventory, base: set<string>, prefixes: set<string>, r: Range)
    ensures r in Plan(inv, base, prefixes) <==>
            || (exists x :: x in inv.rules && !IsLive(x.tokens, EffectiveAlive(inv.rules, base + inv.utilities, prefixes))
                  && r == Range(x.startByte, x.endByte))
            || (exists f :: f in inv.keyframes && f.name !in inv.refs && r == Range(f.startByte, f.endByte))
  {
    var alive := EffectiveAlive(inv.rules, base + inv.utilities, prefixes);
    var dead, frames := InBucket(inv.rules, alive, Orphan) + InBucket(inv.rules, alive, OrphanChain), OrphanKeyframes(inv.keyframes, inv.refs);
    forall x ensures x in dead <==> x in inv.rules && !IsLive(x.tokens, alive) {
      BucketMembers(inv.rules, alive, Orphan, x);
      BucketMembers(inv.rules, alive, OrphanChain, x);
    }
    forall f ensures f in frames <==> f in inv.keyframes && f.name !in inv.refs { OrphanFramesMembers(inv.keyframes, inv.refs, f); }
  }

  lemma PlanLooksLikeBlocks(text: string, tok: Tokenizer, base: set<string>, prefixes: set<string>, r: Range)
    requires r in Plan(Audit(text, tok), base, prefixes)
    ensures BlockLike(text, r)
  {
    var inv := Audit(text, tok);
    PlannedRange(inv, base, prefixes, r);
    RecordedRanges(text, tok);
    if x :| x in inv.rules && r == Range(x.startByte, x.endByte) {
      BlockRangeLooksLikeBlock(text, x.startByte, x.endByte);
    } else {
      var f :| f in inv.keyframes && r == Range(f.startByte, f.endByte);
      BlockRangeLooksLikeBlock(text, f.startByte, f.endByte);
    }
  }

  lemma RuleFarFromFrames(text: string, tok: Tokenizer, rules: seq<Rule>, frames: seq<Keyframes>, r: Range, s: Range)
    requires forall x :: x in rules ==> x in Audit(text, tok).rules
    requires forall f :: f in frames ==> f in Audit(text, tok).keyframes
    requires r in RuleRanges(rules) && s in KeyframesRanges(frames)
    ensures Apart(r, s)
  {
    var x :| x in rules && r == Range(x.startByte, x.endByte);
    var f :| f in frames && s == Range(f.startByte, f.endByte);
    RuleApartFromKeyframes(text, tok, x, f);
  }

  lemma PlanApart(text: string, tok: Tokenizer, base: set<string>, prefixes: set<string>)
    ensures AllApart(Plan(Audit(text, tok), base, prefixes))
  {
    var inv := Audit(text, tok);
    var alive := EffectiveAlive(inv.rules, base + inv.utilities, prefixes);
    var dead, frames := InBucket(inv.rules, alive, Orphan) + InBucket(inv.rules, alive, OrphanChain), OrphanKeyframes(inv.keyframes, inv.refs);
    RecordedRanges(text, tok);
    DeadRulesApart(inv.rules, alive);
    OrphanFramesAscend(inv.keyframes, inv.refs);
    forall x | x in dead ensures x in inv.rules {
      BucketMembers(inv.rules, alive, Orphan, x);
      BucketMembers(inv.rules, alive, OrphanChain, x);
    }
    forall f | f in frames ensures f in inv.keyframes { OrphanFramesMembers(inv.keyframes, inv.refs, f); }
    forall r, s | r in RuleRanges(dead) && s in KeyframesRanges(frames) ensures Apart(r, s) {
      RuleFarFromFrames(text, tok, dead, frames, r, s);
    }
  }

  /** Whatever the text, the planned deletions are blocks, in bounds and apart. */
  lemma PlanIsDeletable(text: string, tok: Tokenizer, base: set<string>, prefixes: set<string>)
    ensures Deletable(text, Plan(Audit(text, tok), base, prefixes))
    ensures InBounds(|text|, Plan(Audit(text, tok), base, prefixes))
  {
    forall r | r in Plan(Audit(text, tok), base, prefixes) ensures BlockLike(text, r) {
      PlanLooksLikeBlocks(text, tok, base, prefixes, r);
    }
    PlanApart(text, tok, base, prefixes);
  }

  /** Every planned deletion is the range of a rule or keyframes block. */
  lemma PlannedBlock(text: string, tok: Tokenizer, base: set<string>, prefixes: set<string>, r: Range) returns (b: Block)
    requires r in Plan(Audit(text, tok), base, prefixes)
    ensures b in BlocksOf(text, tok) && IsRecord(text, tok, b) && RangeOf(text, b) == r && !b.kind.UtilityBlock?
  {
    BlocksInOrder(text, tok);
    var inv, bs := Audit(text, tok), BlocksOf(text, tok);
    PlannedRange(inv, base, prefixes, r);
    if x :| x in inv.rules && r == Range(x.startByte, x.endByte) {
      b := RuleHasBlock(text, tok, bs, x);
    } else {
      var f :| f in inv.keyframes && r == Range(f.startByte, f.endByte);
      b := KeyframesHaveBlock(text, tok, bs, f);
    }
  }

  lemma SameRangeSameBlock(text: string, tok: Tokenizer, b: Block, c: Block)
    requires b in BlocksOf(text, tok) && c in BlocksOf(text, tok) && IsRecord(text, tok, b) && IsRecord(text, tok, c)
    requires RangeOf(text, b) == RangeOf(text, c)
    ensures b == c
  {
    BlocksInOrder(text, tok);
  }

  /** Every planned deletion is that of a recorded block. */
  lemma PlanIsFromRecords(text: string, tok: Tokenizer, base: set<string>, prefixes: set<string>)
    ensures FromRecords(text, tok, Plan(Audit(text, tok), base, prefixes))
  {
    forall r | r in Plan(Audit(text, tok), base, prefixes)
      ensures exists b :: b in BlocksOf(text, tok) && IsRecord(text, tok, b) && RangeOf(text, b) == r
    {
      var b := PlannedBlock(text, tok, base, prefixes, r);
    }
  }

  /**
  What is left to look at in the text and the plan: each planned deletion is alone on its line, and
  none leaves text stranded in the header of a block that stays.
  */
  ghost predicate PlanIsTidy(text: string, tok: Tokenizer, base: set<string>, prefixes: set<string>) {
    var rs := Plan(Audit(text, tok), base, prefixes);
    PlanIsFromRecords(text, tok, base, prefixes);
    InBounds(|text|, rs) && Isolated(text, rs) && StrandsNothing(text, tok, rs)
  }

  /** For every text whose planned deletions are tidy, `--apply` leaves nothing for a second run to delete among the rules. */
  lemma ApplyIsFinal(text: string, tok: Tokenizer, base: set<string>, prefixes: set<string>)
    requires PlanIsTidy(text, tok, base, prefixes)
    ensures var again := Audit(Applied(text, Plan(Audit(text, tok), base, prefixes)), tok);
            var buckets := BucketsOf(again.rules, EffectiveAlive(again.rules, base + again.utilities, prefixes));
            buckets.orphan == [] && buckets.orphanChain == []
  {
    var inv, rs := Audit(text, tok), Plan(Audit(text, tok), base, prefixes);
    hide StrandsNothing, BlocksOf, Isolated, Audit, Plan;
    PlanIsDeletable(text, tok, base, prefixes);
    PlanIsFromRecords(text, tok, base, prefixes);
    forall b | b in BlocksOf(text, tok) && IsDeleted(text, tok, b, rs) ensures !b.kind.UtilityBlock? {
      var c := PlannedBlock(text, tok, base, prefixes, RangeOf(text, b));
      SameRangeSameBlock(text, tok, b, c);
    }
    forall r | r in inv.rules && !IsLive(r.tokens, EffectiveAlive(inv.rules, base + inv.utilities, prefixes))
      ensures Range(r.startByte, r.endByte) in rs
    {
      PlannedRange(inv, base, prefixes, Range(r.startByte, r.endByte));
    }
    SecondRunFindsNoOrphans(text, tok, rs, base, prefixes);
  }
}
