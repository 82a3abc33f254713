/**
Two texts on which `--apply` does harm.

Text stranded before a closing brace: the brace resets where a header starts but not what it has
gathered, so the stranded text is read as part of the next selector. Deleting the rule that carried it
hands it on to the rule after that. This is why `CssAudit.ApplyIsFinal` asks that nothing be stranded.

Two deletions planned on one line: the text `.a{}.b{}`, a new line, `.c{}`, when only class `c` is used.
*/
module CssWitnesses {
  import opened Wrappers
  import opened CssSource
  import opened CssScanner
  import opened CssClassifier
  import opened CssDeletion
  import opened CssReparse
  import opened CssAudit

  /******* Stranded text *******/

  /** Without a slash there are no comments. */
  lemma {:induction false} NothingInComment(t: string, i: nat, k: nat)
    requires i <= k < |t| && '/' !in t
    ensures !InComment(t, i, k)
    decreases |t| - i
  {
    assert Step(t, i) == i + 1;
    if i < k { NothingInComment(t, i + 1, k); }
  }

  lemma NothingStripped(t: string)
    requires '/' !in t
    ensures StripComments(t) == t
  {
    forall k | 0 <= k < |t| ensures StripComments(t)[k] == t[k] {
      NothingInComment(t, 0, k);
    }
  }

  lemma {:induction false} SkipPlain(t: string, tok: Tokenizer, i: nat, j: nat, cut: nat)
    requires i <= j <= |t| && forall k :: i <= k < j ==> t[k] != '{' && t[k] != ';'
    ensures Blocks(t, tok, i, cut) == Blocks(t, tok, j, cut)
    decreases j - i
  {
    if i < j { SkipPlain(t, tok, i + 1, j, cut); }
  }

  lemma EmptyBody(t: string, o: nat)
    requires o + 1 < |t| && t[o] == '{' && t[o + 1] == '}'
    ensures MatchOf(t, o) == Some(o + 1)
  {
    assert Depth(t, o, o) == 0;
    assert Depth(t, o, o + 1) == 1;
    assert Depth(t, o, o + 2) == 0;
    assert Matches(t, o, o + 1);
  }

  /** The next block, when its header is a plain selector and its body is empty. */
  lemma NextRule(t: string, tok: Tokenizer, cut: nat, o: nat)
    requires cut <= o && o + 1 < |t| && t[o] == '{' && t[o + 1] == '}'
    requires forall k :: cut <= k < o ==> t[k] != '{' && t[k] != ';'
    requires !IsAtHeader(HeaderText(t, cut, o))
    ensures Blocks(t, tok, cut, cut) == [Block(cut, o, SelectorRule, Some(o + 2))] + Blocks(t, tok, o + 2, o + 2)
  {
    hide HeaderText, MatchOf;
    SkipPlain(t, tok, cut, o, cut);
    EmptyBody(t, o);
  }

  /** `.x}`, a new line, and a rule for class `c` with an empty body. */
  predicate Stranded(t: string, c: char) {
    && |t| >= 8 && t[0] == '.' && t[1] == 'x' && t[2] == '}' && t[3] == '\n'
    && t[4] == '.' && t[5] == c && t[6] == '{' && t[7] == '}'
  }

  /** The stranded `.x` joins the header of the rule behind the brace, which still starts at `.a`. */
  lemma StaleHeaderText(t: string, c: char)
    requires Stranded(t, c) && !IsSpace(c) && c != '}'
    ensures HeaderText(t, 0, 6) == ['.', 'x', '\n', '.', c] && StartOf(t, 0, 6) == 4
  {
    assert Pending(t, 0, 0) == [];
    assert Pending(t, 0, 1) == ['.'];
    assert Pending(t, 0, 2) == ['.', 'x'];
    assert Pending(t, 0, 3) == ['.', 'x'];
    assert Pending(t, 0, 4) == ['.', 'x', '\n'];
    assert Pending(t, 0, 5) == ['.', 'x', '\n', '.'];
    assert Pending(t, 0, 6) == ['.', 'x', '\n', '.', c];
    assert HeaderStart(t, 0, 3).None?;
    assert HeaderStart(t, 0, 4).None?;
    assert HeaderStart(t, 0, 5) == Some(4);
  }

  /** The rule after it, on its own line, reads as it should. */
  lemma PlainHeaderText(t: string)
    requires |t| == 13 && t[8] == '\n' && t[9] == '.' && t[10] == 'b'
    ensures HeaderText(t, 8, 11) == ['.', 'b'] && StartOf(t, 8, 11) == 9
  {
    assert Pending(t, 8, 8) == [];
    assert Pending(t, 8, 9) == ['\n'];
    assert Pending(t, 8, 10) == ['\n', '.'];
    assert Pending(t, 8, 11) == ['\n', '.', 'b'];
    assert TrimStart(['\n', '.', 'b']) == ['.', 'b'];
    assert HeaderStart(t, 8, 9).None?;
    assert HeaderStart(t, 8, 10) == Some(9);
  }

  /** The first text: `.x}`, then `.a{}` and `.b{}` on lines of their own. */
  predicate IsBefore(t: string) {
    && |t| == 13 && Stranded(t, 'a') && '/' !in t
    && t[8] == '\n' && t[9] == '.' && t[10] == 'b' && t[11] == '{' && t[12] == '}'
  }

  /** What `--apply` leaves of it: `.x}`, then `.b{}`. */
  predicate IsAfter(t: string) {
    |t| == 8 && Stranded(t, 'b') && '/' !in t
  }

  lemma FirstBlocks(t: string, tok: Tokenizer)
    requires IsBefore(t)
    ensures BlocksOf(t, tok) == [Block(0, 6, SelectorRule, Some(8)), Block(8, 11, SelectorRule, Some(13))]
  {
    hide HeaderText, StartOf;
    NothingStripped(t);
    StaleHeaderText(t, 'a');
    PlainHeaderText(t);
    NextRule(t, tok, 0, 6);
    NextRule(t, tok, 8, 11);
    assert Blocks(t, tok, 13, 13) == [];
  }

  lemma SecondBlocks(t: string, tok: Tokenizer)
    requires IsAfter(t)
    ensures BlocksOf(t, tok) == [Block(0, 6, SelectorRule, Some(8))]
  {
    hide HeaderText, StartOf;
    NothingStripped(t);
    StaleHeaderText(t, 'b');
    NextRule(t, tok, 0, 6);
    assert Blocks(t, tok, 8, 8) == [];
  }

  /** The classes of the three selectors, as the auditor's expressions find them. */
  predicate ReadsClasses(tok: Tokenizer) {
    && tok.selector(['.', 'x', '\n', '.', 'a']).classes == {"x", "a"}
    && tok.selector(['.', 'x', '\n', '.', 'b']).classes == {"x", "b"}
    && tok.selector(['.', 'b']).classes == {"b"}
  }

  lemma FirstRules(t: string, tok: Tokenizer) returns (k: nat, l: nat)
    requires IsBefore(t)
    ensures var inv := Audit(t, tok);
            && inv.rules == [Rule(['.', 'x', '\n', '.', 'a'], k, tok.selector(['.', 'x', '\n', '.', 'a']), 4, 8),
                             Rule(['.', 'b'], l, tok.selector(['.', 'b']), 9, 13)]
            && inv.keyframes == [] && inv.utilities == {}
  {
    hide HeaderText, StartOf, LineAt;
    FirstBlocks(t, tok);
    NothingStripped(t);
    StaleHeaderText(t, 'a');
    PlainHeaderText(t);
    var b, c := Block(0, 6, SelectorRule, Some(8)), Block(8, 11, SelectorRule, Some(13));
    assert [b, c] == [b] + [c] && [b] == [] + [b];
    InventorySnoc(t, tok, [b], c);
    InventorySnoc(t, tok, [], b);
    k, l := LineAt(t, 4), LineAt(t, 9);
  }

  lemma SecondRules(t: string, tok: Tokenizer) returns (k: nat)
    requires IsAfter(t)
    ensures var inv := Audit(t, tok);
            && inv.rules == [Rule(['.', 'x', '\n', '.', 'b'], k, tok.selector(['.', 'x', '\n', '.', 'b']), 4, 8)]
            && inv.utilities == {}
  {
    hide HeaderText, StartOf, LineAt;
    SecondBlocks(t, tok);
    NothingStripped(t);
    StaleHeaderText(t, 'b');
    var b := Block(0, 6, SelectorRule, Some(8));
    assert [b] == [] + [b];
    InventorySnoc(t, tok, [], b);
    k := LineAt(t, 4);
  }

  lemma NothingViaPrefix(rules: seq<Rule>)
    requires forall r, c :: r in rules && c in r.tokens.classes ==> |c| == 1
    ensures ClassesViaPrefix(rules, {}) == {}
  {
  }

  lemma OneDead(r: Rule, alive: set<string>)
    requires !IsLive(r.tokens, alive)
    ensures InBucket([r], alive, Orphan) + InBucket([r], alive, OrphanChain) == [r]
  {
  }

  lemma DeadThenLive(r: Rule, s: Rule, alive: set<string>)
    requires !IsLive(r.tokens, alive) && IsLive(s.tokens, alive)
    ensures InBucket([r, s], alive, Orphan) + InBucket([r, s], alive, OrphanChain) == [r]
  {
    OneDead(r, alive);
    assert [r, s][..1] == [r];
  }

  lemma FirstPlan(t: string, tok: Tokenizer)
    requires IsBefore(t) && ReadsClasses(tok)
    ensures Plan(Audit(t, tok), {"b"}, {}) == [Range(4, 8)]
  {
    hide InBucket, Audit, ClassesViaPrefix;
    var k, l := FirstRules(t, tok);
    var rules := Audit(t, tok).rules;
    NothingViaPrefix(rules);
    assert "x" in rules[0].tokens.classes;
    DeadThenLive(rules[0], rules[1], {"b"});
    assert EffectiveAlive(rules, {"b"} + {}, {}) == {"b"};
  }

  lemma FirstApplied(t: string)
    requires IsBefore(t)
    ensures InBounds(|t|, [Range(4, 8)]) && Applied(t, [Range(4, 8)]) == t[..4] + t[9..]
    ensures Isolated(t, [Range(4, 8)])
  {
    var rs := [Range(4, 8)];
    assert LineStart(t, 4) == 4;
    assert Expand(t, Range(4, 8)) == Range(4, 9);
    assert ExpandAll(t, rs) == [Range(4, 9)];
    assert SortDescending([Range(4, 9)]) == [Range(4, 9)];
    assert [Range(4, 9)][..0] == [];
    assert CutAll(t, []) == t;
  }

  /**
  A planned deletion that is alone on its line, and a second run that still finds a rule to delete:
  with class `b` in use, `.b` is live in the first run, and reads `.x .b`, which is dead, in the second.
  */
  lemma StrandedTextIsHandedOn(t: string, tok: Tokenizer)
    requires IsBefore(t) && ReadsClasses(tok)
    ensures var rs := Plan(Audit(t, tok), {"b"}, {});
            && InBounds(|t|, rs) && Isolated(t, rs)
            && var again := Audit(Applied(t, rs), tok);
               var buckets := BucketsOf(again.rules, EffectiveAlive(again.rules, {"b"} + again.utilities, {}));
               buckets.orphan + buckets.orphanChain != []
  {
    hide InBucket, Audit, ClassesViaPrefix, Applied, Plan, Isolated;
    FirstPlan(t, tok);
    FirstApplied(t);
    var u := t[..4] + t[9..];
    var k := SecondRules(u, tok);
    var rules := Audit(u, tok).rules;
    NothingViaPrefix(rules);
    assert EffectiveAlive(rules, {"b"} + {}, {}) == {"b"};
    assert "x" in rules[0].tokens.classes;
    OneDead(rules[0], {"b"});
  }

  /******* Two deletions on one line *******/

  /** A rule for a class of one letter, at `i`, with an empty body. */
  predicate RuleAt(t: string, i: nat, c: char) {
    i + 4 <= |t| && t[i] == '.' && t[i + 1] == c && t[i + 2] == '{' && t[i + 3] == '}'
  }

  predicate IsShared(t: string) {
    |t| == 13 && RuleAt(t, 0, 'a') && RuleAt(t, 4, 'b') && t[8] == '\n' && RuleAt(t, 9, 'c') && '/' !in t
  }

  lemma RuleHeader(t: string, i: nat, c: char)
    requires RuleAt(t, i, c) && !IsSpace(c) && c != '}'
    ensures HeaderText(t, i, i + 2) == ['.', c] && StartOf(t, i, i + 2) == i
  {
    assert Pending(t, i, i) == [];
    assert Pending(t, i, i + 1) == ['.'];
    assert Pending(t, i, i + 2) == ['.', c];
    assert HeaderStart(t, i, i + 1) == Some(i);
  }

  lemma LineRuleHeader(t: string, i: nat, c: char)
    requires i < |t| && t[i] == '\n' && RuleAt(t, i + 1, c) && !IsSpace(c) && c != '}'
    ensures HeaderText(t, i, i + 3) == ['.', c] && StartOf(t, i, i + 3) == i + 1
  {
    assert Pending(t, i, i) == [];
    assert Pending(t, i, i + 1) == ['\n'];
    assert Pending(t, i, i + 2) == ['\n', '.'];
    assert Pending(t, i, i + 3) == ['\n', '.', c];
    assert TrimStart(['\n', '.', c]) == ['.', c];
    assert HeaderStart(t, i, i + 1).None?;
    assert HeaderStart(t, i, i + 2) == Some(i + 1);
  }

  lemma SharedBlocks(t: string, tok: Tokenizer)
    requires IsShared(t)
    ensures BlocksOf(t, tok) ==
            [Block(0, 2, SelectorRule, Some(4)), Block(4, 6, SelectorRule, Some(8)), Block(8, 11, SelectorRule, Some(13))]
  {
    hide HeaderText, StartOf;
    NothingStripped(t);
    RuleHeader(t, 0, 'a'); RuleHeader(t, 4, 'b'); LineRuleHeader(t, 8, 'c');
    NextRule(t, tok, 0, 2);
    NextRule(t, tok, 4, 6);
    NextRule(t, tok, 8, 11);
    assert Blocks(t, tok, 13, 13) == [];
  }

  /** Each selector names the one class it defines. */
  predicate ReadsClass(tok: Tokenizer, c: char) {
    tok.selector(['.', c]).classes == {[c]} && tok.selector(['.', c]).definedClass == Some([c])
  }

  lemma SharedRules(t: string, tok: Tokenizer) returns (rules: seq<Rule>)
    requires IsShared(t)
    ensures var inv := Audit(t, tok);
            && inv.rules == rules && |rules| == 3 && inv.keyframes == [] && inv.utilities == {}
            && rules[0] == Rule(['.', 'a'], rules[0].line, tok.selector(['.', 'a']), 0, 4)
            && rules[1] == Rule(['.', 'b'], rules[1].line, tok.selector(['.', 'b']), 4, 8)
            && rules[2] == Rule(['.', 'c'], rules[2].line, tok.selector(['.', 'c']), 9, 13)
  {
    hide HeaderText, StartOf, LineAt;
    SharedBlocks(t, tok);
    NothingStripped(t);
    RuleHeader(t, 0, 'a'); RuleHeader(t, 4, 'b'); LineRuleHeader(t, 8, 'c');
    var b, c, d := Block(0, 2, SelectorRule, Some(4)), Block(4, 6, SelectorRule, Some(8)), Block(8, 11, SelectorRule, Some(13));
    assert [b, c, d] == [b, c] + [d] && [b, c] == [b] + [c] && [b] == [] + [b];
    InventorySnoc(t, tok, [b, c], d);
    InventorySnoc(t, tok, [b], c);
    InventorySnoc(t, tok, [], b);
    rules := Audit(t, tok).rules;
  }

  lemma TwoOrphans(rules: seq<Rule>, alive: set<string>)
    requires |rules| == 3 && IsLive(rules[2].tokens, alive)
    requires forall k :: 0 <= k < 2 ==> BucketFor(rules[k].tokens, alive) == Orphan
    ensures InBucket(rules, alive, Orphan) + InBucket(rules, alive, OrphanChain) == rules[..2]
  {
    var r, s, u := rules[0], rules[1], rules[2];
    assert rules[..2] == [r, s] && [r, s][..1] == [r] && [r][..0] == [];
    assert InBucket([], alive, Orphan) == [] && InBucket([], alive, OrphanChain) == [];
    assert InBucket([r], alive, Orphan) == [r] && InBucket([r], alive, OrphanChain) == [];
    assert InBucket([r, s], alive, Orphan) == [r, s] && InBucket([r, s], alive, OrphanChain) == [];
    assert BucketFor(u.tokens, alive) != Orphan && BucketFor(u.tokens, alive) != OrphanChain;
  }

  lemma SharedPlan(t: string, tok: Tokenizer)
    requires IsShared(t) && ReadsClass(tok, 'a') && ReadsClass(tok, 'b') && ReadsClass(tok, 'c')
    ensures Plan(Audit(t, tok), {"c"}, {}) == [Range(0, 4), Range(4, 8)]
  {
    hide InBucket, Audit, ClassesViaPrefix;
    var rules := SharedRules(t, tok);
    NothingViaPrefix(rules);
    assert EffectiveAlive(rules, {"c"} + {}, {}) == {"c"};
    assert "a" in rules[0].tokens.classes && "b" in rules[1].tokens.classes;
    TwoOrphans(rules, {"c"});
    assert OrphanKeyframes([], Audit(t, tok).refs) == [];
  }

  /** What the auditor plans for that text takes the rule on the next line with it: nothing is left. */
  lemma SharedLineLosesRule(t: string, tok: Tokenizer)
    requires t == ".a{}.b{}\n.c{}" && ReadsClass(tok, 'a') && ReadsClass(tok, 'b') && ReadsClass(tok, 'c')
    ensures var rs := Plan(Audit(t, tok), {"c"}, {});
            && InBounds(|t|, rs) && Applied(t, rs) == ""
            && exists r :: r in Audit(t, tok).rules && r.selector == ".c" && IsLive(r.tokens, {"c"})
  {
    hide Applied, Plan, Audit, StripComments;
    SharedPlan(t, tok);
    SharedLineLosesWhatFollows();
    var rules := SharedRules(t, tok);
    assert rules[2] in Audit(t, tok).rules;
  }
}
