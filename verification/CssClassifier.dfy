/**
Cross-referencing rules with the classes in use (`categorize`): every rule goes to one of four
buckets, and the two orphan buckets are what `--apply` deletes.
*/
module CssClassifier {
  import opened Wrappers
  import opened CssScanner

  /** Prefixes of classes that JavaScript libraries put on elements at run time. */
  const JS_LIBRARY_PREFIXES: set<string> := {"flatpickr-", "notyf"}

  datatype Buckets = Buckets(active: seq<Rule>, decorative: seq<Rule>, orphan: seq<Rule>, orphanChain: seq<Rule>)

  function TrimDashes(s: string): string {
    if s != "" && s[|s| - 1] == '-' then TrimDashes(s[..|s| - 1]) else s
  }

  predicate AliveByPrefix(cls: string, prefixes: set<string>) {
    || (exists p :: p in prefixes && p <= cls && cls != TrimDashes(p))
    || (exists p :: p in JS_LIBRARY_PREFIXES && p <= cls)
  }

  /** The classes of `rules` that a dynamic prefix keeps alive. */
  function ClassesViaPrefix(rules: seq<Rule>, prefixes: set<string>): set<string> {
    set r, c | r in rules && c in r.tokens.classes && AliveByPrefix(c, prefixes) :: c
  }

  function EffectiveAlive(rules: seq<Rule>, alive: set<string>, prefixes: set<string>): set<string> {
    alive + ClassesViaPrefix(rules, prefixes)
  }

  /** A rule can fire only if every class it names is in use. */
  predicate IsLive(tokens: Selector, alive: set<string>) {
    tokens.classes <= alive
  }

  datatype Bucket = Active | Decorative | Orphan | OrphanChain

  function BucketFor(tokens: Selector, alive: set<string>): Bucket {
    if IsLive(tokens, alive) then
      if tokens.isDecoration then Decorative else Active
    else if tokens.definedClass.None? || tokens.definedClass.value !in alive then Orphan
    else OrphanChain
  }

  /** The rules of one bucket, in file order. */
  function InBucket(rules: seq<Rule>, alive: set<string>, b: Bucket): seq<Rule> {
    if rules == [] then []
    else
      InBucket(rules[..|rules| - 1], alive, b) +
      if BucketFor(rules[|rules| - 1].tokens, alive) == b then [rules[|rules| - 1]] else []
  }

  function BucketsOf(rules: seq<Rule>, alive: set<string>): Buckets {
    Buckets(InBucket(rules, alive, Active), InBucket(rules, alive, Decorative),
            InBucket(rules, alive, Orphan), InBucket(rules, alive, OrphanChain))
  }

  /** `categorize`. */
  method Categorize(rules: seq<Rule>, aliveClasses: set<string>, prefixes: set<string>)
    returns (buckets: Buckets, effectiveAlive: set<string>, viaPrefix: set<string>)
    ensures viaPrefix == ClassesViaPrefix(rules, prefixes)
    ensures effectiveAlive == EffectiveAlive(rules, aliveClasses, prefixes)
    ensures buckets == BucketsOf(rules, effectiveAlive)
  {
    viaPrefix := {};
    for n := 0 to |rules|
      invariant viaPrefix == ClassesViaPrefix(rules[..n], prefixes)
    {
      viaPrefix := viaPrefix + set c | c in rules[n].tokens.classes && AliveByPrefix(c, prefixes);
      assert rules[..n + 1] == rules[..n] + [rules[n]];
    }
    assert rules[..|rules|] == rules;
    effectiveAlive := aliveClasses + viaPrefix;
    buckets := Buckets([], [], [], []);
    for n := 0 to |rules|
      invariant buckets == BucketsOf(rules[..n], effectiveAlive)
    {
      var rule := rules[n];
      assert rules[..n + 1][..n] == rules[..n];
      if rule.tokens.classes <= effectiveAlive {
        if rule.tokens.isDecoration {
          buckets := buckets.(decorative := buckets.decorative + [rule]);
        } else {
          buckets := buckets.(active := buckets.active + [rule]);
        }
      } else if rule.tokens.definedClass.None? || rule.tokens.definedClass.value !in effectiveAlive {
        buckets := buckets.(orphan := buckets.orphan + [rule]);
      } else {
        buckets := buckets.(orphanChain := buckets.orphanChain + [rule]);
      }
    }
  }

  /** A rule occurs in its own bucket as often as in the file, and in no other. */
  lemma {:induction false} BucketsPartition(rules: seq<Rule>, alive: set<string>, b: Bucket, r: Rule)
    ensures multiset(InBucket(rules, alive, b))[r] ==
            if BucketFor(r.tokens, alive) == b then multiset(rules)[r] else 0
    decreases |rules|
  {
    if rules != [] {
      BucketsPartition(rules[..|rules| - 1], alive, b, r);
      assert rules == rules[..|rules| - 1] + [rules[|rules| - 1]];
    }
  }

  /** Learning of more classes or prefixes in use never takes a live rule out of the live buckets. */
  lemma LiveStaysLive(rules: seq<Rule>, alive: set<string>, alive': set<string>,
                      prefixes: set<string>, prefixes': set<string>, r: Rule)
    requires alive <= alive' && prefixes <= prefixes'
    requires r in rules && IsLive(r.tokens, EffectiveAlive(rules, alive, prefixes))
    ensures IsLive(r.tokens, EffectiveAlive(rules, alive', prefixes'))
  {
    forall c | c in r.tokens.classes ensures c in EffectiveAlive(rules, alive', prefixes') {
      if c !in alive {
        assert AliveByPrefix(c, prefixes);
        assert AliveByPrefix(c, prefixes');
      }
    }
  }

  /** The rules that survive a deletion, in file order. */
  function Survivors(rules: seq<Rule>, alive: set<string>): seq<Rule> {
    if rules == [] then []
    else
      Survivors(rules[..|rules| - 1], alive) +
      if IsLive(rules[|rules| - 1].tokens, alive) then [rules[|rules| - 1]] else []
  }

  lemma {:induction false} SurvivorsAreLive(rules: seq<Rule>, alive: set<string>, r: Rule)
    ensures r in Survivors(rules, alive) <==> r in rules && IsLive(r.tokens, alive)
    decreases |rules|
  {
    if rules != [] { SurvivorsAreLive(rules[..|rules| - 1], alive, r); }
  }

  lemma {:induction false} NoneInBucket(rules: seq<Rule>, alive: set<string>, b: Bucket)
    requires forall r :: r in rules ==> BucketFor(r.tokens, alive) != b
    ensures InBucket(rules, alive, b) == []
    decreases |rules|
  {
    if rules != [] { NoneInBucket(rules[..|rules| - 1], alive, b); }
  }

  /**
  Rules with the selectors of the survivors are all live again, although the classes kept alive by a
  prefix are recomputed from them alone.
  */
  lemma SurvivorsStayLive(rules: seq<Rule>, rest: seq<Rule>, alive: set<string>, prefixes: set<string>)
    requires forall r :: r in rest ==>
      (exists s :: s in rules && s.tokens == r.tokens && IsLive(s.tokens, EffectiveAlive(rules, alive, prefixes)))
    ensures BucketsOf(rest, EffectiveAlive(rest, alive, prefixes)).orphan == []
    ensures BucketsOf(rest, EffectiveAlive(rest, alive, prefixes)).orphanChain == []
  {
    var before, after := EffectiveAlive(rules, alive, prefixes), EffectiveAlive(rest, alive, prefixes);
    forall r | r in rest ensures IsLive(r.tokens, after) {
      var s :| s in rules && s.tokens == r.tokens && IsLive(s.tokens, before);
      forall c | c in r.tokens.classes ensures c in after {
        if c !in alive { assert AliveByPrefix(c, prefixes); }
      }
    }
    NoneInBucket(rest, after, Orphan);
    NoneInBucket(rest, after, OrphanChain);
  }

  /** Classifying the survivors of a classification yields no orphans. */
  lemma ReclassifyIsClean(rules: seq<Rule>, alive: set<string>, prefixes: set<string>)
    ensures var rest := Survivors(rules, EffectiveAlive(rules, alive, prefixes));
            var b := BucketsOf(rest, EffectiveAlive(rest, alive, prefixes));
            b.orphan == [] && b.orphanChain == []
  {
    var before := EffectiveAlive(rules, alive, prefixes);
    forall r | r in Survivors(rules, before)
      ensures r in rules && IsLive(r.tokens, before)
    {
      SurvivorsAreLive(rules, before, r);
    }
    SurvivorsStayLive(rules, Survivors(rules, before), alive, prefixes);
  }

  /******* Which bucket, and which classes a prefix keeps *******/

  /** For every rule: all its classes in use, or not; a decoration, or not; its own class in use, or not. */
  lemma BucketsAre(rules: seq<Rule>, alive: set<string>, r: Rule)
    ensures var b, live, own := BucketsOf(rules, alive), r.tokens.classes <= alive, r.tokens.definedClass;
            && (r in b.active <==> r in rules && live && !r.tokens.isDecoration)
            && (r in b.decorative <==> r in rules && live && r.tokens.isDecoration)
            && (r in b.orphan <==> r in rules && !live && (own == None || own.value !in alive))
            && (r in b.orphanChain <==> r in rules && !live && own != None && own.value in alive)
  {
    BucketsPartition(rules, alive, Active, r);
    BucketsPartition(rules, alive, Decorative, r);
    BucketsPartition(rules, alive, Orphan, r);
    BucketsPartition(rules, alive, OrphanChain, r);
    var b := BucketsOf(rules, alive);
    assert r in rules <==> r in multiset(rules);
    assert forall s: seq<Rule> :: r in s <==> r in multiset(s);
  }

  lemma {:induction false} TrimDashesIs(s: string)
    ensures |TrimDashes(s)| <= |s| && (TrimDashes(s) == s <==> s == "" || s[|s| - 1] != '-')
  {
    if s != "" && s[|s| - 1] == '-' { TrimDashesIs(s[..|s| - 1]); }
  }

  /**
  For every class: it is kept by a prefix it starts with, unless it is that prefix and that does not
  end in a dash, or by the two JavaScript libraries.
  */
  lemma AliveIff(cls: string, prefixes: set<string>)
    ensures AliveByPrefix(cls, prefixes) <==>
            || (exists p :: p in prefixes && p <= cls && (|p| < |cls| || (p != "" && p[|p| - 1] == '-')))
            || "flatpickr-" <= cls || "notyf" <= cls
  {
    forall p | p in prefixes && p <= cls
      ensures cls != TrimDashes(p) <==> |p| < |cls| || (p != "" && p[|p| - 1] == '-')
    {
      TrimDashesIs(p);
    }
  }
}
