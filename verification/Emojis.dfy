/** Emoji search by shortcode, and the substitution of `:shortcode:` in texts. */
module Emojis {
  import opened Texts

  datatype Emoji = Emoji(text: string, shortcodes: seq<string>)

  /** A search result: the shortcode and the emoji's text. */
  type Hit = (string, string)

  datatype Kind = Prefix | Inside | NoMatch

  /** How a shortcode matches a query, both lowered. */
  function KindOf(code: string, query: string): Kind {
    if StartsWith(code, query) then Prefix else if Contains(code, query) then Inside else NoMatch
  }

  /** One shortcode of the table: its hit, whether it is its emoji's first, and how it matches. */
  datatype Entry = Entry(hit: Hit, first: bool, kind: Kind)

  function EntryAt(e: Emoji, i: nat, query: string, lower: string -> string): Entry
    requires i < |e.shortcodes|
  {
    Entry((e.shortcodes[i], e.text), i == 0, KindOf(lower(e.shortcodes[i]), lower(query)))
  }

  /** The entries of an emoji from its shortcode `i` on. */
  function EntriesFrom(e: Emoji, i: nat, query: string, lower: string -> string): seq<Entry>
    requires i <= |e.shortcodes|
    decreases |e.shortcodes| - i
  {
    if i == |e.shortcodes| then [] else [EntryAt(e, i, query, lower)] + EntriesFrom(e, i + 1, query, lower)
  }

  /** The whole table in order, seen from a query. */
  function Table(emojis: seq<Emoji>, query: string, lower: string -> string): seq<Entry> {
    if emojis == [] then [] else EntriesFrom(emojis[0], 0, query, lower) + Table(emojis[1..], query, lower)
  }

  /** For every shortcode and query, the case of either does not matter: what counts is what they are lowered to. */
  lemma KindInAnyCase(e: Emoji, i: nat, query: string, lower: string -> string)
    requires i < |e.shortcodes|
    ensures var k, code, q := EntryAt(e, i, query, lower).kind, lower(e.shortcodes[i]), lower(query);
            && (k == Prefix <==> exists after :: code == q + after)
            && (k != NoMatch <==> exists before, after :: code == before + (q + after))
    ensures EntryAt(e, i, query, lower).hit == (e.shortcodes[i], e.text) && (EntryAt(e, i, query, lower).first <==> i == 0)
  {
    var code, q := lower(e.shortcodes[i]), lower(query);
    ContainsIff(code, q);
    if StartsWith(code, q) {
      assert code == q + code[|q|..];
    }
    if after :| code == q + after {
      assert code[..|q|] == q && code == "" + (q + after);
    }
  }

  function Hits(t: seq<Entry>, kind: Kind): seq<Hit> {
    if t == [] then []
    else if t[0].kind == kind then [t[0].hit] + Hits(t[1..], kind)
    else Hits(t[1..], kind)
  }

  /**
  The entries the loops look at after `count` matches: leaving the inner loop skips the rest of an
  emoji's shortcodes, and the next emoji's first one is looked at again.
  */
  function Examined(t: seq<Entry>, count: nat, limit: nat): seq<Entry> {
    if t == [] then []
    else if !t[0].first && count >= limit * 2 then Examined(t[1..], count, limit)
    else [t[0]] + Examined(t[1..], if t[0].kind == NoMatch then count else count + 1, limit)
  }

  function Take<T>(s: seq<T>, n: nat): seq<T> {
    if |s| < n then s else s[..n]
  }

  /** What the search answers. */
  function Answer(t: seq<Entry>, limit: nat): seq<Hit> {
    var x := Examined(t, 0, limit);
    Take(Hits(x, Prefix) + Hits(x, Inside), limit)
  }

  /** The best answer: all prefix matches before all others, each in table order, cut at the limit. */
  function Best(t: seq<Entry>, limit: nat): seq<Hit> {
    Take(Hits(t, Prefix) + Hits(t, Inside), limit)
  }

  /******* The loops *******/

  /** Once the inner loop is left, the rest of the emoji contributes nothing. */
  lemma {:induction false} RestIsSkipped(e: Emoji, i: nat, query: string, lower: string -> string, t: seq<Entry>, count: nat, limit: nat)
    requires 0 < i <= |e.shortcodes| && count >= limit * 2
    ensures Examined(EntriesFrom(e, i, query, lower) + t, count, limit) == Examined(t, count, limit)
    decreases |e.shortcodes| - i
  {
    var s := EntriesFrom(e, i, query, lower);
    if i < |e.shortcodes| {
      RestIsSkipped(e, i + 1, query, lower, t, count, limit);
      assert (s + t)[1..] == EntriesFrom(e, i + 1, query, lower) + t;
    } else {
      assert s + t == t;
    }
  }

  /** What is in hand together with what is still to come. */
  predicate OnCourse(all: seq<Entry>, starts: seq<Hit>, inside: seq<Hit>, rest: seq<Entry>, limit: nat) {
    var x := Examined(rest, |starts| + |inside|, limit);
    && Hits(Examined(all, 0, limit), Prefix) == starts + Hits(x, Prefix)
    && Hits(Examined(all, 0, limit), Inside) == inside + Hits(x, Inside)
  }

  /** Looking at one entry keeps the loops on course. */
  lemma LookAt(all: seq<Entry>, starts: seq<Hit>, inside: seq<Hit>, e: Entry, rest: seq<Entry>, limit: nat)
    requires OnCourse(all, starts, inside, [e] + rest, limit) && (e.first || |starts| + |inside| < limit * 2)
    ensures OnCourse(all, if e.kind == Prefix then starts + [e.hit] else starts,
                          if e.kind == Inside then inside + [e.hit] else inside, rest, limit)
  {
  }

  lemma StartOnCourse(emojis: seq<Emoji>, query: string, lower: string -> string, limit: nat)
    ensures OnCourse(Table(emojis, query, lower), [], [], Table(emojis[0..], query, lower), limit)
  {
  }

  lemma EndOnCourse(all: seq<Entry>, starts: seq<Hit>, inside: seq<Hit>, limit: nat)
    requires OnCourse(all, starts, inside, [], limit)
    ensures Take(starts + inside, limit) == Answer(all, limit)
  {
  }

  lemma TableStep(emojis: seq<Emoji>, k: nat, query: string, lower: string -> string)
    requires k < |emojis|
    ensures Table(emojis[k..], query, lower) == EntriesFrom(emojis[k], 0, query, lower) + Table(emojis[k + 1..], query, lower)
  {
  }

  lemma EntriesStep(e: Emoji, i: nat, query: string, lower: string -> string, after: seq<Entry>)
    requires i < |e.shortcodes|
    ensures EntriesFrom(e, i, query, lower) + after == [EntryAt(e, i, query, lower)] + (EntriesFrom(e, i + 1, query, lower) + after)
  {
  }

  lemma EntriesEnd(e: Emoji, query: string, lower: string -> string, after: seq<Entry>)
    ensures EntriesFrom(e, |e.shortcodes|, query, lower) + after == after
  {
  }

  /** `search_emojis_by_shortcode`, over a given table and a given lower-casing. */
  method Search(emojis: seq<Emoji>, query: string, limit: nat, lower: string -> string) returns (r: seq<Hit>)
    ensures r == Answer(Table(emojis, query, lower), limit)
  {
    hide OnCourse, Examined, Hits, Table, EntriesFrom, StartsWith, Contains, Answer;
    ghost var all := Table(emojis, query, lower);
    var queryLower := lower(query);
    var starts: seq<Hit>, inside: seq<Hit> := [], [];
    StartOnCourse(emojis, query, lower, limit);
    for k := 0 to |emojis|
      invariant OnCourse(all, starts, inside, Table(emojis[k..], query, lower), limit)
    {
      var e := emojis[k];
      ghost var after := Table(emojis[k + 1..], query, lower);
      TableStep(emojis, k, query, lower);
      var i := 0;
      while i < |e.shortcodes|
        invariant i <= |e.shortcodes|
        invariant OnCourse(all, starts, inside, EntriesFrom(e, i, query, lower) + after, limit)
        invariant 0 < i < |e.shortcodes| ==> |starts| + |inside| < limit * 2
        decreases |e.shortcodes| - i
      {
        EntriesStep(e, i, query, lower, after);
        LookAt(all, starts, inside, EntryAt(e, i, query, lower), EntriesFrom(e, i + 1, query, lower) + after, limit);
        var code := lower(e.shortcodes[i]);
        if StartsWith(code, queryLower) {
          starts := starts + [(e.shortcodes[i], e.text)];
        } else if Contains(code, queryLower) {
          inside := inside + [(e.shortcodes[i], e.text)];
        }
        i := i + 1;
        if |starts| + |inside| >= limit * 2 {
          Leave(all, starts, inside, e, i, query, lower, after, limit);
          break;
        }
      }
      EntriesEnd(e, query, lower, after);
    }
    assert emojis[|emojis|..] == [] && Table([], query, lower) == [] by { TableEnd(query, lower); }
    EndOnCourse(all, starts, inside, limit);
    r := Take(starts + inside, limit);
  }

  lemma TableEnd(query: string, lower: string -> string)
    ensures Table([], query, lower) == []
  {
  }

  lemma Leave(all: seq<Entry>, starts: seq<Hit>, inside: seq<Hit>, e: Emoji, i: nat, query: string, lower: string -> string, after: seq<Entry>, limit: nat)
    requires 0 < i <= |e.shortcodes| && |starts| + |inside| >= limit * 2
    requires OnCourse(all, starts, inside, EntriesFrom(e, i, query, lower) + after, limit)
    ensures OnCourse(all, starts, inside, after, limit)
  {
    RestIsSkipped(e, i, query, lower, after, |starts| + |inside|, limit);
  }

  /******* What the answer is *******/

  /** Fewer matches than twice the limit: everything was looked at. */
  lemma {:induction false} NothingSkipped(t: seq<Entry>, count: nat, limit: nat)
    requires count + |Hits(Examined(t, count, limit), Prefix)| + |Hits(Examined(t, count, limit), Inside)| < limit * 2
    ensures Examined(t, count, limit) == t
  {
    if t != [] {
      var next := if t[0].kind == NoMatch then count else count + 1;
      var x := Examined(t[1..], next, limit);
      assert Examined(t, count, limit) == [t[0]] + x;
      assert ([t[0]] + x)[1..] == x;
      NothingSkipped(t[1..], next, limit);
    }
  }

  /** For every table, query and limit: an answer shorter than the limit holds all matches. */
  lemma ShortAnswerIsAll(t: seq<Entry>, limit: nat)
    requires |Answer(t, limit)| < limit
    ensures Answer(t, limit) == Hits(t, Prefix) + Hits(t, Inside)
  {
    NothingSkipped(t, 0, limit);
  }

  /**
  Walking the table with `count` matches and `places` free for prefix matches: some prefix match that
  would still get a place is not the first shortcode of its emoji and has 2 * limit matches before it.
  */
  predicate Misses(t: seq<Entry>, count: nat, places: nat, limit: nat) {
    t != [] && places > 0 &&
    (|| (t[0].kind == Prefix && !t[0].first && count >= limit * 2)
     || Misses(t[1..], if t[0].kind == NoMatch then count else count + 1,
               if t[0].kind == Prefix then places - 1 else places, limit))
  }

  predicate DistinctHits(t: seq<Entry>) {
    forall i, j :: 0 <= i < j < |t| ==> t[i].hit != t[j].hit
  }

  lemma {:induction false} NoSuchHit(t: seq<Entry>, kind: Kind, h: Hit)
    requires forall i :: 0 <= i < |t| && t[i].kind == kind ==> t[i].hit != h
    ensures h !in Hits(t, kind)
  {
    if t != [] { NoSuchHit(t[1..], kind, h); }
  }

  /** The counts of the loops and of the table agree, or are both past the point where skipping starts. */
  predicate Agree(c: nat, count: nat, limit: nat) {
    c == count || (c >= limit * 2 && count >= limit * 2)
  }

  /** Entries of hits that come later in the table. */
  predicate Apart(t: seq<Entry>, more: seq<Hit>) {
    forall i :: 0 <= i < |t| && t[i].kind == Prefix ==> t[i].hit !in more
  }

  lemma {:induction false} ExaminedHits(t: seq<Entry>, count: nat, limit: nat, kind: Kind, h: Hit)
    ensures h in Hits(Examined(t, count, limit), kind) ==> h in Hits(t, kind)
  {
    if t != [] {
      ExaminedHits(t[1..], count, limit, kind, h);
      ExaminedHits(t[1..], count + 1, limit, kind, h);
      var next := if t[0].kind == NoMatch then count else count + 1;
      assert ([t[0]] + Examined(t[1..], next, limit))[1..] == Examined(t[1..], next, limit);
    }
  }

  lemma TakeCons<T>(x: T, s: seq<T>, n: nat)
    requires n > 0
    ensures Take([x] + s, n) == [x] + Take(s, n - 1)
  {
  }

  lemma FirstHitGone(t: seq<Entry>, c: nat, more: seq<Hit>, limit: nat)
    requires t != [] && DistinctHits(t) && t[0].kind == Prefix && Apart(t, more)
    ensures t[0].hit !in Hits(Examined(t[1..], c, limit), Prefix) + more
  {
    hide Examined, Hits;
    NoSuchHit(t[1..], Prefix, t[0].hit);
    ExaminedHits(t[1..], c, limit, Prefix, t[0].hit);
  }

  lemma ExaminedStep(t: seq<Entry>, c: nat, limit: nat)
    requires t != []
    ensures var skipped := !t[0].first && c >= limit * 2;
            var x := Examined(t[1..], if skipped || t[0].kind == NoMatch then c else c + 1, limit);
            forall k :: Hits(Examined(t, c, limit), k) == if !skipped && t[0].kind == k then [t[0].hit] + Hits(x, k) else Hits(x, k)
  {
  }

  /** Lists that start differently still do when they are cut. */
  lemma TakeDiffers<T>(x: T, s: seq<T>, u: seq<T>, n: nat)
    requires n > 0 && x !in u
    ensures Take(u, n) != Take([x] + s, n)
  {
    assert Take([x] + s, n)[0] == x;
    assert forall i :: 0 <= i < |Take(u, n)| ==> Take(u, n)[i] == u[i];
  }

  lemma TakeDiffersLater<T>(x: T, s: seq<T>, u: seq<T>, n: nat)
    requires n > 0 && Take(s, n - 1) != Take(u, n - 1)
    ensures Take([x] + s, n) != Take([x] + u, n)
  {
    hide Take;
    TakeCons(x, s, n);
    TakeCons(x, u, n);
    assert ([x] + Take(s, n - 1))[1..] == Take(s, n - 1) && ([x] + Take(u, n - 1))[1..] == Take(u, n - 1);
  }

  /** A missed prefix match shows: its place is taken by another hit. */
  lemma {:induction false} MissedShows(t: seq<Entry>, c: nat, count: nat, places: nat, limit: nat, more: seq<Hit>, all: seq<Hit>)
    requires DistinctHits(t) && Apart(t, more) && Agree(c, count, limit)
    requires Misses(t, count, places, limit)
    ensures Take(Hits(Examined(t, c, limit), Prefix) + more, places) != Take(Hits(t, Prefix) + all, places)
  {
    hide Examined, Take;
    var next := if t[0].kind == NoMatch then count else count + 1;
    var skipped := !t[0].first && c >= limit * 2;
    var nextC := if skipped || t[0].kind == NoMatch then c else c + 1;
    var a, b := Hits(Examined(t[1..], nextC, limit), Prefix), Hits(t[1..], Prefix);
    ExaminedStep(t, c, limit);
    if t[0].kind == Prefix && skipped {
      FirstHitGone(t, nextC, more, limit);
      assert Hits(t, Prefix) + all == [t[0].hit] + (b + all);
      TakeDiffers(t[0].hit, b + all, a + more, places);
    } else {
      MissedShows(t[1..], nextC, next, if t[0].kind == Prefix then places - 1 else places, limit, more, all);
      if t[0].kind == Prefix {
        TakeDiffersLater(t[0].hit, a + more, b + all, places);
        assert ([t[0].hit] + a) + more == [t[0].hit] + (a + more);
        assert ([t[0].hit] + b) + all == [t[0].hit] + (b + all);
      }
    }
  }

  lemma {:induction false} PrefixPlacesFilled(t: seq<Entry>, c: nat, count: nat, places: nat, limit: nat)
    requires Agree(c, count, limit) && !Misses(t, count, places, limit)
    ensures Take(Hits(Examined(t, c, limit), Prefix), places) == Take(Hits(t, Prefix), places)
  {
    if t != [] && places > 0 {
      var next := if t[0].kind == NoMatch then count else count + 1;
      var skipped := !t[0].first && c >= limit * 2;
      var nextC := if skipped || t[0].kind == NoMatch then c else c + 1;
      var a, b := Hits(Examined(t[1..], nextC, limit), Prefix), Hits(t[1..], Prefix);
      PrefixPlacesFilled(t[1..], nextC, next, if t[0].kind == Prefix then places - 1 else places, limit);
    }
  }

  /** Skipping starts too late to cost any other match its place. */
  lemma {:induction false} InsidePlacesFilled(t: seq<Entry>, c: nat, places: nat, limit: nat)
    requires places == 0 || c + places + |Hits(t, Prefix)| <= limit * 2
    ensures Take(Hits(Examined(t, c, limit), Inside), places) == Take(Hits(t, Inside), places)
  {
    if t != [] && places > 0 {
      var nextC := if t[0].kind == NoMatch then c else c + 1;
      var a, b := Hits(Examined(t[1..], nextC, limit), Inside), Hits(t[1..], Inside);
      ExaminedStep(t, c, limit);
      InsidePlacesFilled(t[1..], nextC, if t[0].kind == Inside then places - 1 else places, limit);
      if t[0].kind == Inside {
        TakeCons(t[0].hit, a, places);
        TakeCons(t[0].hit, b, places);
      }
    }
  }

  lemma {:induction false} ExaminedShorter(t: seq<Entry>, c: nat, limit: nat)
    ensures |Hits(Examined(t, c, limit), Prefix)| <= |Hits(t, Prefix)|
  {
    if t != [] {
      ExaminedShorter(t[1..], c, limit);
      ExaminedShorter(t[1..], c + 1, limit);
    }
  }

  lemma {:induction false} KindsApart(t: seq<Entry>)
    requires DistinctHits(t)
    ensures Apart(t, Hits(t, Inside))
  {
    forall i | 0 <= i < |t| && t[i].kind == Prefix ensures t[i].hit !in Hits(t, Inside) {
      NoSuchHit(t, Inside, t[i].hit);
    }
  }

  /**
  For every table of distinct entries, query and limit: the answer is the best one exactly when no
  prefix match due a place is hidden behind the break.
  */
  lemma AnswerIsBestIff(t: seq<Entry>, limit: nat)
    requires DistinctHits(t)
    ensures Answer(t, limit) == Best(t, limit) <==> !Misses(t, 0, limit, limit)
  {
    hide Misses, Examined, Hits, Take;
    var x := Examined(t, 0, limit);
    if Misses(t, 0, limit, limit) {
      KindsApart(t);
      forall h | h in Hits(x, Inside) ensures h in Hits(t, Inside) {
        ExaminedHits(t, 0, limit, Inside, h);
      }
      MissedShows(t, 0, 0, limit, limit, Hits(x, Inside), Hits(t, Inside));
    } else {
      BestWhenNoneMissed(t, limit);
    }
  }

  lemma BestWhenNoneMissed(t: seq<Entry>, limit: nat)
    requires !Misses(t, 0, limit, limit)
    ensures Answer(t, limit) == Best(t, limit)
  {
    hide Misses, Examined, Hits;
    var x := Examined(t, 0, limit);
    PrefixPlacesFilled(t, 0, 0, limit, limit);
    var p := |Hits(t, Prefix)|;
    if p < limit {
      InsidePlacesFilled(t, 0, limit - p, limit);
    }
  }

  /** Two emojis that only contain the query, then one whose second shortcode starts with it. */
  function Oxen(): seq<Emoji> {
    [ Emoji("1", ["an_ox"]), Emoji("2", ["the_ox"]), Emoji("3", ["cattle", "ox"]) ]
  }

  lemma OxKinds()
    ensures KindOf("an_ox", "ox") == Inside && KindOf("the_ox", "ox") == Inside
    ensures KindOf("cattle", "ox") == NoMatch && KindOf("ox", "ox") == Prefix
  {
    assert "an_ox"[3..] == "ox" && "the_ox"[4..] == "ox" && "ox"[..2] == "ox";
    assert StartsWith("an_ox"[3..], "ox") && StartsWith("the_ox"[4..], "ox");
    assert "an_ox"[..2][0] == 'a' && "the_ox"[..2][0] == 't' && "ox"[0] == 'o';
    forall i | 0 <= i <= |"cattle"| ensures !StartsWith("cattle"[i..], "ox") {
      if |"cattle"[i..]| >= 2 { assert "cattle"[i..][..2][0] == "cattle"[i] != 'o'; }
    }
  }

  function OxEntries(): seq<Entry> {
    [ Entry(("an_ox", "1"), true, Inside), Entry(("the_ox", "2"), true, Inside),
      Entry(("cattle", "3"), true, NoMatch), Entry(("ox", "3"), false, Prefix) ]
  }

  /** The table of these emojis, seen from the query `ox`. */
  lemma OxenTable(lower: string -> string)
    requires forall s :: lower(s) == s
    ensures Table(Oxen(), "ox", lower) == OxEntries()
  {
    hide KindOf;
    OxKinds();
    var es := Oxen();
    assert es[1..][0] == es[1] && es[1..][1..] == es[2..] && es[2..][0] == es[2] && es[2..][1..] == [];
    assert EntriesFrom(es[0], 0, "ox", lower) == [EntryAt(es[0], 0, "ox", lower)];
    assert EntriesFrom(es[1], 0, "ox", lower) == [EntryAt(es[1], 0, "ox", lower)];
    assert EntriesFrom(es[2], 1, "ox", lower) == [EntryAt(es[2], 1, "ox", lower)];
    assert EntriesFrom(es[2], 0, "ox", lower) == [EntryAt(es[2], 0, "ox", lower), EntryAt(es[2], 1, "ox", lower)];
    assert Table(es[2..], "ox", lower) == EntriesFrom(es[2], 0, "ox", lower) + [];
  }

  lemma OxIsMissed()
    ensures var t := OxEntries(); Misses(t, 0, 1, 1) && Best(t, 1) == [("ox", "3")] && Answer(t, 1) == [("an_ox", "1")]
  {
    var t := OxEntries();
    assert t[1..][1..] == t[2..] && t[2..][1..] == t[3..] && t[3..][1..] == [];
    assert Examined(t, 0, 1) == [t[0]] + ([t[1]] + ([t[2]] + []));
    var x := [t[0]] + ([t[1]] + ([t[2]] + []));
    assert x[1..] == [t[1], t[2]] && x[1..][1..] == [t[2]] && x[1..][1..][1..] == [];
  }

  /** With a limit of 1, the one prefix match is not found. */
  lemma PrefixMatchCanBeMissed(lower: string -> string)
    requires forall s :: lower(s) == s
    ensures var t := Table(Oxen(), "ox", lower);
            Misses(t, 0, 1, 1) && Best(t, 1) == [("ox", "3")] && Answer(t, 1) == [("an_ox", "1")]
  {
    OxenTable(lower);
    OxIsMissed();
  }
}
