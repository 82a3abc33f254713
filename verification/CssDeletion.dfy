/**
The `--apply` step of the CSS auditor: each deleted block is widened to its line, the ranges are
sorted by descending start, and cut out of the text one after the other.

The cuts are polymorphic, so what they do to a text is what they do to its positions. That gives an
exact account of when the loop removes what it was asked to remove, and nothing else.
*/
module CssDeletion {
  import opened Wrappers
  import opened CssSource

  /** A half-open slice of the text. */
  datatype Range = Range(start: nat, end: nat)

  predicate Inside(r: Range, p: nat) {
    r.start <= p < r.end
  }

  predicate CoveredBy(rs: seq<Range>, p: nat) {
    exists r :: r in rs && Inside(r, p)
  }

  /******* Widening a block to its line *******/

  /** The start of the line of `s`: one past the last newline before it. */
  function LineStart(text: string, s: nat): (a: nat)
    requires s <= |text|
    ensures a <= s && (a == 0 || text[a - 1] == '\n')
    ensures forall k :: a <= k < s ==> text[k] != '\n'
  {
    if s == 0 || text[s - 1] == '\n' then s else LineStart(text, s - 1)
  }

  function Expand(text: string, r: Range): (e: Range)
    requires r.start <= r.end <= |text|
    ensures e.start <= r.start && r.end <= e.end <= |text|
  {
    Range(LineStart(text, r.start), if r.end < |text| && text[r.end] == '\n' then r.end + 1 else r.end)
  }

  predicate InBounds(n: nat, rs: seq<Range>) {
    forall r :: r in rs ==> r.start < r.end <= n
  }

  function ExpandAll(text: string, rs: seq<Range>): (es: seq<Range>)
    requires InBounds(|text|, rs)
    ensures InBounds(|text|, es) && |es| == |rs|
    ensures forall i :: 0 <= i < |rs| ==> es[i] == Expand(text, rs[i])
  {
    seq(|rs|, i requires 0 <= i < |rs| => assert rs[i] in rs; Expand(text, rs[i]))
  }

  /******* Sorting and cutting *******/

  function Insert(r: Range, rs: seq<Range>): seq<Range> {
    if rs == [] || r.start >= rs[0].start then [r] + rs else [rs[0]] + Insert(r, rs[1..])
  }

  /** Python's stable sort by descending start. */
  function SortDescending(rs: seq<Range>): seq<Range> {
    if rs == [] then [] else Insert(rs[0], SortDescending(rs[1..]))
  }

  predicate Descending(rs: seq<Range>) {
    forall i, j :: 0 <= i < j < |rs| ==> rs[i].start >= rs[j].start
  }

  lemma {:induction false} InsertMembers(r: Range, rs: seq<Range>)
    ensures multiset(Insert(r, rs)) == multiset(rs) + multiset{r}
    decreases |rs|
  {
    if rs != [] && r.start < rs[0].start {
      InsertMembers(r, rs[1..]);
      assert rs == [rs[0]] + rs[1..];
    }
  }

  lemma {:induction false} InsertSorts(r: Range, rs: seq<Range>)
    requires Descending(rs)
    ensures Descending(Insert(r, rs))
    decreases |rs|
  {
    if rs != [] && r.start < rs[0].start {
      InsertSorts(r, rs[1..]);
      var tail := Insert(r, rs[1..]);
      forall j | 0 <= j < |tail| ensures rs[0].start >= tail[j].start {
        InsertMembers(r, rs[1..]);
        assert tail[j] in multiset(tail);
        assert tail[j] == r || tail[j] in rs[1..];
      }
    }
  }

  lemma {:induction false} SortSorts(rs: seq<Range>)
    ensures Descending(SortDescending(rs)) && multiset(SortDescending(rs)) == multiset(rs)
    decreases |rs|
  {
    if rs != [] {
      SortSorts(rs[1..]);
      InsertSorts(rs[0], SortDescending(rs[1..]));
      InsertMembers(rs[0], SortDescending(rs[1..]));
      assert rs == [rs[0]] + rs[1..];
    }
  }

  function Min(a: nat, b: nat): nat {
    if a <= b then a else b
  }

  /** `s[:start] + s[end:]`, with slices clamped to the sequence as in Python. */
  function Without<T>(s: seq<T>, r: Range): seq<T> {
    s[..Min(r.start, |s|)] + s[Min(r.end, |s|)..]
  }

  /** The cuts of `rs`, made in order. */
  function CutAll<T>(s: seq<T>, rs: seq<Range>): seq<T> {
    if rs == [] then s else Without(CutAll(s, rs[..|rs| - 1]), rs[|rs| - 1])
  }

  /** What `--apply` leaves of the text. */
  function Applied(text: string, rs: seq<Range>): string
    requires InBounds(|text|, rs)
  {
    CutAll(text, SortDescending(ExpandAll(text, rs)))
  }

  method ApplyDeletions(text: string, deletions: seq<Range>) returns (newText: string)
    requires InBounds(|text|, deletions)
    ensures newText == Applied(text, deletions)
  {
    var expanded: seq<Range> := [];
    for i := 0 to |deletions|
      invariant expanded == ExpandAll(text, deletions)[..i]
    {
      assert deletions[i] in deletions;
      var start, end := deletions[i].start, deletions[i].end;
      var lineStart := LineStart(text, start);
      var lineEnd := end;
      if lineEnd < |text| && text[lineEnd] == '\n' {
        lineEnd := lineEnd + 1;
      }
      expanded := expanded + [Range(lineStart, lineEnd)];
    }
    assert expanded == ExpandAll(text, deletions);
    expanded := SortDescending(expanded);
    newText := text;
    for i := 0 to |expanded|
      invariant newText == CutAll(text, expanded[..i])
    {
      assert expanded[..i + 1][..i] == expanded[..i];
      newText := newText[..Min(expanded[i].start, |newText|)] + newText[Min(expanded[i].end, |newText|)..];
    }
    assert expanded[..|expanded|] == expanded;
  }

  /******* The cuts on positions *******/

  /** The positions from `a` up to `n`. */
  function Interval(a: nat, n: nat): (s: seq<nat>)
    ensures |s| == if a <= n then n - a else 0
    ensures forall i :: 0 <= i < |s| ==> s[i] == a + i
  {
    if a >= n then [] else seq(n - a, i requires 0 <= i => a + i)
  }

  /** The positions in `a..n` that no range covers. */
  function Kept(a: nat, n: nat, rs: seq<Range>): (s: seq<nat>)
  {
    if n <= a then []
    else Kept(a, n - 1, rs) + if CoveredBy(rs, n - 1) then [] else [n - 1]
  }

  lemma {:induction false} KeptMembers(a: nat, n: nat, rs: seq<Range>, p: nat)
    ensures p in Kept(a, n, rs) <==> a <= p < n && !CoveredBy(rs, p)
    decreases n
  {
    if a < n { KeptMembers(a, n - 1, rs, p); }
  }

  /** A text is cut exactly as its positions are. */
  lemma {:induction false} CutOfPositions<T>(s: seq<T>, rs: seq<Range>)
    ensures var ps := CutAll<nat>(Interval(0, |s|), rs);
            && |CutAll(s, rs)| == |ps|
            && forall i :: 0 <= i < |ps| ==> ps[i] < |s| && CutAll(s, rs)[i] == s[ps[i]]
    decreases |rs|
  {
    if rs != [] { CutOfPositions(s, rs[..|rs| - 1]); }
  }

  lemma {:induction false} KeptSplit(a: nat, m: nat, n: nat, rs: seq<Range>)
    requires a <= m <= n
    ensures Kept(a, n, rs) == Kept(a, m, rs) + Kept(m, n, rs)
    decreases n
  {
    if m < n { KeptSplit(a, m, n - 1, rs); }
  }

  lemma {:induction false} KeptSame(a: nat, n: nat, rs: seq<Range>, rs': seq<Range>)
    requires forall p :: a <= p < n ==> (CoveredBy(rs, p) <==> CoveredBy(rs', p))
    ensures Kept(a, n, rs) == Kept(a, n, rs')
    decreases n
  {
    if a < n { KeptSame(a, n - 1, rs, rs'); }
  }

  lemma {:induction false} KeptNone(a: nat, n: nat, rs: seq<Range>)
    requires forall p :: a <= p < n ==> CoveredBy(rs, p)
    ensures Kept(a, n, rs) == []
    decreases n
  {
    if a < n { KeptNone(a, n - 1, rs); }
  }

  lemma {:induction false} KeptAll(a: nat, n: nat, rs: seq<Range>)
    requires forall p :: a <= p < n ==> !CoveredBy(rs, p)
    ensures Kept(a, n, rs) == Interval(a, n)
    decreases n
  {
    if a < n { KeptAll(a, n - 1, rs); }
  }

  /** Where the cuts start: below it, nothing has changed yet. */
  function Reach(n: nat, rs: seq<Range>): nat {
    if rs == [] then n else rs[|rs| - 1].start
  }

  predicate Overlap(r: Range, s: Range) {
    r.start < s.end && s.start < r.end
  }

  /** Two ranges overlap and something uncovered follows both. */
  ghost predicate Bad(n: nat, rs: seq<Range>, i: nat, j: nat, p: nat) {
    i < j < |rs| && Overlap(rs[i], rs[j]) && rs[i].end <= p && rs[j].end <= p < n && !CoveredBy(rs, p)
  }

  ghost predicate NoBad(n: nat, rs: seq<Range>) {
    forall i, j, p :: !Bad(n, rs, i, j, p)
  }

  /** After the cuts: an untouched prefix, then at most what should be kept, and all of it unless a pair is bad. */
  ghost predicate CutState(n: nat, rs: seq<Range>, tail: seq<nat>) {
    var a := Reach(n, rs);
    && a <= n
    && CutAll(Interval(0, n), rs) == Interval(0, a) + tail
    && |tail| <= |Kept(a, n, rs)|
    && (|tail| == |Kept(a, n, rs)| ==> tail == Kept(a, n, rs))
    && (|tail| == |Kept(a, n, rs)| <==> NoBad(n, rs))
  }

  lemma CutApart(a: nat, r: Range, tail: seq<nat>)
    requires r.start <= r.end <= a
    ensures Without(Interval(0, a) + tail, r) == Interval(0, r.start) + (Interval(r.end, a) + tail)
  {
  }

  lemma CutInto(a: nat, r: Range, tail: seq<nat>)
    requires r.start <= a <= r.end
    ensures Without(Interval(0, a) + tail, r) == Interval(0, r.start) + tail[Min(r.end - a, |tail|)..]
  {
  }

  /** One more range at the end covers its own positions and no others. */
  lemma CoverSnoc(rs: seq<Range>, r: Range, p: nat)
    ensures CoveredBy(rs + [r], p) <==> CoveredBy(rs, p) || Inside(r, p)
  {
  }

  lemma NothingBelow(n: nat, rs: seq<Range>, p: nat)
    requires Descending(rs) && CoveredBy(rs, p)
    ensures Reach(n, rs) <= p
  {
  }

  /** What a range before all cuts covers, and what the cuts do. */
  lemma ApartCover(n: nat, rs: seq<Range>, r: Range, p: nat)
    requires Descending(rs) && r.start < r.end <= Reach(n, rs) <= n
    ensures p < Reach(n, rs) ==> (CoveredBy(rs + [r], p) <==> Inside(r, p))
    ensures p >= Reach(n, rs) ==> (CoveredBy(rs + [r], p) <==> CoveredBy(rs, p))
  {
    hide Descending, CoveredBy;
    CoverSnoc(rs, r, p);
    if CoveredBy(rs, p) { NothingBelow(n, rs, p); }
  }

  lemma KeptApart(n: nat, rs: seq<Range>, r: Range)
    requires Descending(rs) && r.start < r.end <= Reach(n, rs) <= n
    ensures Kept(r.start, n, rs + [r]) == Interval(r.end, Reach(n, rs)) + Kept(Reach(n, rs), n, rs)
  {
    hide CoveredBy, Kept, Interval, Descending, Reach;
    var a := Reach(n, rs);
    forall p: nat ensures p < a ==> (CoveredBy(rs + [r], p) <==> Inside(r, p))
      ensures p >= a ==> (CoveredBy(rs + [r], p) <==> CoveredBy(rs, p))
    {
      ApartCover(n, rs, r, p);
    }
    KeptSplit(r.start, a, n, rs + [r]);
    KeptSplit(r.start, r.end, a, rs + [r]);
    KeptNone(r.start, r.end, rs + [r]);
    KeptAll(r.end, a, rs + [r]);
    KeptSame(a, n, rs + [r], rs);
  }

  lemma {:induction false} KeptLength(a: nat, n: nat, rs: seq<Range>)
    requires a <= n
    ensures |Kept(a, n, rs)| <= n - a
    decreases n
  {
    if a < n { KeptLength(a, n - 1, rs); }
  }

  lemma KeptInto(n: nat, rs: seq<Range>, r: Range)
    requires r.start < r.end <= n
    ensures Kept(r.start, n, rs + [r]) == Kept(r.end, n, rs)
  {
    forall p ensures CoveredBy(rs + [r], p) <==> CoveredBy(rs, p) || Inside(r, p) { CoverSnoc(rs, r, p); }
    KeptSplit(r.start, r.end, n, rs + [r]);
    KeptNone(r.start, r.end, rs + [r]);
    KeptSame(r.end, n, rs + [r], rs);
  }

  /** The first cut position is covered, so fewer positions are kept up to `e` than there are. */
  lemma KeptFewer(n: nat, rs: seq<Range>, e: nat)
    requires rs != [] && InBounds(n, rs) && Reach(n, rs) < e <= n
    ensures |Kept(Reach(n, rs), n, rs)| < (e - Reach(n, rs)) + |Kept(e, n, rs)|
  {
    var a := Reach(n, rs);
    assert rs[|rs| - 1] in rs && Inside(rs[|rs| - 1], a);
    KeptSplit(a, e, n, rs);
    KeptSplit(a, a + 1, e, rs);
    KeptNone(a, a + 1, rs);
    KeptLength(a + 1, e, rs);
  }

  lemma BadApartOne(n: nat, rs: seq<Range>, r: Range, i: nat, j: nat, p: nat)
    requires InBounds(n, rs + [r]) && Descending(rs) && r.end <= Reach(n, rs)
    ensures Bad(n, rs, i, j, p) <==> Bad(n, rs + [r], i, j, p)
  {
  }

  /** A range that ends where the cuts start changes nothing about bad pairs. */
  lemma BadApart(n: nat, rs: seq<Range>, r: Range)
    requires InBounds(n, rs + [r]) && Descending(rs) && r.end <= Reach(n, rs)
    ensures NoBad(n, rs) <==> NoBad(n, rs + [r])
  {
    forall i: nat, j: nat, p: nat ensures Bad(n, rs, i, j, p) <==> Bad(n, rs + [r], i, j, p) {
      BadApartOne(n, rs, r, i, j, p);
    }
  }

  /** A range that runs into the cuts is harmless exactly when nothing is kept after it. */
  lemma BadInto(n: nat, rs: seq<Range>, r: Range)
    requires rs != [] && InBounds(n, rs + [r]) && Descending(rs + [r]) && Reach(n, rs) < r.end
    ensures NoBad(n, rs + [r]) <==> Kept(r.start, n, rs + [r]) == []
  {
    var all := rs + [r];
    var i, j := |rs| - 1, |rs|;
    assert all[i] == rs[i] && all[j] == r && all[i] in all && all[j] in all;
    assert all[i].start >= all[j].start;
    if Kept(r.start, n, all) != [] {
      var p := Kept(r.start, n, all)[0];
      KeptMembers(r.start, n, all, p);
      assert !Inside(all[i], p) && !Inside(all[j], p);
      assert Bad(n, all, i, j, p);
    } else {
      forall i': nat, j': nat, p: nat ensures !Bad(n, all, i', j', p) {
        if Bad(n, all, i', j', p) {
          assert all[i'] in all && all[i'].start >= all[|all| - 1].start;
          KeptMembers(r.start, n, all, p);
          assert false;
        }
      }
    }
  }

  lemma DescendingInit(rs: seq<Range>, r: Range)
    requires Descending(rs + [r])
    ensures Descending(rs)
  {
    var all := rs + [r];
    forall i, j | 0 <= i < j < |rs| ensures rs[i].start >= rs[j].start { assert all[i].start >= all[j].start; }
  }

  lemma CutStepApart(n: nat, rs: seq<Range>, r: Range, tail: seq<nat>)
    requires InBounds(n, rs + [r]) && Descending(rs) && CutState(n, rs, tail)
    requires r.start < r.end <= Reach(n, rs)
    ensures CutState(n, rs + [r], Interval(r.end, Reach(n, rs)) + tail)
  {
    assert (rs + [r])[..|rs|] == rs;
    CutApart(Reach(n, rs), r, tail);
    KeptApart(n, rs, r);
    BadApart(n, rs, r);
  }

  lemma CutStepInto(n: nat, rs: seq<Range>, r: Range, tail: seq<nat>)
    requires rs != [] && InBounds(n, rs) && InBounds(n, rs + [r]) && Descending(rs + [r]) && CutState(n, rs, tail)
    requires r.start <= Reach(n, rs) < r.end <= n
    ensures CutState(n, rs + [r], tail[Min(r.end - Reach(n, rs), |tail|)..])
  {
    assert (rs + [r])[..|rs|] == rs;
    CutInto(Reach(n, rs), r, tail);
    KeptInto(n, rs, r);
    KeptFewer(n, rs, r.end);
    BadInto(n, rs, r);
  }

  lemma CutStep(n: nat, rs: seq<Range>, r: Range, tail: seq<nat>) returns (tail': seq<nat>)
    requires InBounds(n, rs + [r]) && Descending(rs + [r]) && CutState(n, rs, tail)
    ensures CutState(n, rs + [r], tail')
  {
    var all, a := rs + [r], Reach(n, rs);
    assert r in all && forall x :: x in rs ==> x in all;
    DescendingInit(rs, r);
    if r.end <= a {
      CutStepApart(n, rs, r, tail);
      tail' := Interval(r.end, a) + tail;
    } else {
      assert rs != [] && all[|rs| - 1].start >= all[|rs|].start;
      CutStepInto(n, rs, r, tail);
      tail' := tail[Min(r.end - a, |tail|)..];
    }
  }

  lemma {:induction false} CutsReach(n: nat, rs: seq<Range>) returns (tail: seq<nat>)
    requires InBounds(n, rs) && Descending(rs)
    ensures CutState(n, rs, tail)
    decreases |rs|
  {
    if rs == [] {
      tail := [];
      assert NoBad(n, rs);
    } else {
      var init, r := rs[..|rs| - 1], rs[|rs| - 1];
      assert rs == init + [r];
      var before := CutsReach(n, init);
      tail := CutStep(n, init, r, before);
    }
  }

  /**
  The descending cuts leave exactly the uncovered positions if and only if no two overlapping ranges
  are followed by an uncovered position.
  */
  lemma CutsAreExact(n: nat, rs: seq<Range>)
    requires InBounds(n, rs) && Descending(rs)
    ensures CutAll<nat>(Interval(0, n), rs) == Kept(0, n, rs) <==> NoBad(n, rs)
  {
    var tail := CutsReach(n, rs);
    var a := Reach(n, rs);
    KeptSplit(0, a, n, rs);
    forall p | CoveredBy(rs, p) ensures a <= p { NothingBelow(n, rs, p); }
    KeptAll(0, a, rs);
    assert (Interval(0, a) + tail)[a..] == tail;
    assert (Interval(0, a) + Kept(a, n, rs))[a..] == Kept(a, n, rs);
  }

  /******* Deleting blocks from a text *******/

  /** How a recorded block looks in the original text: ink at both ends. */
  predicate BlockLike(text: string, r: Range) {
    r.start + 1 < r.end <= |text| && !IsSpace(text[r.start]) && text[r.end - 1] == '}'
  }

  predicate Apart(r: Range, s: Range) {
    r.end <= s.start || s.end <= r.start
  }

  /** What the scanner guarantees of the blocks to delete. */
  predicate Deletable(text: string, rs: seq<Range>) {
    && (forall r :: r in rs ==> BlockLike(text, r))
    && (forall i, j :: 0 <= i < j < |rs| ==> Apart(rs[i], rs[j]))
  }

  /** `s` starts on the line where `r` ends. */
  predicate SameLine(text: string, r: Range, s: Range) {
    r.end <= s.start <= |text| && forall k :: r.end <= k < s.start ==> text[k] != '\n'
  }

  lemma WidenedOverlap(text: string, r: Range, s: Range)
    requires BlockLike(text, r) && BlockLike(text, s) && r.end <= s.start
    ensures Overlap(Expand(text, r), Expand(text, s)) <==> SameLine(text, r, s)
    ensures Expand(text, r).end < Expand(text, s).end
  {
  }

  /** Everything removed besides the blocks is blank. */
  ghost predicate LosesOnlyBlanks(text: string, rs: seq<Range>)
    requires InBounds(|text|, rs)
  {
    forall p :: 0 <= p < |text| && CoveredBy(ExpandAll(text, rs), p) ==> CoveredBy(rs, p) || IsSpace(text[p])
  }

  /** `p` is on the first line of `r`, before it. */
  predicate InIndent(text: string, r: Range, p: nat)
    requires r.start <= |text|
  {
    LineStart(text, r.start) <= p < r.start
  }

  /** On the line of a deleted block, only blanks and other deleted blocks precede it. */
  ghost predicate AloneOnLine(text: string, rs: seq<Range>)
    requires InBounds(|text|, rs)
  {
    forall r, p: nat :: r in rs && InIndent(text, r, p) ==> CoveredBy(rs, p) || IsSpace(text[p])
  }

  /** Two deleted blocks share a line only if nothing is kept after them. */
  ghost predicate SharedLinesEnd(text: string, rs: seq<Range>)
    requires InBounds(|text|, rs)
  {
    forall r, s, p :: r in rs && s in rs && SameLine(text, r, s) && Expand(text, s).end <= p < |text|
      ==> CoveredBy(ExpandAll(text, rs), p)
  }

  /** The loop leaves exactly the positions outside the widened ranges, and widening costs only blanks. */
  ghost predicate AppliedExactly(text: string, rs: seq<Range>)
    requires InBounds(|text|, rs)
  {
    && CutAll<nat>(Interval(0, |text|), SortDescending(ExpandAll(text, rs))) == Kept(0, |text|, ExpandAll(text, rs))
    && LosesOnlyBlanks(text, rs)
  }

  lemma WidenedCovers(text: string, rs: seq<Range>, p: nat)
    requires InBounds(|text|, rs)
    ensures CoveredBy(ExpandAll(text, rs), p) <==> exists r :: r in rs && Inside(Expand(text, r), p)
  {
  }

  lemma IndentIsWidened(text: string, rs: seq<Range>, r: Range, p: nat)
    requires InBounds(|text|, rs) && r in rs && InIndent(text, r, p)
    ensures CoveredBy(ExpandAll(text, rs), p)
  {
    assert Inside(Expand(text, r), p);
  }

  lemma WidenedIsIndent(text: string, rs: seq<Range>, p: nat) returns (r: Range)
    requires InBounds(|text|, rs) && CoveredBy(ExpandAll(text, rs), p)
    ensures p < |text| && r in rs && (Inside(r, p) || InIndent(text, r, p) || text[p] == '\n')
  {
    r :| r in rs && Inside(Expand(text, r), p);
  }

  /** Only blanks are lost exactly when every deleted block stands alone on its line. */
  lemma BlanksOnly(text: string, rs: seq<Range>)
    requires InBounds(|text|, rs)
    ensures LosesOnlyBlanks(text, rs) <==> AloneOnLine(text, rs)
  {
    if LosesOnlyBlanks(text, rs) {
      forall r, p: nat | r in rs && InIndent(text, r, p) ensures CoveredBy(rs, p) || IsSpace(text[p]) {
        IndentIsWidened(text, rs, r, p);
      }
    }
    if AloneOnLine(text, rs) {
      forall p: nat | p < |text| && CoveredBy(ExpandAll(text, rs), p) ensures CoveredBy(rs, p) || IsSpace(text[p]) {
        var r := WidenedIsIndent(text, rs, p);
      }
    }
  }

  lemma {:induction false} OccursOnce(rs: seq<Range>, x: Range)
    requires forall i, j :: 0 <= i < j < |rs| ==> rs[i] != rs[j]
    ensures multiset(rs)[x] <= 1
    decreases |rs|
  {
    if rs != [] {
      OccursOnce(rs[1..], x);
      assert rs == [rs[0]] + rs[1..];
      assert rs[0] !in rs[1..];
    }
  }

  lemma OccursTwice(rs: seq<Range>, i: nat, j: nat)
    requires i < j < |rs| && rs[i] == rs[j]
    ensures multiset(rs)[rs[i]] >= 2
  {
    assert rs == rs[..j] + rs[j..] && rs[i] == rs[..j][i] && rs[j] == rs[j..][0];
    assert multiset(rs) == multiset(rs[..j]) + multiset(rs[j..]);
    assert rs[..j][i] in multiset(rs[..j]) && rs[j..][0] in multiset(rs[j..]);
  }

  lemma SameMembers(rs: seq<Range>, rs': seq<Range>, p: nat)
    requires multiset(rs) == multiset(rs')
    ensures CoveredBy(rs, p) <==> CoveredBy(rs', p)
    ensures forall x :: x in rs <==> x in rs'
  {
    assert forall x :: x in rs <==> x in multiset(rs);
    assert forall x :: x in rs' <==> x in multiset(rs');
  }

  /** Where the widened range of one deleted block comes from. */
  lemma Origin(text: string, rs: seq<Range>, e: Range) returns (i: nat)
    requires InBounds(|text|, rs) && e in SortDescending(ExpandAll(text, rs))
    ensures i < |rs| && e == Expand(text, rs[i])
  {
    var es := ExpandAll(text, rs);
    SortSorts(es);
    SameMembers(SortDescending(es), es, 0);
    i :| 0 <= i < |es| && es[i] == e;
  }

  lemma WidenedDiffer(text: string, rs: seq<Range>)
    requires Deletable(text, rs) && InBounds(|text|, rs)
    ensures forall i, j :: 0 <= i < j < |rs| ==> ExpandAll(text, rs)[i] != ExpandAll(text, rs)[j]
  {
    hide Expand, BlockLike;
    forall i, j | 0 <= i < j < |rs| ensures ExpandAll(text, rs)[i] != ExpandAll(text, rs)[j] {
      if rs[i].end <= rs[j].start {
        WidenedOverlap(text, rs[i], rs[j]);
      } else {
        WidenedOverlap(text, rs[j], rs[i]);
      }
    }
  }

  /** A bad pair of cuts is two deleted blocks on one line with something kept after them. */
  lemma BadPairSharesLine(text: string, rs: seq<Range>, i: nat, j: nat, p: nat) returns (r: Range, s: Range)
    requires Deletable(text, rs) && InBounds(|text|, rs) && Bad(|text|, SortDescending(ExpandAll(text, rs)), i, j, p)
    ensures r in rs && s in rs && SameLine(text, r, s) && Expand(text, s).end <= p && !CoveredBy(ExpandAll(text, rs), p)
  {
    var es := ExpandAll(text, rs);
    var ds := SortDescending(es);
    SortSorts(es);
    SameMembers(ds, es, p);
    WidenedDiffer(text, rs);
    OccursOnce(es, ds[i]);
    if ds[i] == ds[j] { OccursTwice(ds, i, j); }
    var k := Origin(text, rs, ds[i]);
    var l := Origin(text, rs, ds[j]);
    if rs[k].end <= rs[l].start { r, s := rs[k], rs[l]; } else { r, s := rs[l], rs[k]; }
    WidenedOverlap(text, r, s);
  }

  /** Where the widened range of a deleted block ends up among the cuts. */
  lemma PlaceOf(text: string, rs: seq<Range>, r: Range) returns (i: nat)
    requires InBounds(|text|, rs) && r in rs
    ensures i < |SortDescending(ExpandAll(text, rs))| && SortDescending(ExpandAll(text, rs))[i] == Expand(text, r)
  {
    var es := ExpandAll(text, rs);
    SortSorts(es);
    SameMembers(SortDescending(es), es, 0);
    var k :| 0 <= k < |rs| && rs[k] == r;
    assert es[k] in es;
    i :| 0 <= i < |SortDescending(es)| && SortDescending(es)[i] == es[k];
  }

  lemma OverlapForcesCover(n: nat, ds: seq<Range>, i: nat, j: nat, p: nat)
    requires NoBad(n, ds) && i < |ds| && j < |ds| && i != j && Overlap(ds[i], ds[j])
    requires ds[i].end <= p && ds[j].end <= p < n
    ensures CoveredBy(ds, p)
  {
    assert !Bad(n, ds, i, j, p) && !Bad(n, ds, j, i, p);
  }

  lemma SharedLineIsBad(text: string, rs: seq<Range>, r: Range, s: Range, p: nat)
    requires Deletable(text, rs) && InBounds(|text|, rs)
    requires r in rs && s in rs && SameLine(text, r, s) && Expand(text, s).end <= p < |text|
    ensures NoBad(|text|, SortDescending(ExpandAll(text, rs))) ==> CoveredBy(ExpandAll(text, rs), p)
  {
    var es := ExpandAll(text, rs);
    var ds := SortDescending(es);
    var i := PlaceOf(text, rs, r);
    var j := PlaceOf(text, rs, s);
    WidenedOverlap(text, r, s);
    if NoBad(|text|, ds) { OverlapForcesCover(|text|, ds, i, j, p); }
    SortSorts(es);
    SameMembers(ds, es, p);
  }

  /**
  For every text and every set of recorded blocks: the deletion loop removes exactly the widened
  blocks, losing nothing but blanks besides, if and only if each deleted block stands alone on its
  line and deleted blocks share a line only at the end of what is kept.
  */
  lemma DeletionIsExactIff(text: string, rs: seq<Range>)
    requires Deletable(text, rs) && InBounds(|text|, rs)
    ensures AppliedExactly(text, rs) <==> AloneOnLine(text, rs) && SharedLinesEnd(text, rs)
  {
    var n, es := |text|, ExpandAll(text, rs);
    var ds := SortDescending(es);
    SortSorts(es);
    SameMembers(ds, es, 0);
    CutsAreExact(n, ds);
    forall p: nat ensures CoveredBy(ds, p) <==> CoveredBy(es, p) { SameMembers(ds, es, p); }
    KeptSame(0, n, ds, es);
    BlanksOnly(text, rs);
    if !NoBad(n, ds) {
      var i, j, p :| Bad(n, ds, i, j, p);
      var r, s := BadPairSharesLine(text, rs, i, j, p);
    } else {
      forall r, s, p: nat | r in rs && s in rs && SameLine(text, r, s) && Expand(text, s).end <= p < n
        ensures CoveredBy(es, p)
      {
        SharedLineIsBad(text, rs, r, s, p);
      }
    }
  }

  lemma OneLineWidened()
    ensures InBounds(13, [Range(0, 4), Range(4, 8)])
    ensures ExpandAll(".a{}.b{}\n.c{}", [Range(0, 4), Range(4, 8)]) == [Range(0, 4), Range(0, 9)]
  {
    var text := ".a{}.b{}\n.c{}";
    assert forall k :: 0 <= k < 4 ==> text[k] != '\n';
  }

  /** Two deleted blocks on one line, with a block to keep on the next: that block is lost too. */
  lemma SharedLineLosesWhatFollows()
    ensures InBounds(13, [Range(0, 4), Range(4, 8)])
    ensures Applied(".a{}.b{}\n.c{}", [Range(0, 4), Range(4, 8)]) == ""
  {
    OneLineWidened();
    assert [Range(0, 4), Range(0, 9)][..1] == [Range(0, 4)];
    assert CutAll(".a{}.b{}\n.c{}", [Range(0, 4)]) == ".b{}\n.c{}";
  }

  /******* Kept blocks survive *******/

  /** Every deleted block has only blanks before it on its line. */
  ghost predicate Isolated(text: string, rs: seq<Range>)
    requires InBounds(|text|, rs)
  {
    forall r, p: nat :: r in rs && InIndent(text, r, p) ==> IsSpace(text[p])
  }

  lemma IsolatedSharesNoLine(text: string, rs: seq<Range>, r: Range, s: Range)
    requires Deletable(text, rs) && InBounds(|text|, rs) && Isolated(text, rs) && r in rs && s in rs
    ensures !SameLine(text, r, s)
  {
  }

  /** Isolated deletions are exact. */
  lemma IsolatedIsExact(text: string, rs: seq<Range>)
    requires Deletable(text, rs) && InBounds(|text|, rs) && Isolated(text, rs)
    ensures AppliedExactly(text, rs)
  {
    forall r, s | r in rs && s in rs ensures !SameLine(text, r, s) { IsolatedSharesNoLine(text, rs, r, s); }
    DeletionIsExactIff(text, rs);
  }

  /** Widening an isolated block does not reach a block that is kept. */
  lemma WidenedStaysApart(text: string, r: Range, k: Range)
    requires BlockLike(text, r) && BlockLike(text, k) && Apart(r, k)
    requires forall p: nat :: InIndent(text, r, p) ==> IsSpace(text[p])
    ensures Apart(Expand(text, r), k)
  {
  }

  lemma KeptBlockUntouched(text: string, rs: seq<Range>, k: Range)
    requires Deletable(text, rs) && InBounds(|text|, rs) && Isolated(text, rs) && BlockLike(text, k)
    requires forall r :: r in rs ==> Apart(r, k)
    ensures forall p: nat :: Inside(k, p) ==> !CoveredBy(ExpandAll(text, rs), p)
  {
    forall p: nat | CoveredBy(ExpandAll(text, rs), p) ensures !Inside(k, p) {
      WidenedCovers(text, rs, p);
      var r :| r in rs && Inside(Expand(text, r), p);
      WidenedStaysApart(text, r, k);
    }
  }

  /** An uncovered stretch is kept in one piece. */
  lemma KeptStretch(n: nat, es: seq<Range>, k: Range, i: nat)
    requires k.start <= k.end <= n && i < k.end - k.start
    requires forall p: nat :: Inside(k, p) ==> !CoveredBy(es, p)
    ensures |Kept(0, k.start, es)| + (k.end - k.start) <= |Kept(0, n, es)|
    ensures Kept(0, n, es)[|Kept(0, k.start, es)| + i] == k.start + i
  {
    KeptSplit(0, k.start, n, es);
    KeptSplit(k.start, k.end, n, es);
    KeptAll(k.start, k.end, es);
    assert Kept(k.start, n, es)[i] == Interval(k.start, k.end)[i];
  }

  /** Every block that is kept is in the new text, verbatim and in one piece. */
  lemma KeptBlockSurvives(text: string, rs: seq<Range>, k: Range, p: nat)
    requires Deletable(text, rs) && InBounds(|text|, rs) && Isolated(text, rs) && BlockLike(text, k)
    requires (forall r :: r in rs ==> Apart(r, k)) && Inside(k, p)
    ensures var q := |Kept(0, k.start, ExpandAll(text, rs))|;
            q + (k.end - k.start) <= |Applied(text, rs)| && Applied(text, rs)[q + (p - k.start)] == text[p]
  {
    IsolatedIsExact(text, rs);
    CutOfPositions(text, SortDescending(ExpandAll(text, rs)));
    KeptBlockUntouched(text, rs, k);
    KeptStretch(|text|, ExpandAll(text, rs), k, p - k.start);
  }
}
