/**
The text layer of the CSS auditor: blanking comments without moving a character,
counting lines, and matching braces (`strip_css_comments`, `find_matching_brace`).
Positions are code point indices, as in the Python source.
*/
module CssSource {
  import opened Wrappers

  /** Python's `str.isspace` for one character. */
  predicate IsSpace(c: char) {
    || c == ' ' || '\t' <= c <= '\r' || '\U{1C}' <= c <= '\U{1F}'
    || c == '\U{85}' || c == '\U{A0}' || c == '\U{1680}' || '\U{2000}' <= c <= '\U{200A}'
    || c == '\U{2028}' || c == '\U{2029}' || c == '\U{202F}' || c == '\U{205F}' || c == '\U{3000}'
  }

  lemma SpaceIs(c: char)
    ensures IsSpace(c) <==> c in {
      '\t', '\n', '\U{B}', '\U{C}', '\r', '\U{1C}', '\U{1D}', '\U{1E}', '\U{1F}', ' ', '\U{85}', '\U{A0}', '\U{1680}',
      '\U{2000}', '\U{2001}', '\U{2002}', '\U{2003}', '\U{2004}', '\U{2005}', '\U{2006}', '\U{2007}', '\U{2008}',
      '\U{2009}', '\U{200A}', '\U{2028}', '\U{2029}', '\U{202F}', '\U{205F}', '\U{3000}' }
  {
  }

  /******* Comments *******/

  predicate Opens(t: string, i: nat) {
    i + 1 < |t| && t[i] == '/' && t[i + 1] == '*'
  }

  predicate Closes(t: string, i: nat) {
    i + 1 < |t| && t[i] == '*' && t[i + 1] == '/'
  }

  /** The first comment terminator at or after `i`, or `|t|` when there is none. */
  function NextClose(t: string, i: nat): (j: nat)
    requires i <= |t|
    ensures i <= j <= |t|
    ensures forall k :: i <= k < j ==> !Closes(t, k)
    ensures j < |t| ==> Closes(t, j)
    decreases |t| - i
  {
    if i == |t| || Closes(t, i) then i else NextClose(t, i + 1)
  }

  /** Where the substitution goes on after `i`: past a whole terminated comment, or past one character. */
  function Step(t: string, i: nat): (n: nat)
    requires i < |t|
    ensures i < n <= |t|
  {
    if Opens(t, i) && NextClose(t, i + 2) < |t| then NextClose(t, i + 2) + 2 else i + 1
  }

  /** Whether the pattern `/* ... */`, matched from left to right starting at `i`, covers position `k`. */
  predicate InComment(t: string, i: nat, k: nat)
    requires i <= k < |t|
    decreases |t| - i
  {
    var e := Step(t, i);
    if k < e then e > i + 1 else InComment(t, e, k)
  }

  /** `strip_css_comments`: every terminated comment becomes blanks of the same shape. */
  function StripComments(t: string): (r: string)
    ensures |r| == |t|
    ensures forall k :: 0 <= k < |t| ==> r[k] == t[k] || (r[k] == ' ' && t[k] != '\n')
  {
    seq(|t|, k requires 0 <= k < |t| => if InComment(t, 0, k) && t[k] != '\n' then ' ' else t[k])
  }

  /** The matching, started at `i`, stops at `k`: position `k` is not strictly inside a comment. */
  ghost predicate Stops(t: string, i: nat, k: nat)
    requires k <= |t|
    decreases |t| - i
  {
    i == k || (i < k && Stops(t, Step(t, i), k))
  }

  lemma {:induction false} OutsideComment(t: string, i: nat, k: nat)
    requires i <= k < |t| && !InComment(t, i, k)
    ensures Stops(t, i, k) && Step(t, k) == k + 1 && Stops(t, i, k + 1)
    decreases |t| - i
  {
    if k >= Step(t, i) {
      OutsideComment(t, Step(t, i), k);
    } else {
      assert Stops(t, k + 1, k + 1);
    }
  }

  /** A terminated comment opens at `i` and covers `k`. */
  predicate CommentAt(t: string, i: nat, k: nat) {
    Opens(t, i) && NextClose(t, i + 2) < |t| && i <= k < NextClose(t, i + 2) + 2
  }

  lemma {:induction false} InCommentIff(t: string, i: nat, k: nat)
    requires i <= k < |t|
    ensures InComment(t, i, k) <==> exists j: nat :: j <= k && Stops(t, i, j) && CommentAt(t, j, k)
    decreases |t| - i
  {
    var e := Step(t, i);
    assert Stops(t, i, i);
    if e <= k {
      InCommentIff(t, e, k);
      assert !CommentAt(t, i, k);
      forall j: nat | j <= k && CommentAt(t, j, k) ensures Stops(t, i, j) <==> Stops(t, e, j) {
        assert j != i;
      }
    } else if e == i + 1 {
      assert !CommentAt(t, i, k);
    } else {
      assert CommentAt(t, i, k);
    }
  }

  /** A character is blanked exactly when a comment covers it, the comments being taken from left to right. */
  lemma StripBlanksComments(t: string, k: nat)
    requires k < |t| && t[k] != '\n' && t[k] != ' '
    ensures StripComments(t)[k] == ' ' <==> exists j: nat :: j <= k && Stops(t, 0, j) && CommentAt(t, j, k)
  {
    InCommentIff(t, 0, k);
  }

  /** No terminated comment survives: an opener left in the copy has no terminator after it. */
  lemma StripLeavesNoComment(t: string, i: nat, j: nat)
    requires i + 2 <= j && Opens(StripComments(t), i)
    ensures !Closes(StripComments(t), j)
  {
    assert !InComment(t, 0, i);
    OutsideComment(t, 0, i);
    assert NextClose(t, i + 2) == |t|;
    assert !Closes(t, j);
  }

  lemma StopBesideInk(t: string, k: nat)
    requires k < |t| && !IsSpace(StripComments(t)[k])
    ensures Stops(t, 0, k) && Stops(t, 0, k + 1) && StripComments(t)[k] == t[k]
  {
    OutsideComment(t, 0, k);
  }

  /** Going back over text without a slash cannot enter a comment. */
  lemma {:induction false} StopBackwards(t: string, i: nat, a: nat, s: nat)
    requires i <= a <= s <= |t| && Stops(t, i, s)
    requires forall p :: a <= p < s ==> t[p] != '/'
    ensures Stops(t, i, a)
    decreases |t| - i
  {
    if i < a {
      var e := Step(t, i);
      assert e > i + 1 ==> t[e - 1] == '/';
      StopBackwards(t, e, a, s);
    }
  }

  lemma {:induction false} StopAfterNewline(t: string, i: nat, k: nat)
    requires i <= k < |t| && Stops(t, i, k) && t[k] == '\n'
    ensures Stops(t, i, k + 1)
    decreases |t| - i
  {
    if i == k {
      assert Stops(t, k + 1, k + 1);
    } else {
      StopAfterNewline(t, Step(t, i), k);
    }
  }

  lemma {:induction false} CommentsFromStop(t: string, i: nat, m: nat, k: nat)
    requires i <= m <= k < |t| && Stops(t, i, m)
    ensures InComment(t, i, k) == InComment(t, m, k)
    decreases |t| - i
  {
    if i < m { CommentsFromStop(t, Step(t, i), m, k); }
  }

  /** `u` is `t` without the slice `a..e`. */
  ghost predicate IsCut(t: string, u: string, a: nat, e: nat) {
    && a <= e <= |t| && |u| == |t| - (e - a)
    && (forall k :: 0 <= k < a ==> u[k] == t[k])
    && (forall k :: e <= k < |t| ==> u[k - (e - a)] == t[k])
  }

  lemma {:induction false} NextCloseAfterCut(t: string, u: string, a: nat, e: nat, i: nat)
    requires IsCut(t, u, a, e) && e <= i <= |t|
    ensures NextClose(u, i - (e - a)) == NextClose(t, i) - (e - a)
    decreases |t| - i
  {
    assert Closes(u, i - (e - a)) == Closes(t, i);
    if i < |t| { NextCloseAfterCut(t, u, a, e, i + 1); }
  }

  /** A terminator before the cut is still the first one. */
  lemma {:induction false} NextCloseBeforeCut(t: string, u: string, a: nat, e: nat, i: nat)
    requires IsCut(t, u, a, e) && i + 2 <= a && NextClose(t, i) + 2 <= a
    ensures NextClose(u, i) == NextClose(t, i)
    decreases |t| - i
  {
    assert Closes(u, i) == Closes(t, i);
    if i < NextClose(t, i) { NextCloseBeforeCut(t, u, a, e, i + 1); }
  }

  /** A terminator after the cut was one in the text. */
  lemma NoCloseAfterCut(t: string, u: string, a: nat, e: nat, i: nat)
    requires IsCut(t, u, a, e) && i <= a && (a == 0 || t[a - 1] == '\n') && NextClose(u, i) < |u|
    ensures NextClose(t, i) < |t|
  {
    var j := NextClose(u, i);
    var k := if j < a then j else j + (e - a);
    assert u[j] == t[k] && u[j + 1] == t[k + 1];
    assert Closes(t, k);
  }

  lemma StepBeforeCut(t: string, u: string, a: nat, e: nat, i: nat)
    requires IsCut(t, u, a, e) && i < a && t[a - 1] == '\n' && Step(t, i) <= a
    ensures i < |u| && Step(u, i) == Step(t, i)
  {
    assert i + 1 < a ==> u[i + 1] == t[i + 1];
    assert Opens(u, i) == Opens(t, i) || i + 1 == a;
    if Opens(t, i) {
      if NextClose(t, i + 2) < |t| {
        NextCloseBeforeCut(t, u, a, e, i + 2);
      } else if i + 2 <= a && NextClose(u, i + 2) < |u| {
        NoCloseAfterCut(t, u, a, e, i + 2);
      }
    }
  }

  lemma {:induction false} CommentsBeforeCut(t: string, u: string, a: nat, e: nat, i: nat, k: nat)
    requires IsCut(t, u, a, e) && i <= k < a && t[a - 1] == '\n' && Stops(t, i, a)
    ensures InComment(u, i, k) == InComment(t, i, k)
    decreases a - i
  {
    StepBeforeCut(t, u, a, e, i);
    if k >= Step(t, i) { CommentsBeforeCut(t, u, a, e, Step(t, i), k); }
  }

  lemma {:induction false} StopsBeforeCut(t: string, u: string, a: nat, e: nat, i: nat)
    requires IsCut(t, u, a, e) && i <= a && (a == 0 || t[a - 1] == '\n') && Stops(t, i, a)
    ensures Stops(u, i, a)
    decreases a - i
  {
    if i < a {
      StepBeforeCut(t, u, a, e, i);
      StopsBeforeCut(t, u, a, e, Step(t, i));
    }
  }

  lemma {:induction false} CommentsAfterCut(t: string, u: string, a: nat, e: nat, i: nat, k: nat)
    requires IsCut(t, u, a, e) && e <= i <= k < |t|
    ensures InComment(u, i - (e - a), k - (e - a)) == InComment(t, i, k)
    decreases |t| - i
  {
    var d := e - a;
    assert Opens(u, i - d) == Opens(t, i);
    if Opens(t, i) { NextCloseAfterCut(t, u, a, e, i + 2); }
    assert Step(u, i - d) == Step(t, i) - d;
    if k >= Step(t, i) { CommentsAfterCut(t, u, a, e, Step(t, i), k); }
  }

  lemma CommentsPastCut(t: string, u: string, a: nat, e: nat, k: nat)
    requires IsCut(t, u, a, e) && Stops(t, 0, a) && Stops(t, 0, e) && e <= k < |t|
    requires a == 0 || t[a - 1] == '\n'
    ensures InComment(u, 0, k - (e - a)) == InComment(t, 0, k)
  {
    StopsBeforeCut(t, u, a, e, 0);
    CommentsFromStop(u, 0, a, k - (e - a));
    CommentsFromStop(t, 0, e, k);
    CommentsAfterCut(t, u, a, e, e, k);
  }

  /** Removing whole lines between two stops commutes with stripping comments. */
  lemma StripOfCut(t: string, u: string, a: nat, e: nat)
    requires IsCut(t, u, a, e) && Stops(t, 0, a) && Stops(t, 0, e)
    requires a == 0 || t[a - 1] == '\n'
    ensures IsCut(StripComments(t), StripComments(u), a, e)
  {
    forall k | 0 <= k < a ensures StripComments(u)[k] == StripComments(t)[k] {
      CommentsBeforeCut(t, u, a, e, 0, k);
    }
    forall k | e <= k < |t| ensures StripComments(u)[k - (e - a)] == StripComments(t)[k] {
      CommentsPastCut(t, u, a, e, k);
    }
  }

  /******* Lines *******/

  function Newlines(s: string): nat {
    if s == "" then 0
    else Newlines(s[..|s| - 1]) + if s[|s| - 1] == '\n' then 1 else 0
  }

  lemma {:induction false} NewlinesAppend(a: string, b: string)
    ensures Newlines(a + b) == Newlines(a) + Newlines(b)
    decreases |b|
  {
    if b == "" {
      assert a + b == a;
    } else {
      assert (a + b)[..|a + b| - 1] == a + b[..|b| - 1];
      NewlinesAppend(a, b[..|b| - 1]);
    }
  }

  /** The line number of position `k`, counting from one. */
  function LineAt(t: string, k: nat): nat
    requires k <= |t|
  {
    1 + Newlines(t[..k])
  }

  lemma {:induction false} LineAfter(t: string, i: nat, j: nat)
    requires i <= j <= |t|
    ensures LineAt(t, j) == LineAt(t, i) + Newlines(t[i..j])
  {
    assert t[..j] == t[..i] + t[i..j];
    NewlinesAppend(t[..i], t[i..j]);
  }

  /** Line numbers read off the stripped copy are those of the original text. */
  lemma {:induction false} StripKeepsLines(t: string, k: nat)
    requires k <= |t|
    ensures LineAt(StripComments(t), k) == LineAt(t, k)
  {
    var s := StripComments(t);
    if k > 0 {
      StripKeepsLines(t, k - 1);
      assert s[..k][..k - 1] == s[..k - 1] && t[..k][..k - 1] == t[..k - 1];
    }
  }

  /******* Braces *******/

  function Weight(c: char): int {
    if c == '{' then 1 else if c == '}' then -1 else 0
  }

  /** Opening minus closing braces in `t[o..j]`. */
  function Depth(t: string, o: nat, j: nat): int
    requires j <= |t|
    decreases j
  {
    if j <= o then 0 else Depth(t, o, j - 1) + Weight(t[j - 1])
  }

  /** `e` is the brace closing the one at `o`: the first place where the depth is back to zero. */
  ghost predicate Matches(t: string, o: nat, e: nat) {
    && o < e < |t| && t[o] == '{' && t[e] == '}'
    && Depth(t, o, e + 1) == 0
    && forall j :: o < j <= e ==> Depth(t, o, j) > 0
  }

  lemma MatchUnique(t: string, o: nat, e: nat, f: nat)
    requires Matches(t, o, e) && Matches(t, o, f)
    ensures e == f
  {
  }

  ghost function MatchOf(t: string, o: nat): (m: Option<nat>)
    ensures m.Some? ==> Matches(t, o, m.value)
    ensures m.None? ==> forall e :: !Matches(t, o, e)
  {
    if e :| Matches(t, o, e) then Some(e) else None
  }

  /** `find_matching_brace`. */
  method FindMatchingBrace(t: string, opening: nat) returns (close: int)
    requires opening < |t| && t[opening] == '{'
    ensures close >= 0 ==> Matches(t, opening, close)
    ensures close < 0 ==> close == -1 && forall e :: !Matches(t, opening, e)
  {
    var depth := 0;
    for i := opening to |t|
      invariant depth == Depth(t, opening, i)
      invariant forall j :: opening < j <= i ==> Depth(t, opening, j) > 0
    {
      if t[i] == '{' {
        depth := depth + 1;
      } else if t[i] == '}' {
        depth := depth - 1;
        if depth == 0 { return i; }
      }
      assert Depth(t, opening, i + 1) == depth;
    }
    return -1;
  }

  /** Depth and matching only look at the slice they span. */
  lemma {:induction false} DepthOfSlice(t: string, u: string, o: nat, p: nat, n: nat)
    requires o + n <= |t| && p + n <= |u| && t[o..o + n] == u[p..p + n]
    ensures Depth(t, o, o + n) == Depth(u, p, p + n)
    decreases n
  {
    if n > 0 {
      var x, y := t[o..o + n], u[p..p + n];
      assert forall k :: 0 <= k < n ==> x[k] == t[o + k] && y[k] == u[p + k];
      assert x[..n - 1] == t[o..o + n - 1];
      assert y[..n - 1] == u[p..p + n - 1];
      DepthOfSlice(t, u, o, p, n - 1);
    }
  }

  lemma MatchOfSlice(t: string, u: string, o: nat, p: nat, n: nat)
    requires o + n < |t| && p + n < |u| && t[o..o + n + 1] == u[p..p + n + 1]
    requires Matches(t, o, o + n)
    ensures Matches(u, p, p + n)
  {
    assert t[o] == t[o..o + n + 1][0] && u[p] == u[p..p + n + 1][0];
    assert t[o + n] == t[o..o + n + 1][n] && u[p + n] == u[p..p + n + 1][n];
    DepthOfSlice(t, u, o, p, n + 1);
    forall j | p < j <= p + n ensures Depth(u, p, j) > 0 {
      var m := j - p;
      assert t[o..o + m] == t[o..o + n + 1][..m] && u[p..p + m] == u[p..p + n + 1][..m];
      DepthOfSlice(t, u, o, p, m);
      assert Depth(t, o, o + m) > 0;
    }
  }

  /******* Counting *******/

  /** The depth is the number of opening braces less the number of closing ones. */
  lemma {:induction false} DepthCounts(t: string, o: nat, j: nat)
    requires o <= j <= |t|
    ensures Depth(t, o, j) + multiset(t[o..j])['}'] == multiset(t[o..j])['{']
    decreases j
  {
    if o < j {
      DepthCounts(t, o, j - 1);
      assert t[o..j] == t[o..j - 1] + [t[j - 1]];
    }
  }

  /** The line of a position is one more than the newlines before it. */
  lemma {:induction false} LineCounts(t: string, k: nat)
    requires k <= |t|
    ensures LineAt(t, k) == 1 + multiset(t[..k])['\n']
  {
    NewlinesCount(t[..k]);
  }

  lemma {:induction false} NewlinesCount(s: string)
    ensures Newlines(s) == multiset(s)['\n']
  {
    if s != "" {
      NewlinesCount(s[..|s| - 1]);
      assert s == s[..|s| - 1] + [s[|s| - 1]];
    }
  }

  /******* Comments, letter by letter *******/

  lemma {:induction false} PlainTextStops(t: string, i: nat, a: nat)
    requires i <= a <= |t| && forall k :: i <= k < a && k + 1 < |t| ==> t[k] != '/' || t[k + 1] != '*'
    ensures Stops(t, i, a) && forall k :: i <= k < a ==> !InComment(t, i, k)
    decreases |t| - i
  {
    if i < a {
      PlainTextStops(t, i + 1, a);
      assert Step(t, i) == i + 1;
    }
  }

  /** The first comment of a text, its letters and its end. */
  lemma FirstComment(t: string, a: nat, e: nat)
    requires a + 4 <= e <= |t| && t[a] == '/' && t[a + 1] == '*' && t[e - 2] == '*' && t[e - 1] == '/'
    requires forall k :: a + 2 <= k < e - 2 ==> t[k] != '*' || t[k + 1] != '/'
    requires forall k :: 0 <= k < a ==> t[k] != '/' || t[k + 1] != '*'
    ensures forall k :: 0 <= k < |t| ==> (InComment(t, 0, k) <==> a <= k && (k < e || InComment(t, e, k)))
    ensures a < |t| && Step(t, a) == e
  {
    assert Closes(t, e - 2);
    assert NextClose(t, a + 2) == e - 2;
    assert Step(t, a) == e;
    PlainTextStops(t, 0, a);
    forall k | a <= k < |t| ensures InComment(t, 0, k) <==> k < e || InComment(t, e, k) { CommentsFromStop(t, 0, a, k); }
  }

  /**
  For every text: up to its first comment, from `a` to `e`, it is kept; the comment becomes blanks, its
  newlines kept; and the rest is stripped as a text of its own.
  */
  lemma CommentIsBlanked(t: string, a: nat, e: nat)
    requires a + 4 <= e <= |t| && t[a] == '/' && t[a + 1] == '*' && t[e - 2] == '*' && t[e - 1] == '/'
    requires forall k :: a + 2 <= k < e - 2 ==> t[k] != '*' || t[k + 1] != '/'
    requires forall k :: 0 <= k < a ==> t[k] != '/' || t[k + 1] != '*'
    ensures var r := StripComments(t);
            && r[..a] == t[..a]
            && (forall k :: a <= k < e ==> r[k] == if t[k] == '\n' then '\n' else ' ')
            && r[e..] == StripComments(t[e..])
  {
    hide InComment;
    FirstComment(t, a, e);
    assert IsCut(t, t[e..], 0, e);
    forall k | e <= k < |t| ensures InComment(t, 0, k) == InComment(t[e..], 0, k - e) {
      CommentsAfterCut(t, t[e..], 0, e, e, k);
    }
  }

  /** For every text: where no terminator comes after an opener, nothing is blanked. */
  lemma {:induction false} NoCommentIsKept(t: string)
    requires forall i, j :: 0 <= i && i + 2 <= j < |t| - 1 && t[i] == '/' && t[i + 1] == '*' ==> t[j] != '*' || t[j + 1] != '/'
    ensures StripComments(t) == t
  {
    forall k | 0 <= k < |t| ensures !InComment(t, 0, k) { InCommentIff(t, 0, k); }
  }
}
