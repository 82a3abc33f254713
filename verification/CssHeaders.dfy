/**
The pending header of the scan as text: what it becomes over a stretch without an opening brace, and
when text stranded in it is forgotten before the next block opens.
*/
module CssHeaders {
  import opened CssSource
  import opened CssScanner

  /** The header gathered so far, after one more character that opens no block. */
  function After(x: string, c: char): string {
    if c == ';' && IsAtHeader(Trim(x)) then "" else if c == '}' then x else x + [c]
  }

  /** The header gathered after a stretch of text without an opening brace. */
  function Advance(x: string, g: string): string
    decreases |g|
  {
    if g == "" then x else Advance(After(x, g[0]), g[1..])
  }

  /** The stretch without its closing braces. */
  function Plain(g: string): string {
    if g == "" then "" else (if g[0] == '}' then "" else [g[0]]) + Plain(g[1..])
  }

  predicate IsBlank(x: string) {
    TrimStart(x) == ""
  }

  /******* Trimming *******/

  lemma {:induction false} TrimStartSnoc(s: string, c: char)
    ensures TrimStart(s + [c]) == if TrimStart(s) == "" then (if IsSpace(c) then "" else [c]) else TrimStart(s) + [c]
    decreases |s|
  {
    if s == "" {
      assert s + [c] == [c];
    } else if IsSpace(s[0]) {
      assert (s + [c])[1..] == s[1..] + [c];
      TrimStartSnoc(s[1..], c);
    }
  }

  /** Blanks in front of the header do not matter. */
  lemma {:induction false} AdvanceTrimmed(x: string, y: string, g: string)
    requires TrimStart(x) == TrimStart(y)
    ensures TrimStart(Advance(x, g)) == TrimStart(Advance(y, g))
    decreases |g|
  {
    if g != "" {
      TrimStartSnoc(x, g[0]);
      TrimStartSnoc(y, g[0]);
      AdvanceTrimmed(After(x, g[0]), After(y, g[0]), g[1..]);
    }
  }

  lemma {:induction false} TrimStartIs(s: string)
    ensures |TrimStart(s)| <= |s| && TrimStart(s) == s[|s| - |TrimStart(s)|..]
    ensures TrimStart(s) != "" ==> !IsSpace(TrimStart(s)[0])
  {
    if s != "" && IsSpace(s[0]) { TrimStartIs(s[1..]); }
  }

  lemma {:induction false} TrimStartJoin(z: string, p: string)
    requires !IsBlank(z)
    ensures TrimStart(z + p) == TrimStart(z) + p
  {
    if IsSpace(z[0]) {
      assert (z + p)[0] == z[0] && (z + p)[1..] == z[1..] + p;
      TrimStartJoin(z[1..], p);
    } else {
      assert (z + p)[0] == z[0];
    }
  }

  lemma {:induction false} TrimEndIs(s: string)
    ensures |TrimEnd(s)| <= |s| && TrimEnd(s) == s[..|TrimEnd(s)|]
    ensures TrimEnd(s) != "" ==> !IsSpace(s[|TrimEnd(s)| - 1])
    ensures forall k :: |TrimEnd(s)| <= k < |s| ==> IsSpace(s[k])
  {
    if s != "" && IsSpace(s[|s| - 1]) { TrimEndIs(s[..|s| - 1]); }
  }

  /** The last character that is no blank decides how much is left. */
  lemma TrimEndPast(s: string, k: nat)
    requires k < |s| && !IsSpace(s[k])
    ensures |TrimEnd(s)| > k
  {
    TrimEndIs(s);
  }

  /** A suffix is no longer, trimmed, than what it is a suffix of. */
  lemma SuffixIsShorter(s: string, d: nat)
    requires d <= |s|
    ensures |TrimEnd(s[d..])| <= |TrimEnd(s)|
  {
    var n := |TrimEnd(s[d..])|;
    TrimEndIs(s[d..]);
    if n > 0 { TrimEndPast(s, d + n - 1); }
  }

  lemma TrimIsShorter(s: string)
    ensures |Trim(s)| <= |TrimEnd(s)|
  {
    TrimStartIs(s);
    SuffixIsShorter(s, |s| - |TrimStart(s)|);
  }

  /** With ink in front, a header is longer than what follows. */
  lemma InkInFront(z: string, p: string)
    requires !IsBlank(z)
    ensures |Trim(z + p)| > |TrimEnd(p)|
  {
    var y := TrimStart(z);
    TrimStartJoin(z, p);
    TrimStartIs(z);
    TrimEndIs(p);
    var n := |TrimEnd(p)|;
    if n > 0 {
      assert (y + p)[|y| + n - 1] == p[n - 1];
      TrimEndPast(y + p, |y| + n - 1);
    } else {
      assert (y + p)[0] == y[0];
      TrimEndPast(y + p, 0);
    }
  }

  lemma Regroup(a: string, b: string, c: string)
    ensures (a + b) + c == a + (b + c)
  {
  }

  lemma PlainStep(c: char, g: string)
    ensures Plain([c] + g) == if c == '}' then Plain(g) else [c] + Plain(g)
  {
    assert ([c] + g)[1..] == g;
    assert "" + Plain(g) == Plain(g);
  }

  lemma AdvanceStep(x: string, c: char, g: string)
    ensures Advance(x, [c] + g) == Advance(After(x, c), g)
  {
    hide After;
    assert ([c] + g)[1..] == g;
  }

  /******* At-headers *******/

  lemma AtHeaderIs(x: string)
    ensures IsAtHeader(Trim(x)) <==> !IsBlank(x) && TrimStart(x)[0] == '@'
  {
    var y := TrimStart(x);
    TrimStartIs(x);
    TrimEndIs(y);
    if y != "" { TrimEndPast(y, 0); }
  }

  lemma AtHeaderStays(z: string, p: string)
    requires !IsBlank(z)
    ensures IsAtHeader(Trim(z + p)) == IsAtHeader(Trim(z)) && !IsBlank(z + p)
  {
    TrimStartJoin(z, p);
    AtHeaderIs(z);
    AtHeaderIs(z + p);
  }

  lemma EmptyStretch(x: string)
    ensures Advance(x, "") == x && x + Plain("") == x
  {
  }

  /** A header with ink that is no at-header never ends a statement. */
  lemma {:induction false} NoReset(z: string, g: string)
    requires !IsBlank(z) && !IsAtHeader(Trim(z))
    ensures Advance(z, g) == z + Plain(g)
    decreases |g|
  {
    hide Trim, TrimStart, Advance, Plain;
    if g == "" {
      EmptyStretch(z);
    } else {
      var c, h := g[0], g[1..];
      assert g == [c] + h;
      if c != '}' { AtHeaderStays(z, [c]); }
      NoReset(After(z, c), h);
      AdvanceStep(z, c, h);
      PlainStep(c, h);
      Regroup(z, [c], Plain(h));
    }
  }

  lemma {:induction false} NoSemicolon(x: string, g: string)
    requires ';' !in g
    ensures Advance(x, g) == x + Plain(g)
    decreases |g|
  {
    hide Trim, Advance, Plain;
    if g == "" {
      EmptyStretch(x);
    } else {
      var c, h := g[0], g[1..];
      assert g == [c] + h;
      NoSemicolon(After(x, c), h);
      AdvanceStep(x, c, h);
      PlainStep(c, h);
      Regroup(x, [c], Plain(h));
    }
  }

  lemma {:induction false} AdvanceJoin(x: string, g: string, h: string)
    ensures Advance(x, g + h) == Advance(Advance(x, g), h)
    decreases |g|
  {
    hide Trim;
    if g == "" {
      assert g + h == h;
    } else {
      assert (g + h)[0] == g[0] && (g + h)[1..] == g[1..] + h;
      AdvanceJoin(After(x, g[0]), g[1..], h);
    }
  }

  /** What is gathered is the end of the stretch, closing braces left out. */
  lemma {:induction false} AdvanceIsSuffix(x: string, g: string) returns (d: nat)
    ensures d <= |x + Plain(g)| && Advance(x, g) == (x + Plain(g))[d..]
    decreases |g|
  {
    hide Trim, Advance, Plain;
    if g == "" {
      EmptyStretch(x);
      d := 0;
    } else {
      var c, h := g[0], g[1..];
      var p := Plain(h);
      assert g == [c] + h;
      d := AdvanceIsSuffix(After(x, c), h);
      AdvanceStep(x, c, h);
      PlainStep(c, h);
      if c == ';' && IsAtHeader(Trim(x)) {
        assert "" + p == p;
        SuffixOfSuffix(x + ([c] + p), p, |x| + 1, d);
        d := |x| + 1 + d;
      } else {
        Regroup(x, [c], p);
      }
    }
  }

  lemma SuffixOfSuffix(s: string, p: string, n: nat, d: nat)
    requires n + |p| == |s| && d <= |p| && forall k :: 0 <= k < |p| ==> p[k] == s[n + k]
    ensures p[d..] == s[n + d..]
  {
  }

  lemma GatheredIsShorter(g: string)
    ensures |Trim(Advance("", g))| <= |TrimEnd(Plain(g))|
  {
    hide Trim, TrimEnd;
    var d := AdvanceIsSuffix("", g);
    assert "" + Plain(g) == Plain(g);
    TrimIsShorter(Advance("", g));
    SuffixIsShorter(Plain(g), d);
  }

  /******* Stranded text *******/

  /**
  The stranded text `x` is forgotten: it reads as the start of an at-statement, and the stretch holds
  an at-statement whose end ends both.
  */
  predicate Swallowed(x: string, g: string) {
    IsAtHeader(Trim(x)) && ';' in g && IsAtHeader(Trim(Plain(g[..FirstSemicolon(g)])))
  }

  function FirstSemicolon(g: string): (i: nat)
    requires ';' in g
    ensures i < |g| && g[i] == ';' && ';' !in g[..i]
  {
    if g[0] == ';' then 0 else 1 + FirstSemicolon(g[1..])
  }

  /** After the first semicolon: both headers have ended, or one or both run on. */
  lemma AfterSemicolon(x: string, g: string, i: nat)
    requires !IsBlank(x) && ';' in g && i == FirstSemicolon(g)
    ensures var p, h := Plain(g[..i]), g[i + 1..];
            && Advance("", g) == (if IsAtHeader(Trim(p)) then Advance("", h) else (p + [';']) + Plain(h))
            && Advance(x, g) == (if IsAtHeader(Trim(x)) then Advance("", h) else (x + p + [';']) + Plain(h))
  {
    hide Trim, TrimStart;
    var f, p, h := g[..i], Plain(g[..i]), g[i + 1..];
    assert g == f + ([';'] + h);
    NoSemicolon("", f);
    NoSemicolon(x, f);
    assert "" + p == p;
    AdvanceJoin("", f, [';'] + h);
    AdvanceJoin(x, f, [';'] + h);
    assert ([';'] + h)[0] == ';' && ([';'] + h)[1..] == h;
    AtHeaderStays(x, p);
    if !IsAtHeader(Trim(x)) {
      AtHeaderStays(x + p, [';']);
      NoReset(x + p + [';'], h);
    }
    if !IsAtHeader(Trim(p)) {
      SemicolonRunsOn(p);
      NoReset(p + [';'], h);
    }
  }

  lemma SemicolonRunsOn(p: string)
    requires !IsAtHeader(Trim(p))
    ensures !IsBlank(p + [';']) && !IsAtHeader(Trim(p + [';']))
  {
    if IsBlank(p) {
      TrimStartSnoc(p, ';');
      AtHeaderIs(p + [';']);
    } else {
      AtHeaderStays(p, [';']);
    }
  }

  /** Without a semicolon, stranded text stays in front. */
  lemma NothingEnds(x: string, g: string)
    requires !IsBlank(x) && ';' !in g
    ensures Trim(Advance(x, g)) != Trim(Advance("", g))
  {
    hide Trim, TrimEnd, Plain, Advance, IsBlank;
    NoSemicolon(x, g);
    NoSemicolon("", g);
    assert "" + Plain(g) == Plain(g);
    InkInFront(x, Plain(g));
    TrimIsShorter(Plain(g));
  }

  /** Ink `z` and a stretch `h` behind it are more than what `h` alone leaves. */
  lemma RunsOnLonger(z: string, h: string)
    requires !IsBlank(z)
    ensures Trim(z + Plain(h)) != Trim(Advance("", h))
  {
    hide Trim, TrimEnd, Plain, Advance, IsBlank;
    InkInFront(z, Plain(h));
    GatheredIsShorter(h);
  }

  /** With one: the headers agree again exactly when it ends both statements. */
  lemma SemicolonEndsBoth(x: string, g: string)
    requires !IsBlank(x) && ';' in g
    ensures Trim(Advance(x, g)) == Trim(Advance("", g)) <==> Swallowed(x, g)
  {
    hide Trim, TrimEnd, Plain, Advance, IsBlank, FirstSemicolon;
    var i := FirstSemicolon(g);
    var p, h := Plain(g[..i]), g[i + 1..];
    var y := p + [';'];
    AfterSemicolon(x, g, i);
    Regroup(x, p, [';']);
    Regroup(x, y, Plain(h));
    AtHeaderStays(x, y);
    if IsAtHeader(Trim(x)) && !IsAtHeader(Trim(p)) {
      SemicolonRunsOn(p);
      RunsOnLonger(y, h);
    } else if !IsAtHeader(Trim(x)) && IsAtHeader(Trim(p)) {
      RunsOnLonger(x + y, h);
    } else if !IsAtHeader(Trim(x)) {
      InkInFront(x, y + Plain(h));
      TrimIsShorter(y + Plain(h));
    }
  }

  /** For every stranded text and every stretch: the header is kept exactly when nothing is stranded or it is swallowed. */
  lemma HeaderKeptIff(x: string, g: string)
    ensures Trim(Advance(x, g)) == Trim(Advance("", g)) <==> IsBlank(x) || Swallowed(x, g)
  {
    hide Trim, Advance, IsBlank, Swallowed;
    if IsBlank(x) {
      BlankKeepsHeader(x, g);
    } else if ';' in g {
      SemicolonEndsBoth(x, g);
    } else {
      NothingEnds(x, g);
      NotSwallowed(x, g);
    }
  }

  lemma NotSwallowed(x: string, g: string)
    requires ';' !in g
    ensures !Swallowed(x, g)
  {
  }

  lemma BlankKeepsHeader(x: string, g: string)
    requires IsBlank(x)
    ensures Trim(Advance(x, g)) == Trim(Advance("", g))
  {
    AdvanceTrimmed(x, "", g);
  }
}
