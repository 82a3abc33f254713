/**
What the scanner reads in a text, without positions: from the rest of the text and the header gathered
so far. Removing blocks from a text leaves the list of the others exactly under a condition on the
text that the removed blocks leave stranded in the header.
*/
module CssReading {
  import opened Wrappers
  import opened CssSource
  import opened CssScanner
  import opened CssDeletion
  import opened CssHeaders

  /** A block without its position. */
  datatype Item = Item(kind: Kind, header: string, body: Option<string>)

  ghost predicate Fits(t: string, b: Block) {
    b.cut <= b.opener < |t| && (b.next.Some? ==> b.opener < b.next.value <= |t|)
  }

  ghost function ItemOf(t: string, b: Block): Item {
    if Fits(t, b) then
      Item(b.kind, HeaderText(t, b.cut, b.opener), if b.next.Some? then Some(t[b.opener..b.next.value]) else None)
    else Item(b.kind, "", None)
  }

  ghost function Trace(t: string, bs: seq<Block>): (items: seq<Item>)
    ensures |items| == |bs|
  {
    if bs == [] then [] else [ItemOf(t, bs[0])] + Trace(t, bs[1..])
  }

  /******* Reading *******/

  /** The blocks read in the rest `r` of a text, with header `x` gathered so far. */
  ghost function Read(r: string, tok: Tokenizer, x: string): seq<Item>
    decreases |r|
  {
    if r == "" then []
    else if r[0] == '{' then
      var kind := KindOf(Trim(x), tok);
      var n := NextAfter(r, 0, kind);
      if n.None? then [Item(kind, Trim(x), None)]
      else [Item(kind, Trim(x), Some(r[..n.value]))] + Read(r[n.value..], tok, "")
    else Read(r[1..], tok, After(x, r[0]))
  }

  lemma MatchInRest(t: string, i: nat, e: nat)
    requires i <= |t|
    ensures i <= e && Matches(t, i, e) ==> Matches(t[i..], 0, e - i)
    ensures Matches(t[i..], 0, e) ==> Matches(t, i, i + e)
  {
    var r := t[i..];
    if i <= e && Matches(t, i, e) {
      assert t[i..e + 1] == r[0..e - i + 1];
      MatchOfSlice(t, r, i, 0, e - i);
    }
    if Matches(r, 0, e) {
      assert r[0..e + 1] == t[i..i + e + 1];
      MatchOfSlice(r, t, 0, i, e);
    }
  }

  lemma NextInRest(t: string, i: nat, kind: Kind)
    requires i < |t|
    ensures NextAfter(t, i, kind) == match NextAfter(t[i..], 0, kind) case None => None case Some(n) => Some(i + n)
  {
    if !kind.DescendedBlock? {
      var m, k := MatchOf(t, i), MatchOf(t[i..], 0);
      if m.Some? {
        MatchInRest(t, i, m.value);
      } else if k.Some? {
        MatchInRest(t, i, k.value);
      }
    }
  }

  /** The list of blocks is what is read from the whole text. */
  lemma {:induction false} ReadIsTrace(t: string, tok: Tokenizer, i: nat, cut: nat)
    requires cut <= i <= |t|
    ensures Trace(t, Blocks(t, tok, i, cut)) == Read(t[i..], tok, Pending(t, cut, i))
    decreases |t| - i
  {
    hide NextAfter, KindOf, Trim;
    if i < |t| {
      if t[i] == '{' {
        var b := BlockAt(t, tok, cut, i);
        TraceAtBrace(t, tok, i, cut);
        if b.next.Some? { ReadIsTrace(t, tok, b.next.value, b.next.value); }
      } else {
        assert t[i..][0] == t[i];
        ReadIsTrace(t, tok, i + 1, if EndsStatement(t, cut, i) then i + 1 else cut);
      }
    }
  }

  lemma TraceAtBrace(t: string, tok: Tokenizer, i: nat, cut: nat)
    requires cut <= i < |t| && t[i] == '{'
    ensures var b, x := BlockAt(t, tok, cut, i), Pending(t, cut, i);
            if b.next.Some? then
              && Trace(t, Blocks(t, tok, i, cut)) == [ItemOf(t, b)] + Trace(t, Blocks(t, tok, b.next.value, b.next.value))
              && Read(t[i..], tok, x) == [ItemOf(t, b)] + Read(t[b.next.value..], tok, "")
              && Pending(t, b.next.value, b.next.value) == ""
            else Trace(t, Blocks(t, tok, i, cut)) == [ItemOf(t, b)] == Read(t[i..], tok, x)
  {
    hide KindOf, Trim;
    var b := BlockAt(t, tok, cut, i);
    if b.next.Some? {
      var n := b.next.value;
      assert ([b] + Blocks(t, tok, n, n))[1..] == Blocks(t, tok, n, n);
      hide Blocks, Read;
      ReadBlock(t, tok, b, t[n..], Pending(t, cut, i));
      assert t[i..] == t[i..n] + t[n..];
    } else {
      ReadUnbalanced(t, tok, b, Pending(t, cut, i));
    }
  }

  lemma {:induction false} ReadOver(g: string, r: string, tok: Tokenizer, x: string)
    requires '{' !in g
    ensures Read(g + r, tok, x) == Read(r, tok, Advance(x, g))
    decreases |g|
  {
    hide NextAfter, KindOf, Trim;
    if g == "" {
      assert g + r == r;
    } else {
      assert (g + r)[0] == g[0] && (g + r)[1..] == g[1..] + r;
      ReadOver(g[1..], r, tok, After(x, g[0]));
    }
  }

  lemma ReadNone(g: string, tok: Tokenizer, x: string)
    requires '{' !in g
    ensures Read(g, tok, x) == []
  {
    assert g + "" == g;
    ReadOver(g, "", tok, x);
  }

  /** What is read at an opening brace: the block itself, up to its end, then the rest with a new header. */
  lemma ReadBlock(t: string, tok: Tokenizer, b: Block, rest: string, x: string)
    requires Fits(t, b) && b == BlockAt(t, tok, b.cut, b.opener) && t[b.opener] == '{' && b.next.Some?
    requires Trim(x) == HeaderText(t, b.cut, b.opener)
    ensures Read(t[b.opener..b.next.value] + rest, tok, x) == [ItemOf(t, b)] + Read(rest, tok, "")
  {
    hide KindOf, Trim, HeaderText, Read;
    var o, n := b.opener, b.next.value;
    var r := t[o..n] + rest;
    assert r[0] == '{' && r[..n - o] == t[o..n] && r[n - o..] == rest;
    if !b.kind.DescendedBlock? {
      assert Matches(t, o, n - 1);
      assert t[o..n] == r[0..n - o];
      MatchOfSlice(t, r, o, 0, n - 1 - o);
      MatchUnique(r, 0, MatchOf(r, 0).value, n - 1 - o);
    }
    assert NextAfter(r, 0, b.kind) == Some(n - o);
    ReadAtBrace(r, tok, x);
  }

  lemma ReadAtBrace(r: string, tok: Tokenizer, x: string)
    requires r != "" && r[0] == '{'
    ensures var kind := KindOf(Trim(x), tok);
            var n := NextAfter(r, 0, kind);
            Read(r, tok, x) == if n.None? then [Item(kind, Trim(x), None)]
                               else [Item(kind, Trim(x), Some(r[..n.value]))] + Read(r[n.value..], tok, "")
  {
  }

  /** An unbalanced block is the last thing read. */
  lemma ReadUnbalanced(t: string, tok: Tokenizer, b: Block, x: string)
    requires Fits(t, b) && b == BlockAt(t, tok, b.cut, b.opener) && t[b.opener] == '{' && b.next.None?
    requires Trim(x) == HeaderText(t, b.cut, b.opener)
    ensures Read(t[b.opener..], tok, x) == [ItemOf(t, b)]
  {
    hide KindOf, Trim, HeaderText, Read;
    NextInRest(t, b.opener, b.kind);
    assert t[b.opener..][0] == '{';
    ReadAtBrace(t[b.opener..], tok, x);
  }

  /******* The text without some of its blocks *******/

  /** The cuts, one for each block that goes. */
  type Choices = seq<Option<Range>>

  predicate InOrder(es: Choices, n: nat) {
    && (forall k :: 0 <= k < |es| && es[k].Some? ==> es[k].value.start <= es[k].value.end <= n)
    && (forall k, l :: 0 <= k < l < |es| && es[k].Some? && es[l].Some? ==> es[k].value.end <= es[l].value.start)
  }

  predicate StartFrom(es: Choices, m: nat, q: nat) {
    forall k :: m <= k < |es| && es[k].Some? ==> q <= es[k].value.start
  }

  /** The text from `q` on without the cuts from the `m`-th on. */
  function Rest(t: string, es: Choices, m: nat, q: nat): string
    requires InOrder(es, |t|) && q <= |t| && StartFrom(es, m, q)
    decreases |es| - m
  {
    if m >= |es| then t[q..]
    else if es[m].Some? then t[q..es[m].value.start] + Rest(t, es, m + 1, es[m].value.end)
    else Rest(t, es, m + 1, q)
  }

  lemma {:induction false} RestSplits(t: string, es: Choices, m: nat, q: nat, n: nat)
    requires InOrder(es, |t|) && q <= n <= |t| && StartFrom(es, m, n)
    ensures Rest(t, es, m, q) == t[q..n] + Rest(t, es, m, n)
    decreases |es| - m
  {
    if m >= |es| {
      assert t[q..] == t[q..n] + t[n..];
    } else if es[m].Some? {
      var a, r := es[m].value.start, Rest(t, es, m + 1, es[m].value.end);
      assert t[q..a] == t[q..n] + t[n..a];
      assert (t[q..n] + t[n..a]) + r == t[q..n] + (t[n..a] + r);
    } else {
      RestSplits(t, es, m + 1, q, n);
    }
  }

  /** What is left of the trace from the `m`-th block on. */
  ghost function KeptItems(t: string, bs: seq<Block>, es: Choices, m: nat): seq<Item>
    requires |es| == |bs|
    decreases |es| - m
  {
    if m >= |es| then []
    else if es[m].Some? then KeptItems(t, bs, es, m + 1)
    else [ItemOf(t, bs[m])] + KeptItems(t, bs, es, m + 1)
  }

  /** Where the text after the block before the `m`-th starts, that block's cut taken into account. */
  function From(bs: seq<Block>, es: Choices, m: nat): nat
    requires m <= |bs| == |es| && (m > 0 && es[m - 1].None? ==> bs[m - 1].next.Some?)
  {
    if m == 0 then 0 else if es[m - 1].Some? then es[m - 1].value.end else bs[m - 1].next.value
  }

  /** How the blocks and the cuts lie in the text. */
  ghost predicate Laid(t: string, tok: Tokenizer, bs: seq<Block>, es: Choices) {
    && |es| == |bs| && InOrder(es, |t|)
    && (forall m :: 0 <= m < |bs| ==> IsLaid(t, tok, bs, es, m))
    && (bs == [] || bs[|bs| - 1].next.Some? ==> LastFrom(t, bs, es))
  }

  ghost predicate LastFrom(t: string, bs: seq<Block>, es: Choices)
    requires |es| == |bs| && (bs == [] || bs[|bs| - 1].next.Some?)
  {
    From(bs, es, |bs|) <= |t| && '{' !in t[From(bs, es, |bs|)..]
  }

  ghost predicate IsLaid(t: string, tok: Tokenizer, bs: seq<Block>, es: Choices, m: nat)
    requires m < |bs| == |es|
  {
    var b := bs[m];
    && Fits(t, b) && b == BlockAt(t, tok, b.cut, b.opener) && t[b.opener] == '{'
    && (m > 0 ==> bs[m - 1].next.Some?)
    && From(bs, es, m) <= b.opener && '{' !in t[From(bs, es, m)..b.opener]
    && (if es[m].Some? then b.next.Some? && From(bs, es, m) <= es[m].value.start <= b.opener
        else b.next.Some? ==> StartFrom(es, m + 1, b.next.value))
    && StartFrom(es, m, From(bs, es, m))
    && (b.next.None? ==> m == |bs| - 1)
  }

  /**
  Reading on from the `m`-th block with `x` gathered so far: every block that stays is read with the
  header it had. A removed block leaves behind what was gathered up to its cut.
  */
  ghost predicate KeepsHeaders(t: string, tok: Tokenizer, bs: seq<Block>, es: Choices, m: nat, x: string)
    requires Laid(t, tok, bs, es) && m <= |bs|
    decreases |bs| - m
  {
    if m == |bs| then true
    else
      assert IsLaid(t, tok, bs, es, m);
      var q := From(bs, es, m);
      if es[m].Some? then KeepsHeaders(t, tok, bs, es, m + 1, Advance(x, t[q..es[m].value.start]))
      else
        && Trim(Advance(x, t[q..bs[m].opener])) == HeaderText(t, bs[m].cut, bs[m].opener)
        && KeepsHeaders(t, tok, bs, es, m + 1, "")
  }

  /** At a block that stays: it is read as it was exactly when its header is. */
  lemma ReadKept(t: string, tok: Tokenizer, b: Block, rest: string, x: string, items: seq<Item>, ok: bool)
    requires Fits(t, b) && b == BlockAt(t, tok, b.cut, b.opener) && t[b.opener] == '{'
    requires if b.next.Some? then Read(rest, tok, "") == items <==> ok else items == [] && ok
    ensures var r := if b.next.Some? then t[b.opener..b.next.value] + rest else t[b.opener..];
            Read(r, tok, x) == [ItemOf(t, b)] + items <==> Trim(x) == HeaderText(t, b.cut, b.opener) && ok
  {
    hide Trim, KindOf, HeaderText, Read, BlockAt;
    var r := if b.next.Some? then t[b.opener..b.next.value] + rest else t[b.opener..];
    assert r[0] == '{';
    ReadAtBrace(r, tok, x);
    if Trim(x) == HeaderText(t, b.cut, b.opener) {
      if b.next.Some? {
        ReadBlock(t, tok, b, rest, x);
        assert ([ItemOf(t, b)] + Read(rest, tok, ""))[1..] == Read(rest, tok, "");
        assert ([ItemOf(t, b)] + items)[1..] == items;
      } else {
        ReadUnbalanced(t, tok, b, x);
      }
    } else {
      assert Read(r, tok, x)[0].header == Trim(x) && ([ItemOf(t, b)] + items)[0] == ItemOf(t, b);
    }
  }

  lemma NoneInPrefix(t: string, q: nat, a: nat, o: nat)
    requires q <= a <= o <= |t| && '{' !in t[q..o]
    ensures '{' !in t[q..a]
  {
    assert forall k :: 0 <= k < a - q ==> t[q..a][k] == t[q..o][k];
  }

  lemma SplitSlice(t: string, q: nat, o: nat, n: nat, rest: string)
    requires q <= o <= n <= |t|
    ensures t[q..n] + rest == t[q..o] + (t[o..n] + rest)
  {
    assert t[q..n] == t[q..o] + t[o..n];
  }

  /** Up to a cut, and up to a block that stays, the rest of the text only adds to the header. */
  lemma ReadToCut(t: string, tok: Tokenizer, bs: seq<Block>, es: Choices, m: nat, x: string)
    requires Laid(t, tok, bs, es) && m < |bs| && es[m].Some? && IsLaid(t, tok, bs, es, m)
    ensures var q, e := From(bs, es, m), es[m].value;
            && StartFrom(es, m + 1, e.end)
            && Read(Rest(t, es, m, q), tok, x) == Read(Rest(t, es, m + 1, e.end), tok, Advance(x, t[q..e.start]))
  {
    hide Read, Trim, HeaderText, BlockAt, Advance;
    var q, e, o := From(bs, es, m), es[m].value, bs[m].opener;
    NoneInPrefix(t, q, e.start, o);
    ReadOver(t[q..e.start], Rest(t, es, m + 1, e.end), tok, x);
  }

  lemma RestAtKept(t: string, tok: Tokenizer, bs: seq<Block>, es: Choices, m: nat)
    requires Laid(t, tok, bs, es) && m < |bs| && es[m].None? && IsLaid(t, tok, bs, es, m)
    ensures var b, q := bs[m], From(bs, es, m);
            Rest(t, es, m, q) == t[q..b.opener] + if b.next.Some? then t[b.opener..b.next.value] + Rest(t, es, m + 1, b.next.value) else t[b.opener..]
  {
    hide BlockAt, HeaderText, From;
    var b, q := bs[m], From(bs, es, m);
    assert Rest(t, es, m, q) == Rest(t, es, m + 1, q);
    if b.next.Some? {
      var n := b.next.value;
      RestSplits(t, es, m + 1, q, n);
      SplitSlice(t, q, b.opener, n, Rest(t, es, m + 1, n));
    } else {
      assert t[q..] == t[q..b.opener] + t[b.opener..];
    }
  }

  /** Without the chosen blocks, the rest of the text reads as the others exactly when they keep their headers. */
  lemma {:induction false} ReadRestIff(t: string, tok: Tokenizer, bs: seq<Block>, es: Choices, m: nat, x: string)
    requires Laid(t, tok, bs, es) && m <= |bs| && (m > 0 ==> bs[m - 1].next.Some?)
    requires From(bs, es, m) <= |t| && StartFrom(es, m, From(bs, es, m))
    ensures Read(Rest(t, es, m, From(bs, es, m)), tok, x) == KeptItems(t, bs, es, m) <==> KeepsHeaders(t, tok, bs, es, m, x)
    decreases |bs| - m
  {
    hide Read, Trim, HeaderText, BlockAt, Rest, Advance;
    var q := From(bs, es, m);
    if m == |bs| {
      RestAtEnd(t, es, q);
      ReadNone(t[q..], tok, x);
    } else {
      assert IsLaid(t, tok, bs, es, m);
      var b := bs[m];
      if es[m].Some? {
        ReadToCut(t, tok, bs, es, m, x);
        ReadRestIff(t, tok, bs, es, m + 1, Advance(x, t[q..es[m].value.start]));
      } else {
        var y, rest := Advance(x, t[q..b.opener]), if b.next.Some? then Rest(t, es, m + 1, b.next.value) else "";
        RestAtKept(t, tok, bs, es, m);
        ReadOver(t[q..b.opener], if b.next.Some? then t[b.opener..b.next.value] + rest else t[b.opener..], tok, x);
        if b.next.Some? { ReadRestIff(t, tok, bs, es, m + 1, ""); }
        ReadKept(t, tok, b, rest, y, KeptItems(t, bs, es, m + 1), KeepsHeaders(t, tok, bs, es, m + 1, ""));
      }
    }
  }

  lemma RestAtEnd(t: string, es: Choices, q: nat)
    requires InOrder(es, |t|) && q <= |t| && StartFrom(es, |es|, q)
    ensures Rest(t, es, |es|, q) == t[q..]
  {
  }

  /******* Stranded text *******/

  /** Between the block before it and its own opener, the `m`-th block gathers its header and nothing else. */
  ghost predicate HasOwnHeader(t: string, tok: Tokenizer, bs: seq<Block>, es: Choices, m: nat)
    requires Laid(t, tok, bs, es) && m < |bs| && IsLaid(t, tok, bs, es, m)
  {
    Trim(Advance("", t[From(bs, es, m)..bs[m].opener])) == HeaderText(t, bs[m].cut, bs[m].opener)
  }

  ghost predicate HaveOwnHeaders(t: string, tok: Tokenizer, bs: seq<Block>, es: Choices)
    requires Laid(t, tok, bs, es)
  {
    forall m :: 0 <= m < |bs| && IsLaid(t, tok, bs, es, m) ==> HasOwnHeader(t, tok, bs, es, m)
  }

  /**
  Reading on from the `m`-th block with `x` stranded in the header: a removed block adds what stands in
  its header up to its cut. At each block that stays, nothing is stranded or it is swallowed on the way.
  */
  ghost predicate Harmless(t: string, tok: Tokenizer, bs: seq<Block>, es: Choices, m: nat, x: string)
    requires Laid(t, tok, bs, es) && m <= |bs|
    decreases |bs| - m
  {
    if m == |bs| then true
    else
      assert IsLaid(t, tok, bs, es, m);
      var q := From(bs, es, m);
      if es[m].Some? then Harmless(t, tok, bs, es, m + 1, Advance(x, t[q..es[m].value.start]))
      else (IsBlank(x) || Swallowed(x, t[q..bs[m].opener])) && Harmless(t, tok, bs, es, m + 1, "")
  }

  lemma {:induction false} HarmlessIff(t: string, tok: Tokenizer, bs: seq<Block>, es: Choices, m: nat, x: string)
    requires Laid(t, tok, bs, es) && m <= |bs| && HaveOwnHeaders(t, tok, bs, es)
    ensures KeepsHeaders(t, tok, bs, es, m, x) <==> Harmless(t, tok, bs, es, m, x)
    decreases |bs| - m
  {
    hide Trim, Advance, HeaderText, IsBlank, Swallowed, BlockAt;
    if m < |bs| {
      assert IsLaid(t, tok, bs, es, m);
      var q := From(bs, es, m);
      if es[m].Some? {
        HarmlessIff(t, tok, bs, es, m + 1, Advance(x, t[q..es[m].value.start]));
      } else {
        assert HasOwnHeader(t, tok, bs, es, m);
        HeaderKeptIff(x, t[q..bs[m].opener]);
        HarmlessIff(t, tok, bs, es, m + 1, "");
      }
    }
  }

  /******* What a block gathers *******/

  /** The header of the next block starts where the current one did, or behind what is yet to be scanned. */
  lemma {:induction false} NextCut(t: string, tok: Tokenizer, i: nat, cut: nat)
    requires cut <= i <= |t| && Blocks(t, tok, i, cut) != []
    ensures var b := Blocks(t, tok, i, cut)[0]; (b.cut == cut || i < b.cut) && b.cut <= b.opener && i <= b.opener < |t|
    decreases |t| - i
  {
    hide NextAfter, KindOf, Trim;
    if t[i] != '{' { NextCut(t, tok, i + 1, if EndsStatement(t, cut, i) then i + 1 else cut); }
  }

  /** On the way to the next block, what is gathered is the pending header. */
  lemma {:induction false} GatheredFrom(t: string, tok: Tokenizer, i: nat, cut: nat, a: nat)
    requires cut <= i <= a <= |t| && Blocks(t, tok, i, cut) != []
    requires Blocks(t, tok, i, cut)[0].cut <= a <= Blocks(t, tok, i, cut)[0].opener
    ensures Advance(Pending(t, cut, i), t[i..a]) == Pending(t, Blocks(t, tok, i, cut)[0].cut, a)
    decreases |t| - i
  {
    hide NextAfter, KindOf, Trim;
    NextCut(t, tok, i, cut);
    if i < a {
      var next := if EndsStatement(t, cut, i) then i + 1 else cut;
      AdvanceStep(Pending(t, cut, i), t[i], t[i + 1..a]);
      assert t[i..a] == [t[i]] + t[i + 1..a];
      assert Blocks(t, tok, i, cut) == Blocks(t, tok, i + 1, next) && Pending(t, next, i + 1) == After(Pending(t, cut, i), t[i]);
      hide Blocks, Pending, Advance;
      GatheredFrom(t, tok, i + 1, next, a);
    }
  }

  /** The blocks behind the `m`-th. */
  lemma {:induction false} BlocksBehind(t: string, tok: Tokenizer, i: nat, cut: nat, m: nat)
    requires i <= |t| && m < |Blocks(t, tok, i, cut)| && Blocks(t, tok, i, cut)[m].next.Some?
    ensures var n := Blocks(t, tok, i, cut)[m].next.value;
            n <= |t| && Blocks(t, tok, n, n) == Blocks(t, tok, i, cut)[m + 1..]
    decreases |t| - i
  {
    hide NextAfter, KindOf, Trim;
    var bs := Blocks(t, tok, i, cut);
    if t[i] != '{' {
      BlocksBehind(t, tok, i + 1, if EndsStatement(t, cut, i) then i + 1 else cut, m);
    } else if m > 0 {
      var n := bs[0].next.value;
      BlocksBehind(t, tok, n, n, m - 1);
      assert bs == [bs[0]] + Blocks(t, tok, n, n);
    }
  }

  /** From the block before it up to any place in its header, the `m`-th block gathers its pending header. */
  lemma Gathered(t: string, tok: Tokenizer, bs: seq<Block>, m: nat, a: nat)
    requires bs == Blocks(t, tok, 0, 0) && m < |bs| && bs[m].cut <= a <= bs[m].opener && a <= |t|
    requires m > 0 ==> bs[m - 1].next.Some? && bs[m - 1].next.value <= a
    ensures Advance("", t[if m == 0 then 0 else bs[m - 1].next.value..a]) == Pending(t, bs[m].cut, a)
  {
    hide Blocks, Advance;
    if m == 0 {
      GatheredFrom(t, tok, 0, 0, a);
    } else {
      var n := bs[m - 1].next.value;
      BlocksBehind(t, tok, 0, 0, m - 1);
      assert bs[m..][0] == bs[m];
      GatheredFrom(t, tok, n, n, a);
    }
  }
}
