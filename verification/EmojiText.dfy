/** The substitution of `:shortcode:` in a text (`replace_emoji_code_in_string_with_emoji`). */
module EmojiText {
  import opened Wrappers

  /** The emoji of a code as it stands in the text. */
  type Lookup = string -> Option<string>

  /** `get_by_shortcode` on the lowered code: the case of a code does not matter. */
  function AnyCase(shortcode: string -> Option<string>, lower: string -> string): (emoji: Lookup)
    ensures forall code, other :: lower(code) == lower(other) ==> emoji(code) == emoji(other)
    ensures forall code :: lower(code) == code ==> emoji(code) == shortcode(code)
  {
    code => shortcode(lower(code))
  }

  /** The position of the first colon at or after `i`, or the length of the text. */
  function ColonFrom(s: string, i: nat): (j: nat)
    requires i <= |s|
    ensures i <= j <= |s| && (j < |s| ==> s[j] == ':') && forall k :: i <= k < j ==> s[k] != ':'
    decreases |s| - i
  {
    if i == |s| || s[i] == ':' then i else ColonFrom(s, i + 1)
  }

  function Replaced(code: string, emoji: Lookup): string {
    match emoji(code)
    case Some(e) => e
    case None => [':'] + code + [':']
  }

  /** The text from `i` on: plain characters stay, and a colon opens a code up to the next colon or the end. */
  function Substituted(s: string, i: nat, emoji: Lookup): string
    requires i <= |s|
    decreases |s| - i
  {
    if i == |s| then ""
    else if s[i] != ':' then [s[i]] + Substituted(s, i + 1, emoji)
    else
      var close := ColonFrom(s, i + 1);
      Replaced(s[i + 1..close], emoji) + Substituted(s, if close < |s| then close + 1 else close, emoji)
  }

  lemma Regroup(a: string, b: string, c: string)
    ensures (a + b) + c == a + (b + c)
  {
  }

  /** The inner loop: a code is gathered up to the next colon, which is taken too, or to the end. */
  method TakeCode(s: string, start: nat) returns (code: string, i: nat)
    requires start <= |s|
    ensures code == s[start..ColonFrom(s, start)]
    ensures i == if ColonFrom(s, start) < |s| then ColonFrom(s, start) + 1 else |s|
  {
    i := start;
    code := "";
    ghost var close := ColonFrom(s, start);
    while i < |s|
      invariant start <= i <= close
      invariant code == s[start..i]
      decreases |s| - i
    {
      if s[i] == ':' { return code, i + 1; }
      code := code + [s[i]];
      i := i + 1;
    }
  }

  /** A character that is no colon, or a code with its replacement, is done. */
  lemma PieceAt(s: string, i: nat, emoji: Lookup)
    requires i < |s|
    ensures var close := ColonFrom(s, i + 1);
            if s[i] != ':' then Substituted(s, i, emoji) == [s[i]] + Substituted(s, i + 1, emoji)
            else Substituted(s, i, emoji) == Replaced(s[i + 1..close], emoji) + Substituted(s, if close < |s| then close + 1 else |s|, emoji)
  {
  }

  /** The outer loop: characters are taken one by one. */
  method ReplaceEmojiCodes(s: string, shortcode: string -> Option<string>, lower: string -> string) returns (result: string)
    ensures result == Substituted(s, 0, AnyCase(shortcode, lower))
  {
    var emoji := AnyCase(shortcode, lower);
    hide ColonFrom, Substituted, Replaced;
    result := "";
    var i := 0;
    while i < |s|
      invariant i <= |s|
      invariant Substituted(s, 0, emoji) == result + Substituted(s, i, emoji)
    {
      var piece := [s[i]];
      ghost var at := i;
      i := i + 1;
      if s[i - 1] == ':' {
        var code;
        code, i := TakeCode(s, i);
        piece := Replaced(code, emoji);
      }
      PieceAt(s, at, emoji);
      Regroup(result, piece, Substituted(s, i, emoji));
      result := result + piece;
    }
    SubstitutedEnd(s, emoji);
  }

  lemma SubstitutedEnd(s: string, emoji: Lookup)
    ensures Substituted(s, |s|, emoji) == ""
  {
  }

  /** How many colons the text has from `i` on. */
  function Colons(s: string, i: nat): nat
    requires i <= |s|
    decreases |s| - i
  {
    if i == |s| then 0 else (if s[i] == ':' then 1 else 0) + Colons(s, i + 1)
  }

  lemma {:induction false} ColonsAt(s: string, i: nat)
    requires i <= |s|
    ensures ColonFrom(s, i) == |s| ==> Colons(s, i) == 0
    ensures ColonFrom(s, i) < |s| ==> Colons(s, i) == 1 + Colons(s, ColonFrom(s, i) + 1)
    decreases |s| - i
  {
    if i < |s| && s[i] != ':' { ColonsAt(s, i + 1); }
  }

  /** Where the loop goes on after the colon at `i`: past the code it opens and the colon behind that. */
  function AfterCode(s: string, i: nat): (j: nat)
    requires i < |s|
    ensures i < j <= |s|
  {
    var close := ColonFrom(s, i + 1);
    if close < |s| then close + 1 else close
  }

  /** No code that the loop cuts out from `i` on is known. */
  predicate NoneKnown(s: string, i: nat, emoji: Lookup)
    requires i <= |s|
    decreases |s| - i
  {
    if i == |s| then true
    else if s[i] != ':' then NoneKnown(s, i + 1, emoji)
    else emoji(s[i + 1..ColonFrom(s, i + 1)]).None? && NoneKnown(s, AfterCode(s, i), emoji)
  }

  /** The text from `i` on, with a colon behind it when its colons do not pair up. */
  function Paired(s: string, i: nat): string
    requires i <= |s|
  {
    Closed(s[i..], Colons(s, i) % 2 == 0)
  }

  function Closed(t: string, even: bool): string {
    if even then t else t + [':']
  }

  lemma PairedPlain(s: string, i: nat)
    requires i < |s| && s[i] != ':'
    ensures Paired(s, i) == [s[i]] + Paired(s, i + 1)
  {
  }

  lemma LastCode(s: string, i: nat)
    requires i < |s| && s[i] == ':'
    ensures ([':'] + s[i + 1..|s|] + [':']) + s[|s|..] == s[i..] + [':']
  {
  }

  lemma ColonsStep(s: string, i: nat)
    requires i < |s| && s[i] == ':'
    ensures var close := ColonFrom(s, i + 1);
            Colons(s, i) == if close < |s| then 2 + Colons(s, close + 1) else 1
    ensures Colons(s, |s|) == 0
  {
    ColonsAt(s, i + 1);
  }

  lemma PairedAcross(s: string, i: nat, close: nat)
    requires i < close < |s| && s[i] == ':' && s[close] == ':' && Colons(s, i) == 2 + Colons(s, close + 1)
    ensures Paired(s, i) == ([':'] + s[i + 1..close] + [':']) + Paired(s, close + 1)
  {
  }

  lemma PairedCode(s: string, i: nat)
    requires i < |s| && s[i] == ':'
    ensures var close := ColonFrom(s, i + 1);
            Paired(s, i) == ([':'] + s[i + 1..close] + [':']) + Paired(s, if close < |s| then close + 1 else close)
  {
    hide Colons, ColonFrom;
    var close := ColonFrom(s, i + 1);
    ColonsStep(s, i);
    if close < |s| {
      hide Paired;
      PairedAcross(s, i, close);
    } else {
      LastCode(s, i);
    }
  }

  /** An unknown code is written back, with a colon behind it in any case. */
  lemma UnknownCode(s: string, i: nat, emoji: Lookup)
    requires i < |s| && s[i] == ':' && emoji(s[i + 1..ColonFrom(s, i + 1)]).None?
    ensures Substituted(s, i, emoji) == ([':'] + s[i + 1..ColonFrom(s, i + 1)] + [':']) + Substituted(s, AfterCode(s, i), emoji)
  {
  }

  /**
  For every text whose cut-out codes are all unknown: it stays as it is when its colons pair up; an odd
  colon, as in a time of day, gets another one at the end of the text.
  */
  lemma {:induction false} UnknownCodes(s: string, i: nat, emoji: Lookup)
    requires i <= |s| && NoneKnown(s, i, emoji)
    ensures Substituted(s, i, emoji) == Paired(s, i)
    decreases |s| - i
  {
    hide Replaced, ColonFrom, Paired;
    if i == |s| {
      PairedEnd(s);
    } else if s[i] != ':' {
      UnknownCodes(s, i + 1, emoji);
      PairedPlain(s, i);
    } else {
      UnknownCode(s, i, emoji);
      UnknownCodes(s, AfterCode(s, i), emoji);
      PairedCode(s, i);
    }
  }

  lemma PairedEnd(s: string)
    ensures Paired(s, |s|) == ""
  {
  }

  function Count(t: string): nat {
    multiset(t)[':']
  }

  lemma CountJoin(a: string, b: string)
    ensures Count(a + b) == Count(a) + Count(b)
  {
  }

  lemma {:induction false} CountIsColons(s: string, i: nat)
    requires i <= |s|
    ensures Count(s[i..]) == Colons(s, i)
    decreases |s| - i
  {
    if i < |s| {
      CountIsColons(s, i + 1);
      assert s[i..] == [s[i]] + s[i + 1..];
    }
  }

  /** No emoji contains a colon, as in the emoji table. */
  ghost predicate ColonFree(emoji: Lookup) {
    forall code :: emoji(code).Some? ==> ':' !in emoji(code).value
  }

  lemma CountNone(t: string)
    requires ':' !in t
    ensures Count(t) == 0
  {
  }

  /** A known code takes its colons away; an unknown one keeps its own and closes itself if need be. */
  lemma CodeColons(s: string, i: nat, emoji: Lookup)
    requires i < |s| && s[i] == ':' && ColonFree(emoji)
    ensures var code := s[i + 1..ColonFrom(s, i + 1)];
            Count(Replaced(code, emoji)) == if emoji(code).Some? then 0 else 2
  {
    hide Count;
    var code := s[i + 1..ColonFrom(s, i + 1)];
    CountNone(code);
    CountOne(':');
    if emoji(code).None? {
      CountJoin([':'] + code, [':']);
      CountJoin([':'], code);
    } else {
      CountNone(emoji(code).value);
    }
  }

  /** Replacing a known code loses colons, more than closing the last code can add. */
  lemma {:induction false} KnownCodesLoseColons(s: string, i: nat, emoji: Lookup)
    requires i <= |s| && ColonFree(emoji)
    ensures Count(Substituted(s, i, emoji)) <= Colons(s, i) + 1
    ensures !NoneKnown(s, i, emoji) ==> Count(Substituted(s, i, emoji)) < Colons(s, i)
    decreases |s| - i
  {
    hide ColonFrom, Replaced, Count, ColonFree;
    if i == |s| {
      NoColons();
    } else if s[i] != ':' {
      KnownCodesLoseColons(s, i + 1, emoji);
      CountJoin([s[i]], Substituted(s, i + 1, emoji));
      CountOne(s[i]);
    } else {
      var code, next := s[i + 1..ColonFrom(s, i + 1)], AfterCode(s, i);
      KnownCodesLoseColons(s, next, emoji);
      CodeColons(s, i, emoji);
      CountJoin(Replaced(code, emoji), Substituted(s, next, emoji));
      ColonsStep(s, i);
      if next == |s| { NoColons(); }
    }
  }

  lemma NoColons()
    ensures Count("") == 0
  {
  }

  lemma CountOne(c: char)
    ensures Count([c]) == if c == ':' then 1 else 0
  {
  }

  /**
  For every text: it is unchanged if and only if no code cut out of it is known and its number of
  colons is even.
  */
  lemma UnchangedIff(s: string, emoji: Lookup)
    requires ColonFree(emoji)
    ensures Substituted(s, 0, emoji) == s <==> NoneKnown(s, 0, emoji) && Colons(s, 0) % 2 == 0
  {
    hide Substituted, NoneKnown, ColonFree;
    assert s[0..] == s;
    CountIsColons(s, 0);
    KnownCodesLoseColons(s, 0, emoji);
    if NoneKnown(s, 0, emoji) { UnknownCodes(s, 0, emoji); }
  }

  /** Half past ten turns into something else. */
  lemma TimeOfDayGrows(emoji: Lookup)
    requires emoji("30") == None
    ensures Substituted("10:30", 0, emoji) == "10:30:"
  {
    var s := "10:30";
    assert ColonFrom(s, 3) == 5 && s[3..5] == "30";
    assert Substituted(s, 2, emoji) == Replaced("30", emoji) + "";
  }

  /** For every text without colons: nothing is replaced. */
  lemma {:induction false} PlainTextStays(s: string, i: nat, emoji: Lookup)
    requires i <= |s| && ':' !in s
    ensures Substituted(s, i, emoji) == s[i..]
    decreases |s| - i
  {
    if i < |s| { PlainTextStays(s, i + 1, emoji); }
  }

  /** For every text around it: a known code between two colons becomes its emoji, and what follows is read on. */
  lemma {:induction false} KnownCodeIsReplaced(before: string, code: string, after: string, emoji: Lookup)
    requires ':' !in before && ':' !in code && emoji(code).Some?
    ensures var s := before + ([':'] + (code + ([':'] + after)));
            Substituted(s, 0, emoji) == before + (emoji(code).value + Substituted(s, |before| + |code| + 2, emoji))
  {
    hide Substituted, ColonFrom;
    var s := before + ([':'] + (code + ([':'] + after)));
    var n := |before|;
    CodeInPlace(before, code, after);
    ColonIsAt(s, n + 1, n + 1 + |code|);
    PieceAt(s, n, emoji);
    PlainPrefix(s, 0, n, emoji);
  }

  lemma CodeInPlace(before: string, code: string, after: string)
    requires ':' !in before && ':' !in code
    ensures var s, n := before + ([':'] + (code + ([':'] + after))), |before|;
            && s[n] == ':' && s[n + 1 + |code|] == ':' && s[n + 1..n + 1 + |code|] == code && s[0..n] == before
            && (forall k :: n + 1 <= k < n + 1 + |code| ==> s[k] != ':') && forall k :: 0 <= k < n ==> s[k] != ':'
  {
    var s, n := before + ([':'] + (code + ([':'] + after))), |before|;
    assert forall k :: n + 1 <= k < n + 1 + |code| ==> s[k] == code[k - n - 1];
    assert forall k :: 0 <= k < n ==> s[k] == before[k];
  }

  lemma {:induction false} ColonIsAt(s: string, i: nat, j: nat)
    requires i <= j < |s| && s[j] == ':' && forall k :: i <= k < j ==> s[k] != ':'
    ensures ColonFrom(s, i) == j
  {
  }

  lemma {:induction false} PlainPrefix(s: string, i: nat, n: nat, emoji: Lookup)
    requires i <= n <= |s| && forall k :: i <= k < n ==> s[k] != ':'
    ensures Substituted(s, i, emoji) == s[i..n] + Substituted(s, n, emoji)
    decreases n - i
  {
    hide Substituted, ColonFrom, Replaced;
    if i < n {
      PlainPrefix(s, i + 1, n, emoji);
      PieceAt(s, i, emoji);
      assert s[i..n] == [s[i]] + s[i + 1..n];
      Regroup([s[i]], s[i + 1..n], Substituted(s, n, emoji));
    } else {
      assert s[i..n] == "" && "" + Substituted(s, n, emoji) == Substituted(s, n, emoji);
    }
  }
}
