/** Substrings, as Rust's `starts_with` and `contains` find them. */
module Texts {
  predicate StartsWith(s: string, t: string) {
    |t| <= |s| && s[..|t|] == t
  }

  predicate Contains(s: string, t: string) {
    exists i :: 0 <= i <= |s| && StartsWith(s[i..], t)
  }

  /** A text is contained where something stands before it and something behind it. */
  lemma ContainsIff(s: string, t: string)
    ensures Contains(s, t) <==> exists before, after :: s == before + (t + after)
  {
    if i :| 0 <= i <= |s| && StartsWith(s[i..], t) {
      assert s == s[..i] + (t + s[i..][|t|..]);
    }
    if before, after :| s == before + (t + after) {
      assert s[|before|..] == t + after && (t + after)[..|t|] == t;
      assert StartsWith(s[|before|..], t);
    }
  }
}
