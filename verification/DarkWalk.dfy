/**
The contrast pass over an email shown on the dark canvas: the tree walk in `applyCanvasTheme` that
lifts dark text. Elements are listed in document order, so a parent comes before its children.
*/
module DarkWalk {
  import opened Wrappers
  import opened DarkColour

  /** A computed colour: one whose channels can be read off, or one `luminance` answers null for. */
  datatype Colour = Channels(rgb: Rgb) | Unreadable(text: string)

  /** `own` is the colour the email itself gives the element; without one the element inherits. */
  datatype Element = Element(parent: Option<nat>, own: Option<Colour>, hasOwnText: bool, opaqueBackground: bool)

  predicate IsValidColour(c: Colour) {
    c.Channels? ==> IsCss(c.rgb)
  }

  predicate IsTree(nodes: seq<Element>) {
    forall i :: 0 <= i < |nodes| ==>
      && (nodes[i].parent.Some? ==> nodes[i].parent.value < i)
      && (nodes[i].own.Some? ==> IsValidColour(nodes[i].own.value))
  }

  /** The email's elements and the colour the body inherits. */
  datatype Email = Email(nodes: seq<Element>, canvasText: Colour)

  predicate IsEmail(e: Email) {
    IsTree(e.nodes) && IsValidColour(e.canvasText)
  }

  /** The colours the pass has set, one entry for each element. */
  type Styles = seq<Option<Colour>>

  predicate Fits(e: Email, styles: Styles) {
    && |styles| == |e.nodes|
    && forall i :: 0 <= i < |styles| ==> styles[i].Some? ==> IsValidColour(styles[i].value)
  }

  predicate Inherits(e: Email, styles: Styles, i: nat)
    requires |styles| == |e.nodes| && i < |styles|
  {
    styles[i].None? && e.nodes[i].own.None?
  }

  /** `getComputedStyle(node).color`: what the pass set wins over the email's own colour. */
  function Computed(e: Email, styles: Styles, i: nat): (c: Colour)
    requires IsEmail(e) && Fits(e, styles) && i < |styles|
    ensures IsValidColour(c)
  {
    var node := e.nodes[i];
    if styles[i].Some? then styles[i].value
    else if node.own.Some? then node.own.value
    else if node.parent.Some? then Computed(e, styles, node.parent.value)
    else e.canvasText
  }

  /**
  Up from an element to the nearest one with a colour: what was set there wins over its own; at the top,
  the text colour of the canvas.
  */
  lemma {:induction false} NearestColourShows(e: Email, styles: Styles, path: seq<nat>)
    requires IsEmail(e) && Fits(e, styles) && path != [] && forall k :: 0 <= k < |path| ==> path[k] < |styles|
    requires forall k :: 0 <= k < |path| - 1 ==>
      e.nodes[path[k]].parent == Some(path[k + 1]) && styles[path[k]].None? && e.nodes[path[k]].own.None?
    ensures var shown, i := Computed(e, styles, path[0]), path[|path| - 1];
            && (styles[i].Some? ==> shown == styles[i].value)
            && (styles[i].None? && e.nodes[i].own.Some? ==> shown == e.nodes[i].own.value)
            && (styles[i].None? && e.nodes[i].own.None? && e.nodes[i].parent.None? ==> shown == e.canvasText)
  {
    if |path| > 1 { NearestColourShows(e, styles, path[1..]); }
  }

  predicate OpaqueAbove(nodes: seq<Element>, i: nat)
    requires IsTree(nodes) && i < |nodes|
  {
    var up := nodes[i].parent;
    up.Some? && (nodes[up.value].opaqueBackground || OpaqueAbove(nodes, up.value))
  }

  /** The elements the pass looks at: those with text of their own and no opaque background above. */
  predicate Eligible(e: Email, i: nat)
    requires IsEmail(e) && i < |e.nodes|
  {
    e.nodes[i].hasOwnText && !OpaqueAbove(e.nodes, i)
  }

  predicate Dark(c: Colour) {
    c.Channels? && Luminance(c.rgb) < READABLE
  }

  function Lift(c: Colour): (k: Colour)
    requires IsValidColour(c) && c.Channels?
    ensures IsValidColour(k) && !Dark(k)
  {
    LiftedIsReadable(c.rgb);
    Channels(LightenForDark(c.rgb))
  }

  /******* The closed form *******/

  /** Some eligible element before `k` is `i` itself or one that `i` inherits its colour from. */
  predicate Reached(e: Email, styles: Styles, k: nat, i: nat)
    requires IsEmail(e) && Fits(e, styles) && i < |styles|
  {
    || (i < k && Eligible(e, i))
    || (Inherits(e, styles, i) && e.nodes[i].parent.Some? && Reached(e, styles, k, e.nodes[i].parent.value))
  }

  /** The colour of element `i` once the elements before `k` are visited. */
  function Shown(e: Email, styles: Styles, k: nat, i: nat): (c: Colour)
    requires IsEmail(e) && Fits(e, styles) && i < |styles|
    ensures IsValidColour(c)
  {
    var c := Computed(e, styles, i);
    if Dark(c) && Reached(e, styles, k, i) then Lift(c) else c
  }

  /** What was set is kept or lifted, and nothing is set where nothing was visited. */
  predicate SetSoFar(e: Email, before: Styles, k: nat, now: Styles)
    requires IsEmail(e) && Fits(e, before)
  {
    && Fits(e, now)
    && (forall i :: 0 <= i < |now| ==> before[i].Some? ==> now[i].Some?)
    && (forall i :: k <= i < |now| ==> now[i] == before[i])
    && (forall i :: 0 <= i < |now| ==> Computed(e, now, i) == Shown(e, before, k, i))
  }

  /** The styles after visiting element `k`. */
  function Visit(e: Email, styles: Styles, k: nat): (s: Styles)
    requires IsEmail(e) && Fits(e, styles) && k < |styles|
    ensures Fits(e, s)
  {
    var c := Computed(e, styles, k);
    if Eligible(e, k) && Dark(c) then styles[k := Some(Lift(c))] else styles
  }

  /** An element whose inherited colour changes takes its parent's word for it. */
  lemma {:induction false} ReachedOneMore(e: Email, styles: Styles, k: nat, i: nat)
    requires IsEmail(e) && Fits(e, styles) && i < |styles| && k < |styles|
    ensures Reached(e, styles, k, i) ==> Reached(e, styles, k + 1, i)
    ensures i < k || (i == k && !Eligible(e, k)) ==> Reached(e, styles, k + 1, i) == Reached(e, styles, k, i)
    ensures i != k && !Inherits(e, styles, i) ==> Reached(e, styles, k + 1, i) == Reached(e, styles, k, i)
  {
    if Inherits(e, styles, i) && e.nodes[i].parent.Some? {
      ReachedOneMore(e, styles, k, e.nodes[i].parent.value);
    }
  }

  /** A visit leaves what comes before it alone. */
  lemma {:induction false} EarlierIsFinal(e: Email, styles: Styles, k: nat, i: nat)
    requires IsEmail(e) && Fits(e, styles) && i < k < |styles|
    ensures Computed(e, Visit(e, styles, k), i) == Computed(e, styles, i)
  {
    hide Dark, Lift, Eligible;
    if Inherits(e, styles, i) && e.nodes[i].parent.Some? {
      EarlierIsFinal(e, styles, k, e.nodes[i].parent.value);
    }
  }

  lemma ShownAt(e: Email, before: Styles, k: nat, now: Styles)
    requires IsEmail(e) && Fits(e, before) && SetSoFar(e, before, k, now) && k < |now|
    ensures Computed(e, Visit(e, now, k), k) == Shown(e, before, k + 1, k)
  {
    hide Dark, Eligible;
    assert Computed(e, now, k) == Shown(e, before, k, k);
    ReachedOneMore(e, before, k, k);
  }

  lemma {:induction false} ShownOneMore(e: Email, before: Styles, k: nat, now: Styles, i: nat)
    requires IsEmail(e) && Fits(e, before) && SetSoFar(e, before, k, now) && k < |now| && i < |now|
    ensures Computed(e, Visit(e, now, k), i) == Shown(e, before, k + 1, i)
    decreases i
  {
    hide Dark, Lift, Eligible;
    assert Computed(e, now, i) == Shown(e, before, k, i);
    ReachedOneMore(e, before, k, i);
    if i < k {
      EarlierIsFinal(e, now, k, i);
    } else if i == k {
      ShownAt(e, before, k, now);
    } else if Inherits(e, now, i) && e.nodes[i].parent.Some? {
      ShownOneMore(e, before, k, now, e.nodes[i].parent.value);
    }
  }

  lemma VisitKeepsForm(e: Email, before: Styles, k: nat, now: Styles)
    requires IsEmail(e) && Fits(e, before) && k < |e.nodes| && SetSoFar(e, before, k, now)
    ensures SetSoFar(e, before, k + 1, Visit(e, now, k))
  {
    hide Computed, Shown, Eligible, Dark;
    var next := Visit(e, now, k);
    forall i | 0 <= i < |next| ensures Computed(e, next, i) == Shown(e, before, k + 1, i) {
      ShownOneMore(e, before, k, now, i);
    }
  }

  lemma {:induction false} NothingReachedYet(e: Email, styles: Styles, i: nat)
    requires IsEmail(e) && Fits(e, styles) && i < |styles|
    ensures !Reached(e, styles, 0, i)
  {
    if Inherits(e, styles, i) && e.nodes[i].parent.Some? {
      NothingReachedYet(e, styles, e.nodes[i].parent.value);
    }
  }

  lemma NothingShownYet(e: Email, styles: Styles, i: nat)
    requires IsEmail(e) && Fits(e, styles) && i < |styles|
    ensures Computed(e, styles, i) == Shown(e, styles, 0, i)
  {
  }

  /** The styles once the elements before `k` are visited, in document order. */
  function Walk(e: Email, styles: Styles, k: nat): (s: Styles)
    requires IsEmail(e) && Fits(e, styles) && k <= |styles|
    ensures Fits(e, s)
  {
    if k == 0 then styles else Visit(e, Walk(e, styles, k - 1), k - 1)
  }

  /** For every tree, the walk ends in the closed form. */
  lemma {:induction false} WalkShows(e: Email, styles: Styles, k: nat)
    requires IsEmail(e) && Fits(e, styles) && k <= |styles|
    ensures SetSoFar(e, styles, k, Walk(e, styles, k))
  {
    hide Computed, Visit, Shown;
    if k == 0 {
      forall i | 0 <= i < |styles| ensures Computed(e, styles, i) == Shown(e, styles, 0, i) {
        NothingShownYet(e, styles, i);
      }
    } else {
      WalkShows(e, styles, k - 1);
      VisitKeepsForm(e, styles, k - 1, Walk(e, styles, k - 1));
    }
  }

  /******* What the reader gets *******/

  function After(e: Email, styles: Styles): (s: Styles)
    requires IsEmail(e) && Fits(e, styles)
    ensures Fits(e, s)
  {
    Walk(e, styles, |styles|)
  }

  /**
  For every tree: after the pass each element shows its old colour, lifted exactly when that was dark
  and the element, or one it takes its colour from, has text and no opaque background above it.
  */
  lemma FinalColour(e: Email, styles: Styles, i: nat)
    requires IsEmail(e) && Fits(e, styles) && i < |styles|
    ensures Computed(e, After(e, styles), i) == Shown(e, styles, |styles|, i)
  {
    WalkShows(e, styles, |styles|);
  }

  /** For every tree: text with no opaque background above it ends with a luminance of 140 or more. */
  lemma TextIsReadable(e: Email, styles: Styles, i: nat)
    requires IsEmail(e) && Fits(e, styles) && i < |styles| && Eligible(e, i)
    ensures !Dark(Computed(e, After(e, styles), i))
  {
    FinalColour(e, styles, i);
  }

  /** Visiting does nothing where every eligible element is readable. */
  lemma {:induction false} NothingToLift(e: Email, styles: Styles, k: nat)
    requires IsEmail(e) && Fits(e, styles) && k <= |styles|
    requires forall i :: 0 <= i < |styles| && Eligible(e, i) ==> !Dark(Computed(e, styles, i))
    ensures Walk(e, styles, k) == styles
  {
    if k > 0 { NothingToLift(e, styles, k - 1); }
  }

  /** For every tree: a second pass changes nothing. */
  lemma SecondPassIsIdle(e: Email, styles: Styles)
    requires IsEmail(e) && Fits(e, styles)
    ensures After(e, After(e, styles)) == After(e, styles)
  {
    forall i | 0 <= i < |styles| && Eligible(e, i) ensures !Dark(Computed(e, After(e, styles), i)) {
      TextIsReadable(e, styles, i);
    }
    NothingToLift(e, After(e, styles), |styles|);
  }

  /** For every tree: a colour changes exactly when it was dark and is reached. */
  lemma ChangesIff(e: Email, styles: Styles, i: nat)
    requires IsEmail(e) && Fits(e, styles) && i < |styles|
    ensures Computed(e, After(e, styles), i) != Computed(e, styles, i) <==>
            Dark(Computed(e, styles, i)) && Reached(e, styles, |styles|, i)
  {
    FinalColour(e, styles, i);
  }

  /**
  For every tree: eligible text in a pure red or blue changes, in a pure green exactly under
  140 / 0.7152, in a grey exactly under 140.
  */
  lemma PrimaryText(e: Email, styles: Styles, i: nat, v: real)
    requires IsEmail(e) && Fits(e, styles) && i < |styles| && Eligible(e, i) && InByte(v)
    ensures var was, now := Computed(e, styles, i), Computed(e, After(e, styles), i);
            && (was == Channels(Rgb(v, 0.0, 0.0)) || was == Channels(Rgb(0.0, 0.0, v)) ==> now != was)
            && (was == Channels(Rgb(0.0, v, 0.0)) ==> (now != was <==> v < 140.0 / 0.7152))
            && (was == Channels(Rgb(v, v, v)) ==> (now != was <==> v < 140.0))
  {
    hide Luminance, After, Computed;
    ChangesIff(e, styles, i);
    DarkPrimaries(v);
  }

  /** An element on a background of its own or of one above it. */
  predicate OnIsland(e: Email, i: nat)
    requires IsEmail(e) && i < |e.nodes|
  {
    e.nodes[i].opaqueBackground || OpaqueAbove(e.nodes, i)
  }

  /** Taking the colour from outside: inheriting from a reached parent. */
  predicate TakesLiftedColour(e: Email, styles: Styles, i: nat)
    requires IsEmail(e) && Fits(e, styles) && i < |styles|
  {
    && Inherits(e, styles, i) && e.nodes[i].parent.Some?
    && Reached(e, styles, |styles|, e.nodes[i].parent.value)
  }

  /**
  Content with an opaque background is meant to stay as it is. It does exactly when its colour is
  not dark, or it has no text directly on its own background and takes no lifted colour from outside.
  */
  lemma IslandIsKeptIff(e: Email, styles: Styles, i: nat)
    requires IsEmail(e) && Fits(e, styles) && i < |styles| && OnIsland(e, i)
    ensures Computed(e, After(e, styles), i) == Computed(e, styles, i) <==>
            || !Dark(Computed(e, styles, i))
            || !(TakesLiftedColour(e, styles, i) || (e.nodes[i].hasOwnText && !OpaqueAbove(e.nodes, i)))
  {
    ChangesIff(e, styles, i);
  }

  /** The pass runs only when neither the body nor an element directly in it has an opaque background. */
  predicate PassRuns(e: Email) {
    forall i :: 0 <= i < |e.nodes| && (e.nodes[i].parent.None? || e.nodes[i].parent == Some(0)) ==>
      !e.nodes[i].opaqueBackground
  }

  /** Black text in the body, a container, in it a white box with text, and in that a paragraph. */
  function WhiteBox(): (e: Email)
    ensures IsEmail(e) && PassRuns(e)
  {
    Email(
      [ Element(None, Some(Channels(Rgb(0.0, 0.0, 0.0))), true, false),
        Element(Some(0), None, false, false),
        Element(Some(1), None, true, true),
        Element(Some(2), None, true, false) ],
      Channels(Rgb(0.0, 0.0, 0.0)))
  }

  /** Both ways an island loses its colour: black text on white turns light grey on white. */
  lemma WhiteBoxTurnsUnreadable()
    ensures var e, styles := WhiteBox(), [None, None, None, None];
            && Fits(e, styles) && OnIsland(e, 2) && OnIsland(e, 3)
            && Eligible(e, 2) && !Eligible(e, 3)
            && Computed(e, After(e, styles), 2) == Computed(e, After(e, styles), 3) == Channels(Rgb(204.0, 204.0, 204.0))
  {
    var e, styles: Styles := WhiteBox(), [None, None, None, None];
    FinalColour(e, styles, 2);
    FinalColour(e, styles, 3);
    GreyTurnsLight(0.0);
    hide After, LightenForDark;
    assert Computed(e, styles, 0) == Computed(e, styles, 1) == e.canvasText;
    assert Computed(e, styles, 2) == Computed(e, styles, 3) == e.canvasText;
    assert !OpaqueAbove(e.nodes, 0) && !OpaqueAbove(e.nodes, 1) && !OpaqueAbove(e.nodes, 2);
    assert Reached(e, styles, 4, 2);
    assert Reached(e, styles, 4, 3);
  }

  /******* The loop *******/

  /** The document shown in the frame; the pass writes to its elements' styles. */
  class Document {
    const email: Email
    var styles: Styles

    ghost predicate Valid()
      reads this
    {
      IsEmail(email) && Fits(email, styles)
    }

    constructor (e: Email)
      requires IsEmail(e)
      ensures Valid() && email == e && |styles| == |e.nodes|
      ensures forall i :: 0 <= i < |styles| ==> styles[i] == None
    {
      email := e;
      styles := seq(|e.nodes|, _ => None);
    }

    /** `hasOpaqueBgAncestor`: climbs from the parent. */
    method HasOpaqueAncestor(k: nat) returns (found: bool)
      requires Valid() && k < |email.nodes|
      ensures found == OpaqueAbove(email.nodes, k)
    {
      var n: Option<nat> := email.nodes[k].parent;
      while n.Some?
        invariant n.Some? ==> n.value < k
        invariant OpaqueAbove(email.nodes, k) ==
                  (n.Some? && (email.nodes[n.value].opaqueBackground || OpaqueAbove(email.nodes, n.value)))
        decreases if n.Some? then n.value + 1 else 0
      {
        if email.nodes[n.value].opaqueBackground { return true; }
        n := email.nodes[n.value].parent;
      }
      found := false;
    }

    /** The contrast pass. */
    method LiftDarkText()
      requires Valid()
      modifies this`styles
      ensures Valid() && styles == After(email, old(styles))
      ensures forall i :: 0 <= i < |styles| ==> Computed(email, styles, i) == Shown(email, old(styles), |styles|, i)
      ensures forall i :: 0 <= i < |styles| && Eligible(email, i) ==> !Dark(Computed(email, styles, i))
      // Eligible text changes exactly if its luminance was under 140; `PrimaryText` says for which colours it is.
      ensures forall i :: 0 <= i < |styles| && Eligible(email, i) ==>
        (Computed(email, styles, i) != Computed(email, old(styles), i) <==> Dark(Computed(email, old(styles), i)))
    {
      hide Computed, Shown, Lift, OpaqueAbove, Luminance;
      ghost var before := styles;
      var k := 0;
      while k < |email.nodes|
        invariant k <= |email.nodes| && Valid() && |styles| == |before|
        invariant styles == Walk(email, before, k)
      {
        if email.nodes[k].hasOwnText {
          var covered := HasOpaqueAncestor(k);
          if !covered {
            var c := Computed(email, styles, k);
            if Dark(c) { styles := styles[k := Some(Lift(c))]; }
          }
        }
        k := k + 1;
      }
      forall i | 0 <= i < |styles|
        ensures Computed(email, styles, i) == Shown(email, before, |styles|, i)
        ensures Eligible(email, i) ==> !Dark(Computed(email, styles, i))
        ensures Eligible(email, i) ==>
          (Computed(email, styles, i) != Computed(email, before, i) <==> Dark(Computed(email, before, i)))
      {
        FinalColour(email, before, i);
        ChangesIff(email, before, i);
        if Eligible(email, i) { TextIsReadable(email, before, i); }
      }
    }
  }
}
