/**
Which duplicates the Todoist project cache allows: exactly the pairs of creations of which neither
call read the counter once the other project was announced.
*/
module TodoistDuplicates {
  import opened Wrappers
  import opened TodoistCache

  /******* Runs, put together step by step *******/

  lemma Extend(start: State, actions: seq<Action>, s: State, a: Action) returns (more: seq<Action>, t: State)
    requires Reaches(start, actions, s) && Enabled(s, a)
    ensures t == Next(s, a) && Reaches(start, more, t) && more == actions + [a]
  {
    more, t := actions + [a], Next(s, a);
    assert more[..|more| - 1] == actions;
  }

  /**
  A call that has read the counter, up to the point where it is about to add the project it did not
  find. Its memo entry, if there is one, expires first, so it fetches as the memo would let it.
  */
  lemma GoesOnToCreate(start: State, actions: seq<Action>, s: State, c: CallId) returns (more: seq<Action>, t: State)
    requires Reaches(start, actions, s) && c in s.calls && s.calls[c].phase.Keyed?
    requires !HasName(ProjectsOf(s.calls[c].user, s.server), s.calls[c].name)
    ensures Reaches(start, more, t) && t.server == s.server && t.index == s.index && t.url == s.url && c in t.calls
    ensures t.calls[c].phase.Creating? && t.calls[c].phase.gen == s.calls[c].phase.gen && t.calls == s.calls[c := t.calls[c]]
    ensures t.calls[c].user == s.calls[c].user && t.calls[c].name == s.calls[c].name
  {
    hide Reaches;
    more, t := Extend(start, actions, s, Expire(CacheKey(s.calls[c].user, s.calls[c].phase.gen, s.url)));
    more, t := Extend(start, more, t, Fetch(c));
    more, t := Extend(start, more, t, Store(c));
    more, t := Extend(start, more, t, Find(c));
  }

  /** A new call, up to the point where it has read the counter. */
  lemma BeginsAndReads(start: State, actions: seq<Action>, s: State, c: CallId, user: User, name: string)
    returns (more: seq<Action>, t: State)
    requires Reaches(start, actions, s) && c !in s.calls
    ensures Reaches(start, more, t) && t.server == s.server && t.index == s.index && t.url == s.url
    ensures t.calls == s.calls[c := Call(user, name, Keyed(s.index))]
  {
    hide Reaches;
    more, t := Extend(start, actions, s, Begin(c, user, name));
    more, t := Extend(start, more, t, ReadIndex(c));
  }

  /******* A call that nothing interrupts *******/

  /** A call that has read the counter, up to its end, if its project is there. */
  lemma FetchesAndFinds(start: State, actions: seq<Action>, s: State, c: CallId) returns (more: seq<Action>, t: State)
    requires Reaches(start, actions, s) && c in s.calls && s.calls[c].phase.Keyed?
    requires HasName(ProjectsOf(s.calls[c].user, s.server), s.calls[c].name)
    ensures Reaches(start, more, t) && t.server == s.server && t.index == s.index && c in t.calls && t.calls == s.calls[c := t.calls[c]]
    ensures t.calls[c].phase == Returned(FindName(ProjectsOf(s.calls[c].user, s.server), s.calls[c].name).id)
  {
    hide Reaches, ProjectsOf, CacheKey;
    more, t := Extend(start, actions, s, Expire(CacheKey(s.calls[c].user, s.calls[c].phase.gen, s.url)));
    more, t := Extend(start, more, t, Fetch(c));
    more, t := Extend(start, more, t, Store(c));
    more, t := Extend(start, more, t, Find(c));
  }

  /**
  In every reachable state: a call alone from now on returns. If its user has a project of that name,
  it returns the first and changes nothing; otherwise it adds exactly one and announces it.
  */
  lemma LoneCallReturns(start: State, actions: seq<Action>, s: State, c: CallId, user: User, name: string)
    returns (more: seq<Action>, t: State)
    requires Reaches(start, actions, s) && c !in s.calls
    ensures Reaches(start, more, t) && c in t.calls && t.calls == s.calls[c := t.calls[c]]
    ensures var projects := ProjectsOf(user, s.server);
            if HasName(projects, name) then
              t.server == s.server && t.index == s.index && t.calls[c].phase == Returned(FindName(projects, name).id)
            else
              && t.server == s.server + [Entry(user, Project(|s.server|, name), Some(Origin(c, s.index)), Some(s.index + 1))]
              && t.index == s.index + 1 && t.calls[c].phase == Returned(|s.server|)
  {
    hide Reaches, ProjectsOf;
    more, t := BeginsAndReads(start, actions, s, c, user, name);
    if HasName(ProjectsOf(user, s.server), name) {
      more, t := FetchesAndFinds(start, more, t, c);
    } else {
      more, t := GoesOnToCreate(start, more, t, c);
      more, t := Extend(start, more, t, Add(c));
      more, t := Extend(start, more, t, Bump(c));
    }
  }

  /** With a list in the memo for the current generation, the call asks for none. */
  lemma MemoAnswers(start: State, actions: seq<Action>, s: State, c: CallId, user: User, name: string)
    returns (more: seq<Action>, t: State)
    requires Reaches(start, actions, s) && c !in s.calls && CacheKey(user, s.index, s.url) in s.cache
    requires HasName(s.cache[CacheKey(user, s.index, s.url)].projects, name)
    ensures Reaches(start, more, t) && more == actions + [Begin(c, user, name), ReadIndex(c), Hit(c), Find(c)]
    ensures var id := FindName(s.cache[CacheKey(user, s.index, s.url)].projects, name).id;
            t == s.(calls := s.calls[c := Call(user, name, Returned(id))])
  {
    hide Reaches, CacheKey;
    more, t := Extend(start, actions, s, Begin(c, user, name));
    more, t := Extend(start, more, t, ReadIndex(c));
    more, t := Extend(start, more, t, Hit(c));
    more, t := Extend(start, more, t, Find(c));
  }

  /** A call may fail at any point before it has added a project, and leaves everything else as it was. */
  lemma MayFail(start: State, actions: seq<Action>, s: State, c: CallId) returns (more: seq<Action>, t: State)
    requires Reaches(start, actions, s) && c in s.calls && !s.calls[c].phase.Added?
    ensures Reaches(start, more, t) && t == s.(calls := s.calls[c := s.calls[c].(phase := Failed)])
  {
    hide Reaches;
    more, t := Extend(start, actions, s, Fail(c));
  }

  /******* Raising the counter *******/

  /** Room for more calls and names: ids under `m`, names no longer than `b`. */
  predicate Within(s: State, m: nat, b: nat) {
    (forall c :: c in s.calls ==> c < m) && forall k :: 0 <= k < |s.server| ==> |s.server[k].project.name| <= b
  }

  lemma LongNameIsNew(user: User, server: seq<Entry>, name: string)
    requires forall k :: 0 <= k < |server| ==> |server[k].project.name| < |name|
    ensures !HasName(ProjectsOf(user, server), name)
  {
    forall p | p in ProjectsOf(user, server) ensures p.name != name {
      ProjectsListed(user, server, p);
    }
  }

  /** `t` comes after `s`: its calls and projects are still there, and the new ones have ids from `m` and long names. */
  predicate Grown(s: State, t: State, m: nat, b: nat) {
    && t.url == s.url && |s.server| <= |t.server|
    && (forall c :: c in s.calls ==> c in t.calls && t.calls[c] == s.calls[c])
    && (forall c :: c in t.calls ==> c in s.calls || m <= c)
    && (forall k :: 0 <= k < |s.server| ==> t.server[k] == s.server[k])
    && (forall k :: |s.server| <= k < |t.server| ==> |t.server[k].project.name| > b)
  }

  /** One more announcement, by a call of its own for a new name. */
  lemma OneMoreBump(start: State, actions: seq<Action>, s: State, user: User, m: nat, b: nat) returns (more: seq<Action>, t: State)
    requires Reaches(start, actions, s) && Within(s, m, b)
    ensures Reaches(start, more, t) && t.index == s.index + 1 && Grown(s, t, m, b) && Within(t, m + 1, b + 1)
  {
    hide Reaches, ProjectsOf;
    var name := seq(b + 1, _ => 'x');
    more, t := BeginsAndReads(start, actions, s, m, user, name);
    LongNameIsNew(user, t.server, name);
    more, t := GoesOnToCreate(start, more, t, m);
    more, t := Extend(start, more, t, Add(m));
    more, t := Extend(start, more, t, Bump(m));
  }

  lemma {:induction false} RaiseCounter(start: State, actions: seq<Action>, s: State, user: User, m: nat, b: nat, target: nat)
    returns (more: seq<Action>, t: State, m': nat, b': nat)
    requires Reaches(start, actions, s) && Within(s, m, b) && s.index <= target
    ensures Reaches(start, more, t) && t.index == target && Grown(s, t, m, b)
    ensures m <= m' && b <= b' && Within(t, m', b')
    decreases target - s.index
  {
    hide Reaches;
    more, t, m', b' := actions, s, m, b;
    if s.index < target {
      more, t := OneMoreBump(start, actions, s, user, m, b);
      var u := t;
      more, t, m', b' := RaiseCounter(start, more, u, user, m + 1, b + 1, target);
      assert forall k :: |s.server| <= k < |u.server| ==> t.server[k] == u.server[k];
    }
  }

  /** An added project is announced in any later generation, and nothing else that was there changes. */
  lemma AnnounceIn(start: State, actions: seq<Action>, s: State, c: CallId, target: nat, user: User, m: nat, b: nat)
    returns (more: seq<Action>, t: State, m': nat, b': nat)
    requires Reaches(start, actions, s) && Within(s, m, b) && s.index < target
    requires c in s.calls && s.calls[c].phase.Added? && s.calls[c].phase.at < |s.server|
    ensures Reaches(start, more, t) && t.index == target && |s.server| <= |t.server| && Within(t, m', b')
    ensures forall d :: d in s.calls && d != c ==> d in t.calls && t.calls[d] == s.calls[d]
    ensures var at := s.calls[c].phase.at;
            forall k :: 0 <= k < |s.server| ==>
              t.server[k] == if k == at then s.server[k].(announcedIn := Some(target)) else s.server[k]
  {
    hide Reaches;
    more, t, m', b' := RaiseCounter(start, actions, s, user, m, b, target - 1);
    more, t := Extend(start, more, t, Bump(c));
  }

  lemma OtherNames(user: User, server: seq<Entry>, name: string)
    requires forall k :: 0 <= k < |server| ==> !SameName(server[k], user, name)
    ensures !HasName(ProjectsOf(user, server), name)
  {
    forall p | p in ProjectsOf(user, server) ensures p.name != name {
      ProjectsListed(user, server, p);
    }
  }

  /******* Which duplicates there are *******/

  /** How a creation went: the generation its call read, and the one it was announced in, if it was. */
  datatype Fate = Fate(readAt: nat, announcedIn: Option<nat>)

  ghost predicate HasFate(e: Entry, f: Fate) {
    e.origin.Some? && e.origin.value.readAt == f.readAt && e.announcedIn == f.announcedIn
  }

  /** Each was announced, if at all, after both had read the counter, and not in the same generation. */
  predicate Compatible(f: Fate, g: Fate) {
    && (f.announcedIn.Some? ==> f.readAt < f.announcedIn.value && g.readAt < f.announcedIn.value)
    && (g.announcedIn.Some? ==> f.readAt < g.announcedIn.value && g.readAt < g.announcedIn.value)
    && (f.announcedIn.Some? ==> f.announcedIn != g.announcedIn)
  }

  /** The state holds two projects of the name with these fates. */
  ghost predicate Duplicated(s: State, user: User, name: string, f: Fate, g: Fate) {
    exists j, k :: 0 <= j < |s.server| && 0 <= k < |s.server| && j != k
      && SameName(s.server[j], user, name) && SameName(s.server[k], user, name)
      && HasFate(s.server[j], f) && HasFate(s.server[k], g)
  }

  /** Call `c` is about to add the project, under the generation it read. */
  predicate AboutToAdd(s: State, c: CallId, user: User, name: string, readAt: nat) {
    && c in s.calls && s.calls[c].user == user && s.calls[c].name == name
    && s.calls[c].phase.Creating? && s.calls[c].phase.gen == readAt
  }

  /** The start has no project of the user and name. */
  ghost predicate IsFree(s: State, user: User, name: string) {
    forall k :: 0 <= k < |s.server| ==> !SameName(s.server[k], user, name)
  }

  function Longest(server: seq<Entry>): (b: nat)
    ensures forall k :: 0 <= k < |server| ==> |server[k].project.name| <= b
  {
    if server == [] then 0
    else
      var b, n := Longest(server[..|server| - 1]), |server[|server| - 1].project.name|;
      if n < b then b else n
  }

  /** Two calls can be about to add the same project, whatever generations they read. */
  lemma BothAboutToAdd(start: State, user: User, name: string, r: nat, r': nat)
    returns (actions: seq<Action>, s: State, m: nat, b: nat)
    requires Init(start) && IsFree(start, user, name) && r <= r'
    ensures Reaches(start, actions, s) && s.index == r' && Within(s, m, b)
    ensures AboutToAdd(s, 0, user, name, r) && AboutToAdd(s, 1, user, name, r')
  {
    hide Reaches, ProjectsOf;
    assert Reaches(start, [], start) by { ReachesItself(start); }
    b := Longest(start.server) + |name|;
    actions, s, m, b := RaiseCounter(start, [], start, user, 2, b, r);
    actions, s := BeginsAndReads(start, actions, s, 0, user, name);
    var t := s;
    actions, s, m, b := RaiseCounter(start, actions, t, user, m, b, r');
    actions, s := BeginsAndReads(start, actions, s, 1, user, name);
    OtherNames(user, s.server, name);
    actions, s := GoesOnToCreate(start, actions, s, 0);
    actions, s := GoesOnToCreate(start, actions, s, 1);
  }

  lemma ReachesItself(start: State)
    ensures Reaches(start, [], start)
  {
  }

  /** The project is added, and its call either goes on to announce it or has lost the reply. */
  predicate AddedBy(s: State, c: CallId, at: nat, user: User, name: string, f: Fate) {
    && c in s.calls && at < |s.server|
    && s.server[at] == Entry(user, Project(at, name), Some(Origin(c, f.readAt)), None)
    && (f.announcedIn.Some? ==> s.calls[c].phase == Added(f.readAt, at))
  }

  lemma AddOrLose(start: State, actions: seq<Action>, s: State, c: CallId, user: User, name: string, f: Fate, m: nat, b: nat)
    returns (more: seq<Action>, t: State)
    requires Reaches(start, actions, s) && AboutToAdd(s, c, user, name, f.readAt) && Within(s, m, b) && |name| <= b
    ensures Reaches(start, more, t) && t.index == s.index && Within(t, m, b) && |t.server| == |s.server| + 1
    ensures AddedBy(t, c, |s.server|, user, name, f)
    ensures forall d :: d in s.calls && d != c ==> d in t.calls && t.calls[d] == s.calls[d]
    ensures forall k :: 0 <= k < |s.server| ==> t.server[k] == s.server[k]
  {
    hide Reaches;
    more, t := Extend(start, actions, s, if f.announcedIn.Some? then Add(c) else AddThenLose(c));
  }

  /** The two announcements, in the order of their generations. */
  lemma AnnounceBoth(start: State, actions: seq<Action>, s: State, c: CallId, d: CallId, j: nat, k: nat,
                     user: User, name: string, f: Fate, g: Fate, m: nat, b: nat)
    returns (more: seq<Action>, t: State)
    requires Reaches(start, actions, s) && Within(s, m, b) && c != d && j != k && Compatible(f, g)
    requires s.index <= f.readAt || s.index <= g.readAt
    requires AddedBy(s, c, j, user, name, f) && AddedBy(s, d, k, user, name, g)
    requires f.announcedIn.Some? && g.announcedIn.Some? ==> f.announcedIn.value < g.announcedIn.value
    ensures Reaches(start, more, t) && Duplicated(t, user, name, f, g)
  {
    hide Reaches;
    var m', b' := m, b;
    more, t := actions, s;
    if f.announcedIn.Some? {
      more, t, m', b' := AnnounceIn(start, more, t, c, f.announcedIn.value, user, m', b');
    }
    if g.announcedIn.Some? {
      more, t, m', b' := AnnounceIn(start, more, t, d, g.announcedIn.value, user, m', b');
    }
    assert SameName(t.server[j], user, name) && SameName(t.server[k], user, name);
    assert HasFate(t.server[j], f) && HasFate(t.server[k], g);
  }

  lemma DuplicatedEitherWay(s: State, user: User, name: string, f: Fate, g: Fate)
    requires Duplicated(s, user, name, f, g)
    ensures Duplicated(s, user, name, g, f)
  {
    var j, k :| 0 <= j < |s.server| && 0 <= k < |s.server| && j != k
      && SameName(s.server[j], user, name) && SameName(s.server[k], user, name)
      && HasFate(s.server[j], f) && HasFate(s.server[k], g);
    assert SameName(s.server[k], user, name) && HasFate(s.server[k], g);
  }

  /** Every compatible pair of fates comes about, the earlier reader first. */
  lemma CompatibleHappens(start: State, user: User, name: string, f: Fate, g: Fate) returns (actions: seq<Action>, s: State)
    requires Init(start) && IsFree(start, user, name) && Compatible(f, g) && f.readAt <= g.readAt
    ensures Reaches(start, actions, s) && Duplicated(s, user, name, f, g)
  {
    hide Reaches, Duplicated, Init;
    var m, b;
    actions, s, m, b := BothAboutToAdd(start, user, name, f.readAt, g.readAt);
    var j := |s.server|;
    if |name| > b { b := |name|; }
    actions, s := AddOrLose(start, actions, s, 0, user, name, f, m, b);
    actions, s := AddOrLose(start, actions, s, 1, user, name, g, m, b);
    if f.announcedIn.Some? && g.announcedIn.Some? && g.announcedIn.value < f.announcedIn.value {
      actions, s := AnnounceBoth(start, actions, s, 1, 0, j + 1, j, user, name, g, f, m, b);
      DuplicatedEitherWay(s, user, name, g, f);
    } else {
      actions, s := AnnounceBoth(start, actions, s, 0, 1, j, j + 1, user, name, f, g, m, b);
    }
  }

  lemma DuplicatesAreCompatible(start: State, actions: seq<Action>, s: State, user: User, name: string, f: Fate, g: Fate)
    requires Init(start) && Reaches(start, actions, s) && Duplicated(s, user, name, f, g)
    ensures Compatible(f, g)
  {
    RunKeepsInv(start, actions, s);
    var j, k :| 0 <= j < |s.server| && 0 <= k < |s.server| && j != k
      && SameName(s.server[j], user, name) && SameName(s.server[k], user, name)
      && HasFate(s.server[j], f) && HasFate(s.server[k], g);
    assert !AnnouncedBy(s.server[j], s.server[k].origin.value.readAt);
    assert !AnnouncedBy(s.server[k], s.server[j].origin.value.readAt);
    assert ApartIn(s.server[j], s.server[k]);
  }

  ghost predicate CanDuplicate(start: State, user: User, name: string, f: Fate, g: Fate) {
    exists actions, s :: Reaches(start, actions, s) && Duplicated(s, user, name, f, g)
  }

  /** The projects that were there before the process stay as they are. */
  lemma {:induction false} OldProjectsStay(start: State, actions: seq<Action>, s: State)
    requires Init(start) && Reaches(start, actions, s)
    ensures |start.server| <= |s.server| && forall k :: 0 <= k < |start.server| ==> s.server[k] == start.server[k]
    decreases |actions|
  {
    hide Inv, Coherent, ProjectsOf;
    if actions != [] {
      var init, last := actions[..|actions| - 1], actions[|actions| - 1];
      var t :| Reaches(start, init, t) && Enabled(t, last) && s == Next(t, last);
      OldProjectsStay(start, init, t);
      if last.Bump? {
        RunKeepsInv(start, init, t);
        BumpIsOfACreation(t, last.c);
      }
    }
  }

  lemma BumpIsOfACreation(s: State, c: CallId)
    requires Inv(s) && Enabled(s, Bump(c))
    ensures s.server[s.calls[c].phase.at].origin.Some?
  {
    assert CallOk(s.server, s.index, c, s.calls[c]);
  }

  /** A project that was there before keeps every call from adding another of its name. */
  lemma OldProjectIsFound(start: State, actions: seq<Action>, s: State, user: User, name: string, f: Fate, g: Fate)
    requires Init(start) && Reaches(start, actions, s) && Duplicated(s, user, name, f, g)
    ensures IsFree(start, user, name)
  {
    OldProjectsStay(start, actions, s);
    RunKeepsInv(start, actions, s);
    var j :| 0 <= j < |s.server| && SameName(s.server[j], user, name) && HasFate(s.server[j], f);
    forall k | 0 <= k < |start.server| ensures !SameName(start.server[k], user, name) {
      assert s.server[k] == start.server[k] && s.server[k].announcedIn == Some(0);
      assert k != j;
      assert AnnouncedBy(s.server[k], s.server[j].origin.value.readAt);
    }
  }

  /**
  For every start and every pair of creations, described by the generations their calls read and the
  ones they were announced in, if they were: some run leaves two projects of one name with these fates
  if and only if no project of that name was there before and neither call read the counter once the
  other project was announced.
  */
  lemma DuplicateIff(start: State, user: User, name: string, f: Fate, g: Fate)
    requires Init(start)
    ensures CanDuplicate(start, user, name, f, g) <==> IsFree(start, user, name) && Compatible(f, g)
  {
    hide Reaches, Duplicated, Init, Compatible, IsFree;
    if actions, s :| Reaches(start, actions, s) && Duplicated(s, user, name, f, g) {
      DuplicatesAreCompatible(start, actions, s, user, name, f, g);
      OldProjectIsFound(start, actions, s, user, name, f, g);
    }
    if IsFree(start, user, name) && Compatible(f, g) {
      if f.readAt <= g.readAt {
        var actions, s := CompatibleHappens(start, user, name, f, g);
      } else {
        CompatibleEitherWay(f, g);
        var actions, s := CompatibleHappens(start, user, name, g, f);
        DuplicatedEitherWay(s, user, name, g, f);
      }
    }
  }

  lemma CompatibleEitherWay(f: Fate, g: Fate)
    requires Compatible(f, g)
    ensures Compatible(g, f)
  {
  }

  /******* Two ways to a second project *******/

  /** The promise "never a second one" fails for calls that overlap: each may list before the other adds. */
  lemma OverlappingCallsDuplicate(start: State, user: User, name: string) returns (actions: seq<Action>, s: State)
    requires Init(start) && IsFree(start, user, name)
    ensures Reaches(start, actions, s) && Duplicated(s, user, name, Fate(0, Some(1)), Fate(0, Some(2)))
  {
    actions, s := CompatibleHappens(start, user, name, Fate(0, Some(1)), Fate(0, Some(2)));
  }

  /** A call for `name` whose project is added while the reply is lost. */
  function LosesReply(user: User, name: string): seq<Action> {
    [Begin(0, user, name), ReadIndex(0), Fetch(0), Store(0), Find(0), AddThenLose(0)]
  }

  /** A call that starts after that: the memo answers it, with the list made before. */
  function ReadsStaleList(user: User, name: string): seq<Action> {
    [Begin(1, user, name), ReadIndex(1), Hit(1), Find(1), Add(1), Bump(1)]
  }

  lemma LostReply(start: State, user: User, name: string) returns (s: State)
    requires Init(start) && start.server == []
    ensures Reaches(start, LosesReply(user, name), s)
    ensures s == State(start.url, [Entry(user, Project(0, name), Some(Origin(0, 0)), None)], 0,
                       map[CacheKey(user, 0, start.url) := Listing([], 0)], map[0 := Call(user, name, Failed)])
  {
    hide Reaches;
    var actions;
    actions, s := Extend(start, [], start, Begin(0, user, name));
    actions, s := Extend(start, actions, s, ReadIndex(0));
    actions, s := Extend(start, actions, s, Fetch(0));
    actions, s := Extend(start, actions, s, Store(0));
    actions, s := Extend(start, actions, s, Find(0));
    actions, s := Extend(start, actions, s, AddThenLose(0));
    assert actions == LosesReply(user, name);
  }

  /** It also fails for calls one after the other, when the first adds its project but never hears of it. */
  lemma LostReplyDuplicates(start: State, user: User, name: string) returns (s: State)
    requires Init(start) && start.server == []
    ensures Reaches(start, LosesReply(user, name) + ReadsStaleList(user, name), s)
    ensures Duplicated(s, user, name, Fate(0, None), Fate(0, Some(1)))
  {
    hide Reaches, LosesReply;
    s := LostReply(start, user, name);
    var actions := LosesReply(user, name);
    actions, s := Extend(start, actions, s, Begin(1, user, name));
    actions, s := Extend(start, actions, s, ReadIndex(1));
    actions, s := Extend(start, actions, s, Hit(1));
    actions, s := Extend(start, actions, s, Find(1));
    actions, s := Extend(start, actions, s, Add(1));
    actions, s := Extend(start, actions, s, Bump(1));
    assert actions == LosesReply(user, name) + ReadsStaleList(user, name);
    assert SameName(s.server[0], user, name) && SameName(s.server[1], user, name);
    assert HasFate(s.server[0], Fate(0, None)) && HasFate(s.server[1], Fate(0, Some(1)));
  }
}
