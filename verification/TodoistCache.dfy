/**
The Todoist project cache as a protocol. Calls to `get_or_create_project` interleave at every
`await`: each reads the generation counter into its cache key, takes the cached list or fetches one,
and, if the name is missing, adds the project and then bumps the counter.

Entries carry two history values: the generation read by the call that added them, and the
generation their bump announced them in.
*/
module TodoistCache {
  import opened Wrappers
  import opened Decimal

  type User = u: string | |u| == 36 witness seq(36, _ => '0')
  type CallId = nat

  datatype Project = Project(id: nat, name: string)

  datatype Origin = Origin(call: CallId, readAt: nat)

  /** A project on the Todoist side; `origin` is empty for projects that were there before the process. */
  datatype Entry = Entry(user: User, project: Project, origin: Option<Origin>, announcedIn: Option<nat>)

  /** A response to "list the projects"; `seen` is how much of the server's log it reflects. */
  datatype Listing = Listing(projects: seq<Project>, seen: nat)

  datatype Phase =
    | Started
    | Keyed(gen: nat)
    | Fetched(gen: nat, listing: Listing)
    | Listed(gen: nat, listing: Listing)
    | Creating(gen: nat, listing: Listing)
    | Added(gen: nat, at: nat)
    | Returned(id: nat)
    | Failed

  datatype Call = Call(user: User, name: string, phase: Phase)

  datatype State = State(
    url: string, server: seq<Entry>, index: nat, cache: map<string, Listing>, calls: map<CallId, Call>)

  /******* Keys *******/

  /** The memo key: user, generation and base URL written one after the other. */
  function CacheKey(user: User, gen: nat, url: string): string {
    user + Digits(gen) + url
  }

  predicate IsUrl(url: string) {
    url != "" && !IsDigit(url[0])
  }

  lemma KeysDiffer(u: User, g: nat, v: User, h: nat, s: string, t: string)
    requires IsUrl(s) && IsUrl(t) && CacheKey(u, g, s) == CacheKey(v, h, t)
    ensures u == v && g == h && s == t
  {
    var x := CacheKey(u, g, s);
    assert x == u + (Digits(g) + s) == v + (Digits(h) + t);
    assert x[..36] == u && x[..36] == v && x[36..] == Digits(g) + s && x[36..] == Digits(h) + t;
    DigitsThenText(g, h, s, t);
  }

  /******* Steps *******/

  function ProjectsOf(user: User, entries: seq<Entry>): seq<Project> {
    if entries == [] then []
    else
      ProjectsOf(user, entries[..|entries| - 1]) +
      if entries[|entries| - 1].user == user then [entries[|entries| - 1].project] else []
  }

  predicate HasName(projects: seq<Project>, name: string) {
    exists p :: p in projects && p.name == name
  }

  /** The first project of that name, as `iter().find` picks it. */
  function FindName(projects: seq<Project>, name: string): (p: Project)
    requires HasName(projects, name)
    ensures p in projects && p.name == name
    ensures exists k :: 0 <= k < |projects| && projects[k] == p && forall j :: 0 <= j < k ==> projects[j].name != name
  {
    if projects[0].name == name then projects[0] else FindName(projects[1..], name)
  }

  datatype Action =
    | Begin(c: CallId, user: User, name: string)
    | ReadIndex(c: CallId)
    | Hit(c: CallId)
    | Fetch(c: CallId)
    | Store(c: CallId)
    | Find(c: CallId)
    | Add(c: CallId)
    | AddThenLose(c: CallId)
    | Fail(c: CallId)
    | Bump(c: CallId)
    | Expire(key: string)

  predicate In(s: State, c: CallId) {
    c in s.calls
  }

  predicate Enabled(s: State, a: Action) {
    match a
    case Begin(c, _, _) => c !in s.calls
    case ReadIndex(c) => In(s, c) && s.calls[c].phase.Started?
    case Hit(c) => In(s, c) && s.calls[c].phase.Keyed? && CacheKey(s.calls[c].user, s.calls[c].phase.gen, s.url) in s.cache
    case Fetch(c) => In(s, c) && s.calls[c].phase.Keyed?
    case Store(c) => In(s, c) && s.calls[c].phase.Fetched?
    case Find(c) => In(s, c) && s.calls[c].phase.Listed?
    case Add(c) => In(s, c) && s.calls[c].phase.Creating?
    case AddThenLose(c) => In(s, c) && s.calls[c].phase.Creating?
    case Fail(c) => In(s, c) && !s.calls[c].phase.Added?
    case Bump(c) => In(s, c) && s.calls[c].phase.Added? && s.calls[c].phase.at < |s.server|
    case Expire(_) => true
  }

  function Move(s: State, c: CallId, phase: Phase): State
    requires In(s, c)
  {
    s.(calls := s.calls[c := s.calls[c].(phase := phase)])
  }

  function NewEntry(s: State, c: CallId): Entry
    requires In(s, c) && s.calls[c].phase.Creating?
  {
    Entry(s.calls[c].user, Project(|s.server|, s.calls[c].name), Some(Origin(c, s.calls[c].phase.gen)), None)
  }

  function Next(s: State, a: Action): State
    requires Enabled(s, a)
  {
    match a
    case Begin(c, user, name) => s.(calls := s.calls[c := Call(user, name, Started)])
    // The memo's `convert` expression runs first: the generation is fixed before anything is awaited.
    case ReadIndex(c) => Move(s, c, Keyed(s.index))
    case Hit(c) =>
      var gen := s.calls[c].phase.gen;
      Move(s, c, Listed(gen, s.cache[CacheKey(s.calls[c].user, gen, s.url)]))
    // Missing or expired entry: the list is read from the server at some point of the request.
    case Fetch(c) =>
      Move(s, c, Fetched(s.calls[c].phase.gen, Listing(ProjectsOf(s.calls[c].user, s.server), |s.server|)))
    // The memo holds a single entry.
    case Store(c) =>
      var Fetched(gen, listing) := s.calls[c].phase;
      Move(s, c, Listed(gen, listing)).(cache := map[CacheKey(s.calls[c].user, gen, s.url) := listing])
    case Find(c) =>
      var Listed(gen, listing) := s.calls[c].phase;
      if HasName(listing.projects, s.calls[c].name)
      then Move(s, c, Returned(FindName(listing.projects, s.calls[c].name).id))
      else Move(s, c, Creating(gen, listing))
    case Add(c) =>
      Move(s, c, Added(s.calls[c].phase.gen, |s.server|)).(server := s.server + [NewEntry(s, c)])
    // The server added the project but the caller saw an error: no bump follows.
    case AddThenLose(c) => Move(s, c, Failed).(server := s.server + [NewEntry(s, c)])
    case Fail(c) => Move(s, c, Failed)
    case Bump(c) =>
      var at := s.calls[c].phase.at;
      Move(s, c, Returned(at)).(
        index := s.index + 1, server := s.server[at := s.server[at].(announcedIn := Some(s.index + 1))])
    case Expire(key) => s.(cache := s.cache - {key})
  }

  /******* The invariant *******/

  /** Announced no later than `gen`. */
  ghost predicate AnnouncedBy(e: Entry, gen: nat) {
    e.announcedIn.Some? && e.announcedIn.value <= gen
  }

  /** A list obtained under generation `gen` shows everything announced up to that generation. */
  ghost predicate Coherent(server: seq<Entry>, index: nat, user: User, gen: nat, l: Listing) {
    && gen <= index && l.seen <= |server|
    && l.projects == ProjectsOf(user, server[..l.seen])
    && forall k :: 0 <= k < |server| && AnnouncedBy(server[k], gen) ==> k < l.seen
  }

  ghost predicate SameName(e: Entry, user: User, name: string) {
    e.user == user && e.project.name == name
  }

  ghost predicate ServerOk(server: seq<Entry>, index: nat) {
    forall k :: 0 <= k < |server| ==>
      && server[k].project.id == k
      && (server[k].announcedIn.Some? ==> server[k].announcedIn.value <= index)
      && (server[k].origin.Some? ==> server[k].origin.value.readAt <= index)
      && (server[k].origin.Some? && server[k].announcedIn.Some? ==> server[k].origin.value.readAt < server[k].announcedIn.value)
      && (server[k].origin.None? ==> server[k].announcedIn == Some(0))
  }

  ghost predicate ApartIn(e: Entry, f: Entry) {
    e.origin.Some? && f.origin.Some? && e.announcedIn.Some? ==> e.announcedIn != f.announcedIn
  }

  /** Every creation is announced in a generation of its own. */
  ghost predicate AnnouncedApart(server: seq<Entry>) {
    forall j, k :: 0 <= j < |server| && 0 <= k < |server| && j != k ==> ApartIn(server[j], server[k])
  }

  /** No call that read the counter after a project was announced has added another of that name. */
  ghost predicate NoSecond(server: seq<Entry>) {
    forall j, k :: 0 <= j < |server| && 0 <= k < |server| && j != k
      && SameName(server[j], server[k].user, server[k].project.name) && server[k].origin.Some?
      ==> !AnnouncedBy(server[j], server[k].origin.value.readAt)
  }

  ghost predicate CacheOk(s: State) {
    forall u: User, g: nat :: CacheKey(u, g, s.url) in s.cache
      ==> Coherent(s.server, s.index, u, g, s.cache[CacheKey(u, g, s.url)])
  }

  ghost predicate CallOk(server: seq<Entry>, index: nat, c: CallId, call: Call) {
    match call.phase
    case Started => true
    case Keyed(gen) => gen <= index
    case Fetched(gen, l) => Coherent(server, index, call.user, gen, l)
    case Listed(gen, l) => Coherent(server, index, call.user, gen, l)
    case Creating(gen, l) => Coherent(server, index, call.user, gen, l) && !HasName(l.projects, call.name)
    case Added(gen, at) =>
      at < |server| && SameName(server[at], call.user, call.name)
      && server[at].origin == Some(Origin(c, gen)) && server[at].announcedIn.None?
    case Returned(id) => id < |server| && SameName(server[id], call.user, call.name)
    case Failed => true
  }

  ghost predicate Inv(s: State) {
    && IsUrl(s.url) && ServerOk(s.server, s.index) && NoSecond(s.server) && AnnouncedApart(s.server) && CacheOk(s)
    && forall c :: c in s.calls ==> CallOk(s.server, s.index, c, s.calls[c])
  }

  /** A process starts with an empty memo, no calls, and whatever projects exist already. */
  ghost predicate Init(s: State) {
    && IsUrl(s.url) && s.index == 0 && s.cache == map[] && s.calls == map[]
    && forall k :: 0 <= k < |s.server| ==> s.server[k] == Entry(s.server[k].user, Project(k, s.server[k].project.name), None, Some(0))
  }

  lemma InitOk(s: State)
    requires Init(s)
    ensures Inv(s)
  {
  }

  /******* Every step keeps it *******/

  lemma {:induction false} ProjectsIgnoreHistory(user: User, es: seq<Entry>, fs: seq<Entry>)
    requires |es| == |fs| && forall k :: 0 <= k < |es| ==> es[k].user == fs[k].user && es[k].project == fs[k].project
    ensures ProjectsOf(user, es) == ProjectsOf(user, fs)
    decreases |es|
  {
    if es != [] { ProjectsIgnoreHistory(user, es[..|es| - 1], fs[..|fs| - 1]); }
  }

  lemma {:induction false} ProjectsListed(user: User, es: seq<Entry>, p: Project)
    ensures p in ProjectsOf(user, es) <==> exists k :: 0 <= k < |es| && es[k].user == user && es[k].project == p
    decreases |es|
  {
    if es != [] {
      var init, last := es[..|es| - 1], es[|es| - 1];
      ProjectsListed(user, init, p);
      if k :| 0 <= k < |es| && es[k].user == user && es[k].project == p {
        if k < |init| { assert init[k].user == user && init[k].project == p; }
      }
      if k :| 0 <= k < |init| && init[k].user == user && init[k].project == p {
        assert es[k].user == user && es[k].project == p;
      }
      if last.user == user && last.project == p { assert es[|es| - 1].user == user; }
    }
  }

  lemma CoherentAfterAdd(server: seq<Entry>, index: nat, user: User, gen: nat, l: Listing, e: Entry)
    requires Coherent(server, index, user, gen, l) && e.announcedIn.None?
    ensures Coherent(server + [e], index, user, gen, l)
  {
    assert (server + [e])[..l.seen] == server[..l.seen];
  }

  function Announced(server: seq<Entry>, at: nat, gen: nat): seq<Entry>
    requires at < |server|
  {
    server[at := server[at].(announcedIn := Some(gen))]
  }

  lemma CoherentAfterBump(server: seq<Entry>, index: nat, user: User, gen: nat, l: Listing, at: nat)
    requires Coherent(server, index, user, gen, l) && at < |server|
    ensures Coherent(Announced(server, at, index + 1), index + 1, user, gen, l)
  {
    ProjectsIgnoreHistory(user, server[..l.seen], Announced(server, at, index + 1)[..l.seen]);
  }

  lemma CallOkAfterAdd(server: seq<Entry>, index: nat, c: CallId, call: Call, e: Entry)
    requires CallOk(server, index, c, call) && e.announcedIn.None?
    ensures CallOk(server + [e], index, c, call)
  {
    match call.phase
    case Fetched(gen, l) => CoherentAfterAdd(server, index, call.user, gen, l, e);
    case Listed(gen, l) => CoherentAfterAdd(server, index, call.user, gen, l, e);
    case Creating(gen, l) => CoherentAfterAdd(server, index, call.user, gen, l, e);
    case _ =>
  }

  lemma CallOkAfterBump(server: seq<Entry>, index: nat, c: CallId, call: Call, at: nat)
    requires CallOk(server, index, c, call) && at < |server|
    requires server[at].origin.Some? && server[at].origin.value.call != c
    ensures CallOk(Announced(server, at, index + 1), index + 1, c, call)
  {
    match call.phase
    case Fetched(gen, l) => CoherentAfterBump(server, index, call.user, gen, l, at);
    case Listed(gen, l) => CoherentAfterBump(server, index, call.user, gen, l, at);
    case Creating(gen, l) => CoherentAfterBump(server, index, call.user, gen, l, at);
    case _ =>
  }

  lemma SeenIsListed(server: seq<Entry>, index: nat, user: User, gen: nat, l: Listing, name: string, j: nat)
    requires Coherent(server, index, user, gen, l) && j < l.seen && SameName(server[j], user, name)
    ensures HasName(l.projects, name)
  {
    ProjectsListed(user, server[..l.seen], server[j].project);
    assert server[..l.seen][j].user == user;
  }

  /** A list without the name shows that no project of that name was announced by its generation. */
  lemma MissingMeansUnannounced(server: seq<Entry>, index: nat, user: User, gen: nat, l: Listing, name: string, j: nat)
    requires Coherent(server, index, user, gen, l) && !HasName(l.projects, name)
    requires j < |server| && SameName(server[j], user, name)
    ensures l.seen <= j && !AnnouncedBy(server[j], gen)
  {
    if j < l.seen { SeenIsListed(server, index, user, gen, l, name, j); }
  }

  lemma NoSecondAfterAdd(s: State, c: CallId)
    requires Inv(s) && c in s.calls && s.calls[c].phase.Creating?
    ensures NoSecond(s.server + [NewEntry(s, c)])
  {
    var call, server := s.calls[c], s.server + [NewEntry(s, c)];
    forall j, k | 0 <= j < |server| && 0 <= k < |server| && j != k
      && SameName(server[j], server[k].user, server[k].project.name) && server[k].origin.Some?
      ensures !AnnouncedBy(server[j], server[k].origin.value.readAt)
    {
      if k == |s.server| {
        MissingMeansUnannounced(s.server, s.index, call.user, call.phase.gen, call.phase.listing, call.name, j);
      } else if j < |s.server| {
        assert !AnnouncedBy(s.server[j], s.server[k].origin.value.readAt);
      }
    }
  }

  lemma AddKeepsServer(s: State, c: CallId)
    requires Inv(s) && c in s.calls && s.calls[c].phase.Creating?
    ensures ServerOk(s.server + [NewEntry(s, c)], s.index)
    ensures forall u: User, g: nat :: CacheKey(u, g, s.url) in s.cache
              ==> Coherent(s.server + [NewEntry(s, c)], s.index, u, g, s.cache[CacheKey(u, g, s.url)])
    ensures forall d :: d in s.calls ==> CallOk(s.server + [NewEntry(s, c)], s.index, d, s.calls[d])
  {
    var e := NewEntry(s, c);
    assert CallOk(s.server, s.index, c, s.calls[c]);
    forall u: User, g: nat | CacheKey(u, g, s.url) in s.cache
      ensures Coherent(s.server + [e], s.index, u, g, s.cache[CacheKey(u, g, s.url)])
    {
      CoherentAfterAdd(s.server, s.index, u, g, s.cache[CacheKey(u, g, s.url)], e);
    }
    forall d | d in s.calls ensures CallOk(s.server + [e], s.index, d, s.calls[d]) {
      CallOkAfterAdd(s.server, s.index, d, s.calls[d], e);
    }
  }

  lemma BumpKeepsServer(s: State, c: CallId)
    requires Inv(s) && Enabled(s, Bump(c))
    ensures var t := Next(s, Bump(c));
            && ServerOk(t.server, t.index) && CacheOk(t)
            && (forall d :: d in t.calls ==> CallOk(t.server, t.index, d, t.calls[d]))
  {
    hide Coherent, NoSecond, AnnouncedApart, CacheKey;
    var at, t := s.calls[c].phase.at, Next(s, Bump(c));
    assert t.server == Announced(s.server, at, s.index + 1);
    assert CallOk(s.server, s.index, c, s.calls[c]);
    forall u: User, g: nat | CacheKey(u, g, s.url) in s.cache
      ensures Coherent(t.server, t.index, u, g, s.cache[CacheKey(u, g, s.url)])
    {
      CoherentAfterBump(s.server, s.index, u, g, s.cache[CacheKey(u, g, s.url)], at);
    }
    forall d | d in s.calls && d != c ensures CallOk(t.server, t.index, d, s.calls[d]) {
      CallOkAfterBump(s.server, s.index, d, s.calls[d], at);
    }
  }

  lemma StoreKeepsCache(s: State, c: CallId)
    requires Inv(s) && Enabled(s, Store(c))
    ensures CacheOk(Next(s, Store(c)))
  {
    var t, call := Next(s, Store(c)), s.calls[c];
    forall u: User, g: nat | CacheKey(u, g, s.url) in t.cache
      ensures Coherent(s.server, s.index, u, g, t.cache[CacheKey(u, g, s.url)])
    {
      KeysDiffer(u, g, call.user, call.phase.gen, s.url, s.url);
      assert CallOk(s.server, s.index, c, call);
    }
  }

  lemma FindKeepsCall(s: State, c: CallId)
    requires Inv(s) && Enabled(s, Find(c))
    ensures CallOk(s.server, s.index, c, Next(s, Find(c)).calls[c])
  {
    var call := s.calls[c];
    assert CallOk(s.server, s.index, c, call);
    var l := call.phase.listing;
    if HasName(l.projects, call.name) {
      var p := FindName(l.projects, call.name);
      ProjectsListed(call.user, s.server[..l.seen], p);
      var k :| 0 <= k < l.seen && s.server[..l.seen][k].user == call.user && s.server[..l.seen][k].project == p;
      assert s.server[k].project.id == k;
    }
  }

  lemma CallStepKeepsInv(s: State, a: Action)
    requires Inv(s) && Enabled(s, a)
    requires !a.Add? && !a.AddThenLose? && !a.Bump? && !a.Expire?
    ensures Inv(Next(s, a))
  {
    var c := a.c;
    if c in s.calls { assert CallOk(s.server, s.index, c, s.calls[c]); }
    if a.Fetch? { assert s.server[..|s.server|] == s.server; }
    if a.Find? { FindKeepsCall(s, c); }
    if a.Store? { StoreKeepsCache(s, c); }
  }

  lemma AddStepKeepsInv(s: State, a: Action)
    requires Inv(s) && Enabled(s, a) && (a.Add? || a.AddThenLose?)
    ensures Inv(Next(s, a))
  {
    hide Coherent, SameName, NoSecond, CacheKey;
    AddKeepsServer(s, a.c);
    NoSecondAfterAdd(s, a.c);
    AddKeepsApart(s, a.c);
    AddedCallIsOk(s, a.c);
  }

  lemma AddKeepsApart(s: State, c: CallId)
    requires Inv(s) && c in s.calls && s.calls[c].phase.Creating?
    ensures AnnouncedApart(s.server + [NewEntry(s, c)])
  {
    hide Coherent, CacheKey, NoSecond;
    assert CallOk(s.server, s.index, c, s.calls[c]);
  }

  lemma AddedCallIsOk(s: State, c: CallId)
    requires c in s.calls && s.calls[c].phase.Creating?
    ensures CallOk(s.server + [NewEntry(s, c)], s.index, c, Call(s.calls[c].user, s.calls[c].name, Added(s.calls[c].phase.gen, |s.server|)))
  {
  }

  lemma BumpStepKeepsInv(s: State, c: CallId)
    requires Inv(s) && Enabled(s, Bump(c))
    ensures Inv(Next(s, Bump(c)))
  {
    BumpKeepsServer(s, c);
  }

  lemma StepKeepsInv(s: State, a: Action)
    requires Inv(s) && Enabled(s, a)
    ensures Inv(Next(s, a))
  {
    if a.Add? || a.AddThenLose? {
      AddStepKeepsInv(s, a);
    } else if a.Bump? {
      BumpStepKeepsInv(s, a.c);
    } else if !a.Expire? {
      CallStepKeepsInv(s, a);
    }
  }

  /******* Whole runs *******/

  /** `s` is where the run of `actions` from `start` ends. */
  ghost predicate Reaches(start: State, actions: seq<Action>, s: State)
    decreases |actions|
  {
    if actions == [] then s == start
    else
      var init, last := actions[..|actions| - 1], actions[|actions| - 1];
      exists t :: Reaches(start, init, t) && Enabled(t, last) && s == Next(t, last)
  }

  lemma {:induction false} RunKeepsInv(start: State, actions: seq<Action>, s: State)
    requires Init(start) && Reaches(start, actions, s)
    ensures Inv(s)
    decreases |actions|
  {
    if actions == [] {
    } else {
      var init, last := actions[..|actions| - 1], actions[|actions| - 1];
      var t :| Reaches(start, init, t) && Enabled(t, last) && s == Next(t, last);
      RunKeepsInv(start, init, t);
      StepKeepsInv(t, last);
    }
  }

  /**
  In every interleaving: a call that read the counter after a project of its user and name was
  announced is never about to add one, and once it has its list, the project is in it.
  */
  lemma LaterCallFindsProject(start: State, actions: seq<Action>, s: State, c: CallId, j: nat)
    requires Init(start) && Reaches(start, actions, s) && c in s.calls && j < |s.server|
    requires SameName(s.server[j], s.calls[c].user, s.calls[c].name)
    ensures s.calls[c].phase.Creating? || s.calls[c].phase.Added? ==> !AnnouncedBy(s.server[j], s.calls[c].phase.gen)
    ensures s.calls[c].phase.Listed? && AnnouncedBy(s.server[j], s.calls[c].phase.gen) ==>
      s.server[j].project in s.calls[c].phase.listing.projects && HasName(s.calls[c].phase.listing.projects, s.calls[c].name)
  {
    RunKeepsInv(start, actions, s);
    var call := s.calls[c];
    assert CallOk(s.server, s.index, c, call);
    if call.phase.Creating? {
      MissingMeansUnannounced(s.server, s.index, call.user, call.phase.gen, call.phase.listing, call.name, j);
    } else if call.phase.Listed? && AnnouncedBy(s.server[j], call.phase.gen) {
      var l := call.phase.listing;
      ProjectsListed(call.user, s.server[..l.seen], s.server[j].project);
      assert s.server[..l.seen][j].user == call.user;
    }
  }

  /** Two creations whose calls overlapped: each read the counter before the other was announced. */
  ghost predicate Overlapped(e: Entry, f: Entry) {
    && e.origin.Some? && f.origin.Some? && e.announcedIn.Some? && f.announcedIn.Some?
    && e.origin.value.readAt < f.announcedIn.value && f.origin.value.readAt < e.announcedIn.value
  }

  /**
  In every interleaving: two projects of one name, one of them created by a call, were both created by
  calls, and these overlapped or one of the two was never announced.
  */
  lemma DuplicatesOverlap(start: State, actions: seq<Action>, s: State, j: nat, k: nat)
    requires Init(start) && Reaches(start, actions, s) && j < |s.server| && k < |s.server| && j != k
    requires SameName(s.server[j], s.server[k].user, s.server[k].project.name) && s.server[k].origin.Some?
    ensures s.server[j].origin.Some?
    ensures s.server[j].announcedIn.None? || s.server[k].announcedIn.None? || Overlapped(s.server[j], s.server[k])
  {
    RunKeepsInv(start, actions, s);
    assert !AnnouncedBy(s.server[j], s.server[k].origin.value.readAt);
    assert s.server[j].origin.Some? ==> !AnnouncedBy(s.server[k], s.server[j].origin.value.readAt);
  }

  /** What a call returns is a project of its user and name; ids are never reused. */
  lemma ReturnedProjectIsRight(start: State, actions: seq<Action>, s: State, c: CallId)
    requires Init(start) && Reaches(start, actions, s) && c in s.calls && s.calls[c].phase.Returned?
    ensures s.calls[c].phase.id < |s.server| && s.server[s.calls[c].phase.id].project.id == s.calls[c].phase.id
    ensures SameName(s.server[s.calls[c].phase.id], s.calls[c].user, s.calls[c].name)
  {
    RunKeepsInv(start, actions, s);
    assert CallOk(s.server, s.index, c, s.calls[c]);
  }
}
