/**
Electing one worker per cron tick with `SET key value NX EX ttl`: any number of processes attempt the
lock of a tick, a shared clock advances, and keys expire. Times are milliseconds; a key set at `t` for
`ttl` seconds exists before `t + 1000 * ttl`.
*/
module CronElection {
  import opened Wrappers
  import opened Decimal

  /******* Lock keys *******/

  const KEY_PREFIX := "universal-inbox:cron:"

  /** One key per job name and scheduled second. */
  function TickKey(job: string, second: int): string {
    KEY_PREFIX + job + ":" + IntText(second)
  }

  lemma NoColonInNumbers(n: int, i: nat)
    requires i < |IntText(n)|
    ensures IntText(n)[i] != ':'
  {
  }

  lemma LastColon(a: string, x: string, b: string, y: string)
    requires a + ":" + x == b + ":" + y
    requires (forall i :: 0 <= i < |x| ==> x[i] != ':') && (forall i :: 0 <= i < |y| ==> y[i] != ':')
    ensures a == b && x == y
  {
    var s := a + ":" + x;
    assert s[|a|] == ':' && s[|b|] == ':';
    assert s[..|a|] == a && s[..|b|] == b && s[|a| + 1..] == x && s[|b| + 1..] == y;
  }

  /** Distinct jobs or seconds never share a key, whatever characters the job names contain. */
  lemma TickKeysDiffer(job: string, second: int, job': string, second': int)
    requires TickKey(job, second) == TickKey(job', second')
    ensures job == job' && second == second'
  {
    var s, x, y := TickKey(job, second), IntText(second), IntText(second');
    forall i | 0 <= i < |x| ensures x[i] != ':' { NoColonInNumbers(second, i); }
    forall i | 0 <= i < |y| ensures y[i] != ':' { NoColonInNumbers(second', i); }
    LastColon(KEY_PREFIX + job, x, KEY_PREFIX + job', y);
    assert (KEY_PREFIX + job)[|KEY_PREFIX|..] == job && (KEY_PREFIX + job')[|KEY_PREFIX|..] == job';
    IntTextInjective(second, second');
  }

  /******* The lock *******/

  datatype Outcome = Won | Lost | Rejected

  predicate Alive(expiry: map<string, nat>, key: string, now: nat) {
    key in expiry && now < expiry[key]
  }

  /** `SET key NX EX ttl` at time `now`; Redis rejects a zero expiry. */
  function SetNxEx(expiry: map<string, nat>, key: string, ttl: nat, now: nat): (map<string, nat>, Outcome) {
    if ttl == 0 then (expiry, Rejected)
    else if Alive(expiry, key, now) then (expiry, Lost)
    else (expiry[key := now + 1000 * ttl], Won)
  }

  /******* Runs of many workers *******/

  datatype Attempt = Attempt(worker: nat, job: string, second: int, ttl: nat, at: nat, outcome: Outcome)

  /** `pushed` holds the attempts whose winner went on to enqueue its job. */
  datatype State = State(now: nat, expiry: map<string, nat>, log: seq<Attempt>, pushed: set<nat>)

  datatype Action =
    | Advance(elapsed: nat)
    | TryAcquire(worker: nat, job: string, second: int, ttl: nat)
    | Push(attempt: nat)

  predicate Enabled(s: State, a: Action) {
    match a
    case Advance(_) => true
    case TryAcquire(_, _, _, _) => true
    case Push(i) => i < |s.log| && s.log[i].outcome.Won? && i !in s.pushed
  }

  function Next(s: State, a: Action): State
    requires Enabled(s, a)
  {
    match a
    case Advance(elapsed) => s.(now := s.now + elapsed)
    case TryAcquire(worker, job, second, ttl) =>
      var (expiry, outcome) := SetNxEx(s.expiry, TickKey(job, second), ttl, s.now);
      s.(expiry := expiry, log := s.log + [Attempt(worker, job, second, ttl, s.now, outcome)])
    case Push(i) => s.(pushed := s.pushed + {i})
  }

  predicate SameTick(a: Attempt, b: Attempt) {
    a.job == b.job && a.second == b.second
  }

  /** `a` still holds the lock of its tick at time `t`. */
  predicate Holds(a: Attempt, t: nat) {
    a.outcome.Won? && t < a.at + 1000 * a.ttl
  }

  predicate IsWin(log: seq<Attempt>, i: nat) {
    i < |log| && log[i].outcome.Won?
  }

  /** No attempt lies in the future. */
  predicate InPast(log: seq<Attempt>, now: nat) {
    forall i :: 0 <= i < |log| ==> log[i].at <= now
  }

  /** Only a zero TTL is an error; otherwise the attempt loses exactly when the lock is held. */
  predicate IsFair(a: Attempt, held: bool) {
    (a.outcome.Rejected? <==> a.ttl == 0) && (a.ttl > 0 ==> (a.outcome.Lost? <==> held))
  }

  /** An attempt wins exactly when no earlier winner of its tick still holds the lock. */
  predicate Fair(log: seq<Attempt>) {
    forall j :: 0 <= j < |log| ==> IsFair(log[j], Held(log[..j], log[j].job, log[j].second, log[j].at))
  }

  /** Some attempt of the log holds the lock of the tick at time `t`. */
  predicate Held(log: seq<Attempt>, job: string, second: int, t: nat) {
    exists i :: 0 <= i < |log| && log[i].job == job && log[i].second == second && Holds(log[i], t)
  }

  /** The key store says of each tick whether its lock is held. */
  ghost predicate KeysOk(s: State) {
    forall job: string, second: int, t: nat :: t >= s.now ==>
      (Alive(s.expiry, TickKey(job, second), t) <==> Held(s.log, job, second, t))
  }

  ghost predicate Inv(s: State) {
    && InPast(s.log, s.now) && Fair(s.log) && KeysOk(s)
    && (forall i :: i in s.pushed ==> IsWin(s.log, i))
  }

  ghost predicate Init(s: State) {
    s.expiry == map[] && s.log == [] && s.pushed == {}
  }

  lemma InitOk(s: State)
    requires Init(s)
    ensures Inv(s)
  {
  }

  lemma HeldAfter(log: seq<Attempt>, a: Attempt, job: string, second: int, t: nat)
    ensures Held(log + [a], job, second, t) <==>
            Held(log, job, second, t) || (a.job == job && a.second == second && Holds(a, t))
  {
    var more := log + [a];
    if Held(log, job, second, t) {
      var i :| 0 <= i < |log| && log[i].job == job && log[i].second == second && Holds(log[i], t);
      assert more[i] == log[i];
    }
    assert more[|log|] == a;
    if i :| 0 <= i < |more| && more[i].job == job && more[i].second == second && Holds(more[i], t) {
      assert i < |log| ==> more[i] == log[i];
    }
  }

  lemma FairAfter(log: seq<Attempt>, a: Attempt)
    requires Fair(log) && IsFair(a, Held(log, a.job, a.second, a.at))
    ensures Fair(log + [a])
  {
    var more := log + [a];
    forall j | 0 <= j < |more| ensures IsFair(more[j], Held(more[..j], more[j].job, more[j].second, more[j].at))
    {
      if j < |log| { assert more[j] == log[j] && more[..j] == log[..j]; } else { assert more[..j] == log; }
    }
  }

  /** Once a tick's lock is free it stays free until someone takes it. */
  lemma FreeStaysFree(log: seq<Attempt>, job: string, second: int, t: nat, t': nat)
    requires t <= t' && Held(log, job, second, t')
    ensures Held(log, job, second, t)
  {
  }

  lemma AcquireKeepsKeys(s: State, a: Action)
    requires Inv(s) && a.TryAcquire?
    ensures KeysOk(Next(s, a))
  {
    var t := Next(s, a);
    var tried := t.log[|s.log|];
    forall job: string, second: int, time: nat | time >= t.now
      ensures Alive(t.expiry, TickKey(job, second), time) <==> Held(t.log, job, second, time)
    {
      HeldAfter(s.log, tried, job, second, time);
      if TickKey(job, second) == TickKey(a.job, a.second) {
        TickKeysDiffer(job, second, a.job, a.second);
        if Held(s.log, job, second, time) { FreeStaysFree(s.log, job, second, s.now, time); }
      }
      assert Alive(s.expiry, TickKey(job, second), time) <==> Held(s.log, job, second, time);
      assert Alive(s.expiry, TickKey(job, second), s.now) <==> Held(s.log, job, second, s.now);
    }
  }

  lemma StepKeepsInv(s: State, a: Action)
    requires Inv(s) && Enabled(s, a)
    ensures Inv(Next(s, a))
  {
    if a.TryAcquire? {
      AcquireKeepsKeys(s, a);
      assert Alive(s.expiry, TickKey(a.job, a.second), s.now) <==> Held(s.log, a.job, a.second, s.now);
      FairAfter(s.log, Next(s, a).log[|s.log|]);
    }
  }

  ghost predicate Reaches(start: State, actions: seq<Action>, s: State)
    decreases |actions|
  {
    if actions == [] then s == start
    else
      var init, last := actions[..|actions| - 1], actions[|actions| - 1];
      exists t :: Reaches(start, init, t) && Enabled(t, last) && s == Next(t, last)
  }

  lemma {:induction false} RunKeepsInv(start: State, actions: seq<Action>, s: State)
    requires Init(start) && Reaches(start, actions, s)
    ensures Inv(s)
    decreases |actions|
  {
    if actions != [] {
      var init, last := actions[..|actions| - 1], actions[|actions| - 1];
      var t :| Reaches(start, init, t) && Enabled(t, last) && s == Next(t, last);
      RunKeepsInv(start, init, t);
      StepKeepsInv(t, last);
    }
  }

  /**
  In every run and for every attempt: with a positive TTL it is won or lost, and lost exactly when an
  earlier winner of its tick still holds the lock; without one it is an error.
  */
  lemma OutcomeIff(start: State, actions: seq<Action>, s: State, j: nat)
    requires Init(start) && Reaches(start, actions, s) && j < |s.log|
    ensures s.log[j].outcome.Rejected? <==> s.log[j].ttl == 0
    ensures s.log[j].ttl > 0 ==>
      (s.log[j].outcome.Lost? <==>
       exists i :: 0 <= i < j && IsWin(s.log, i) && SameTick(s.log[i], s.log[j]) && s.log[j].at < s.log[i].at + 1000 * s.log[i].ttl)
  {
    RunKeepsInv(start, actions, s);
    var a, before := s.log[j], s.log[..j];
    assert IsFair(a, Held(before, a.job, a.second, a.at));
    if i :| 0 <= i < j && IsWin(s.log, i) && SameTick(s.log[i], a) && a.at < s.log[i].at + 1000 * s.log[i].ttl {
      assert before[i] == s.log[i];
    }
    if i :| 0 <= i < |before| && before[i].job == a.job && before[i].second == a.second && Holds(before[i], a.at) {
      assert IsWin(s.log, i) && SameTick(s.log[i], a);
    }
  }

  /** In every run, two wins of the same tick are at least the first one's TTL apart. */
  lemma WinsAreApart(start: State, actions: seq<Action>, s: State, i: nat, j: nat)
    requires Init(start) && Reaches(start, actions, s) && i < j && IsWin(s.log, i) && IsWin(s.log, j)
    requires SameTick(s.log[i], s.log[j])
    ensures s.log[j].at >= s.log[i].at + 1000 * s.log[i].ttl
  {
    RunKeepsInv(start, actions, s);
    assert !Held(s.log[..j], s.log[j].job, s.log[j].second, s.log[j].at);
    assert s.log[..j][i] == s.log[i] && !Holds(s.log[..j][i], s.log[j].at);
  }

  /** An attempt on the tick that Redis accepted. */
  predicate Tried(log: seq<Attempt>, job: string, second: int, i: nat) {
    i < |log| && log[i].job == job && log[i].second == second && !log[i].outcome.Rejected?
  }

  /** `f` is the first accepted attempt on the tick. */
  ghost predicate IsFirst(log: seq<Attempt>, job: string, second: int, f: nat) {
    Tried(log, job, second, f) && forall i: nat :: Tried(log, job, second, i) ==> f <= i
  }

  ghost predicate OneWinner(log: seq<Attempt>, job: string, second: int) {
    exists i: nat :: Tried(log, job, second, i) && log[i].outcome.Won?
      && forall j: nat :: Tried(log, job, second, j) && log[j].outcome.Won? ==> j == i
  }

  lemma FirstWins(start: State, actions: seq<Action>, s: State, job: string, second: int, f: nat)
    requires Init(start) && Reaches(start, actions, s) && IsFirst(s.log, job, second, f)
    ensures s.log[f].outcome.Won?
  {
    RunKeepsInv(start, actions, s);
    if Held(s.log[..f], job, second, s.log[f].at) {
      var i :| 0 <= i < f && s.log[..f][i].job == job && s.log[..f][i].second == second && Holds(s.log[..f][i], s.log[f].at);
      assert Tried(s.log, job, second, i);
    }
  }

  /**
  Exactly when one worker wins a tick: when every attempt falls within the TTL of the first. The key
  alone does not elect a single winner; an attempt after the key expired wins again.
  */
  lemma OneWinnerIff(start: State, actions: seq<Action>, s: State, job: string, second: int, f: nat)
    requires Init(start) && Reaches(start, actions, s) && IsFirst(s.log, job, second, f)
    ensures OneWinner(s.log, job, second) <==>
            forall j: nat :: Tried(s.log, job, second, j) ==> s.log[j].at < s.log[f].at + 1000 * s.log[f].ttl
  {
    RunKeepsInv(start, actions, s);
    FirstWins(start, actions, s, job, second, f);
    if forall j: nat :: Tried(s.log, job, second, j) ==> s.log[j].at < s.log[f].at + 1000 * s.log[f].ttl {
      forall j: nat | Tried(s.log, job, second, j) && s.log[j].outcome.Won? ensures j == f {
        if f < j { WinsAreApart(start, actions, s, f, j); }
      }
    }
  }

  /**
  When all attempts on a tick fall within the TTL of the first, at most one job is pushed for it.
  */
  lemma AtMostOnePush(start: State, actions: seq<Action>, s: State, job: string, second: int, f: nat, i: nat, j: nat)
    requires Init(start) && Reaches(start, actions, s) && IsFirst(s.log, job, second, f)
    requires forall k: nat :: Tried(s.log, job, second, k) ==> s.log[k].at < s.log[f].at + 1000 * s.log[f].ttl
    requires i in s.pushed && j in s.pushed && i < |s.log| && j < |s.log|
    requires s.log[i].job == job && s.log[i].second == second && SameTick(s.log[i], s.log[j])
    ensures i == j == f
  {
    RunKeepsInv(start, actions, s);
    OneWinnerIff(start, actions, s, job, second, f);
    FirstWins(start, actions, s, job, second, f);
    assert Tried(s.log, job, second, i) && Tried(s.log, job, second, j) && Tried(s.log, job, second, f);
  }

  lemma Extend(start: State, actions: seq<Action>, s: State, a: Action) returns (more: seq<Action>, t: State)
    requires Reaches(start, actions, s) && Enabled(s, a)
    ensures t == Next(s, a) && Reaches(start, more, t)
  {
    more, t := actions + [a], Next(s, a);
    assert more[..|more| - 1] == actions;
  }

  /** A worker that comes to a tick after the key expired wins it a second time, and pushes the job a second time. */
  lemma LateWorkerWinsAgain(job: string, second: int, ttl: nat) returns (start: State, actions: seq<Action>, s: State)
    requires 0 < ttl
    ensures Init(start) && Reaches(start, actions, s)
    ensures IsWin(s.log, 0) && IsWin(s.log, 1) && SameTick(s.log[0], s.log[1]) && s.log[0].worker != s.log[1].worker
    ensures s.log[0].job == job && s.log[0].second == second && s.pushed == {0, 1}
  {
    start := State(0, map[], [], {});
    actions, s := [], start;
    actions, s := Extend(start, actions, s, TryAcquire(1, job, second, ttl));
    actions, s := Extend(start, actions, s, Push(0));
    actions, s := Extend(start, actions, s, Advance(1000 * ttl));
    actions, s := Extend(start, actions, s, TryAcquire(2, job, second, ttl));
    actions, s := Extend(start, actions, s, Push(1));
  }

  /******* The handlers *******/

  datatype Job = RefreshOAuthTokens(minutesBeforeExpiry: int)

  datatype Handled = Ok | Err

  /** Redis as the handlers use it: the lock keys and the job queue. */
  class Redis {
    var now: nat
    var expiry: map<string, nat>
    var queue: seq<Job>

    constructor ()
      ensures now == 0 && expiry == map[] && queue == []
    {
      now, expiry, queue := 0, map[], [];
    }

    /** `try_acquire_cron_tick_lock`. */
    method TryAcquireTickLock(job: string, second: int, ttl: nat) returns (outcome: Outcome)
      modifies this`expiry
      ensures (expiry, outcome) == SetNxEx(old(expiry), TickKey(job, second), ttl, now)
      ensures TickKey(job, second) == "universal-inbox:cron:" + job + ":" + IntText(second)
      ensures outcome.Rejected? <==> ttl == 0
      ensures outcome.Lost? <==> ttl > 0 && Alive(old(expiry), TickKey(job, second), now)
      ensures outcome.Won? ==> forall t :: now <= t ==> (Alive(expiry, TickKey(job, second), t) <==> t < now + 1000 * ttl)
      ensures !outcome.Won? ==> expiry == old(expiry)
      ensures forall key :: key != TickKey(job, second) ==> (Alive(expiry, key, now) <==> Alive(old(expiry), key, now))
    {
      var key := KEY_PREFIX + job + ":" + IntText(second);
      if ttl == 0 { return Rejected; }
      if Alive(expiry, key, now) { return Lost; }
      expiry := expiry[key := now + 1000 * ttl];
      outcome := Won;
    }

    /** `handle_refresh_oauth_tokens_cron_tick`: the winner of the tick, and only the winner, enqueues the job. */
    method HandleRefreshTick(second: int, ttl: nat, minutesBeforeExpiry: int, pushWorks: bool) returns (result: Handled)
      modifies this`expiry, this`queue
      ensures var (keys, outcome) := SetNxEx(old(expiry), TickKey("refresh-oauth-tokens", second), ttl, now);
              && expiry == keys
              && queue == old(queue) + (if outcome.Won? && pushWorks then [RefreshOAuthTokens(minutesBeforeExpiry)] else [])
              && (result.Ok? <==> outcome.Lost? || (outcome.Won? && pushWorks))
      // A worker that comes late to a tick reports no error and enqueues nothing.
      ensures ttl > 0 && Alive(old(expiry), TickKey("refresh-oauth-tokens", second), now) ==>
        result.Ok? && queue == old(queue) && expiry == old(expiry)
      // A worker that comes first enqueues the job, unless the queue fails.
      ensures ttl > 0 && !Alive(old(expiry), TickKey("refresh-oauth-tokens", second), now) && pushWorks ==>
        result.Ok? && queue == old(queue) + [RefreshOAuthTokens(minutesBeforeExpiry)]
      ensures ttl == 0 ==> result.Err? && queue == old(queue)
    {
      var outcome := TryAcquireTickLock("refresh-oauth-tokens", second, ttl);
      match outcome
      case Rejected => return Err;
      case Lost => return Ok;
      case Won =>
        if !pushWorks { return Err; }
        queue := queue + [RefreshOAuthTokens(minutesBeforeExpiry)];
        return Ok;
    }
  }
}
