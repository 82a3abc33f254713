/**
The `vacuum-jobs` cron: completed jobs older than a cutoff are purged from Redis in bounded batches,
while other workers keep completing and enqueuing jobs between the batches.
*/
module JobVacuum {

  type JobId = nat

  /** A member of the done jobs sorted set, scored by its completion time. */
  datatype Done = Done(id: JobId, completedAt: int)

  /** The order of a Redis sorted set: by score, then by member. */
  predicate Before(a: Done, b: Done) {
    a.completedAt < b.completedAt || (a.completedAt == b.completedAt && a.id < b.id)
  }

  predicate Sorted(done: seq<Done>) {
    forall i, j :: 0 <= i < j < |done| ==> Before(done[i], done[j])
  }

  /** The length of the prefix completed at or before the cutoff. */
  function Eligible(done: seq<Done>, cutoff: int): (n: nat)
    ensures n <= |done|
  {
    if done == [] || done[0].completedAt > cutoff then 0 else 1 + Eligible(done[1..], cutoff)
  }

  function Ids(done: seq<Done>): set<JobId> {
    set d | d in done :: d.id
  }

  function Min(a: nat, b: nat): nat {
    if a <= b then a else b
  }

  function Insert(done: seq<Done>, d: Done): seq<Done> {
    if done == [] || Before(d, done[0]) then [d] + done else [done[0]] + Insert(done[1..], d)
  }

  /** What other workers do between two batches. */
  datatype Event = Completed(job: Done) | Enqueued(id: JobId)

  /** The three keys of the queue: the done set, the job data hash and the result hash. */
  datatype Keys = Keys(done: seq<Done>, data: set<JobId>, results: set<JobId>)

  function Happen(k: Keys, e: Event): Keys {
    match e
    case Completed(job) => k.(done := Insert(k.done, job), results := k.results + {job.id})
    case Enqueued(id) => k.(data := k.data + {id})
  }

  function After(k: Keys, events: seq<Event>): Keys {
    if events == [] then k else Happen(After(k, events[..|events| - 1]), events[|events| - 1])
  }

  /** The events before each of the first `n` batches, in order. */
  function Flatten(env: seq<seq<Event>>): seq<Event> {
    if env == [] then [] else Flatten(env[..|env| - 1]) + env[|env| - 1]
  }

  /** The keys without the `n` oldest done jobs. */
  function Purge(k: Keys, n: nat): Keys
    requires n <= |k.done|
  {
    Keys(k.done[n..], k.data - Ids(k.done[..n]), k.results - Ids(k.done[..n]))
  }

  /** Other workers use new ids and complete jobs after the cutoff. */
  predicate Later(k: Keys, cutoff: int, e: Event) {
    match e
    case Completed(job) => job.completedAt > cutoff && job.id !in Ids(k.done)
    case Enqueued(id) => id !in Ids(k.done)
  }

  predicate AllLater(k: Keys, cutoff: int, events: seq<Event>) {
    forall i :: 0 <= i < |events| ==> Later(k, cutoff, events[i])
  }

  /******* The order of the done jobs *******/

  /** The order is one of all jobs: by score first, then by id, and no job is before itself. */
  lemma BeforeIsOrder(a: Done, b: Done, c: Done)
    ensures !Before(a, a) && (a != b ==> (Before(a, b) <==> !Before(b, a)))
    ensures Before(a, b) && Before(b, c) ==> Before(a, c)
    ensures a.completedAt < b.completedAt ==> Before(a, b)
    ensures a.completedAt == b.completedAt && a.id < b.id ==> Before(a, b)
  {
  }

  /** Jobs completed by other workers keep the set sorted. */
  lemma {:induction false} InsertSorts(done: seq<Done>, d: Done)
    requires Sorted(done) && d.id !in Ids(done)
    ensures Sorted(Insert(done, d)) && Ids(Insert(done, d)) == Ids(done) + {d.id}
    decreases |done|
  {
    hide Before;
    if done != [] && !Before(d, done[0]) {
      var rest, first := done[1..], done[0];
      assert forall i :: 0 <= i < |rest| ==> rest[i] == done[i + 1];
      assert Sorted(rest);
      assert Ids(done) == {first.id} + Ids(rest) by { assert done == [first] + rest; }
      InsertSorts(rest, d);
      var more := Insert(rest, d);
      BeforeIsOrder(first, d, d);
      forall j | 0 <= j < |more| ensures Before(first, more[j]) { InsertedIs(rest, d, j); }
      SortedCons(first, more);
      assert Ids([first] + more) == {first.id} + Ids(more);
    } else {
      forall j | 0 <= j < |done| ensures Before(d, done[j]) {
        if j > 0 { BeforeIsOrder(d, done[0], done[j]); }
      }
      SortedCons(d, done);
    }
  }

  lemma {:induction false} InsertedIs(done: seq<Done>, d: Done, j: nat)
    requires j < |Insert(done, d)|
    ensures Insert(done, d)[j] == d || Insert(done, d)[j] in done
    decreases |done|
  {
    hide Before;
    if done != [] && !Before(d, done[0]) && j > 0 { InsertedIs(done[1..], d, j - 1); }
  }

  lemma SortedCons(d: Done, done: seq<Done>)
    requires Sorted(done) && forall j :: 0 <= j < |done| ==> Before(d, done[j])
    ensures Sorted([d] + done)
  {
    hide Before;
  }

  /******* Purging commutes with younger completions *******/

  lemma {:induction false} InsertYoung(done: seq<Done>, d: Done, cutoff: int, n: nat)
    requires n <= Eligible(done, cutoff) && d.completedAt > cutoff
    ensures Eligible(Insert(done, d), cutoff) == Eligible(done, cutoff) && n <= |Insert(done, d)|
    ensures Insert(done, d)[..n] == done[..n] && Insert(done, d)[n..] == Insert(done[n..], d)
    decreases |done|
  {
    if done != [] && !Before(d, done[0]) {
      InsertYoung(done[1..], d, cutoff, if n == 0 || Eligible(done, cutoff) == 0 then 0 else n - 1);
      hide Before;
      assert Insert(done, d)[1..] == Insert(done[1..], d);
      if n > 0 {
        assert Insert(done, d)[n..] == Insert(done[1..], d)[n - 1..] && done[n..] == done[1..][n - 1..];
        assert Insert(done, d)[..n] == [done[0]] + Insert(done[1..], d)[..n - 1] && done[..n] == [done[0]] + done[1..][..n - 1];
      } else {
        assert done[0..] == done;
      }
    }
  }

  lemma {:induction false} EligibleRest(done: seq<Done>, cutoff: int, n: nat)
    requires n <= Eligible(done, cutoff)
    ensures Eligible(done[n..], cutoff) == Eligible(done, cutoff) - n
    decreases n
  {
    if n > 0 {
      EligibleRest(done[1..], cutoff, n - 1);
      assert done[n..] == done[1..][n - 1..];
    } else {
      assert done[0..] == done;
    }
  }

  lemma PurgeOneMore(k: Keys, n: nat)
    requires n < |k.done|
    ensures var p, id := Purge(k, n), k.done[n].id;
            p.done != [] && Purge(k, n + 1) == Keys(p.done[1..], p.data - {id}, p.results - {id})
  {
    assert [k.done[n]] == k.done[n..n + 1];
  }

  lemma PurgeTwice(k: Keys, n: nat, m: nat)
    requires n + m <= |k.done|
    ensures Purge(Purge(k, n), m) == Purge(k, n + m)
  {
  }

  /** An event after a purge is an event before it. */
  lemma HappenAfterPurge(k: Keys, cutoff: int, n: nat, e: Event)
    requires n <= Eligible(k.done, cutoff) && (e.Completed? ==> e.job.completedAt > cutoff)
    requires e.Completed? ==> e.job.id !in Ids(k.done[..n])
    requires e.Enqueued? ==> e.id !in Ids(k.done[..n])
    ensures n <= |Happen(k, e).done| && Happen(Purge(k, n), e) == Purge(Happen(k, e), n)
    ensures Eligible(Happen(k, e).done, cutoff) == Eligible(k.done, cutoff) && Happen(k, e).done[..n] == k.done[..n]
  {
    if e.Completed? { InsertYoung(k.done, e.job, cutoff, n); }
  }

  /** The state of the keys after all events so far and `n` purged jobs. */
  ghost predicate Purged(start: Keys, cutoff: int, seen: seq<Event>, n: nat, k: Keys) {
    var all := After(start, seen);
    && n <= Eligible(start.done, cutoff) && Eligible(all.done, cutoff) == Eligible(start.done, cutoff)
    && all.done[..n] == start.done[..n]
    && k == Purge(all, n)
  }

  lemma OneMoreEvent(start: Keys, cutoff: int, seen: seq<Event>, n: nat, k: Keys, e: Event)
    requires Purged(start, cutoff, seen, n, k) && Later(start, cutoff, e)
    ensures Purged(start, cutoff, seen + [e], n, Happen(k, e))
  {
    assert (seen + [e])[..|seen|] == seen;
    HappenAfterPurge(After(start, seen), cutoff, n, e);
  }

  lemma OneMoreBatch(start: Keys, cutoff: int, seen: seq<Event>, n: nat, k: Keys, m: nat)
    requires Purged(start, cutoff, seen, n, k) && m <= Eligible(k.done, cutoff)
    requires After(start, seen).done[..Eligible(start.done, cutoff)] == start.done[..Eligible(start.done, cutoff)]
    ensures n + m <= Eligible(start.done, cutoff) && Purged(start, cutoff, seen, n + m, Purge(k, m))
    ensures Eligible(k.done, cutoff) == Eligible(start.done, cutoff) - n
  {
    var all, e := After(start, seen), Eligible(start.done, cutoff);
    EligibleRest(all.done, cutoff, n);
    PurgeTwice(all, n, m);
    assert all.done[..n + m] == all.done[..e][..n + m] && start.done[..n + m] == start.done[..e][..n + m];
  }

  lemma LaterAppend(start: Keys, cutoff: int, seen: seq<Event>, events: seq<Event>)
    requires AllLater(start, cutoff, seen) && AllLater(start, cutoff, events)
    ensures AllLater(start, cutoff, seen + events)
  {
  }

  lemma BatchAfterEvents(start: Keys, cutoff: int, seen: seq<Event>, n: nat, k: Keys, batchSize: nat)
    requires Purged(start, cutoff, seen, n, k) && AllLater(start, cutoff, seen)
    ensures var count := Min(batchSize, Eligible(k.done, cutoff));
            && count == Min(batchSize, Eligible(start.done, cutoff) - n)
            && Purged(start, cutoff, seen, n + count, Purge(k, count))
  {
    hide Purge, Eligible, After;
    OldJobsStay(start, cutoff, seen);
    OneMoreBatch(start, cutoff, seen, n, k, Min(batchSize, Eligible(k.done, cutoff)));
  }

  lemma {:induction false} OldJobsStay(start: Keys, cutoff: int, seen: seq<Event>)
    requires AllLater(start, cutoff, seen)
    ensures Eligible(After(start, seen).done, cutoff) == Eligible(start.done, cutoff)
    ensures After(start, seen).done[..Eligible(start.done, cutoff)] == start.done[..Eligible(start.done, cutoff)]
    decreases |seen|
  {
    if seen != [] {
      var init, last := seen[..|seen| - 1], seen[|seen| - 1];
      OldJobsStay(start, cutoff, init);
      if last.Completed? { InsertYoung(After(start, init).done, last.job, cutoff, Eligible(start.done, cutoff)); }
    }
  }

  /** In a sorted set, the jobs past the eligible prefix are exactly the younger ones. */
  lemma {:induction false} EligibleIsAll(done: seq<Done>, cutoff: int, i: nat)
    requires Sorted(done) && i < |done|
    ensures done[i].completedAt <= cutoff <==> i < Eligible(done, cutoff)
    decreases |done|
  {
    if done[0].completedAt > cutoff {
      if i > 0 { assert Before(done[0], done[i]); }
    } else if i > 0 {
      assert Sorted(done[1..]) by {
        forall a, b | 0 <= a < b < |done[1..]| ensures Before(done[1..][a], done[1..][b]) { assert Before(done[a + 1], done[b + 1]); }
      }
      EligibleIsAll(done[1..], cutoff, i - 1);
    }
  }

  /******* The tick *******/

  datatype Report =
    | Finished(purged: nat, batches: nat)
    | LimitReached(purged: nat, batches: nat)
    | Aborted(purged: nat, batches: nat)

  class Queue {
    var done: seq<Done>
    var data: set<JobId>
    var results: set<JobId>

    constructor (keys: Keys)
      ensures Snapshot() == keys
    {
      done, data, results := keys.done, keys.data, keys.results;
    }

    function Snapshot(): Keys
      reads this
    {
      Keys(done, data, results)
    }

    /** `vacuum_jobs.lua`: the oldest eligible ids leave the three keys, one by one. */
    method RunScript(cutoff: int, limit: nat) returns (count: nat)
      modifies this
      ensures count == Min(limit, Eligible(old(done), cutoff))
      ensures Snapshot() == Purge(old(Snapshot()), count)
    {
      var ids := done[..Min(limit, Eligible(done, cutoff))];
      for i := 0 to |ids|
        invariant Snapshot() == Purge(old(Snapshot()), i)
      {
        hide Purge, Eligible;
        PurgeOneMore(old(Snapshot()), i);
        data := data - {ids[i].id};
        results := results - {ids[i].id};
        done := done[1..];
      }
      count := |ids|;
    }

    /** One event, by another worker. */
    method Act(e: Event)
      modifies this
      ensures Snapshot() == Happen(old(Snapshot()), e)
    {
      match e
      case Completed(job) => done := Insert(done, job); results := results + {job.id};
      case Enqueued(id) => data := data + {id};
    }

    method Observe(events: seq<Event>, ghost start: Keys, cutoff: int, ghost seen: seq<Event>, ghost n: nat)
      requires Purged(start, cutoff, seen, n, Snapshot()) && AllLater(start, cutoff, events)
      modifies this
      ensures Purged(start, cutoff, seen + events, n, Snapshot())
    {
      hide Purged;
      assert seen + events[..0] == seen;
      for i := 0 to |events|
        invariant Purged(start, cutoff, seen + events[..i], n, Snapshot())
      {
        OneMoreEvent(start, cutoff, seen + events[..i], n, Snapshot(), events[i]);
        assert seen + events[..i + 1] == (seen + events[..i]) + [events[i]];
        Act(events[i]);
      }
      assert events[..|events|] == events;
    }

    /** One turn of the loop: what happened meanwhile, then one call of the script. */
    method NextBatch(cutoff: int, batchSize: nat, events: seq<Event>, ghost start: Keys, ghost seen: seq<Event>, ghost n: nat)
      returns (count: nat)
      requires Purged(start, cutoff, seen, n, Snapshot()) && AllLater(start, cutoff, seen) && AllLater(start, cutoff, events)
      modifies this
      ensures count == Min(batchSize, Eligible(start.done, cutoff) - n)
      ensures Purged(start, cutoff, seen + events, n + count, Snapshot()) && AllLater(start, cutoff, seen + events)
    {
      hide Purged, AllLater, Purge, Eligible;
      Observe(events, start, cutoff, seen, n);
      LaterAppend(start, cutoff, seen, events);
      BatchAfterEvents(start, cutoff, seen + events, n, Snapshot(), batchSize);
      count := RunScript(cutoff, batchSize);
    }

    /**
    `handle_vacuum_jobs_cron_tick` once the lock is held: `env[i]` happens before batch `i`, and
    `works[i]` says whether that call to Redis succeeds.
    */
    method VacuumTick(cutoff: int, batchSize: nat, maxBatches: nat, env: seq<seq<Event>>, works: seq<bool>)
      returns (report: Report, ghost seen: seq<Event>)
      requires |env| == maxBatches && |works| == maxBatches
      requires forall i :: 0 <= i < |env| ==> AllLater(Snapshot(), cutoff, env[i])
      modifies this
      // The eligible jobs are purged oldest first, as many as the batches allow, and nothing younger.
      ensures report.batches <= maxBatches && seen == Flatten(env[..report.batches])
      ensures report.purged == Min(Eligible(old(done), cutoff), batchSize * report.batches)
      ensures Purged(old(Snapshot()), cutoff, seen, report.purged, Snapshot())
      // An early return leaves nothing eligible; the limit is reached with all batches full.
      ensures report.Finished? ==> report.purged == Eligible(old(done), cutoff) < batchSize * maxBatches
      ensures report.LimitReached? ==> report.purged == batchSize * maxBatches
      // It is given up at the first call to Redis that fails.
      ensures report.Aborted? ==> report.batches < maxBatches && !works[report.batches]
      ensures forall i :: 0 <= i < report.batches ==> works[i]
      ensures (forall i :: 0 <= i < maxBatches ==> works[i]) ==>
        (report.LimitReached? <==> Eligible(old(done), cutoff) >= batchSize * maxBatches)
      // The warning that goes with the limit says that older jobs remain: wrong exactly if the batches took them all.
      ensures report.LimitReached? ==>
        (Eligible(done, cutoff) == 0 <==> Eligible(old(done), cutoff) == batchSize * maxBatches)
    {
      hide Purged, Purge, Eligible, AllLater, Flatten;
      ghost var start := Snapshot();
      seen := [];
      var purged, batches := 0, 0;
      NothingPurged(start, cutoff, env);
      while batches < maxBatches
        invariant 0 <= batches <= maxBatches && purged == batchSize * batches <= Eligible(start.done, cutoff)
        invariant seen == Flatten(env[..batches]) && AllLater(start, cutoff, seen)
        invariant forall i :: 0 <= i < batches ==> works[i]
        invariant Purged(start, cutoff, seen, purged, Snapshot())
      {
        if !works[batches] { return Aborted(purged, batches), seen; }
        var count := NextBatch(cutoff, batchSize, env[batches], start, seen, purged);
        FlattenOneMore(env, batches);
        seen := seen + env[batches];
        purged := purged + count;
        batches := batches + 1;
        MoreBatches(batchSize, batches, maxBatches);
        if count < batchSize { return Finished(purged, batches), seen; }
      }
      report := LimitReached(purged, batches);
      LimitWarningIff(start, cutoff, seen, batchSize, maxBatches, Snapshot());
    }
  }

  /** One job at the cutoff, one batch of one: the limit is reported, and nothing is left. */
  method WarningWithNothingLeft() returns (q: Queue, report: Report)
    ensures fresh(q) && report == LimitReached(1, 1) && Eligible(q.done, 0) == 0
  {
    q := new Queue(Keys([Done(7, 0)], {7}, {7}));
    assert Eligible([Done(7, 0)], 0) == 1;
    ghost var seen;
    report, seen := q.VacuumTick(0, 1, 1, [[]], [true]);
  }

  lemma NothingPurged(start: Keys, cutoff: int, env: seq<seq<Event>>)
    ensures Purged(start, cutoff, [], 0, start) && AllLater(start, cutoff, []) && Flatten(env[..0]) == []
  {
    assert Purge(start, 0) == start && start.done[..0] == [];
  }

  lemma FlattenOneMore(env: seq<seq<Event>>, n: nat)
    requires n < |env|
    ensures Flatten(env[..n + 1]) == Flatten(env[..n]) + env[n]
  {
    assert env[..n + 1][..n] == env[..n];
  }

  lemma MoreBatches(size: nat, n: nat, m: nat)
    requires 0 < n <= m
    ensures size * n <= size * m && size * n == size * (n - 1) + size
  {
  }

  /** What a report means: jobs at or past the cutoff remain exactly when there were more than the batches could take. */
  lemma WhatRemains(start: Keys, cutoff: int, seen: seq<Event>, n: nat, k: Keys)
    requires Purged(start, cutoff, seen, n, k)
    ensures Eligible(k.done, cutoff) == Eligible(start.done, cutoff) - n
  {
    EligibleRest(After(start, seen).done, cutoff, n);
  }

  lemma {:induction false} InsertAdds(done: seq<Done>, d: Done)
    ensures multiset(Insert(done, d)) == multiset(done) + multiset{d}
    decreases |done|
  {
    if done != [] && !Before(d, done[0]) {
      InsertAdds(done[1..], d);
      assert done == [done[0]] + done[1..];
    }
  }

  function Completions(events: seq<Event>): multiset<Done> {
    if events == [] then multiset{}
    else
      Completions(events[..|events| - 1]) +
      match events[|events| - 1] case Completed(job) => multiset{job} case Enqueued(_) => multiset{}
  }

  lemma {:induction false} EventsAdd(start: Keys, seen: seq<Event>)
    ensures multiset(After(start, seen).done) == multiset(start.done) + Completions(seen)
    decreases |seen|
  {
    if seen != [] {
      var init, last := seen[..|seen| - 1], seen[|seen| - 1];
      EventsAdd(start, init);
      if last.Completed? { InsertAdds(After(start, init).done, last.job); }
    }
  }

  /** Purged and remaining jobs together are the jobs there were and the jobs completed meanwhile. */
  lemma NothingIsLost(start: Keys, cutoff: int, seen: seq<Event>, n: nat, k: Keys)
    requires Purged(start, cutoff, seen, n, k)
    ensures multiset(start.done[..n]) + multiset(k.done) == multiset(start.done) + Completions(seen)
  {
    var all := After(start, seen).done;
    EventsAdd(start, seen);
    assert all == all[..n] + all[n..];
  }

  /** No job younger than the cutoff is ever removed. */
  lemma YoungJobsSurvive(start: Keys, cutoff: int, seen: seq<Event>, n: nat, k: Keys, d: Done)
    requires Purged(start, cutoff, seen, n, k) && d in After(start, seen).done && d.completedAt > cutoff
    ensures d in k.done
  {
    var all := After(start, seen).done;
    var i :| 0 <= i < |all| && all[i] == d;
    if i < n { EligiblePrefix(all, cutoff, i); }
    assert k.done[i - n] == d;
  }

  lemma {:induction false} EligiblePrefix(done: seq<Done>, cutoff: int, i: nat)
    requires i < Eligible(done, cutoff)
    ensures done[i].completedAt <= cutoff
  {
    if i > 0 { EligiblePrefix(done[1..], cutoff, i - 1); }
  }

  /**
  Where the batches took all they could: older jobs remain if and only if there were more than that,
  so the warning is wrong exactly when there were as many.
  */
  lemma LimitWarningIff(start: Keys, cutoff: int, seen: seq<Event>, batchSize: nat, maxBatches: nat, k: Keys)
    requires Purged(start, cutoff, seen, batchSize * maxBatches, k)
    ensures Eligible(k.done, cutoff) > 0 <==> Eligible(start.done, cutoff) > batchSize * maxBatches
    ensures Eligible(k.done, cutoff) == 0 <==> Eligible(start.done, cutoff) == batchSize * maxBatches
  {
    WhatRemains(start, cutoff, seen, batchSize * maxBatches, k);
  }
}
