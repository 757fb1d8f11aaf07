/** What one pass of `run_scheduled_jobs` does: every due job is claimed, moved on and executed.
    First for a single commit in any interleaving, then for a whole undisturbed scan. */
module SchedulerScan {
  import opened Wrappers
  import opened Scheduler

  // ---------- every claim is executed ----------

  /** A commit claims every job its worker holds, in order, at the time in the row, and queues exactly
      these claims for execution. */
  lemma {:induction false} CommitQueuesItsClaims(s: World, events: seq<Event>, w: WorkerId)
    requires Initial(s) && Legal(s, events) && Enabled(After(s, events), Commit(w))
    ensures var mid := After(s, events);
            var held, next := mid.workers[w].held, Step(mid, Commit(w));
            var n, q := |mid.claims|, Queue(next.workers[w]);
            && |next.claims| == n + |held| && next.claims[..n] == mid.claims
            && |q| == |held| && (forall i :: 0 <= i < |q| ==> q[i] == n + i)
            && forall i :: 0 <= i < |held| ==>
                 && held[i] in mid.jobs && mid.jobs[held[i]].nextRun.Some?
                 && next.claims[n + i].job == held[i]
                 && next.claims[n + i].occurrence == mid.jobs[held[i]].nextRun.value
  {
    InitialInv(s);
    InvAfter(s, events);
    InvGivesParts(After(s, events));
    hide Inv, After, Legal;
    CommitQueues(After(s, events), w);
  }

  lemma {:induction false} CommitQueues(mid: World, w: WorkerId)
    requires LocksGood(mid) && Enabled(mid, Commit(w))
    ensures var held, next := mid.workers[w].held, Step(mid, Commit(w));
            var n, q := |mid.claims|, Queue(next.workers[w]);
            && |next.claims| == n + |held| && next.claims[..n] == mid.claims
            && |q| == |held| && (forall i :: 0 <= i < |q| ==> q[i] == n + i)
            && forall i :: 0 <= i < |held| ==>
                 && held[i] in mid.jobs && mid.jobs[held[i]].nextRun.Some?
                 && next.claims[n + i].job == held[i]
                 && next.claims[n + i].occurrence == mid.jobs[held[i]].nextRun.value
  {
    hide Written, Unlocked, NewClaims, Numbers;
    var held := mid.workers[w].held;
    assert WorkerLocks(mid, w);
    forall i | 0 <= i < |held| ensures held[i] in mid.jobs && mid.jobs[held[i]].nextRun.Some? {
      assert HeldRow(mid, w, held[i]);
    }
  }

  ghost predicate NoAbort(events: seq<Event>, w: WorkerId) {
    forall i :: 0 <= i < |events| ==> events[i] != Abort(w)
  }

  /** The claim is executed, or waits in the worker's queue. */
  ghost predicate Carried(s: World, w: WorkerId, k: nat) {
    w in s.workers && (k in s.executed || k in Queue(s.workers[w]))
  }

  lemma {:induction false} CarriedStep(s: World, e: Event, w: WorkerId, k: nat)
    requires Carried(s, w, k) && Enabled(s, e) && e != Abort(w)
    ensures Carried(Step(s, e), w, k)
    ensures k in s.executed ==> k in Step(s, e).executed
    ensures e == Finish(w) ==> k in Step(s, e).executed
  {
    if e == Execute(w) {
      var q := s.workers[w].queue;
      if k in q && k != q[0] {
        var i :| 0 <= i < |q| && q[i] == k;
        assert q[1..][i - 1] == k;
      }
      assert (s.executed + [q[0]])[|s.executed|] == q[0];
    }
  }

  lemma {:induction false} CarriedAlong(s: World, events: seq<Event>, w: WorkerId, k: nat)
    requires Carried(s, w, k) && Legal(s, events) && NoAbort(events, w)
    ensures Carried(After(s, events), w, k)
    ensures k in s.executed || Finish(w) in events ==> k in After(s, events).executed
    decreases |events|
  {
    if events != [] {
      hide Enabled, Step, Carried;
      CarriedStep(s, events[0], w, k);
      forall i | 0 <= i < |events| - 1 ensures events[1..][i] != Abort(w) { assert events[i + 1] != Abort(w); }
      CarriedAlong(Step(s, events[0]), events[1..], w, k);
      if Finish(w) in events && events[0] != Finish(w) {
        var i :| 0 <= i < |events| && events[i] == Finish(w);
        assert events[1..][i - 1] == Finish(w);
      }
    }
  }

  /** In every run, each claim of a worker's commit is executed or still queued at that worker, unless
      the worker dies; when it finishes, all of them are executed. */
  lemma {:induction false} ClaimsAreExecuted(s: World, before: seq<Event>, w: WorkerId, after: seq<Event>, k: nat)
    requires Initial(s) && Legal(s, before) && Enabled(After(s, before), Commit(w))
    requires Legal(Step(After(s, before), Commit(w)), after) && NoAbort(after, w)
    requires |After(s, before).claims| <= k < |Step(After(s, before), Commit(w)).claims|
    ensures var end := After(Step(After(s, before), Commit(w)), after);
            && w in end.workers && (k in end.executed || k in Queue(end.workers[w]))
            && (Finish(w) in after ==> k in end.executed)
  {
    CommitQueuesItsClaims(s, before, w);
    var next := Step(After(s, before), Commit(w));
    var q := Queue(next.workers[w]);
    assert q[k - |After(s, before).claims|] == k;
    CarriedAlong(next, after, w, k);
  }

  // ---------- one undisturbed scan ----------

  function Repeat(e: Event, n: nat): seq<Event> {
    if n == 0 then [] else [e] + Repeat(e, n - 1)
  }

  function LockedBy(jobs: seq<JobId>, w: WorkerId): map<JobId, WorkerId> {
    map j | j in jobs :: w
  }

  /** The locks phase from `n` rows on. */
  lemma {:induction false} LockAll(s: World, w: WorkerId, found: seq<JobId>, n: nat)
    requires n <= |found| && w in s.workers && Distinct(found)
    requires forall j :: j in found ==> j in s.jobs && Due(s.jobs[j], s.clock)
    ensures Leads(s.(locks := LockedBy(found[..n], w),
                     workers := s.workers[w := Locking(s.clock, found[n..], found[..n])]),
                  Repeat(Lock(w), |found| - n),
                  s.(locks := LockedBy(found, w), workers := s.workers[w := Locking(s.clock, [], found)]))
    decreases |found| - n
  {
    hide Leads;
    var from := s.(locks := LockedBy(found[..n], w),
                   workers := s.workers[w := Locking(s.clock, found[n..], found[..n])]);
    if n < |found| {
      var next := s.(locks := LockedBy(found[..n + 1], w),
                     workers := s.workers[w := Locking(s.clock, found[n + 1..], found[..n + 1])]);
      LockNext(s, w, found, n);
      OneStep(from, Lock(w), next);
      LockAll(s, w, found, n + 1);
      Then(from, [Lock(w)], next, Repeat(Lock(w), |found| - n - 1),
           s.(locks := LockedBy(found, w), workers := s.workers[w := Locking(s.clock, [], found)]));
    } else {
      assert found[..n] == found && found[n..] == [];
      NothingLeads(from);
    }
  }

  lemma {:induction false} LockNext(s: World, w: WorkerId, found: seq<JobId>, n: nat)
    requires n < |found| && w in s.workers && Distinct(found)
    requires found[n] in s.jobs && Due(s.jobs[found[n]], s.clock)
    ensures var from := s.(locks := LockedBy(found[..n], w),
                           workers := s.workers[w := Locking(s.clock, found[n..], found[..n])]);
            && Enabled(from, Lock(w))
            && Step(from, Lock(w)) == s.(locks := LockedBy(found[..n + 1], w),
                                         workers := s.workers[w := Locking(s.clock, found[n + 1..], found[..n + 1])])
  {
    assert found[n..][1..] == found[n + 1..] && found[..n] + [found[n]] == found[..n + 1];
    assert LockedBy(found[..n], w)[found[n] := w] == LockedBy(found[..n + 1], w);
  }

  lemma NothingLeads(s: World)
    ensures Leads(s, [], s)
  {
  }

  /** The times written for the first `n` rows. */
  function Times(jobs: map<JobId, Job>, held: seq<JobId>, clock: Time, n: nat): map<JobId, Time>
    requires n <= |held|
  {
    if n == 0 then map[]
    else
      var before := Times(jobs, held, clock, n - 1);
      var next := NextFor(jobs, held[n - 1], clock);
      if next.Some? then before[held[n - 1] := next.value] else before
  }

  lemma {:induction false} TimesLaw(jobs: map<JobId, Job>, held: seq<JobId>, clock: Time, n: nat, j: JobId)
    requires n <= |held|
    ensures var t := Times(jobs, held, clock, n);
            && (j in t <==> j in held[..n] && NextFor(jobs, j, clock).Some?)
            && (j in t ==> t[j] == NextFor(jobs, j, clock).value)
  {
    hide NextFor;
    if n > 0 {
      TimesLaw(jobs, held, clock, n - 1, j);
      assert held[..n] == held[..n - 1] + [held[n - 1]];
    }
  }

  lemma TimesStep(jobs: map<JobId, Job>, held: seq<JobId>, clock: Time, n: nat)
    requires n < |held|
    ensures var next, before := NextFor(jobs, held[n], clock), Times(jobs, held, clock, n);
            Times(jobs, held, clock, n + 1) == if next.Some? then before[held[n] := next.value] else before
  {
    hide NextFor;
  }

  lemma {:induction false} AdvanceAll(s: World, w: WorkerId, held: seq<JobId>, n: nat)
    requires n <= |held| && w in s.workers
    ensures Leads(s.(workers := s.workers[w := Advancing(s.clock, held, n, Times(s.jobs, held, s.clock, n))]),
                  Repeat(Advance(w), |held| - n),
                  s.(workers := s.workers[w := Advancing(s.clock, held, |held|, Times(s.jobs, held, s.clock, |held|))]))
    decreases |held| - n
  {
    hide Leads, Times;
    var from := s.(workers := s.workers[w := Advancing(s.clock, held, n, Times(s.jobs, held, s.clock, n))]);
    if n < |held| {
      var next := s.(workers := s.workers[w := Advancing(s.clock, held, n + 1, Times(s.jobs, held, s.clock, n + 1))]);
      AdvanceNext(s, w, held, n);
      OneStep(from, Advance(w), next);
      AdvanceAll(s, w, held, n + 1);
      Then(from, [Advance(w)], next, Repeat(Advance(w), |held| - n - 1),
           s.(workers := s.workers[w := Advancing(s.clock, held, |held|, Times(s.jobs, held, s.clock, |held|))]));
    } else {
      NothingLeads(from);
    }
  }

  lemma {:induction false} AdvanceNext(s: World, w: WorkerId, held: seq<JobId>, n: nat)
    requires n < |held| && w in s.workers
    ensures var from := s.(workers := s.workers[w := Advancing(s.clock, held, n, Times(s.jobs, held, s.clock, n))]);
            && Enabled(from, Advance(w))
            && Step(from, Advance(w))
               == s.(workers := s.workers[w := Advancing(s.clock, held, n + 1, Times(s.jobs, held, s.clock, n + 1))])
  {
    TimesStep(s.jobs, held, s.clock, n);
    hide NextFor, Times;
  }

  ghost predicate Executable(s: World, queue: seq<nat>) {
    forall i :: 0 <= i < |queue| ==>
                  queue[i] < |s.claims| &&
                  (s.claims[queue[i]].job in s.jobs ==> !s.jobs[s.claims[queue[i]].job].terminated)
  }

  /** Executing claims of jobs that are not terminated changes no job row. */
  lemma {:induction false} ExecuteAll(s: World, w: WorkerId, queue: seq<nat>)
    requires w in s.workers && s.locks == map[]
    requires Executable(s, queue)
    ensures Leads(s.(workers := s.workers[w := Executing(queue)]), Repeat(Execute(w), |queue|),
                  s.(executed := s.executed + queue, workers := s.workers[w := Executing([])]))
    decreases |queue|
  {
    hide Leads;
    var from := s.(workers := s.workers[w := Executing(queue)]);
    if queue == [] {
      assert s.executed + queue == s.executed;
      NothingLeads(from);
    } else {
      var s' := s.(executed := s.executed + [queue[0]]);
      var next := s'.(workers := s'.workers[w := Executing(queue[1..])]);
      ExecuteNext(s, w, queue);
      OneStep(from, Execute(w), next);
      ExecuteAll(s', w, queue[1..]);
      assert s.executed + queue == s'.executed + queue[1..];
      Then(from, [Execute(w)], next, Repeat(Execute(w), |queue| - 1),
           s.(executed := s.executed + queue, workers := s.workers[w := Executing([])]));
    }
  }

  lemma {:induction false} ExecuteNext(s: World, w: WorkerId, queue: seq<nat>)
    requires w in s.workers && s.locks == map[] && queue != [] && queue[0] < |s.claims|
    requires s.claims[queue[0]].job in s.jobs ==> !s.jobs[s.claims[queue[0]].job].terminated
    ensures var from := s.(workers := s.workers[w := Executing(queue)]);
            && Enabled(from, Execute(w))
            && Step(from, Execute(w)) == s.(executed := s.executed + [queue[0]],
                                            workers := s.workers[w := Executing(queue[1..])])
  {
    var j := s.claims[queue[0]].job;
    assert j in s.jobs ==> s.jobs[j := s.jobs[j].(terminated := false)] == s.jobs;
  }

  function Scan(w: WorkerId, found: seq<JobId>): seq<Event> {
    [Begin(w)] + [Select(w, found)] + Repeat(Lock(w), |found|) + [Fetched(w)] + Repeat(Advance(w), |found|) +
    [Commit(w)] + Repeat(Execute(w), |found|) + [Finish(w)]
  }

  ghost function CommittedWorld(s: World, found: seq<JobId>): World {
    s.(jobs := Written(s.jobs, Times(s.jobs, found, s.clock, |found|)), claims := s.claims + NewClaims(s.jobs, found))
  }

  lemma {:induction false} ScanLeads(s: World, w: WorkerId, found: seq<JobId>)
    requires w in s.workers && s.workers[w].Idle? && s.locks == map[] && found != [] && Finds(s, s.clock, found)
    ensures var c := CommittedWorld(s, found);
            Leads(s, Scan(w, found), c.(executed := s.executed + Numbers(|s.claims|, |found|)))
  {
    hide Leads, Written, Times, NewClaims, Numbers, LockedBy, Repeat;
    var n := |found|;
    var times := Times(s.jobs, found, s.clock, n);
    var s1 := s.(workers := s.workers[w := Ready(s.clock)]);
    var s2 := s.(locks := LockedBy(found[..0], w), workers := s.workers[w := Locking(s.clock, found[0..], found[..0])]);
    var locked := s.(locks := LockedBy(found, w));
    var s3 := locked.(workers := s.workers[w := Locking(s.clock, [], found)]);
    var s4 := locked.(workers := s.workers[w := Advancing(s.clock, found, 0, Times(s.jobs, found, s.clock, 0))]);
    var s5 := locked.(workers := s.workers[w := Advancing(s.clock, found, n, times)]);
    var c := CommittedWorld(s, found);
    var queue := Numbers(|s.claims|, n);
    var s6 := c.(workers := s.workers[w := Executing(queue)]);
    var s7 := c.(executed := s.executed + queue, workers := s.workers[w := Executing([])]);
    var end := c.(executed := s.executed + queue);
    SelectMany(s, w, found);
    OneStep(s, Begin(w), s1);
    OneStep(s1, Select(w, found), s2);
    LockAll(s, w, found, 0);
    FetchMany(s, w, found);
    OneStep(s3, Fetched(w), s4);
    AdvanceAll(locked, w, found, 0);
    CommitMany(s, w, found);
    OneStep(s5, Commit(w), s6);
    ClaimedRows(s, found);
    ExecuteAll(c, w, queue);
    FinishMany(s, w, found);
    OneStep(s7, Finish(w), end);
    assert |queue| == n by { QueueLength(|s.claims|, n); }
    var e2, e3 := Repeat(Lock(w), n), Repeat(Advance(w), n);
    var e4 := Repeat(Execute(w), n);
    hide *;
    Then(s, [Begin(w)], s1, [Select(w, found)], s2);
    Then(s, [Begin(w)] + [Select(w, found)], s2, e2, s3);
    Then(s, [Begin(w)] + [Select(w, found)] + e2, s3, [Fetched(w)], s4);
    Then(s, [Begin(w)] + [Select(w, found)] + e2 + [Fetched(w)], s4, e3, s5);
    Then(s, [Begin(w)] + [Select(w, found)] + e2 + [Fetched(w)] + e3, s5, [Commit(w)], s6);
    Then(s, [Begin(w)] + [Select(w, found)] + e2 + [Fetched(w)] + e3 + [Commit(w)], s6, e4, s7);
    Then(s, [Begin(w)] + [Select(w, found)] + e2 + [Fetched(w)] + e3 + [Commit(w)] + e4, s7, [Finish(w)], end);
    ScanUnfolds(w, found);
  }

  lemma ScanUnfolds(w: WorkerId, found: seq<JobId>)
    ensures Scan(w, found) ==
            [Begin(w)] + [Select(w, found)] + Repeat(Lock(w), |found|) + [Fetched(w)] + Repeat(Advance(w), |found|) +
            [Commit(w)] + Repeat(Execute(w), |found|) + [Finish(w)]
  {
  }

  lemma QueueLength(first: nat, n: nat)
    ensures |Numbers(first, n)| == n
  {
  }

  lemma {:induction false} SelectMany(s: World, w: WorkerId, found: seq<JobId>)
    requires w in s.workers && s.workers[w].Idle? && s.locks == map[] && Finds(s, s.clock, found)
    ensures var s1 := s.(workers := s.workers[w := Ready(s.clock)]);
            && Enabled(s, Begin(w)) && s1 == Step(s, Begin(w)) && Enabled(s1, Select(w, found))
            && s.(locks := LockedBy(found[..0], w), workers := s.workers[w := Locking(s.clock, found[0..], found[..0])])
               == Step(s1, Select(w, found))
    ensures Distinct(found) && forall j :: j in found ==> j in s.jobs && Due(s.jobs[j], s.clock)
  {
    var s1 := s.(workers := s.workers[w := Ready(s.clock)]);
    assert Finds(s1, s.clock, found) by { assert s1.jobs == s.jobs; }
    assert found[..0] == [] && found[0..] == found;
    assert LockedBy([], w) == map[];
    hide Finds;
    var s2 := s.(workers := s.workers[w := Locking(s.clock, found, [])]);
    assert s1.workers[w := Locking(s.clock, found, [])] == s2.workers;
  }

  lemma {:induction false} FetchMany(s: World, w: WorkerId, found: seq<JobId>)
    requires w in s.workers && found != []
    ensures var locked := s.(locks := LockedBy(found, w));
            var s3 := locked.(workers := s.workers[w := Locking(s.clock, [], found)]);
            && Enabled(s3, Fetched(w))
            && Step(s3, Fetched(w))
               == locked.(workers := s.workers[w := Advancing(s.clock, found, 0, Times(s.jobs, found, s.clock, 0))])
  {
  }

  lemma {:induction false} CommitMany(s: World, w: WorkerId, found: seq<JobId>)
    requires w in s.workers && s.locks == map[]
    ensures var locked, n := s.(locks := LockedBy(found, w)), |found|;
            var times := Times(s.jobs, found, s.clock, n);
            var s5 := locked.(workers := s.workers[w := Advancing(s.clock, found, n, times)]);
            && Enabled(s5, Commit(w))
            && Step(s5, Commit(w))
               == CommittedWorld(s, found).(workers := s.workers[w := Executing(Numbers(|s.claims|, n))])
  {
    hide Times, NewClaims, Numbers, Written, NextFor;
    assert Unlocked(LockedBy(found, w), w) == map[];
  }

  lemma {:induction false} ClaimedRows(s: World, found: seq<JobId>)
    requires forall j :: j in found ==> j in s.jobs && Due(s.jobs[j], s.clock)
    ensures Executable(CommittedWorld(s, found), Numbers(|s.claims|, |found|))
  {
    hide Times, NextFor;
    var c := CommittedWorld(s, found);
    var n := |s.claims|;
    forall i | 0 <= i < |found| ensures c.claims[n + i].job == found[i] && found[i] in found {}
  }

  lemma {:induction false} FinishMany(s: World, w: WorkerId, found: seq<JobId>)
    requires w in s.workers && s.workers[w].Idle?
    ensures var c, queue := CommittedWorld(s, found), Numbers(|s.claims|, |found|);
            var s7 := c.(executed := s.executed + queue, workers := s.workers[w := Executing([])]);
            Enabled(s7, Finish(w)) && Step(s7, Finish(w)) == c.(executed := s.executed + queue)
  {
    hide Times, Written, NewClaims, Numbers;
    assert s.workers[w := Idle] == s.workers;
  }

  lemma {:induction false} DueAreFound(s: World, found: seq<JobId>)
    requires Distinct(found)
    requires forall j :: j in found <==>
                           && j in s.jobs && s.jobs[j].scheduled && !s.jobs[j].terminated
                           && s.jobs[j].nextRun.Some? && s.jobs[j].nextRun.value <= s.clock
    ensures Finds(s, s.clock, found)
  {
  }

  /** An undisturbed scan claims and executes every due job once, in the order found, moves exactly the
      due jobs whose cron expression is readable to their next time, and leaves everything else as
      it was. A job is due when it is scheduled, not terminated, and its next time has come. */
  lemma {:induction false} ScanRunsEveryDueJob(s: World, w: WorkerId, found: seq<JobId>)
    requires w in s.workers && s.workers[w].Idle? && s.locks == map[] && found != [] && Distinct(found)
    requires forall j :: j in found <==>
                           && j in s.jobs && s.jobs[j].scheduled && !s.jobs[j].terminated
                           && s.jobs[j].nextRun.Some? && s.jobs[j].nextRun.value <= s.clock
    ensures Legal(s, Scan(w, found))
    ensures var end := After(s, Scan(w, found));
            && end.workers == s.workers && end.locks == map[] && end.edits == s.edits && end.clock == s.clock
            && |end.claims| == |s.claims| + |found| && end.claims[..|s.claims|] == s.claims
            && |end.executed| == |s.executed| + |found| && end.executed[..|s.executed|] == s.executed
            && (forall i :: 0 <= i < |found| ==>
                  && found[i] in s.jobs && s.jobs[found[i]].nextRun.Some?
                  && end.claims[|s.claims| + i] == Claim(found[i], s.jobs[found[i]].nextRun.value)
                  && end.executed[|s.executed| + i] == |s.claims| + i)
            && end.jobs.Keys == s.jobs.Keys
            && (forall j :: j in s.jobs ==>
                  if j in found && s.jobs[j].schedule.Cron?
                  then end.jobs[j] == s.jobs[j].(nextRun := Some(s.jobs[j].schedule.next(s.clock)))
                  else end.jobs[j] == s.jobs[j])
  {
    hide Finds;
    DueAreFound(s, found);
    ScanLeads(s, w, found);
    var c, queue := CommittedWorld(s, found), Numbers(|s.claims|, |found|);
    var end := c.(executed := s.executed + queue);
    LeadsGives(s, Scan(w, found), end);
    hide Legal, After, Scan, Times;
    assert found[..|found|] == found;
    forall j { TimesLaw(s.jobs, found, s.clock, |found|, j); }
    forall i | 0 <= i < |found| ensures found[i] in s.jobs && s.jobs[found[i]].nextRun.Some? {
      assert found[i] in found;
    }
  }

  /** An undisturbed `update_job`: given fields replace the old ones, a given schedule that is readable
      cron sets the next time, and nothing else changes. */
  lemma {:induction false} UndisturbedEdit(s: World, ed: EditorId, j: JobId, patch: JobPatch)
    requires ed !in s.edits && j in s.jobs && j !in s.locks
    ensures var events := [LoadEdit(ed, j, patch)] + [ComputeEdit(ed)] + [SaveEdit(ed)];
            && Legal(s, events)
            && var row, end := s.jobs[j], After(s, events);
               && j in end.jobs && end == s.(jobs := s.jobs[j := end.jobs[j]])
               && end.jobs[j].scheduled == (if patch.scheduled.Some? then patch.scheduled.value else row.scheduled)
               && end.jobs[j].terminated == (if patch.terminated.Some? then patch.terminated.value else row.terminated)
               && end.jobs[j].schedule == (if patch.schedule.Some? then patch.schedule.value else row.schedule)
               && end.jobs[j].nextRun == if patch.schedule.Some? && patch.schedule.value.Cron?
                                         then Some(patch.schedule.value.next(s.clock)) else row.nextRun
  {
    hide Leads;
    var s1 := Step(s, LoadEdit(ed, j, patch));
    var s2 := Step(s1, ComputeEdit(ed));
    var s3 := Step(s2, SaveEdit(ed));
    assert s3.edits == s.edits;
    assert s3.jobs == s.jobs[j := s3.jobs[j]];
    OneStep(s, LoadEdit(ed, j, patch), s1);
    OneStep(s1, ComputeEdit(ed), s2);
    OneStep(s2, SaveEdit(ed), s3);
    hide Step, Enabled, Legal, After;
    Then(s, [LoadEdit(ed, j, patch)], s1, [ComputeEdit(ed)], s2);
    Then(s, [LoadEdit(ed, j, patch)] + [ComputeEdit(ed)], s2, [SaveEdit(ed)], s3);
    LeadsGives(s, [LoadEdit(ed, j, patch)] + [ComputeEdit(ed)] + [SaveEdit(ed)], s3);
  }

  // ---------- single steps in any state ----------

  /** A locked row is taken exactly when it is still due at the time of the scan: scheduled, not
      terminated, and its next time not after that; otherwise the worker passes over it. */
  lemma {:induction false} LockTakesIffStillDue(s: World, w: WorkerId)
    requires Enabled(s, Lock(w))
    ensures var wk, next := s.workers[w], Step(s, Lock(w));
            var j := wk.todo[0];
            && w in next.workers && next.workers[w].Locking? && next.workers[w].todo == wk.todo[1..]
            && next.jobs == s.jobs
            && if && j in s.jobs && s.jobs[j].scheduled && !s.jobs[j].terminated
                  && s.jobs[j].nextRun.Some? && s.jobs[j].nextRun.value <= wk.now
               then next.workers[w].held == wk.held + [j] && next.locks == s.locks[j := w]
               else next.workers[w].held == wk.held && next.locks == s.locks
  {
  }

  /** Executing a claim makes the job active again, even if it was terminated after it was claimed. */
  lemma {:induction false} ExecutionRevives(s: World, w: WorkerId)
    requires Enabled(s, Execute(w))
    ensures var k, next := s.workers[w].queue[0], Step(s, Execute(w));
            var j := s.claims[k].job;
            && next.executed == s.executed + [k] && next.claims == s.claims
            && (j in s.jobs ==> j in next.jobs && !next.jobs[j].terminated && next.jobs[j].nextRun == s.jobs[j].nextRun)
  {
  }

  /** A user can terminate or resume a job only while no worker has its row, and changes nothing else. */
  lemma {:induction false} TerminatingLaw(s: World, j: JobId, terminated: bool)
    requires Enabled(s, SetTerminated(j, terminated))
    ensures var next := Step(s, SetTerminated(j, terminated));
            && j !in s.locks && j in next.jobs && next == s.(jobs := s.jobs[j := next.jobs[j]])
            && next.jobs[j] == Job(s.jobs[j].scheduled, terminated, s.jobs[j].schedule, s.jobs[j].nextRun)
  {
  }

  /** An edit that gives only what its loaded row had, and computes the next time the row had, writes
      nothing: whatever happened to the row meanwhile stays. */
  lemma {:induction false} EmptyEditWritesNothing(s: World, ed: EditorId)
    requires Enabled(s, ComputeEdit(ed))
    requires var e := s.edits[ed];
             && e.job !in s.locks
             && (e.patch.scheduled.Some? ==> e.patch.scheduled.value == e.row.scheduled)
             && (e.patch.terminated.Some? ==> e.patch.terminated.value == e.row.terminated)
             && (e.patch.schedule.Some? ==> e.patch.schedule.value == e.row.schedule)
             && (e.patch.schedule.Some? && e.patch.schedule.value.Cron? ==>
                   e.row.nextRun == Some(e.patch.schedule.value.next(s.clock)))
    ensures var next := Step(s, ComputeEdit(ed));
            Enabled(next, SaveEdit(ed)) && Step(next, SaveEdit(ed)).jobs == s.jobs
  {
    var next := Step(s, ComputeEdit(ed));
    var j := s.edits[ed].job;
    assert j in s.jobs ==> Edited(s.jobs[j], next.edits[ed]) == s.jobs[j];
    assert j in s.jobs ==> s.jobs[j := s.jobs[j]] == s.jobs;
  }
}
