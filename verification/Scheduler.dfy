/** `run_scheduled_jobs` on any number of processes: each selects the due rows FOR UPDATE,
    advances `next_run_at`, commits, and then executes what it claimed. Meanwhile users edit
    jobs with `update_job`, which loads a row, computes its next time and writes the changed
    columns back. Steps interleave freely; a row lock is held from the select to the commit,
    a row that had to be waited for is checked again before it is taken, and a write waits
    until the row is not locked. */
module Scheduler {
  import opened Wrappers

  type Time = int
  type JobId = nat
  type WorkerId = nat

  /** What `_compute_next_run_at` makes of a schedule: a later time, or None. */
  datatype Schedule = NotCron | BrokenCron | Cron(next: Time -> Time)

  ghost predicate Later(next: Time -> Time) {
    forall t: Time :: next(t) > t
  }

  function ComputeNext(schedule: Schedule, clock: Time): Option<Time> {
    if schedule.Cron? then Some(schedule.next(clock)) else None
  }

  datatype Job = Job(scheduled: bool, terminated: bool, schedule: Schedule, nextRun: Option<Time>)

  function NextFor(jobs: map<JobId, Job>, j: JobId, clock: Time): Option<Time> {
    if j in jobs then ComputeNext(jobs[j].schedule, clock) else None
  }

  predicate Due(job: Job, now: Time) {
    job.scheduled && job.nextRun.Some? && job.nextRun.value <= now && !job.terminated
  }

  /** One occurrence of a job taken by a worker: the `next_run_at` it found. */
  datatype Claim = Claim(job: JobId, occurrence: Time)

  datatype Worker =
    | Idle
    | Ready(now: Time)
    | Locking(now: Time, todo: seq<JobId>, held: seq<JobId>)
    | Advancing(now: Time, held: seq<JobId>, done: nat, writes: map<JobId, Time>)
    | Executing(queue: seq<nat>)

  type EditorId = nat

  /** The fields of an update request that were set. */
  datatype JobPatch = JobPatch(scheduled: Option<bool>, terminated: Option<bool>, schedule: Option<Schedule>)

  /** An update request under way: the row as loaded, then the columns its UPDATE will write,
      which are those that differ from the loaded row. */
  datatype Edit =
    | Loaded(job: JobId, row: Job, patch: JobPatch)
    | Pending(job: JobId, columns: JobPatch, nextRun: Option<Time>)

  /** `claims` and `executed` are the history: every committed claim in order, and the numbers
      of the claims that were executed. */
  datatype World = World(
    clock: Time, jobs: map<JobId, Job>, locks: map<JobId, WorkerId>, workers: map<WorkerId, Worker>,
    edits: map<EditorId, Edit>, claims: seq<Claim>, executed: seq<nat>)

  datatype Event =
    | Tick(elapsed: nat)
    | Begin(w: WorkerId)
    | Select(w: WorkerId, found: seq<JobId>)
    | Lock(w: WorkerId)
    | Fetched(w: WorkerId)
    | Advance(w: WorkerId)
    | Commit(w: WorkerId)
    | Execute(w: WorkerId)
    | Finish(w: WorkerId)
    | Abort(w: WorkerId)
    | LoadEdit(ed: EditorId, job: JobId, patch: JobPatch)
    | ComputeEdit(ed: EditorId)
    | SaveEdit(ed: EditorId)
    | SetTerminated(job: JobId, terminated: bool)
    | Delete(job: JobId)

  function Held(w: Worker): seq<JobId> {
    match w
    case Locking(_, _, held) => held
    case Advancing(_, held, _, _) => held
    case _ => []
  }

  function Queue(w: Worker): seq<nat> {
    if w.Executing? then w.queue else []
  }

  /** The snapshot of the select: exactly the due rows, each once. */
  predicate Finds(s: World, now: Time, found: seq<JobId>) {
    && (forall i, k :: 0 <= i < k < |found| ==> found[i] != found[k])
    && (forall j :: j in found ==> j in s.jobs && Due(s.jobs[j], now))
    && (forall j :: j in s.jobs && Due(s.jobs[j], now) ==> j in found)
  }

  predicate Enabled(s: World, e: Event) {
    match e
    case Tick(_) => true
    case Begin(w) => w in s.workers && s.workers[w].Idle?
    case Select(w, found) => w in s.workers && s.workers[w].Ready? && Finds(s, s.workers[w].now, found)
    case Lock(w) =>
      w in s.workers && s.workers[w].Locking? && s.workers[w].todo != [] && s.workers[w].todo[0] !in s.locks
    case Fetched(w) => w in s.workers && s.workers[w].Locking? && s.workers[w].todo == []
    case Advance(w) => w in s.workers && s.workers[w].Advancing? && s.workers[w].done < |s.workers[w].held|
    case Commit(w) => w in s.workers && s.workers[w].Advancing? && s.workers[w].done == |s.workers[w].held|
    case Execute(w) =>
      && w in s.workers && s.workers[w].Executing? && s.workers[w].queue != []
      && s.workers[w].queue[0] < |s.claims| && s.claims[s.workers[w].queue[0]].job !in s.locks
    case Finish(w) => w in s.workers && s.workers[w].Executing? && s.workers[w].queue == []
    case Abort(w) => w in s.workers
    case LoadEdit(ed, j, _) => ed !in s.edits && j in s.jobs
    case ComputeEdit(ed) => ed in s.edits && s.edits[ed].Loaded?
    case SaveEdit(ed) => ed in s.edits && s.edits[ed].Pending? && s.edits[ed].job !in s.locks
    case SetTerminated(j, _) => j in s.jobs && j !in s.locks
    case Delete(j) => j in s.jobs && j !in s.locks
  }

  function Unlocked(locks: map<JobId, WorkerId>, w: WorkerId): map<JobId, WorkerId> {
    map j | j in locks && locks[j] != w :: locks[j]
  }

  function NextRunOf(jobs: map<JobId, Job>, j: JobId): Time {
    if j in jobs && jobs[j].nextRun.Some? then jobs[j].nextRun.value else 0
  }

  function NewClaims(jobs: map<JobId, Job>, held: seq<JobId>): (c: seq<Claim>)
    ensures |c| == |held|
    ensures forall i :: 0 <= i < |held| ==> c[i] == Claim(held[i], NextRunOf(jobs, held[i]))
  {
    if held == [] then [] else [Claim(held[0], NextRunOf(jobs, held[0]))] + NewClaims(jobs, held[1..])
  }

  function Numbers(first: nat, n: nat): (q: seq<nat>)
    ensures |q| == n && forall i :: 0 <= i < n ==> q[i] == first + i
    decreases n
  {
    if n == 0 then [] else [first] + Numbers(first + 1, n - 1)
  }

  function Written(jobs: map<JobId, Job>, writes: map<JobId, Time>): map<JobId, Job> {
    map j | j in jobs :: if j in writes then jobs[j].(nextRun := Some(writes[j])) else jobs[j]
  }

  ghost function Changed<T>(o: Option<T>, loaded: T): Option<T> {
    if o.Some? && o.value == loaded then None else o
  }

  /** What `update_job` will write: the given fields and the time computed from a given schedule,
      as far as they differ from the row it loaded. */
  ghost function Computed(e: Edit, clock: Time): Edit
    requires e.Loaded?
  {
    var next := if e.patch.schedule.Some? then ComputeNext(e.patch.schedule.value, clock) else None;
    Pending(e.job,
            JobPatch(Changed(e.patch.scheduled, e.row.scheduled), Changed(e.patch.terminated, e.row.terminated),
                     Changed(e.patch.schedule, e.row.schedule)),
            if next == e.row.nextRun then None else next)
  }

  function Edited(row: Job, e: Edit): Job
    requires e.Pending?
  {
    Job(Or(e.columns.scheduled, row.scheduled), Or(e.columns.terminated, row.terminated),
        Or(e.columns.schedule, row.schedule), if e.nextRun.Some? then e.nextRun else row.nextRun)
  }

  ghost function Step(s: World, e: Event): World
    requires Enabled(s, e)
  {
    match e
    case Tick(d) => s.(clock := s.clock + d)
    case Begin(w) => s.(workers := s.workers[w := Ready(s.clock)])
    case Select(w, found) => s.(workers := s.workers[w := Locking(s.workers[w].now, found, [])])
    case Lock(w) =>
      var wk := s.workers[w];
      var j := wk.todo[0];
      if j in s.jobs && Due(s.jobs[j], wk.now) then
        s.(locks := s.locks[j := w], workers := s.workers[w := wk.(todo := wk.todo[1..], held := wk.held + [j])])
      else s.(workers := s.workers[w := wk.(todo := wk.todo[1..])])
    case Fetched(w) =>
      var wk := s.workers[w];
      s.(workers := s.workers[w := if wk.held == [] then Executing([]) else Advancing(wk.now, wk.held, 0, map[])])
    case Advance(w) =>
      var wk := s.workers[w];
      var j := wk.held[wk.done];
      var next := NextFor(s.jobs, j, s.clock);
      s.(workers := s.workers[w := wk.(done := wk.done + 1,
                                       writes := if next.Some? then wk.writes[j := next.value] else wk.writes)])
    case Commit(w) =>
      var wk := s.workers[w];
      s.(jobs := Written(s.jobs, wk.writes),
         locks := Unlocked(s.locks, w),
         claims := s.claims + NewClaims(s.jobs, wk.held),
         workers := s.workers[w := Executing(Numbers(|s.claims|, |wk.held|))])
    case Execute(w) =>
      // execute_job sets the job's status to active, whatever it was
      var k := s.workers[w].queue[0];
      var j := s.claims[k].job;
      s.(jobs := if j in s.jobs then s.jobs[j := s.jobs[j].(terminated := false)] else s.jobs,
         executed := s.executed + [k],
         workers := s.workers[w := Executing(s.workers[w].queue[1..])])
    case Finish(w) => s.(workers := s.workers[w := Idle])
    case Abort(w) => s.(locks := Unlocked(s.locks, w), workers := s.workers[w := Idle])
    case LoadEdit(ed, j, patch) => s.(edits := s.edits[ed := Loaded(j, s.jobs[j], patch)])
    case ComputeEdit(ed) => s.(edits := s.edits[ed := Computed(s.edits[ed], s.clock)])
    case SaveEdit(ed) =>
      // writing to a deleted row fails and changes nothing
      var edit := s.edits[ed];
      s.(jobs := if edit.job in s.jobs then s.jobs[edit.job := Edited(s.jobs[edit.job], edit)] else s.jobs,
         edits := s.edits - {ed})
    case SetTerminated(j, b) => s.(jobs := s.jobs[j := s.jobs[j].(terminated := b)])
    case Delete(j) => s.(jobs := map k | k in s.jobs && k != j :: s.jobs[k])
  }

  /** Every event is enabled when its turn comes. */
  ghost predicate Legal(s: World, events: seq<Event>)
    decreases |events|
  {
    events == [] || (Enabled(s, events[0]) && Legal(Step(s, events[0]), events[1..]))
  }

  ghost function After(s: World, events: seq<Event>): World
    requires Legal(s, events)
    decreases |events|
  {
    if events == [] then s else After(Step(s, events[0]), events[1..])
  }

  ghost predicate Initial(s: World) {
    && s.locks == map[] && s.edits == map[] && s.claims == [] && s.executed == []
    && forall w :: w in s.workers ==> s.workers[w].Idle?
  }

  ghost predicate IsCron(s: World, j: JobId) {
    j in s.jobs && s.jobs[j].schedule.Cron?
  }

  /** A cron schedule that always yields a later time. */
  ghost predicate ValidCron(s: World, j: JobId) {
    IsCron(s, j) && Later(s.jobs[j].schedule.next)
  }

  // ---------- the invariant ----------

  ghost predicate Distinct<T>(xs: seq<T>) {
    forall i, k :: 0 <= i < k < |xs| ==> xs[i] != xs[k]
  }

  /** Rows held by a worker are locked by it, still carry the time it saw, and were due. */
  ghost predicate LocksGood(s: World) {
    forall w :: w in s.workers ==> WorkerLocks(s, w)
  }

  ghost predicate WorkerLocks(s: World, w: WorkerId)
    requires w in s.workers
  {
    var wk := s.workers[w];
    && Distinct(Held(wk))
    && (forall j :: j in Held(wk) ==> HeldRow(s, w, j))
    && (wk.Ready? || wk.Locking? || wk.Advancing? ==> wk.now <= s.clock)
    && (wk.Advancing? ==> forall j :: j in wk.writes ==> j in wk.held)
  }

  ghost predicate HeldRow(s: World, w: WorkerId, j: JobId)
    requires w in s.workers
  {
    var wk := s.workers[w];
    && j in s.locks && s.locks[j] == w
    && j in s.jobs && s.jobs[j].nextRun.Some?
    && (wk.Locking? || wk.Advancing? ==> s.jobs[j].nextRun.value <= wk.now)
  }

  /** Computed times of valid schedules lie behind the worker's `now`, and exactly the cron rows
      done so far have one. */
  ghost predicate WritesGood(s: World) {
    forall w :: w in s.workers && s.workers[w].Advancing? ==> WorkerWrites(s, s.workers[w])
  }

  ghost predicate WorkerWrites(s: World, wk: Worker)
    requires wk.Advancing?
  {
    && wk.done <= |wk.held|
    && (forall j :: j in wk.writes && ValidCron(s, j) ==> wk.now < wk.writes[j])
    && (forall i :: 0 <= i < wk.done ==> (wk.held[i] in wk.writes <==> IsCron(s, wk.held[i])))
    && (forall i :: wk.done <= i < |wk.held| ==> wk.held[i] !in wk.writes)
  }

  /** No claim is early. */
  ghost predicate ClaimsPast(s: World) {
    forall i :: 0 <= i < |s.claims| ==> s.claims[i].occurrence <= s.clock
  }

  /** The claims of the job strictly increase and lie before its next run. */
  ghost predicate ClaimsGood(s: World, j: JobId) {
    && ClaimsIncrease(s.claims, j)
    && (j in s.jobs && s.jobs[j].nextRun.Some? ==> ClaimsBefore(s.claims, j, s.jobs[j].nextRun.value))
  }

  ghost predicate ClaimsIncrease(claims: seq<Claim>, j: JobId) {
    forall i, k :: 0 <= i < k < |claims| && claims[i].job == j && claims[k].job == j ==>
                     claims[i].occurrence < claims[k].occurrence
  }

  ghost predicate ClaimsBefore(claims: seq<Claim>, j: JobId, t: Time) {
    forall i :: 0 <= i < |claims| && claims[i].job == j ==> claims[i].occurrence < t
  }

  /** What the order of a job's claims needs of a step: a commit that claims it finds a valid cron
      schedule, and a saved edit writes no time that a claim has reached already. */
  ghost predicate Orderly(s: World, e: Event, j: JobId)
    requires Enabled(s, e)
  {
    && (e.Commit? && j in Held(s.workers[e.w]) ==> ValidCron(s, j))
    && (e.SaveEdit? && s.edits[e.ed].job == j ==> Fresh(s, e.ed))
  }

  ghost predicate Fresh(s: World, ed: EditorId)
    requires ed in s.edits && s.edits[ed].Pending?
  {
    s.edits[ed].nextRun.Some? ==> ClaimsBefore(s.claims, s.edits[ed].job, s.edits[ed].nextRun.value)
  }

  ghost predicate OrderlyRun(s: World, events: seq<Event>, j: JobId)
    requires Legal(s, events)
    decreases |events|
  {
    events == [] || (Orderly(s, events[0], j) && OrderlyRun(Step(s, events[0]), events[1..], j))
  }

  /** A claim number is queued at most once, and never after it was executed. */
  ghost predicate QueuesGood(s: World) {
    && Distinct(s.executed)
    && (forall k :: k in s.executed ==> k < |s.claims|)
    && (forall w :: w in s.workers ==> QueueGood(s, w))
    && (forall w, v :: w in s.workers && v in s.workers && w != v ==>
                         Disjoint(Queue(s.workers[w]), Queue(s.workers[v])))
  }

  ghost predicate QueueGood(s: World, w: WorkerId)
    requires w in s.workers
  {
    var q := Queue(s.workers[w]);
    Distinct(q) && forall k :: k in q ==> k < |s.claims| && k !in s.executed
  }

  ghost predicate Disjoint(a: seq<nat>, b: seq<nat>) {
    forall k :: k in a ==> k !in b
  }

  /** Every lock belongs to a worker. */
  ghost predicate LocksOwned(s: World) {
    forall j :: j in s.locks ==> s.locks[j] in s.workers
  }

  ghost predicate Inv(s: World) {
    LocksGood(s) && LocksOwned(s) && WritesGood(s) && ClaimsPast(s) && QueuesGood(s)
  }

  lemma LocksKept(s: World, e: Event)
    requires LocksGood(s) && Enabled(s, e)
    ensures LocksGood(Step(s, e))
  {
    var s' := Step(s, e);
    forall w | w in s'.workers ensures WorkerLocks(s', w) {
      assert WorkerLocks(s, w);
      WorkerLocksKept(s, e, w);
    }
  }

  /** The worker that takes the step, if one does. */
  function Actor(e: Event): Option<WorkerId> {
    match e
    case Tick(_) => None
    case LoadEdit(_, _, _) => None
    case ComputeEdit(_) => None
    case SaveEdit(_) => None
    case SetTerminated(_, _) => None
    case Delete(_) => None
    case _ => Some(e.w)
  }

  lemma WorkerLocksKept(s: World, e: Event, w: WorkerId)
    requires LocksGood(s) && Enabled(s, e) && w in s.workers
    ensures WorkerLocks(Step(s, e), w)
  {
    if Actor(e) == Some(w) {
      OwnStepKeepsLocks(s, e, w);
    } else {
      OthersKeepRows(s, e, w);
    }
  }

  lemma OwnStepKeepsLocks(s: World, e: Event, w: WorkerId)
    requires LocksGood(s) && Enabled(s, e) && Actor(e) == Some(w)
    ensures WorkerLocks(Step(s, e), w)
  {
    assert WorkerLocks(s, w);
    if e.Lock? {
      assert s.workers[w].todo[0] !in Held(s.workers[w]);
    }
  }

  /** A step of another worker, or of a user, leaves the rows a worker has locked alone. */
  lemma OthersKeepRows(s: World, e: Event, w: WorkerId)
    requires LocksGood(s) && Enabled(s, e) && w in s.workers && Actor(e) != Some(w)
    ensures WorkerLocks(Step(s, e), w)
  {
    var s' := Step(s, e);
    assert WorkerLocks(s, w);
    if e.Commit? { assert WorkerLocks(s, e.w); }
    assert s'.workers[w] == s.workers[w];
    forall j | j in Held(s.workers[w]) ensures HeldRow(s', w, j) {
      assert HeldRow(s, w, j);
    }
  }

  /** While a worker holds a row, its schedule does not change. */
  lemma HeldScheduleKept(s: World, e: Event, w: WorkerId, j: JobId)
    requires LocksGood(s) && Enabled(s, e) && w in s.workers && s.workers[w].Advancing? && j in s.workers[w].held
    ensures j in s.jobs && j in Step(s, e).jobs && Step(s, e).jobs[j].schedule == s.jobs[j].schedule
  {
    assert WorkerLocks(s, w) && HeldRow(s, w, j);
  }

  lemma WritesKept(s: World, e: Event)
    requires LocksGood(s) && WritesGood(s) && Enabled(s, e)
    ensures WritesGood(Step(s, e))
  {
    var s' := Step(s, e);
    forall w | w in s'.workers && s'.workers[w].Advancing? ensures WorkerWrites(s', s'.workers[w]) {
      assert WorkerLocks(s, w);
      WorkerWritesKept(s, e, w);
    }
  }

  lemma WorkerWritesKept(s: World, e: Event, w: WorkerId)
    requires LocksGood(s) && WritesGood(s) && Enabled(s, e)
    requires w in s.workers && Step(s, e).workers[w].Advancing?
    ensures WorkerWrites(Step(s, e), Step(s, e).workers[w])
  {
    var s' := Step(s, e);
    var wk := s.workers[w];
    if wk.Advancing? {
      assert WorkerLocks(s, w) && WorkerWrites(s, wk);
      forall j | j in wk.held
        ensures j in s.jobs && j in s'.jobs && s'.jobs[j].schedule == s.jobs[j].schedule
      {
        HeldScheduleKept(s, e, w, j);
      }
      WritesSameSchedules(s, s', wk);
      if e == Advance(w) { AdvanceWrites(s, w); }
    }
  }

  lemma WritesSameSchedules(s: World, s': World, wk: Worker)
    requires wk.Advancing? && WorkerWrites(s, wk) && forall j :: j in wk.writes ==> j in wk.held
    requires forall j :: j in wk.held ==> j in s.jobs && j in s'.jobs && s'.jobs[j].schedule == s.jobs[j].schedule
    ensures WorkerWrites(s', wk)
  {
    forall j | j in wk.held
      ensures IsCron(s', j) <==> IsCron(s, j)
      ensures ValidCron(s', j) <==> ValidCron(s, j)
    {
    }
    hide IsCron, ValidCron;
    forall i | 0 <= i < wk.done ensures wk.held[i] in wk.writes <==> IsCron(s', wk.held[i]) {
      assert wk.held[i] in wk.held;
    }
  }

  lemma AdvanceWrites(s: World, w: WorkerId)
    requires LocksGood(s) && WritesGood(s) && Enabled(s, Advance(w))
    ensures WorkerWrites(Step(s, Advance(w)), Step(s, Advance(w)).workers[w])
  {
    assert WorkerLocks(s, w) && WorkerWrites(s, s.workers[w]);
  }

  lemma PastKept(s: World, e: Event)
    requires LocksGood(s) && ClaimsPast(s) && Enabled(s, e)
    ensures ClaimsPast(Step(s, e))
  {
    var s' := Step(s, e);
    if e.Commit? {
      var wk, n := s.workers[e.w], |s.claims|;
      assert WorkerLocks(s, e.w);
      forall i | 0 <= i < |s'.claims| ensures s'.claims[i].occurrence <= s'.clock {
        if i >= n { assert HeldRow(s, e.w, wk.held[i - n]); }
      }
    }
  }

  lemma ClaimsKept(s: World, e: Event, j: JobId)
    requires LocksGood(s) && WritesGood(s) && ClaimsGood(s, j) && Enabled(s, e) && Orderly(s, e, j)
    ensures ClaimsGood(Step(s, e), j)
  {
    if e.Commit? { CommitClaims(s, e.w, j); }
  }

  lemma NewClaimsDiffer(s: World, held: seq<JobId>, i: nat, k: nat)
    requires Distinct(held) && |s.claims| <= k < |s.claims| + |held| && i < k
    ensures var all := s.claims + NewClaims(s.jobs, held);
            all[k].job == held[k - |s.claims|] && (all[i].job == all[k].job ==> i < |s.claims|)
  {
  }

  /** The occurrence of a held row is behind every earlier claim of its job, and a commit moves
      the row behind the new claim. */
  lemma CommitClaims(s: World, w: WorkerId, j: JobId)
    requires LocksGood(s) && WritesGood(s) && ClaimsGood(s, j) && Enabled(s, Commit(w)) && Orderly(s, Commit(w), j)
    ensures ClaimsGood(Step(s, Commit(w)), j)
  {
    var s' := Step(s, Commit(w));
    var wk := s.workers[w];
    var n := |s.claims|;
    assert WorkerLocks(s, w) && WorkerWrites(s, wk);
    if j in wk.held { assert HeldRow(s, w, j); }
    forall i, k | 0 <= i < k < |s'.claims| && s'.claims[i].job == j && s'.claims[k].job == j
      ensures s'.claims[i].occurrence < s'.claims[k].occurrence
    {
      if k >= n { NewClaimsDiffer(s, wk.held, i, k); }
    }
    if j in s'.jobs && s'.jobs[j].nextRun.Some? {
      forall i | 0 <= i < |s'.claims| && s'.claims[i].job == j
        ensures s'.claims[i].occurrence < s'.jobs[j].nextRun.value
      {
        if i >= n { assert j == wk.held[i - n]; }
      }
    }
  }

  /** The claim numbers a worker may execute: its own from before, or those of its own commit. */
  lemma QueueKept(s: World, e: Event, w: WorkerId)
    requires QueuesGood(s) && Enabled(s, e) && w in s.workers
    ensures QueueGood(Step(s, e), w)
    ensures forall k :: k in Queue(Step(s, e).workers[w]) ==>
                          k in Queue(s.workers[w]) || (e == Commit(w) && |s.claims| <= k)
  {
    assert QueueGood(s, w);
    if e == Commit(w) {
      NumbersGood(|s.claims|, |s.workers[w].held|);
      assert Queue(Step(s, e).workers[w]) == Numbers(|s.claims|, |s.workers[w].held|);
    } else if e == Execute(w) {
      var q := s.workers[w].queue;
      assert Queue(Step(s, e).workers[w]) == q[1..];
      forall k | k in q[1..] ensures k in q && k != q[0] {
        var i :| 0 <= i < |q[1..]| && q[1..][i] == k;
        assert q[i + 1] == k;
      }
    } else if e.Execute? {
      var k := s.workers[e.w].queue[0];
      assert k in Queue(s.workers[e.w]);
      assert Disjoint(Queue(s.workers[e.w]), Queue(s.workers[w]));
    }
  }

  lemma NumbersGood(first: nat, n: nat)
    ensures Distinct(Numbers(first, n)) && forall k :: k in Numbers(first, n) ==> first <= k < first + n
  {
  }

  lemma ExecutedKept(s: World, e: Event)
    requires QueuesGood(s) && Enabled(s, e)
    ensures var s' := Step(s, e);
            Distinct(s'.executed) && forall k :: k in s'.executed ==> k < |s'.claims|
  {
    if e.Execute? {
      assert QueueGood(s, e.w) && s.workers[e.w].queue[0] in Queue(s.workers[e.w]);
    }
  }

  lemma QueuesKept(s: World, e: Event)
    requires QueuesGood(s) && Enabled(s, e)
    ensures QueuesGood(Step(s, e))
  {
    var s' := Step(s, e);
    assert s'.workers.Keys == s.workers.Keys;
    ExecutedKept(s, e);
    forall w | w in s'.workers ensures QueueGood(s', w) { QueueKept(s, e, w); }
    forall w, v | w in s'.workers && v in s'.workers && w != v
      ensures Disjoint(Queue(s'.workers[w]), Queue(s'.workers[v]))
    {
      hide Step;
      assert QueueGood(s, w) && QueueGood(s, v);
      QueueKept(s, e, w);
      QueueKept(s, e, v);
    }
  }

  lemma OwnedKept(s: World, e: Event)
    requires LocksOwned(s) && Enabled(s, e)
    ensures LocksOwned(Step(s, e))
  {
  }

  lemma InvKept(s: World, e: Event)
    requires Inv(s) && Enabled(s, e)
    ensures Inv(Step(s, e))
  {
    LocksKept(s, e);
    WritesKept(s, e);
    OwnedKept(s, e);
    PastKept(s, e);
    QueuesKept(s, e);
  }

  lemma {:induction false} InvAfter(s: World, events: seq<Event>)
    requires Inv(s) && Legal(s, events)
    ensures Inv(After(s, events))
    decreases |events|
  {
    if events != [] {
      InvKept(s, events[0]);
      InvAfter(Step(s, events[0]), events[1..]);
    }
  }

  lemma InitialInv(s: World)
    requires Initial(s)
    ensures Inv(s)
  {
    forall w | w in s.workers ensures WorkerLocks(s, w) && QueueGood(s, w) {}
  }

  // ---------- what every run promises ----------

  lemma {:induction false} ClaimsGoodAfter(s: World, events: seq<Event>, j: JobId)
    requires Inv(s) && ClaimsGood(s, j) && Legal(s, events) && OrderlyRun(s, events, j)
    ensures ClaimsGood(After(s, events), j)
    decreases |events|
  {
    hide Enabled, Step, Orderly, Inv, ClaimsGood;
    if events != [] {
      InvKept(s, events[0]);
      InvGivesParts(s);
      ClaimsKept(s, events[0], j);
      ClaimsGoodAfter(Step(s, events[0]), events[1..], j);
    }
  }

  lemma InvGivesParts(s: World)
    requires Inv(s)
    ensures LocksGood(s) && LocksOwned(s) && WritesGood(s) && ClaimsPast(s) && QueuesGood(s)
  {
  }

  /** Over every interleaving in which each commit that claims a job finds a valid cron schedule and
      no edit writes a time its claims have reached, the occurrences claimed for the job strictly
      increase, so none is claimed twice. */
  lemma OccurrencesIncrease(s: World, events: seq<Event>, j: JobId)
    requires Initial(s) && Legal(s, events) && OrderlyRun(s, events, j)
    ensures ClaimsIncrease(After(s, events).claims, j)
  {
    InitialInv(s);
    ClaimsGoodAfter(s, events, j);
  }

  /** Nobody edits the job. */
  ghost predicate Unedited(events: seq<Event>, j: JobId) {
    forall i :: 0 <= i < |events| && events[i].LoadEdit? ==> events[i].job != j
  }

  ghost predicate NoEditUnderWay(s: World, j: JobId) {
    forall ed :: ed in s.edits ==> s.edits[ed].job != j
  }

  lemma UneditedStep(s: World, e: Event, j: JobId)
    requires LocksGood(s) && Enabled(s, e) && NoEditUnderWay(s, j) && (e.LoadEdit? ==> e.job != j)
    requires j in s.jobs ==> ValidCron(s, j)
    ensures Orderly(s, e, j) && NoEditUnderWay(Step(s, e), j)
    ensures j in Step(s, e).jobs ==> ValidCron(Step(s, e), j)
  {
    if e.Commit? {
      assert WorkerLocks(s, e.w);
      if j in Held(s.workers[e.w]) { assert HeldRow(s, e.w, j); }
    }
  }

  /** A job with a valid cron schedule that nobody edits needs no other condition. */
  lemma {:induction false} UneditedIsOrderly(s: World, events: seq<Event>, j: JobId)
    requires Inv(s) && Legal(s, events) && NoEditUnderWay(s, j) && Unedited(events, j)
    requires j in s.jobs ==> ValidCron(s, j)
    ensures OrderlyRun(s, events, j)
    decreases |events|
  {
    hide Enabled, Step, Orderly, Inv, NoEditUnderWay, ValidCron;
    if events != [] {
      var e := events[0];
      InvGivesParts(s);
      UneditedStep(s, e, j);
      InvKept(s, e);
      forall i | 0 <= i < |events| - 1 ensures events[1..][i] == events[i + 1] {}
      UneditedIsOrderly(Step(s, e), events[1..], j);
    }
  }

  lemma UneditedOccurrencesIncrease(s: World, events: seq<Event>, j: JobId)
    requires Initial(s) && Legal(s, events) && Unedited(events, j) && (j in s.jobs ==> ValidCron(s, j))
    ensures ClaimsIncrease(After(s, events).claims, j)
  {
    InitialInv(s);
    UneditedIsOrderly(s, events, j);
    OccurrencesIncrease(s, events, j);
  }

  /** No job is claimed before its time. */
  lemma NeverEarly(s: World, events: seq<Event>, i: nat)
    requires Initial(s) && Legal(s, events) && i < |After(s, events).claims|
    ensures After(s, events).claims[i].occurrence <= After(s, events).clock
  {
    InitialInv(s);
    InvAfter(s, events);
  }

  /** Every execution runs a claim of its own, so in an orderly run no occurrence of the job is
      executed twice. */
  lemma ExecutedOnce(s: World, events: seq<Event>, j: JobId, i: nat, k: nat)
    requires Initial(s) && Legal(s, events) && OrderlyRun(s, events, j)
    requires i < k < |After(s, events).executed|
    ensures var end := After(s, events);
            var a, b := end.executed[i], end.executed[k];
            && a < |end.claims| && b < |end.claims| && a != b
            && (end.claims[a].job == j ==> end.claims[a] != end.claims[b])
  {
    InitialInv(s);
    InvAfter(s, events);
    OccurrencesIncrease(s, events, j);
    var end := After(s, events);
    assert end.executed[i] in end.executed && end.executed[k] in end.executed;
  }

  /** Two workers never hold the same row. */
  lemma HeldByOne(s: World, events: seq<Event>, w: WorkerId, v: WorkerId, j: JobId)
    requires Initial(s) && Legal(s, events)
    requires var end := After(s, events);
             w in end.workers && v in end.workers && j in Held(end.workers[w]) && j in Held(end.workers[v])
    ensures w == v
  {
    InitialInv(s);
    InvAfter(s, events);
    var end := After(s, events);
    assert WorkerLocks(end, w) && WorkerLocks(end, v);
    assert HeldRow(end, w, j) && HeldRow(end, v, j);
  }

  /** A commit moves a claimed job past the claimed occurrence exactly when its schedule is
      cron; otherwise the job stays due. */
  lemma CommitMovesOnIffCron(s: World, events: seq<Event>, w: WorkerId, j: JobId)
    requires Initial(s) && Legal(s, events)
    requires var end := After(s, events);
             && Enabled(end, Commit(w)) && j in Held(end.workers[w])
             && (IsCron(end, j) ==> ValidCron(end, j))
    ensures var end := After(s, events);
            var next := Step(end, Commit(w));
            && j in end.jobs && j in next.jobs
            && end.jobs[j].nextRun.Some? && next.jobs[j].nextRun.Some?
            && (end.jobs[j].nextRun.value < next.jobs[j].nextRun.value <==> IsCron(end, j))
            && (!IsCron(end, j) ==> next.jobs[j] == end.jobs[j])
  {
    InitialInv(s);
    InvAfter(s, events);
    var end := After(s, events);
    assert WorkerLocks(end, w) && WorkerWrites(end, end.workers[w]) && HeldRow(end, w, j);
    var i :| 0 <= i < |end.workers[w].held| && end.workers[w].held[i] == j;
  }

  // ---------- composing runs ----------

  /** The events are legal from `s` and end in `end`. */
  ghost predicate Leads(s: World, events: seq<Event>, end: World) {
    Legal(s, events) && After(s, events) == end
  }

  lemma {:induction false} Then(s: World, xs: seq<Event>, mid: World, ys: seq<Event>, end: World)
    requires Leads(s, xs, mid) && Leads(mid, ys, end)
    ensures Leads(s, xs + ys, end)
    decreases |xs|
  {
    hide Enabled, Step;
    if xs == [] {
      assert xs + ys == ys;
    } else {
      assert (xs + ys)[1..] == xs[1..] + ys;
      Then(Step(s, xs[0]), xs[1..], mid, ys, end);
    }
  }

  /** The events also keep the order of the job's claims. */
  ghost predicate Reaches(s: World, events: seq<Event>, end: World, j: JobId) {
    Leads(s, events, end) && OrderlyRun(s, events, j)
  }

  lemma {:induction false} ThenOrderly(s: World, xs: seq<Event>, mid: World, ys: seq<Event>, end: World, j: JobId)
    requires Reaches(s, xs, mid, j) && Reaches(mid, ys, end, j)
    ensures Reaches(s, xs + ys, end, j)
    decreases |xs|
  {
    hide Enabled, Step, Orderly;
    if xs == [] {
      assert xs + ys == ys;
    } else {
      assert (xs + ys)[1..] == xs[1..] + ys;
      ThenOrderly(Step(s, xs[0]), xs[1..], mid, ys, end, j);
    }
  }

  lemma OneOrderlyStep(s: World, e: Event, end: World, j: JobId)
    requires Enabled(s, e) && end == Step(s, e) && Orderly(s, e, j)
    ensures Reaches(s, [e], end, j)
  {
    assert [e][1..] == [];
  }

  lemma OneStep(s: World, e: Event, end: World)
    requires Enabled(s, e) && end == Step(s, e)
    ensures Leads(s, [e], end)
  {
    assert [e][1..] == [];
  }

  // ---------- one pass of one worker ----------

  function Pass(w: WorkerId, j: JobId): seq<Event> {
    [Begin(w), Select(w, [j]), Lock(w), Fetched(w), Advance(w), Commit(w), Execute(w), Finish(w)]
  }

  /** A list of worlds linked by enabled steps. */
  ghost predicate Linked(trace: seq<World>, events: seq<Event>) {
    && |trace| == |events| + 1
    && forall i :: 0 <= i < |events| ==> Enabled(trace[i], events[i]) && trace[i + 1] == Step(trace[i], events[i])
  }

  lemma {:induction false} LinkedIsLegal(trace: seq<World>, events: seq<Event>, j: JobId)
    requires Linked(trace, events)
    ensures Leads(trace[0], events, trace[|events|])
    ensures (forall i :: 0 <= i < |events| ==> Orderly(trace[i], events[i], j)) ==> OrderlyRun(trace[0], events, j)
    decreases |events|
  {
    hide Enabled, Step, Orderly;
    if events != [] {
      assert Linked(trace[1..], events[1..]);
      LinkedIsLegal(trace[1..], events[1..], j);
      assert forall i :: 0 <= i < |events| - 1 ==> trace[1..][i] == trace[i + 1] && events[1..][i] == events[i + 1];
    }
  }

  function With(s: World, w: WorkerId, wk: Worker): World {
    s.(workers := s.workers[w := wk])
  }

  /** An idle worker, no locks, and exactly one job due. */
  ghost predicate Quiet(s: World, w: WorkerId, j: JobId) {
    w in s.workers && s.workers[w].Idle? && s.locks == map[] && Finds(s, s.clock, [j])
  }

  lemma QuietIsDue(s: World, w: WorkerId, j: JobId)
    requires Quiet(s, w, j)
    ensures j in s.jobs && Due(s.jobs[j], s.clock)
  {
    assert j in [j];
  }

  /** The job claimed, advanced when its schedule gives a time, and executed. */
  function Claimed(s: World, j: JobId): World
    requires j in s.jobs && s.jobs[j].nextRun.Some?
  {
    var next := NextFor(s.jobs, j, s.clock);
    s.(jobs := s.jobs[j := s.jobs[j].(nextRun := if next.Some? then next else s.jobs[j].nextRun)],
       claims := s.claims + [Claim(j, s.jobs[j].nextRun.value)])
  }

  function Passed(s: World, j: JobId): World
    requires j in s.jobs && s.jobs[j].nextRun.Some?
  {
    Claimed(s, j).(executed := s.executed + [|s.claims|])
  }

  function PassTrace(s: World, w: WorkerId, j: JobId): seq<World>
    requires j in s.jobs && s.jobs[j].nextRun.Some?
  {
    var locked := s.(locks := map[j := w]);
    [s,
     With(s, w, Ready(s.clock)),
     With(s, w, Locking(s.clock, [j], [])),
     With(locked, w, Locking(s.clock, [], [j])),
     With(locked, w, Advancing(s.clock, [j], 0, map[])),
     With(locked, w, Advancing(s.clock, [j], 1, OneWrite(s, j))),
     With(Claimed(s, j), w, Executing([|s.claims|])),
     With(Passed(s, j), w, Executing([])),
     Passed(s, j)]
  }

  lemma PassLinked(s: World, w: WorkerId, j: JobId)
    requires Quiet(s, w, j) && j in s.jobs && Due(s.jobs[j], s.clock)
    ensures Linked(PassTrace(s, w, j), Pass(w, j))
  {
    hide Enabled, Step, With, Passed, Claimed, Finds;
    SelectOne(s, w, j);
    LockOne(s, w, j);
    AdvanceAndCommit(s, w, j);
    ExecuteAndFinish(s, w, j);
  }

  lemma PassOrderly(s: World, w: WorkerId, j: JobId, i: nat)
    requires ValidCron(s, j) && s.jobs[j].nextRun.Some? && i < |Pass(w, j)|
    requires Linked(PassTrace(s, w, j), Pass(w, j))
    ensures Orderly(PassTrace(s, w, j)[i], Pass(w, j)[i], j)
  {
    hide Enabled, Step, Passed, Claimed;
    assert i == 5 || !Pass(w, j)[i].Commit?;
  }

  /** What one scan of a lone worker does. */
  lemma PassClaims(s: World, w: WorkerId, j: JobId)
    requires Quiet(s, w, j)
    ensures j in s.jobs && Due(s.jobs[j], s.clock) && Leads(s, Pass(w, j), Passed(s, j))
    ensures ValidCron(s, j) ==> OrderlyRun(s, Pass(w, j), j)
  {
    QuietIsDue(s, w, j);
    hide Enabled, Step, With, Passed, Claimed, Quiet, Orderly, Linked;
    PassLinked(s, w, j);
    if ValidCron(s, j) {
      forall i | 0 <= i < |Pass(w, j)| ensures Orderly(PassTrace(s, w, j)[i], Pass(w, j)[i], j) {
        PassOrderly(s, w, j, i);
      }
    }
    LinkedIsLegal(PassTrace(s, w, j), Pass(w, j), j);
  }

  function OneWrite(s: World, j: JobId): map<JobId, Time> {
    var next := NextFor(s.jobs, j, s.clock);
    if next.Some? then map[j := next.value] else map[]
  }

  lemma SelectOne(s: World, w: WorkerId, j: JobId)
    requires Quiet(s, w, j)
    ensures var s1 := With(s, w, Ready(s.clock));
            var s2 := With(s, w, Locking(s.clock, [j], []));
            && Enabled(s, Begin(w)) && s1 == Step(s, Begin(w))
            && Enabled(s1, Select(w, [j])) && s2 == Step(s1, Select(w, [j]))
  {
    var s1 := With(s, w, Ready(s.clock));
    assert Finds(s1, s.clock, [j]) by { assert s1.jobs == s.jobs; }
    hide Finds;
    assert s1.workers[w := Locking(s.clock, [j], [])] == s.workers[w := Locking(s.clock, [j], [])];
  }

  lemma LockOne(s: World, w: WorkerId, j: JobId)
    requires w in s.workers && s.locks == map[] && j in s.jobs && Due(s.jobs[j], s.clock)
    ensures var locked := s.(locks := map[j := w]);
            var s2 := With(s, w, Locking(s.clock, [j], []));
            var s3 := With(locked, w, Locking(s.clock, [], [j]));
            var s4 := With(locked, w, Advancing(s.clock, [j], 0, map[]));
            && Enabled(s2, Lock(w)) && s3 == Step(s2, Lock(w))
            && Enabled(s3, Fetched(w)) && s4 == Step(s3, Fetched(w))
  {
    assert [j][1..] == [] && [] + [j] == [j];
  }

  lemma AdvanceAndCommit(s: World, w: WorkerId, j: JobId)
    requires Quiet(s, w, j) && j in s.jobs && Due(s.jobs[j], s.clock)
    ensures var locked := s.(locks := map[j := w]);
            var s4 := With(locked, w, Advancing(s.clock, [j], 0, map[]));
            var s5 := With(locked, w, Advancing(s.clock, [j], 1, OneWrite(s, j)));
            var s6 := With(Claimed(s, j), w, Executing([|s.claims|]));
            && Enabled(s4, Advance(w)) && s5 == Step(s4, Advance(w))
            && Enabled(s5, Commit(w)) && s6 == Step(s5, Commit(w))
  {
    hide Finds;
    assert Unlocked(map[j := w], w) == map[];
    assert Written(s.jobs, OneWrite(s, j)) == Claimed(s, j).jobs;
    assert Numbers(|s.claims|, 1) == [|s.claims|];
    assert NewClaims(s.jobs, [j]) == [Claim(j, s.jobs[j].nextRun.value)];
  }

  lemma ExecuteAndFinish(s: World, w: WorkerId, j: JobId)
    requires Quiet(s, w, j) && j in s.jobs && Due(s.jobs[j], s.clock)
    ensures var s6 := With(Claimed(s, j), w, Executing([|s.claims|]));
            var s7 := With(Passed(s, j), w, Executing([]));
            && Enabled(s6, Execute(w)) && s7 == Step(s6, Execute(w))
            && Enabled(s7, Finish(w)) && Passed(s, j) == Step(s7, Finish(w))
  {
    hide Finds;
    var jobs := Claimed(s, j).jobs;
    assert jobs[j := jobs[j].(terminated := false)] == jobs;
    assert [|s.claims|][1..] == [];
    assert s.workers[w := Idle] == s.workers;
  }

  /** A due job whose schedule yields no next time stays as due as before, so the same occurrence
      is claimed and executed again and again. */
  lemma SameOccurrenceTwice(s: World, w: WorkerId, j: JobId)
    requires Initial(s) && Quiet(s, w, j) && !IsCron(s, j)
    ensures j in s.jobs && s.jobs[j].nextRun.Some? && Leads(s, Pass(w, j) + Pass(w, j), Passed(Passed(s, j), j))
    ensures var end := Passed(Passed(s, j), j);
            |end.claims| == 2 && end.claims[0] == end.claims[1] && end.executed == [0, 1]
  {
    PassClaims(s, w, j);
    var once := Passed(s, j);
    assert once.jobs == s.jobs;
    assert Quiet(once, w, j);
    PassClaims(once, w, j);
    Then(s, Pass(w, j), once, Pass(w, j), Passed(once, j));
  }

  // ---------- edits that break the order ----------

  /** A job row that would run at `t`. */
  predicate RunsAt(job: Job, t: Time) {
    job.scheduled && !job.terminated && job.nextRun == Some(t)
  }

  lemma OnlyJobQuiet(s: World, w: WorkerId, j: JobId)
    requires w in s.workers && s.workers[w].Idle? && s.locks == map[]
    requires s.jobs.Keys == {j} && Due(s.jobs[j], s.clock)
    ensures Quiet(s, w, j)
  {
  }

  function BreakSchedule(ed: EditorId, j: JobId, wait: nat): seq<Event> {
    [LoadEdit(ed, j, JobPatch(None, None, Some(BrokenCron)))] + [ComputeEdit(ed)] + [SaveEdit(ed)] + [Tick(wait)]
  }

  lemma ScheduleBroken(s: World, ed: EditorId, j: JobId, wait: nat) returns (end: World)
    requires s.edits == map[] && s.locks == map[] && IsCron(s, j) && s.jobs[j].nextRun.Some?
    ensures Leads(s, BreakSchedule(ed, j, wait), end)
    ensures end == s.(clock := s.clock + wait, jobs := s.jobs[j := s.jobs[j].(schedule := BrokenCron)])
  {
    var patch := JobPatch(None, None, Some(BrokenCron));
    var s1 := s.(edits := map[ed := Loaded(j, s.jobs[j], patch)]);
    var s2 := s.(edits := map[ed := Pending(j, patch, None)]);
    var s3 := s.(jobs := s.jobs[j := s.jobs[j].(schedule := BrokenCron)]);
    end := s3.(clock := s.clock + wait);
    assert s1 == Step(s, LoadEdit(ed, j, patch));
    assert s2 == Step(s1, ComputeEdit(ed)) by { assert s1.edits[ed := s2.edits[ed]] == s2.edits; }
    assert s3 == Step(s2, SaveEdit(ed)) by { assert s2.edits - {ed} == map[]; }
    assert end == Step(s3, Tick(wait));
    hide Step, Computed, Edited;
    FourSteps(s, [LoadEdit(ed, j, patch), ComputeEdit(ed), SaveEdit(ed), Tick(wait)], s1, s2, s3, end);
  }

  /** Editing a cron job to an unreadable expression keeps its old next time; once that has come,
      its occurrence is claimed and executed twice. */
  lemma EditToBrokenRepeats(s: World, w: WorkerId, ed: EditorId, j: JobId, wait: nat)
    requires Initial(s) && w in s.workers && s.jobs.Keys == {j} && IsCron(s, j) && RunsAt(s.jobs[j], s.clock + wait)
    ensures var events := BreakSchedule(ed, j, wait) + (Pass(w, j) + Pass(w, j));
            && Legal(s, events)
            && var end := After(s, events);
               |end.claims| == 2 && end.claims[0] == end.claims[1] && end.executed == [0, 1]
  {
    hide Legal, After, OrderlyRun, Enabled, Step;
    var due := ScheduleBroken(s, ed, j, wait);
    OnlyJobQuiet(due, w, j);
    SameOccurrenceTwice(due, w, j);
    var end := Passed(Passed(due, j), j);
    Then(s, BreakSchedule(ed, j, wait), due, Pass(w, j) + Pass(w, j), end);
    LeadsGives(s, BreakSchedule(ed, j, wait) + (Pass(w, j) + Pass(w, j)), end);
  }

  lemma LeadsGives(s: World, events: seq<Event>, end: World)
    requires Leads(s, events, end)
    ensures Legal(s, events) && After(s, events) == end
  {
  }

  lemma FourSteps(s: World, es: seq<Event>, s1: World, s2: World, s3: World, s4: World)
    requires |es| == 4 && Linked([s, s1, s2, s3, s4], es)
    ensures Leads(s, [es[0]] + [es[1]] + [es[2]] + [es[3]], s4)
  {
    LinkedIsLegal([s, s1, s2, s3, s4], es, 0);
    assert [es[0]] + [es[1]] + [es[2]] + [es[3]] == es;
  }

  /** A time computed from a valid schedule lies after every claim made until then ... */
  lemma ComputedIsFresh(s: World, ed: EditorId)
    requires Inv(s) && Enabled(s, ComputeEdit(ed))
    requires var o := s.edits[ed].patch.schedule; o.Some? && o.value.Cron? ==> Later(o.value.next)
    ensures Fresh(Step(s, ComputeEdit(ed)), ed)
  {
  }

  /** ... and it stays so until a commit claims the job. */
  lemma FreshUntilClaimed(s: World, e: Event, ed: EditorId)
    requires ed in s.edits && s.edits[ed].Pending? && Fresh(s, ed) && Enabled(s, e) && e != SaveEdit(ed)
    requires !(e.Commit? && s.edits[ed].job in Held(s.workers[e.w]))
    ensures var s' := Step(s, e); ed in s'.edits && s'.edits[ed] == s.edits[ed] && Fresh(s', ed)
  {
    if e.Commit? {
      var held := s.workers[e.w].held;
      var claims := Step(s, e).claims;
      forall i | |s.claims| <= i < |claims| ensures claims[i].job in held {
        assert claims[i].job == held[i - |s.claims|];
      }
    }
  }

  /** In these events the edit is not saved and no commit claims the job. */
  ghost predicate NoClaimOf(s: World, events: seq<Event>, ed: EditorId, j: JobId)
    requires Legal(s, events)
    decreases |events|
  {
    events == [] ||
    (&& events[0] != SaveEdit(ed)
     && !(events[0].Commit? && j in Held(s.workers[events[0].w]))
     && NoClaimOf(Step(s, events[0]), events[1..], ed, j))
  }

  lemma {:induction false} StaysFresh(s: World, events: seq<Event>, ed: EditorId, j: JobId)
    requires ed in s.edits && s.edits[ed].Pending? && s.edits[ed].job == j && Fresh(s, ed)
    requires Legal(s, events) && NoClaimOf(s, events, ed, j)
    ensures var end := After(s, events); ed in end.edits && end.edits[ed] == s.edits[ed] && Fresh(end, ed)
    decreases |events|
  {
    if events != [] {
      FreshUntilClaimed(s, events[0], ed);
      hide Enabled, Step, Fresh;
      StaysFresh(Step(s, events[0]), events[1..], ed, j);
    }
  }

  /** From the moment an edit computes its time, nothing but a worker's commit that claims the job
      can make it stale. */
  lemma StaleOnlyAfterClaim(s: World, before: seq<Event>, ed: EditorId, events: seq<Event>, j: JobId)
    requires Initial(s) && Legal(s, before)
    requires var mid := After(s, before);
             && Enabled(mid, ComputeEdit(ed)) && mid.edits[ed].job == j
             && (var o := mid.edits[ed].patch.schedule; o.Some? && o.value.Cron? ==> Later(o.value.next))
             && var next := Step(mid, ComputeEdit(ed));
                Legal(next, events) && NoClaimOf(next, events, ed, j)
    ensures var end := After(Step(After(s, before), ComputeEdit(ed)), events);
            ed in end.edits && end.edits[ed].Pending? && Fresh(end, ed)
  {
    InitialInv(s);
    InvAfter(s, before);
    ComputedIsFresh(After(s, before), ed);
    StaysFresh(Step(After(s, before), ComputeEdit(ed)), events, ed, j);
  }

  /** A time still ahead when it is written is fresh. */
  lemma StillAheadIsFresh(s: World, events: seq<Event>, ed: EditorId)
    requires Initial(s) && Legal(s, events)
    requires var end := After(s, events);
             && ed in end.edits && end.edits[ed].Pending?
             && (end.edits[ed].nextRun.Some? ==> end.clock < end.edits[ed].nextRun.value)
    ensures Fresh(After(s, events), ed)
  {
    InitialInv(s);
    InvAfter(s, events);
  }

  /** Whatever orderly steps follow, the claims of the job increase. */
  ghost predicate OrderKeptFrom(s: World, j: JobId) {
    forall more: seq<Event> :: Legal(s, more) && OrderlyRun(s, more, j) ==> ClaimsIncrease(After(s, more).claims, j)
  }

  /** Writing an edit back keeps the order of the job's claims in every continuation exactly when the
      edit is fresh, in any state a run reaches: whatever rows are locked, whatever else is due. */
  lemma SaveKeepsOrderIff(s: World, events: seq<Event>, ed: EditorId, j: JobId)
    requires Initial(s) && Legal(s, events) && OrderlyRun(s, events, j)
    requires var end := After(s, events);
             && end.workers != map[] && Enabled(end, SaveEdit(ed)) && end.edits[ed].job == j
             && ValidCron(Step(end, SaveEdit(ed)), j)
    ensures var end := After(s, events);
            Fresh(end, ed) <==> OrderKeptFrom(Step(end, SaveEdit(ed)), j)
  {
    var end := After(s, events);
    var next := Step(end, SaveEdit(ed));
    InitialInv(s);
    InvAfter(s, events);
    ClaimsGoodAfter(s, events, j);
    InvKept(end, SaveEdit(ed));
    if Fresh(end, ed) {
      ClaimsKept(end, SaveEdit(ed), j);
      forall more: seq<Event> | Legal(next, more) && OrderlyRun(next, more, j)
        ensures ClaimsIncrease(After(next, more).claims, j)
      {
        ClaimsGoodAfter(next, more, j);
      }
    } else {
      var i :| && 0 <= i < |end.claims| && end.claims[i].job == j
               && end.edits[ed].nextRun.value <= end.claims[i].occurrence;
      assert next.claims == end.claims && next.jobs[j].nextRun == end.edits[ed].nextRun;
      ReachedTimeBreaksOrder(next, ed, j, i);
    }
  }

  // The worst that can follow: every lock holder dies, the job is switched on, the other jobs are
  // deleted, and one worker scans.

  /** The same tables and history; only workers and locks may differ. */
  ghost predicate SameRows(s: World, end: World) {
    && end.clock == s.clock && end.jobs == s.jobs && end.edits == s.edits
    && end.claims == s.claims && end.executed == s.executed && end.workers.Keys == s.workers.Keys
  }

  lemma {:induction false} ClearLocks(s: World, j: JobId) returns (events: seq<Event>, end: World)
    requires LocksOwned(s)
    ensures Reaches(s, events, end, j) && SameRows(s, end) && end.locks == map[]
    decreases |s.locks|
  {
    if s.locks == map[] {
      events, end := [], s;
    } else {
      var k :| k in s.locks;
      var w := s.locks[k];
      var next := Step(s, Abort(w));
      OneOrderlyStep(s, Abort(w), next, j);
      FewerLocks(s.locks, k);
      var rest;
      rest, end := ClearLocks(next, j);
      events := [Abort(w)] + rest;
      ThenOrderly(s, [Abort(w)], next, rest, end, j);
    }
  }

  lemma FewerLocks(locks: map<JobId, WorkerId>, k: JobId)
    requires k in locks
    ensures |Unlocked(locks, locks[k])| < |locks|
  {
    var rest := Unlocked(locks, locks[k]);
    assert rest.Keys <= locks.Keys - {k};
    SubsetSize(rest.Keys, locks.Keys - {k});
    assert |rest| == |rest.Keys| && |locks| == |locks.Keys|;
  }

  lemma {:induction false} SubsetSize(a: set<JobId>, b: set<JobId>)
    requires a <= b
    ensures |a| <= |b|
    decreases |a|
  {
    if a != {} {
      var x :| x in a;
      SubsetSize(a - {x}, b - {x});
    }
  }

  lemma {:induction false} DeleteOthers(s: World, j: JobId) returns (events: seq<Event>, end: World)
    requires s.locks == map[] && j in s.jobs
    ensures Reaches(s, events, end, j) && end == s.(jobs := map[j := s.jobs[j]])
    decreases |s.jobs|
  {
    if k :| k in s.jobs && k != j {
      var next := Step(s, Delete(k));
      OneOrderlyStep(s, Delete(k), next, j);
      assert next.jobs.Keys == s.jobs.Keys - {k};
      assert |next.jobs| == |next.jobs.Keys| && |s.jobs| == |s.jobs.Keys|;
      var rest;
      rest, end := DeleteOthers(next, j);
      events := [Delete(k)] + rest;
      ThenOrderly(s, [Delete(k)], next, rest, end, j);
    } else {
      assert s.jobs == map[j := s.jobs[j]];
      events, end := [], s;
    }
  }

  /** Any editor can switch the job on without touching its times. */
  lemma SwitchOn(s: World, ed: EditorId, j: JobId) returns (events: seq<Event>, end: World)
    requires s.locks == map[] && j in s.jobs && ed !in s.edits
    ensures Reaches(s, events, end, j)
    ensures end == s.(jobs := s.jobs[j := s.jobs[j].(scheduled := true, terminated := false)])
  {
    var patch := JobPatch(Some(true), Some(false), None);
    var s1 := Step(s, LoadEdit(ed, j, patch));
    var s2 := Step(s1, ComputeEdit(ed));
    assert s2.edits[ed].nextRun == None;
    end := Step(s2, SaveEdit(ed));
    assert end.edits == s.edits;
    OneOrderlyStep(s, LoadEdit(ed, j, patch), s1, j);
    OneOrderlyStep(s1, ComputeEdit(ed), s2, j);
    OneOrderlyStep(s2, SaveEdit(ed), end, j);
    hide Enabled, Step, Orderly, Reaches, Computed, Edited;
    ThenOrderly(s, [LoadEdit(ed, j, patch)], s1, [ComputeEdit(ed)], s2, j);
    ThenOrderly(s, [LoadEdit(ed, j, patch)] + [ComputeEdit(ed)], s2, [SaveEdit(ed)], end, j);
    events := [LoadEdit(ed, j, patch)] + [ComputeEdit(ed)] + [SaveEdit(ed)];
  }

  lemma ReachedTimeBreaksOrder(s: World, ed: EditorId, j: JobId, i: nat)
    requires LocksOwned(s) && ClaimsPast(s) && s.workers != map[] && ed !in s.edits && ValidCron(s, j)
    requires i < |s.claims| && s.claims[i].job == j && s.jobs[j].nextRun.Some?
    requires s.jobs[j].nextRun.value <= s.claims[i].occurrence
    ensures !OrderKeptFrom(s, j)
  {
    var w :| w in s.workers;
    var e1, s1 := ClearLocks(s, j);
    var s2 := Step(s1, Abort(w));
    OneOrderlyStep(s1, Abort(w), s2, j);
    assert s2.locks == map[];
    var e3, s3 := SwitchOn(s2, ed, j);
    var e4, s4 := DeleteOthers(s3, j);
    OnlyJobQuiet(s4, w, j);
    PassClaims(s4, w, j);
    var end := Passed(s4, j);
    assert s4.claims == s.claims && s4.jobs[j].nextRun == s.jobs[j].nextRun;
    assert end.claims[i] == s.claims[i] && end.claims[|s.claims|] == Claim(j, s.jobs[j].nextRun.value);
    assert !ClaimsIncrease(end.claims, j);
    assert Reaches(s4, Pass(w, j), end, j);
    var events := e1 + [Abort(w)] + e3 + e4 + Pass(w, j);
    assert Reaches(s, events, end, j) by {
      hide *;
      ThenOrderly(s, e1, s1, [Abort(w)], s2, j);
      ThenOrderly(s, e1 + [Abort(w)], s2, e3, s3, j);
      ThenOrderly(s, e1 + [Abort(w)] + e3, s3, e4, s4, j);
      ThenOrderly(s, e1 + [Abort(w)] + e3 + e4, s4, Pass(w, j), end, j);
    }
    assert Legal(s, events) && OrderlyRun(s, events, j) && After(s, events) == end;
  }

  /** Computing from the schedule a job already has. */
  function Resave(row: Job): JobPatch {
    JobPatch(None, None, Some(row.schedule))
  }

  /** Saving an overdue job's schedule unchanged while it is claimed twice: the edit writes back the
      second occurrence, which is then claimed and executed again. */
  lemma StaleEditRepeats(s: World, w: WorkerId, ed: EditorId, j: JobId)
    requires Initial(s) && w in s.workers && s.jobs.Keys == {j} && ValidCron(s, j) && Due(s.jobs[j], s.clock)
    ensures var wait := s.jobs[j].schedule.next(s.clock) - s.clock;
            var events := [LoadEdit(ed, j, Resave(s.jobs[j]))] + [ComputeEdit(ed)] +
                          Pass(w, j) + [Tick(wait)] + Pass(w, j) + [SaveEdit(ed)] + Pass(w, j);
            && Legal(s, events)
            && var end := After(s, events);
               |end.claims| == 3 && end.claims[1] == end.claims[2] && end.executed == [0, 1, 2]
  {
    hide Legal, After, OrderlyRun;
    var next := s.jobs[j].schedule.next;
    var v := next(s.clock);
    var s1 := Step(s, LoadEdit(ed, j, Resave(s.jobs[j])));
    var s2 := Step(s1, ComputeEdit(ed));
    assert s2.edits[ed] == Pending(j, JobPatch(None, None, None), Some(v));
    OneStep(s, LoadEdit(ed, j, Resave(s.jobs[j])), s1);
    OneStep(s1, ComputeEdit(ed), s2);
    hide Finds;
    OnlyJobQuiet(s2, w, j);
    PassClaims(s2, w, j);
    var s3 := Passed(s2, j);
    var s4 := Step(s3, Tick(v - s.clock));
    OneStep(s3, Tick(v - s.clock), s4);
    OnlyJobQuiet(s4, w, j);
    PassClaims(s4, w, j);
    var s5 := Passed(s4, j);
    var s6 := Step(s5, SaveEdit(ed));
    OneStep(s5, SaveEdit(ed), s6);
    assert s6.jobs.Keys == {j} && RunsAt(s6.jobs[j], v) && s6.clock == v;
    OnlyJobQuiet(s6, w, j);
    PassClaims(s6, w, j);
    var s7 := Passed(s6, j);
    assert s7.claims == [Claim(j, s.jobs[j].nextRun.value), Claim(j, v), Claim(j, v)] && s7.executed == [0, 1, 2];
    hide *;
    Then(s, [LoadEdit(ed, j, Resave(s.jobs[j]))], s1, [ComputeEdit(ed)], s2);
    Then(s, [LoadEdit(ed, j, Resave(s.jobs[j]))] + [ComputeEdit(ed)], s2, Pass(w, j), s3);
    Then(s, [LoadEdit(ed, j, Resave(s.jobs[j]))] + [ComputeEdit(ed)] + Pass(w, j), s3, [Tick(v - s.clock)], s4);
    Then(s, [LoadEdit(ed, j, Resave(s.jobs[j]))] + [ComputeEdit(ed)] + Pass(w, j) + [Tick(v - s.clock)],
         s4, Pass(w, j), s5);
    Then(s, [LoadEdit(ed, j, Resave(s.jobs[j]))] + [ComputeEdit(ed)] + Pass(w, j) + [Tick(v - s.clock)] + Pass(w, j),
         s5, [SaveEdit(ed)], s6);
    Then(s, [LoadEdit(ed, j, Resave(s.jobs[j]))] + [ComputeEdit(ed)] + Pass(w, j) + [Tick(v - s.clock)] + Pass(w, j) +
            [SaveEdit(ed)], s6, Pass(w, j), s7);
    LeadsGives(s, [LoadEdit(ed, j, Resave(s.jobs[j]))] + [ComputeEdit(ed)] + Pass(w, j) + [Tick(v - s.clock)] +
                  Pass(w, j) + [SaveEdit(ed)] + Pass(w, j), s7);
  }

  // ---------- the loop over the due rows ----------

  /** What the loop has written after the first `n` rows; the i-th row is computed at `clocks[i]`. */
  function Writes(jobs: map<JobId, Job>, due: seq<JobId>, clocks: seq<Time>, n: nat): map<JobId, Time>
    requires n <= |due| == |clocks|
  {
    if n == 0 then map[]
    else
      var before := Writes(jobs, due, clocks, n - 1);
      var next := NextFor(jobs, due[n - 1], clocks[n - 1]);
      if next.Some? then before[due[n - 1] := next.value] else before
  }

  method AdvanceDue(jobs: map<JobId, Job>, due: seq<JobId>, clocks: seq<Time>)
    returns (writes: map<JobId, Time>, jobIds: seq<JobId>)
    requires |due| == |clocks|
    ensures writes == Writes(jobs, due, clocks, |due|)
    ensures jobIds == due
  {
    writes, jobIds := map[], [];
    for i := 0 to |due|
      invariant writes == Writes(jobs, due, clocks, i)
      invariant jobIds == due[..i]
    {
      var next := NextFor(jobs, due[i], clocks[i]);
      if next.Some? {
        writes := writes[due[i] := next.value];
      }
      jobIds := jobIds + [due[i]];
    }
  }

  function AdvanceEvents(w: WorkerId, from: Time, clocks: seq<Time>): seq<Event>
    requires clocks == [] || from <= clocks[0]
    requires forall i, k :: 0 <= i < k < |clocks| ==> clocks[i] <= clocks[k]
    decreases |clocks|
  {
    if clocks == [] then []
    else [Tick(clocks[0] - from), Advance(w)] + AdvanceEvents(w, clocks[0], clocks[1..])
  }

  /** The loop is the worker's Advance steps at the times it reads the clock. */
  lemma {:induction false} LoopIsAdvances(s: World, w: WorkerId, clocks: seq<Time>, n: nat)
    requires w in s.workers && s.workers[w].Advancing? && n == s.workers[w].done <= |s.workers[w].held| == |clocks|
    requires forall i, k :: 0 <= i < k < |clocks| ==> clocks[i] <= clocks[k]
    requires n < |clocks| ==> s.clock <= clocks[n]
    requires s.workers[w].writes == Writes(s.jobs, s.workers[w].held, clocks, n)
    ensures Legal(s, AdvanceEvents(w, s.clock, clocks[n..]))
    ensures var end := After(s, AdvanceEvents(w, s.clock, clocks[n..]));
            && end.workers == s.workers[w := s.workers[w].(done := |clocks|,
                                             writes := Writes(s.jobs, s.workers[w].held, clocks, |clocks|))]
            && end.jobs == s.jobs && end.locks == s.locks && end.claims == s.claims
    decreases |clocks| - n
  {
    hide Legal, After, Enabled, NextFor, Step;
    if n < |clocks| {
      var wk := s.workers[w];
      var s1 := s.(clock := clocks[n]);
      var s2 := With(s1, w, wk.(done := n + 1, writes := Writes(s.jobs, wk.held, clocks, n + 1)));
      var rest := AdvanceEvents(w, clocks[n], clocks[n + 1..]);
      OneAdvance(s, w, clocks, n);
      LoopIsAdvances(s2, w, clocks, n + 1);
      LegalCons(s1, Advance(w), rest, s2);
      LegalCons(s, Tick(clocks[n] - s.clock), [Advance(w)] + rest, s1);
      EventsUnfold(w, s.clock, clocks, n);
    } else {
      assert clocks[n..] == [];
      NoEvents(s);
    }
  }

  lemma EventsUnfold(w: WorkerId, from: Time, clocks: seq<Time>, n: nat)
    requires n < |clocks| && from <= clocks[n]
    requires forall i, k :: 0 <= i < k < |clocks| ==> clocks[i] <= clocks[k]
    ensures AdvanceEvents(w, from, clocks[n..])
            == [Tick(clocks[n] - from)] + ([Advance(w)] + AdvanceEvents(w, clocks[n], clocks[n + 1..]))
  {
    assert clocks[n..][1..] == clocks[n + 1..];
  }

  lemma LegalCons(s: World, e: Event, rest: seq<Event>, next: World)
    requires Enabled(s, e) && next == Step(s, e) && Legal(next, rest)
    ensures Legal(s, [e] + rest) && After(s, [e] + rest) == After(next, rest)
  {
    assert ([e] + rest)[1..] == rest;
  }

  lemma NoEvents(s: World)
    ensures Legal(s, []) && After(s, []) == s
  {
  }

  lemma OneAdvance(s: World, w: WorkerId, clocks: seq<Time>, n: nat)
    requires w in s.workers && s.workers[w].Advancing? && n == s.workers[w].done < |s.workers[w].held| == |clocks|
    requires s.clock <= clocks[n] && s.workers[w].writes == Writes(s.jobs, s.workers[w].held, clocks, n)
    ensures var wk := s.workers[w];
            var s1 := s.(clock := clocks[n]);
            && Enabled(s, Tick(clocks[n] - s.clock)) && s1 == Step(s, Tick(clocks[n] - s.clock))
            && Enabled(s1, Advance(w))
            && With(s1, w, wk.(done := n + 1, writes := Writes(s.jobs, wk.held, clocks, n + 1)))
               == Step(s1, Advance(w))
  {
  }
}
