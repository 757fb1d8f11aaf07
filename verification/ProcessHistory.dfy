/** Process definitions and their version history: create, update, delete and rollback. */
module ProcessHistory {
  import opened Wrappers

  type Id = string

  /** The JSON columns a version carries. */
  datatype Content = Content(nodes: string, edges: string, variables: string)

  datatype Patch = Patch(nodes: Option<string>, edges: Option<string>, variables: Option<string>)

  datatype Process = Process(version: int, content: Content, deleted: bool)

  datatype Snapshot = Snapshot(process: Id, version: int, content: Content)

  datatype Tables = Tables(processes: map<Id, Process>, snapshots: seq<Snapshot>)

  /** COALESCE(new, old) on each column. */
  function Patched(c: Content, p: Patch): Content {
    Content(Or(p.nodes, c.nodes), Or(p.edges, c.edges), Or(p.variables, c.variables))
  }

  predicate Live(t: Tables, id: Id) {
    id in t.processes && !t.processes[id].deleted
  }

  function FindSnapshot(snapshots: seq<Snapshot>, id: Id, version: int): (r: Option<Snapshot>)
    ensures r.Some? ==> r.value in snapshots && r.value.process == id && r.value.version == version
    ensures r.None? ==> forall s :: s in snapshots ==> s.process != id || s.version != version
  {
    if snapshots == [] then None
    else if snapshots[0].process == id && snapshots[0].version == version then Some(snapshots[0])
    else FindSnapshot(snapshots[1..], id, version)
  }

  function Created(t: Tables, id: Id, c: Content): Tables {
    t.(processes := t.processes[id := Process(1, c, false)])
  }

  function Updated(t: Tables, id: Id, p: Patch): Tables {
    if !Live(t, id) then t
    else
      var row := t.processes[id];
      Tables(t.processes[id := row.(version := row.version + 1, content := Patched(row.content, p))],
             t.snapshots + [Snapshot(id, row.version, row.content)])
  }

  function Deleted(t: Tables, id: Id): Tables {
    if !Live(t, id) then t else t.(processes := t.processes[id := t.processes[id].(deleted := true)])
  }

  function RolledBack(t: Tables, id: Id, version: int): Tables {
    var s := FindSnapshot(t.snapshots, id, version);
    if s.None? || id !in t.processes then t
    else t.(processes := t.processes[id := t.processes[id].(version := version, content := s.value.content)])
  }

  class ProcessStore {
    var processes: map<Id, Process>
    var snapshots: seq<Snapshot>

    function State(): Tables
      reads this
    {
      Tables(processes, snapshots)
    }

    constructor ()
      ensures State() == Tables(map[], [])
    {
      processes, snapshots := map[], [];
    }

    /** Ids are fresh UUIDs. */
    method Create(id: Id, c: Content)
      requires id !in processes
      modifies this
      ensures State() == Created(old(State()), id, c)
    {
      processes := processes[id := Process(1, c, false)];
    }

    method Update(id: Id, p: Patch) returns (found: bool)
      modifies this
      ensures found == old(Live(State(), id))
      ensures State() == Updated(old(State()), id, p)
    {
      found := id in processes && !processes[id].deleted;
      if !found { return; }
      var row := processes[id];
      snapshots := snapshots + [Snapshot(id, row.version, row.content)];
      processes := processes[id := row.(version := row.version + 1, content := Patched(row.content, p))];
    }

    method Delete(id: Id) returns (found: bool)
      modifies this
      ensures found == old(Live(State(), id))
      ensures State() == Deleted(old(State()), id)
    {
      found := id in processes && !processes[id].deleted;
      if !found { return; }
      processes := processes[id := processes[id].(deleted := true)];
    }

    /** Deleted processes are rolled back too: only the snapshot is looked up. */
    method Rollback(id: Id, version: int) returns (found: bool)
      modifies this
      ensures found == FindSnapshot(old(snapshots), id, version).Some?
      ensures State() == RolledBack(old(State()), id, version)
    {
      var s := FindSnapshot(snapshots, id, version);
      found := s.Some?;
      if !found { return; }
      if id in processes {
        processes := processes[id := processes[id].(version := version, content := s.value.content)];
      }
    }
  }

  // ---------- one request, column by column ----------

  /** An update of a live process keeps its present columns as a snapshot under its present version,
      counts the version up, replaces the given columns and touches nothing else. */
  lemma UpdateLaw(t: Tables, id: Id, p: Patch)
    ensures var t' := Updated(t, id, p);
            if id !in t.processes || t.processes[id].deleted then t' == t
            else && var before := t.processes[id];
                    && t'.snapshots == t.snapshots + [Snapshot(id, before.version, before.content)]
                    && id in t'.processes && t'.processes == t.processes[id := t'.processes[id]]
                    && var row := t'.processes[id];
                       && row.version == before.version + 1 && !row.deleted
                       && row.content.nodes == (if p.nodes.Some? then p.nodes.value else before.content.nodes)
                       && row.content.edges == (if p.edges.Some? then p.edges.value else before.content.edges)
                       && row.content.variables ==
                          (if p.variables.Some? then p.variables.value else before.content.variables)
  {
  }

  /** A rollback finds a snapshot of the process and version, copies its columns and number into the row,
      and changes nothing when there is none. */
  lemma RollbackLaw(t: Tables, id: Id, version: int)
    requires id in t.processes
    ensures var t' := RolledBack(t, id, version);
            if forall s :: s in t.snapshots ==> s.process != id || s.version != version then t' == t
            else exists s :: s in t.snapshots && s.process == id && s.version == version &&
                             t' == Tables(t.processes[id := Process(version, s.content, t.processes[id].deleted)],
                                          t.snapshots)
  {
    var s := FindSnapshot(t.snapshots, id, version);
  }

  // ---------- runs ----------

  datatype Op =
    | CreateOp(id: Id, content: Content)
    | UpdateOp(id: Id, patch: Patch)
    | DeleteOp(id: Id)
    | RollbackOp(id: Id, version: int)

  function Apply(t: Tables, op: Op): Tables {
    match op
    case CreateOp(id, c) => Created(t, id, c)
    case UpdateOp(id, p) => Updated(t, id, p)
    case DeleteOp(id) => Deleted(t, id)
    case RollbackOp(id, version) => RolledBack(t, id, version)
  }

  function Run(ops: seq<Op>): Tables {
    if ops == [] then Tables(map[], []) else Apply(Run(ops[..|ops| - 1]), ops[|ops| - 1])
  }

  lemma RunAppend(ops: seq<Op>, op: Op)
    ensures Run(ops + [op]) == Apply(Run(ops), op)
  {
    assert (ops + [op])[..|ops|] == ops;
  }

  ghost predicate FreshIds(ops: seq<Op>) {
    forall i, j :: 0 <= i < j < |ops| && ops[i].CreateOp? && ops[j].CreateOp? ==> ops[i].id != ops[j].id
  }

  /** The operation is an update of the process that finds it. */
  predicate Updates(t: Tables, op: Op, id: Id) {
    op.UpdateOp? && op.id == id && Live(t, id)
  }

  /** The operation is a rollback of the process that finds its version. */
  predicate RollsBack(t: Tables, op: Op, id: Id) {
    op.RollbackOp? && op.id == id && FindSnapshot(t.snapshots, id, op.version).Some?
  }

  ghost predicate UpdatesAt(ops: seq<Op>, i: int, id: Id)
    requires 0 <= i < |ops|
  {
    Updates(Run(ops[..i]), ops[i], id)
  }

  ghost predicate RollsBackAt(ops: seq<Op>, i: int, id: Id)
    requires 0 <= i < |ops|
  {
    RollsBack(Run(ops[..i]), ops[i], id)
  }

  /** A rollback of the process succeeds somewhere in the run. */
  ghost predicate EverRolledBack(ops: seq<Op>, id: Id) {
    exists i :: 0 <= i < |ops| && RollsBackAt(ops, i, id)
  }

  /** A successful update of the process follows a successful rollback of it. */
  ghost predicate UpdatedAfterRollback(ops: seq<Op>, id: Id) {
    exists i, j :: 0 <= i < j < |ops| && RollsBackAt(ops, i, id) && UpdatesAt(ops, j, id)
  }

  lemma PrefixAt(ops: seq<Op>, n: nat, id: Id)
    requires n <= |ops|
    ensures forall i :: 0 <= i < n ==> (RollsBackAt(ops[..n], i, id) <==> RollsBackAt(ops, i, id))
    ensures forall i :: 0 <= i < n ==> (UpdatesAt(ops[..n], i, id) <==> UpdatesAt(ops, i, id))
  {
    hide Run;
    forall i | 0 <= i < n
      ensures RollsBackAt(ops[..n], i, id) <==> RollsBackAt(ops, i, id)
      ensures UpdatesAt(ops[..n], i, id) <==> UpdatesAt(ops, i, id)
    {
      assert ops[..n][..i] == ops[..i];
    }
  }

  /** The two conditions one operation further. */
  lemma OneMore(ops: seq<Op>, id: Id)
    requires ops != []
    ensures var n := |ops| - 1;
            var before, t, op := ops[..n], Run(ops[..n]), ops[n];
            && (EverRolledBack(ops, id) <==> EverRolledBack(before, id) || RollsBack(t, op, id))
            && (UpdatedAfterRollback(ops, id) <==>
                UpdatedAfterRollback(before, id) || (EverRolledBack(before, id) && Updates(t, op, id)))
  {
    hide Run, RollsBack, Updates;
    var n := |ops| - 1;
    PrefixAt(ops, n, id);
    assert RollsBackAt(ops, n, id) <==> RollsBack(Run(ops[..n]), ops[n], id);
    assert UpdatesAt(ops, n, id) <==> Updates(Run(ops[..n]), ops[n], id);
    hide RollsBackAt, UpdatesAt;
    OneMoreRollback(ops, id);
    OneMoreUpdate(ops, id);
  }

  lemma OneMoreRollback(ops: seq<Op>, id: Id)
    requires ops != []
    ensures EverRolledBack(ops, id) <==> EverRolledBack(ops[..|ops| - 1], id) || RollsBackAt(ops, |ops| - 1, id)
  {
    var n := |ops| - 1;
    PrefixAt(ops, n, id);
    hide RollsBackAt, UpdatesAt;
    if i :| 0 <= i < n && RollsBackAt(ops[..n], i, id) { assert RollsBackAt(ops, i, id); }
  }

  lemma OneMoreUpdate(ops: seq<Op>, id: Id)
    requires ops != []
    ensures var n := |ops| - 1;
            UpdatedAfterRollback(ops, id) <==>
            UpdatedAfterRollback(ops[..n], id) || (EverRolledBack(ops[..n], id) && UpdatesAt(ops, n, id))
  {
    var n := |ops| - 1;
    hide Run, UpdatesAt, RollsBackAt, UpdatedAfterRollback;
    if UpdatedAfterRollback(ops, id) { UpdateSplits(ops, id); }
    if UpdatedAfterRollback(ops[..n], id) || (EverRolledBack(ops[..n], id) && UpdatesAt(ops, n, id)) {
      UpdateExtends(ops, id);
    }
  }

  lemma UpdateSplits(ops: seq<Op>, id: Id)
    requires ops != [] && UpdatedAfterRollback(ops, id)
    ensures var n := |ops| - 1;
            UpdatedAfterRollback(ops[..n], id) || (EverRolledBack(ops[..n], id) && UpdatesAt(ops, n, id))
  {
    var n := |ops| - 1;
    PrefixAt(ops, n, id);
    hide RollsBackAt, UpdatesAt;
    var i, j :| 0 <= i < j < |ops| && RollsBackAt(ops, i, id) && UpdatesAt(ops, j, id);
    assert RollsBackAt(ops[..n], i, id);
    if j < n { assert UpdatesAt(ops[..n], j, id); }
  }

  lemma UpdateExtends(ops: seq<Op>, id: Id)
    requires ops != []
    requires var n := |ops| - 1;
             UpdatedAfterRollback(ops[..n], id) || (EverRolledBack(ops[..n], id) && UpdatesAt(ops, n, id))
    ensures UpdatedAfterRollback(ops, id)
  {
    var n := |ops| - 1;
    PrefixAt(ops, n, id);
    hide RollsBackAt, UpdatesAt;
    if EverRolledBack(ops[..n], id) && UpdatesAt(ops, n, id) {
      var i :| 0 <= i < n && RollsBackAt(ops[..n], i, id);
      assert RollsBackAt(ops, i, id);
    } else {
      var i, j :| 0 <= i < j < n && RollsBackAt(ops[..n], i, id) && UpdatesAt(ops[..n], j, id);
      assert RollsBackAt(ops, i, id) && UpdatesAt(ops, j, id);
    }
  }

  // ---------- histories without a rollback ----------

  /** The contents a process has had, read off the requests alone; a deleted one accepts no more. */
  datatype Past = Past(contents: seq<Content>, deleted: bool)

  function Recorded(h: Past, op: Op, id: Id): Past {
    if op.id != id then h
    else match op
      case CreateOp(_, c) => Past([c], false)
      case UpdateOp(_, p) =>
        if h.contents == [] || h.deleted then h
        else h.(contents := h.contents + [Patched(h.contents[|h.contents| - 1], p)])
      case DeleteOp(_) => if h.contents == [] then h else h.(deleted := true)
      case RollbackOp(_, _) => h
  }

  function History(ops: seq<Op>, id: Id): Past {
    if ops == [] then Past([], false) else Recorded(History(ops[..|ops| - 1], id), ops[|ops| - 1], id)
  }

  function OfProcess(snapshots: seq<Snapshot>, id: Id): seq<Snapshot> {
    if snapshots == [] then []
    else OfProcess(snapshots[..|snapshots| - 1], id) +
         if snapshots[|snapshots| - 1].process == id then [snapshots[|snapshots| - 1]] else []
  }

  /** Row and snapshots of a process agree with its history: versions 1, 2, ..., n-1 are in the
      snapshots, once each and in order, and version n is in the row. */
  ghost predicate Faithful(t: Tables, id: Id, h: Past) {
    var n := |h.contents|;
    && (id in t.processes <==> n > 0)
    && (n > 0 ==> t.processes[id] == Process(n, h.contents[n - 1], h.deleted))
    && (n == 0 ==> !h.deleted && OfProcess(t.snapshots, id) == [])
    && (n > 0 ==> |OfProcess(t.snapshots, id)| == n - 1)
    && (forall i :: 0 <= i < n - 1 ==> OfProcess(t.snapshots, id)[i] == Snapshot(id, i + 1, h.contents[i]))
  }

  lemma AppendedSnapshot(snapshots: seq<Snapshot>, s: Snapshot, id: Id)
    ensures OfProcess(snapshots + [s], id) == OfProcess(snapshots, id) + if s.process == id then [s] else []
  {
    assert (snapshots + [s])[..|snapshots|] == snapshots;
  }

  /** An id that was not created yet has no history. */
  lemma {:induction false} NotYetCreated(ops: seq<Op>, id: Id)
    requires forall i :: 0 <= i < |ops| && ops[i].CreateOp? ==> ops[i].id != id
    ensures History(ops, id) == Past([], false)
    decreases |ops|
  {
    if ops != [] { NotYetCreated(ops[..|ops| - 1], id); }
  }

  lemma StepIsFaithful(t: Tables, op: Op, id: Id, h: Past)
    requires Faithful(t, id, h)
    requires op.CreateOp? && op.id == id ==> h == Past([], false)
    requires !RollsBack(t, op, id)
    ensures Faithful(Apply(t, op), id, Recorded(h, op, id))
  {
    hide OfProcess;
    if op.UpdateOp? && Live(t, op.id) {
      AppendedSnapshot(t.snapshots, Snapshot(op.id, t.processes[op.id].version, t.processes[op.id].content), id);
    }
  }

  /** In every run in which no rollback of a process succeeds, its snapshots are exactly versions
      1 to n-1, once each, with the contents that were current, and the row holds version n. */
  lemma {:induction false} HistoryIsFaithful(ops: seq<Op>, id: Id)
    requires FreshIds(ops) && !EverRolledBack(ops, id)
    ensures Faithful(Run(ops), id, History(ops, id))
    decreases |ops|
  {
    if ops != [] {
      var n := |ops| - 1;
      OneMore(ops, id);
      HistoryIsFaithful(ops[..n], id);
      if ops[n].CreateOp? && ops[n].id == id { NotYetCreated(ops[..n], id); }
      StepIsFaithful(Run(ops[..n]), ops[n], id, History(ops[..n], id));
    }
  }

  lemma {:induction false} FoundInOwn(snapshots: seq<Snapshot>, s: Snapshot)
    ensures s in OfProcess(snapshots, s.process) <==> s in snapshots
    decreases |snapshots|
  {
    if snapshots != [] {
      FoundInOwn(snapshots[..|snapshots| - 1], s);
      assert snapshots == snapshots[..|snapshots| - 1] + [snapshots[|snapshots| - 1]];
    }
  }

  /** Rolling back after such a run succeeds exactly for versions 1 to n-1 and restores exactly
      what was current at that version; no snapshot of the abandoned version n is kept. */
  lemma RollbackRestores(ops: seq<Op>, id: Id, k: int)
    requires FreshIds(ops) && !EverRolledBack(ops, id)
    ensures var h := History(ops, id).contents;
            var t := Run(ops);
            var t' := RolledBack(t, id, k);
            && (FindSnapshot(t.snapshots, id, k).Some? <==> 1 <= k < |h|)
            && (1 <= k < |h| ==>
                  id in t'.processes && t'.processes[id] == Process(k, h[k - 1], History(ops, id).deleted))
            && (forall other :: other in t.processes && other != id ==>
                  other in t'.processes && t'.processes[other] == t.processes[other])
            && FindSnapshot(t'.snapshots, id, |h|).None?
  {
    var t := Run(ops);
    var h := History(ops, id).contents;
    HistoryIsFaithful(ops, id);
    SnapshotAt(t, id, History(ops, id), k);
    SnapshotAt(t, id, History(ops, id), |h|);
  }

  lemma SnapshotAt(t: Tables, id: Id, h: Past, k: int)
    requires Faithful(t, id, h)
    ensures FindSnapshot(t.snapshots, id, k)
            == if 1 <= k < |h.contents| then Some(Snapshot(id, k, h.contents[k - 1])) else None
  {
    var own := OfProcess(t.snapshots, id);
    var found := FindSnapshot(t.snapshots, id, k);
    if found.Some? {
      FoundInOwn(t.snapshots, found.value);
      var i :| 0 <= i < |own| && own[i] == found.value;
    } else if 1 <= k < |h.contents| {
      assert own[k - 1] == Snapshot(id, k, h.contents[k - 1]);
      FoundInOwn(t.snapshots, own[k - 1]);
    }
  }

  // ---------- one snapshot per version ----------

  ghost predicate UniqueVersions(snapshots: seq<Snapshot>, id: Id) {
    forall i, j :: 0 <= i < j < |snapshots| && snapshots[i].process == id && snapshots[j].process == id ==>
                     snapshots[i].version != snapshots[j].version
  }

  /** An update of a live process keeps its snapshots unique exactly when none has the version
      in the row yet. */
  lemma UpdateKeepsUniqueIff(t: Tables, id: Id, p: Patch)
    requires Live(t, id) && UniqueVersions(t.snapshots, id)
    ensures UniqueVersions(Updated(t, id, p).snapshots, id) <==>
            FindSnapshot(t.snapshots, id, t.processes[id].version).None?
  {
    hide FindSnapshot;
    var all, n := Updated(t, id, p).snapshots, |t.snapshots|;
    var found := FindSnapshot(t.snapshots, id, t.processes[id].version);
    if found.Some? {
      var i :| 0 <= i < n && t.snapshots[i] == found.value;
      assert all[i].version == all[n].version;
    } else {
      forall i, j | 0 <= i < j < |all| && all[i].process == id && all[j].process == id
        ensures all[i].version != all[j].version
      {
        assert all[i] == t.snapshots[i];
      }
    }
  }

  /** The row's version is above every snapshot until the first rollback; then it is one of them. */
  ghost predicate VersionAbove(t: Tables, id: Id) {
    forall s :: s in t.snapshots && s.process == id ==> id in t.processes && s.version < t.processes[id].version
  }

  ghost predicate VersionTaken(t: Tables, id: Id) {
    id in t.processes && FindSnapshot(t.snapshots, id, t.processes[id].version).Some?
  }

  lemma AboveKept(t: Tables, op: Op, id: Id)
    requires VersionAbove(t, id) && UniqueVersions(t.snapshots, id) && !RollsBack(t, op, id)
    requires op.CreateOp? && op.id == id ==> id !in t.processes
    ensures VersionAbove(Apply(t, op), id) && UniqueVersions(Apply(t, op).snapshots, id)
  {
    hide FindSnapshot;
    if Updates(t, op, id) { UpdateKeepsUniqueIff(t, id, op.patch); }
  }

  lemma TakenKept(t: Tables, op: Op, id: Id)
    requires VersionTaken(t, id) && !Updates(t, op, id) && !(op.CreateOp? && op.id == id)
    ensures VersionTaken(Apply(t, op), id)
    ensures UniqueVersions(Apply(t, op).snapshots, id) <==> UniqueVersions(t.snapshots, id)
  {
    var t' := Apply(t, op);
    if op.UpdateOp? && Live(t, op.id) {
      var s := Snapshot(op.id, t.processes[op.id].version, t.processes[op.id].content);
      StillFound(t.snapshots, s, id, t.processes[id].version);
      assert t'.processes[id] == t.processes[id];
      OthersDoNotCount(t.snapshots, s, id);
    }
  }

  lemma OthersDoNotCount(snapshots: seq<Snapshot>, s: Snapshot, id: Id)
    requires s.process != id
    ensures UniqueVersions(snapshots + [s], id) <==> UniqueVersions(snapshots, id)
  {
    var all := snapshots + [s];
    forall i, j | 0 <= i < j < |snapshots| ensures all[i] == snapshots[i] && all[j] == snapshots[j] {}
  }

  lemma {:induction false} StillFound(snapshots: seq<Snapshot>, s: Snapshot, id: Id, version: int)
    requires FindSnapshot(snapshots, id, version).Some?
    ensures FindSnapshot(snapshots + [s], id, version).Some?
  {
    assert FindSnapshot(snapshots, id, version).value in snapshots + [s];
  }

  /** A created id is new. */
  lemma {:induction false} NotYetInTables(ops: seq<Op>, id: Id)
    requires forall i :: 0 <= i < |ops| && ops[i].CreateOp? ==> ops[i].id != id
    ensures id !in Run(ops).processes
    decreases |ops|
  {
    hide FindSnapshot;
    if ops != [] { NotYetInTables(ops[..|ops| - 1], id); }
  }

  lemma {:induction false} RunVersions(ops: seq<Op>, id: Id)
    requires FreshIds(ops)
    ensures !EverRolledBack(ops, id) ==> VersionAbove(Run(ops), id)
    ensures EverRolledBack(ops, id) && !UpdatedAfterRollback(ops, id) ==> VersionTaken(Run(ops), id)
    ensures UniqueVersions(Run(ops).snapshots, id) <==> !UpdatedAfterRollback(ops, id)
    decreases |ops|
  {
    if ops != [] {
      hide EverRolledBack, UpdatedAfterRollback, VersionAbove, VersionTaken, UniqueVersions, Apply, RollsBack, Updates;
      var n := |ops| - 1;
      RunVersions(ops[..n], id);
      OneMore(ops, id);
      VersionStep(ops, id);
    }
  }

  lemma VersionStep(ops: seq<Op>, id: Id)
    requires ops != [] && FreshIds(ops)
    ensures var n := |ops| - 1;
            var t, op, t' := Run(ops[..n]), ops[n], Apply(Run(ops[..n]), ops[n]);
            && (VersionAbove(t, id) && UniqueVersions(t.snapshots, id) && !RollsBack(t, op, id) ==>
                  VersionAbove(t', id) && UniqueVersions(t'.snapshots, id))
            && (VersionAbove(t, id) && UniqueVersions(t.snapshots, id) && RollsBack(t, op, id) ==>
                  VersionTaken(t', id) && UniqueVersions(t'.snapshots, id))
            && (VersionTaken(t, id) && UniqueVersions(t.snapshots, id) && Updates(t, op, id) ==>
                  !UniqueVersions(t'.snapshots, id))
            && (VersionTaken(t, id) && UniqueVersions(t.snapshots, id) && !Updates(t, op, id) ==>
                  VersionTaken(t', id) && UniqueVersions(t'.snapshots, id))
            && (!UniqueVersions(t.snapshots, id) ==> !UniqueVersions(t'.snapshots, id))
  {
    hide FindSnapshot, Run;
    var n := |ops| - 1;
    var t, op := Run(ops[..n]), ops[n];
    if op.CreateOp? { NotYetInTables(ops[..n], op.id); }
    if VersionAbove(t, id) && UniqueVersions(t.snapshots, id) && !RollsBack(t, op, id) { AboveKept(t, op, id); }
    if VersionTaken(t, id) && UniqueVersions(t.snapshots, id) {
      if Updates(t, op, id) { UpdateKeepsUniqueIff(t, id, op.patch); } else { TakenKept(t, op, id); }
    }
    if !UniqueVersions(t.snapshots, id) { DuplicatesStay(t, op, id); }
  }

  lemma DuplicatesStay(t: Tables, op: Op, id: Id)
    requires !UniqueVersions(t.snapshots, id)
    ensures !UniqueVersions(Apply(t, op).snapshots, id)
  {
    var i, j :| 0 <= i < j < |t.snapshots| && t.snapshots[i].process == id && t.snapshots[j].process == id &&
                t.snapshots[i].version == t.snapshots[j].version;
    var later := Apply(t, op).snapshots;
    assert later[i] == t.snapshots[i] && later[j] == t.snapshots[j];
  }

  /** Over every run, a process has at most one snapshot of each version exactly when no successful
      update of it follows a successful rollback of it. */
  lemma OneSnapshotPerVersionIff(ops: seq<Op>, id: Id)
    requires FreshIds(ops)
    ensures UniqueVersions(Run(ops).snapshots, id) <==> !UpdatedAfterRollback(ops, id)
  {
    RunVersions(ops, id);
  }

  /** A run that stores two different snapshots of version 2: two updates, a rollback to version
      1, and two more updates. */
  lemma VersionsReused(id: Id, c: Content, p: Patch, q: Patch, r: Patch)
    requires Patched(c, p) != Patched(c, r)
    ensures var ops := [CreateOp(id, c), UpdateOp(id, p), UpdateOp(id, q), RollbackOp(id, 1),
                        UpdateOp(id, r), UpdateOp(id, q)];
            && Snapshot(id, 2, Patched(c, p)) in Run(ops).snapshots
            && Snapshot(id, 2, Patched(c, r)) in Run(ops).snapshots
  {
    hide Run;
    var three := [CreateOp(id, c)] + [UpdateOp(id, p)] + [UpdateOp(id, q)];
    assert Run([]) == Tables(map[], []) by { EmptyRun(); }
    RunAppend([], CreateOp(id, c));
    assert [] + [CreateOp(id, c)] == [CreateOp(id, c)];
    RunAppend([CreateOp(id, c)], UpdateOp(id, p));
    RunAppend([CreateOp(id, c)] + [UpdateOp(id, p)], UpdateOp(id, q));
    var t := Run(three);
    assert t.snapshots == [Snapshot(id, 1, c), Snapshot(id, 2, Patched(c, p))];
    RunAppend(three, RollbackOp(id, 1));
    RunAppend(three + [RollbackOp(id, 1)], UpdateOp(id, r));
    RunAppend(three + [RollbackOp(id, 1)] + [UpdateOp(id, r)], UpdateOp(id, q));
    var all := Run(three + [RollbackOp(id, 1)] + [UpdateOp(id, r)] + [UpdateOp(id, q)]).snapshots;
    assert all == t.snapshots + [Snapshot(id, 1, c)] + [Snapshot(id, 2, Patched(c, r))];
    assert all[1] == Snapshot(id, 2, Patched(c, p)) && all[3] == Snapshot(id, 2, Patched(c, r));
    assert three + [RollbackOp(id, 1)] + [UpdateOp(id, r)] + [UpdateOp(id, q)]
        == [CreateOp(id, c), UpdateOp(id, p), UpdateOp(id, q), RollbackOp(id, 1), UpdateOp(id, r), UpdateOp(id, q)];
  }

  lemma EmptyRun()
    ensures Run([]) == Tables(map[], [])
  {
  }
}
