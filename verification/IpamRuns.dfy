/** Safety of the IPAM tables over every sequence of operations. */
module IpamRuns {
  import opened Wrappers
  import opened Cidr
  import opened IpamTables
  import opened IpamHandlers
  import opened CsvImport
  import opened ExternalMerge
  import opened MergeLaws
  import LongestMatch
  import FreeSpace
  import FreeSpaceLaws
  import RangeCover

  datatype Op =
    | CreateAggregateOp(aggregate: Aggregate)
    | UpdateAggregateOp(id: nat, aggregatePatch: AggregatePatch)
    | DeleteAggregateOp(id: nat)
    | CreatePrefixOp(prefix: Prefix)
    | UpdatePrefixOp(id: nat, prefixPatch: PrefixPatch)
    | DeletePrefixOp(id: nat)
    | ImportAggregatesOp(aggregateLines: seq<AggregateLine>, broken: set<int>)
    | ImportPrefixesOp(prefixLines: seq<PrefixLine>, broken: set<int>)
    | MergeOp(aggItems: seq<AggregateItem>, prefItems: seq<PrefixItem>, refusal: Refusal)

  function TablesOr(r: Result<Tables, IpamError>, t: Tables): Tables {
    if r.Ok? then r.value else t
  }

  function Apply(t: Tables, op: Op): Tables {
    match op
    case CreateAggregateOp(row) => TablesOr(AggregateCreated(t, row), t)
    case UpdateAggregateOp(id, p) => TablesOr(AggregateUpdated(t, id, p), t)
    case DeleteAggregateOp(id) => TablesOr(AggregateDeleted(t, id), t)
    case CreatePrefixOp(row) => TablesOr(PrefixCreated(t, row), t)
    case UpdatePrefixOp(id, p) => TablesOr(PrefixUpdated(t, id, p), t)
    case DeletePrefixOp(id) => TablesOr(PrefixDeleted(t, id), t)
    case ImportAggregatesOp(lines, broken) => AggregatesImported(t, lines, broken).tables
    case ImportPrefixesOp(lines, broken) => PrefixesImported(t, lines, broken).tables
    case MergeOp(aggItems, prefItems, refusal) => MergeStored(t, aggItems, prefItems, refusal)
  }

  function Run(t: Tables, ops: seq<Op>): Tables {
    if ops == [] then t else Apply(Run(t, ops[..|ops| - 1]), ops[|ops| - 1])
  }

  // ---------- primary keys ----------

  ghost predicate DistinctIds(rows: seq<Aggregate>) {
    forall i, j :: 0 <= i < j < |rows| ==> rows[i].id != rows[j].id
  }

  ghost predicate IdsFresh(t: Tables) {
    DistinctIds(t.aggregates) && forall i :: 0 <= i < |t.aggregates| ==> t.aggregates[i].id < t.nextAggregate
  }

  lemma {:induction false} WithoutKeepsIds(rows: seq<Aggregate>, id: nat)
    requires DistinctIds(rows)
    ensures DistinctIds(WithoutAggregate(rows, id))
  {
    if rows != [] {
      var tail := WithoutAggregate(rows[1..], id);
      WithoutKeepsIds(rows[1..], id);
      WithoutMembers(rows[1..], id);
      forall j | 0 <= j < |tail| ensures tail[j].id != rows[0].id {
        assert tail[j] in rows[1..];
      }
      assert forall r :: r in rows[1..] ==> exists k :: 0 < k < |rows| && rows[k] == r;
    }
  }

  lemma {:induction false} ImportKeepsIds(t: Tables, lines: seq<AggregateLine>, broken: set<int>)
    requires IdsFresh(t)
    ensures IdsFresh(AggregatesImported(t, lines, broken).tables)
    decreases |lines|
  {
    hide WellFormed;
    if lines != [] { ImportKeepsIds(t, lines[..|lines| - 1], broken); }
  }

  lemma {:induction false} ImportKeepsAggregates(t: Tables, lines: seq<PrefixLine>, broken: set<int>)
    ensures var t' := PrefixesImported(t, lines, broken).tables;
            t'.aggregates == t.aggregates && t'.nextAggregate == t.nextAggregate
    decreases |lines|
  {
    hide WellFormed, LineChecked;
    if lines != [] { ImportKeepsAggregates(t, lines[..|lines| - 1], broken); }
  }

  lemma ApplyKeepsIds(t: Tables, op: Op)
    requires IdsFresh(t)
    ensures IdsFresh(Apply(t, op))
  {
    hide WellFormed;
    match op
    case DeleteAggregateOp(id) =>
      WithoutKeepsIds(t.aggregates, id);
      WithoutMembers(t.aggregates, id);
      var rows := WithoutAggregate(t.aggregates, id);
      forall i | 0 <= i < |rows| ensures rows[i].id < t.nextAggregate { assert rows[i] in t.aggregates; }
    case ImportAggregatesOp(lines, broken) => ImportKeepsIds(t, lines, broken);
    case ImportPrefixesOp(lines, broken) => ImportKeepsAggregates(t, lines, broken);
    case MergeOp(aggItems, _, _) => MergeKeepsRows(t.aggregates, aggItems);
    case _ =>
  }

  // ---------- disjoint aggregates ----------

  ghost predicate TextsApart(a: CidrText, b: CidrText) {
    a.Parse().Some? && b.Parse().Some? ==> !Overlaps(a.Parse().value, b.Parse().value)
  }

  ghost predicate Apart(a: Aggregate, b: Aggregate) {
    TextsApart(a.prefix, b.prefix)
  }

  ghost predicate AggregatesDisjoint(rows: seq<Aggregate>) {
    forall i, j :: 0 <= i < j < |rows| ==> Apart(rows[i], rows[j])
  }

  lemma NewRowApart(rows: seq<Aggregate>, a: Aggregate)
    requires AggregatesDisjoint(rows) && !OverlapsExisting(rows, a.prefix.Parse(), None)
    ensures AggregatesDisjoint(rows + [a])
  {
    hide WellFormed;
    forall i | 0 <= i < |rows| ensures Apart(rows[i], a) {
      assert !Clash(rows[i], a.prefix.Parse().value);
    }
  }

  lemma {:induction false} UpdateKeepsDisjoint(t: Tables, id: nat, p: AggregatePatch)
    requires IdsFresh(t) && AggregatesDisjoint(t.aggregates) && AggregateUpdated(t, id, p).Ok?
    ensures AggregatesDisjoint(AggregateUpdated(t, id, p).value.aggregates)
  {
    hide WellFormed;
    var k := AggregateIndex(t.aggregates, id).value;
    if p.prefix.Some? {
      forall i | 0 <= i < |t.aggregates| && i != k ensures !Clash(t.aggregates[i], p.prefix.value.Parse().value) {
        assert t.aggregates[i].id != id;
      }
    }
  }

  lemma {:induction false} WithoutKeepsDisjoint(rows: seq<Aggregate>, id: nat)
    requires AggregatesDisjoint(rows)
    ensures AggregatesDisjoint(WithoutAggregate(rows, id))
  {
    hide WellFormed, Apart;
    if rows != [] {
      var tail := WithoutAggregate(rows[1..], id);
      WithoutKeepsDisjoint(rows[1..], id);
      WithoutMembers(rows[1..], id);
      forall j | 0 <= j < |tail| ensures Apart(rows[0], tail[j]) {
        assert tail[j] in rows[1..];
      }
    }
  }

  lemma {:induction false} ImportKeepsDisjoint(t: Tables, lines: seq<AggregateLine>, broken: set<int>)
    requires AggregatesDisjoint(t.aggregates)
    ensures AggregatesDisjoint(AggregatesImported(t, lines, broken).tables.aggregates)
    decreases |lines|
  {
    if lines != [] {
      ImportKeepsDisjoint(t, lines[..|lines| - 1], broken);
      var s := AggregatesImported(t, lines[..|lines| - 1], broken);
      RowKeepsDisjoint(s, lines[|lines| - 1], broken);
    }
  }

  lemma {:induction false} RowKeepsDisjoint(s: Progress, line: AggregateLine, broken: set<int>)
    requires AggregatesDisjoint(s.tables.aggregates)
    ensures AggregatesDisjoint(AggregateStep(s, line, broken).tables.aggregates)
  {
    hide WellFormed;
    var o := AggregateRow(s.tables, s.seen, line, line.num in broken);
    if o.Imported? {
      var net := line.cidr.value.Parse().value;
      NewRowApart(s.tables.aggregates, NewAggregate(net, line).(id := s.tables.nextAggregate));
    }
  }

  /** The networks a merge adds overlap no stored aggregate and not one another. */
  ghost predicate NewTextsApart(rows: seq<Aggregate>, texts: seq<CidrText>) {
    && (forall i, a :: 0 <= i < |rows| && 0 <= a < |texts| ==> TextsApart(rows[i].prefix, texts[a]))
    && (forall a, b :: 0 <= a < b < |texts| ==> TextsApart(texts[a], texts[b]))
  }

  lemma DisjointTogether(rows: seq<Aggregate>, later: seq<Aggregate>, texts: seq<CidrText>)
    requires AggregatesDisjoint(rows) && |later| == |rows| + |texts|
    requires forall i :: 0 <= i < |rows| ==> later[i].prefix == rows[i].prefix
    requires forall a :: 0 <= a < |texts| ==> later[|rows| + a].prefix == texts[a]
    ensures AggregatesDisjoint(later) <==> NewTextsApart(rows, texts)
  {
    hide WellFormed, TextsApart;
    var m := |rows|;
    if AggregatesDisjoint(later) {
      forall i, a | 0 <= i < m && 0 <= a < |texts| ensures TextsApart(rows[i].prefix, texts[a]) {
        assert Apart(later[i], later[m + a]);
      }
      forall a, b | 0 <= a < b < |texts| ensures TextsApart(texts[a], texts[b]) {
        assert Apart(later[m + a], later[m + b]);
      }
    }
    if NewTextsApart(rows, texts) {
      forall i, j | 0 <= i < j < |later| ensures Apart(later[i], later[j]) {
        if j < m {
          assert Apart(rows[i], rows[j]);
        } else {
          assert later[m + (j - m)].prefix == texts[j - m];
          if i >= m { assert later[m + (i - m)].prefix == texts[i - m]; }
        }
      }
    }
  }

  /** The merge loops skip the overlap check: once its aggregates are stored, a merge keeps all
      aggregates disjoint exactly when the networks it adds are apart. */
  lemma MergeKeepsDisjointIff(t: Tables, aggItems: seq<AggregateItem>, prefItems: seq<PrefixItem>, refusal: Refusal)
    requires AggregatesDisjoint(t.aggregates) && Merge(t, aggItems, prefItems).Ok? && !refusal.AtAggregates?
    ensures AggregatesDisjoint(MergeStored(t, aggItems, prefItems, refusal).aggregates) <==>
            NewTextsApart(t.aggregates, NewTexts(t.aggregates, aggItems))
  {
    hide WellFormed, AggregatesMerged, PrefixesMerged, NewTexts, AggregateByText, AggregatesDisjoint, NewTextsApart;
    AddedTexts(t.aggregates, aggItems);
    MergeKeepsRows(t.aggregates, aggItems);
    var t1 := AggregatesSaved(t, aggItems);
    assert MergeStored(t, aggItems, prefItems, refusal).aggregates == t1.aggregates;
    DisjointTogether(t.aggregates, t1.aggregates, NewTexts(t.aggregates, aggItems));
  }

  /** The guard a merge lacks: if it stores its aggregates, their networks are apart. */
  ghost predicate MergeFits(t: Tables, op: Op) {
    op.MergeOp? && Merge(t, op.aggItems, op.prefItems).Ok? && !op.refusal.AtAggregates? ==>
      NewTextsApart(t.aggregates, NewTexts(t.aggregates, op.aggItems))
  }

  lemma ApplyKeepsDisjointIff(t: Tables, op: Op)
    requires IdsFresh(t) && AggregatesDisjoint(t.aggregates)
    ensures AggregatesDisjoint(Apply(t, op).aggregates) <==> MergeFits(t, op)
  {
    hide WellFormed, AggregateUpdated, NewTextsApart, Merge;
    match op
    case CreateAggregateOp(row) =>
      if AggregateCreated(t, row).Ok? { NewRowApart(t.aggregates, row.(id := t.nextAggregate)); }
    case UpdateAggregateOp(id, p) =>
      if AggregateUpdated(t, id, p).Ok? { UpdateKeepsDisjoint(t, id, p); }
    case DeleteAggregateOp(id) => WithoutKeepsDisjoint(t.aggregates, id);
    case ImportAggregatesOp(lines, broken) => ImportKeepsDisjoint(t, lines, broken);
    case ImportPrefixesOp(lines, broken) => ImportKeepsAggregates(t, lines, broken);
    case MergeOp(aggItems, prefItems, refusal) =>
      if Merge(t, aggItems, prefItems).Ok? && !refusal.AtAggregates? {
        MergeKeepsDisjointIff(t, aggItems, prefItems, refusal);
      }
    case _ =>
  }

  /** The aggregates are disjoint at every point of the run. */
  ghost predicate AlwaysDisjoint(t: Tables, ops: seq<Op>) {
    forall n :: 0 <= n <= |ops| ==> AggregatesDisjoint(Run(t, ops[..n]).aggregates)
  }

  ghost predicate MergesFit(t: Tables, ops: seq<Op>) {
    forall n :: 0 <= n < |ops| ==> MergeFits(Run(t, ops[..n]), ops[n])
  }

  lemma DisjointOneMore(t: Tables, ops: seq<Op>)
    requires ops != []
    ensures var before := ops[..|ops| - 1];
            && (AlwaysDisjoint(t, ops) <==> AlwaysDisjoint(t, before) && AggregatesDisjoint(Run(t, ops).aggregates))
            && (MergesFit(t, ops) <==> MergesFit(t, before) && MergeFits(Run(t, before), ops[|ops| - 1]))
  {
    hide Run, AggregatesDisjoint, MergeFits;
    var before := ops[..|ops| - 1];
    assert ops[..|ops|] == ops;
    forall n | 0 <= n <= |before| ensures ops[..n] == before[..n] {}
  }

  /** Starting from pairwise disjoint aggregates, they stay pairwise disjoint at every point of a
      run exactly when every merge that stores its aggregates adds networks that are apart. In
      particular every run of handlers and CSV imports keeps them disjoint. */
  lemma {:induction false} DisjointOverRuns(t: Tables, ops: seq<Op>)
    requires IdsFresh(t) && AggregatesDisjoint(t.aggregates)
    ensures IdsFresh(Run(t, ops))
    ensures AlwaysDisjoint(t, ops) <==> MergesFit(t, ops)
    decreases |ops|
  {
    hide AggregatesDisjoint, MergeFits, Apply;
    if ops != [] {
      hide AlwaysDisjoint, MergesFit;
      var before := ops[..|ops| - 1];
      DisjointOverRuns(t, before);
      DisjointOneMore(t, ops);
      ApplyKeepsIds(Run(t, before), ops[|ops| - 1]);
      if AlwaysDisjoint(t, before) {
        DisjointAtEnd(t, before);
        ApplyKeepsDisjointIff(Run(t, before), ops[|ops| - 1]);
      }
    }
  }

  lemma DisjointAtEnd(t: Tables, ops: seq<Op>)
    requires AlwaysDisjoint(t, ops)
    ensures AggregatesDisjoint(Run(t, ops).aggregates)
  {
    assert ops[..|ops|] == ops;
  }

  /** An external merge skips the overlap check and can break disjointness. */
  lemma MergeCanOverlap(t: Tables, outer: Net, inner: Net)
    requires SubnetOf(inner, outer) && inner != outer
    requires t.aggregates == [Aggregate(0, Canonical(outer), None, None, None)] && t.nextAggregate == 1
    ensures AggregatesDisjoint(t.aggregates)
    ensures var item := AggregateItem(Canonical(inner), None, None, None);
            !AggregatesDisjoint(Apply(t, MergeOp([item], [], NoRefusal)).aggregates)
  {
    hide WellFormed;
    var item := AggregateItem(Canonical(inner), None, None, None);
    assert [item][..0] == [];
    assert AggregateByText(t.aggregates, item.prefix).None? by {
      assert t.aggregates[0].prefix != item.prefix;
    }
    assert AggregatesMerged(t.aggregates, []) == Pending(t.aggregates, [], 0, 0);
    var s := AggregatesMerged(t.aggregates, [item]);
    assert s == AggregateMerged(AggregatesMerged(t.aggregates, []), item);
    assert s.added == [Aggregate(0, Canonical(inner), None, None, None)];
    var rows := Saved(t, s.rows, t.prefixes, s.added, []).aggregates;
    assert |rows| == 2 && rows[0].prefix == Canonical(outer) && rows[1].prefix == Canonical(inner);
    assert Apply(t, MergeOp([item], [], NoRefusal)).aggregates == rows;
    assert !Apart(rows[0], rows[1]);
  }

  // ---------- containment ----------

  ghost predicate LinkedInside(aggregates: seq<Aggregate>, p: Prefix) {
    p.aggregateId.Some? ==> CheckInAggregate(aggregates, p.prefix.Parse(), p.aggregateId).None?
  }

  /** Every prefix with an aggregate id lies inside that aggregate. */
  ghost predicate Contained(t: Tables) {
    forall i :: 0 <= i < |t.prefixes| ==> LinkedInside(t.aggregates, t.prefixes[i])
  }

  /** Rows found by id keep their network. */
  ghost predicate KeepsNets(rows: seq<Aggregate>, later: seq<Aggregate>) {
    forall id :: AggregateIndex(rows, id).Some? ==>
                   && AggregateIndex(later, id).Some?
                   && later[AggregateIndex(later, id).value].prefix == rows[AggregateIndex(rows, id).value].prefix
  }

  lemma KeptNetsKeepContainment(t: Tables, later: seq<Aggregate>)
    requires Contained(t) && KeepsNets(t.aggregates, later)
    ensures forall i :: 0 <= i < |t.prefixes| ==> LinkedInside(later, t.prefixes[i])
  {
    hide WellFormed;
    forall i | 0 <= i < |t.prefixes| ensures LinkedInside(later, t.prefixes[i]) {
      assert LinkedInside(t.aggregates, t.prefixes[i]);
    }
  }

  /** Same ids and networks in front, new rows behind. */
  lemma GrownKeepsNets(rows: seq<Aggregate>, later: seq<Aggregate>)
    requires |rows| <= |later|
    requires forall i :: 0 <= i < |rows| ==> later[i].id == rows[i].id && later[i].prefix == rows[i].prefix
    ensures KeepsNets(rows, later)
  {
    hide WellFormed;
    forall id | AggregateIndex(rows, id).Some?
      ensures AggregateIndex(later, id) == AggregateIndex(rows, id)
    {
      var k, k' := AggregateIndex(rows, id), AggregateIndex(later, id);
      assert later[k.value].id == id;
      assert k'.value <= k.value;
      assert rows[k'.value].id == id;
    }
  }

  lemma {:induction false} ImportGrows(t: Tables, lines: seq<AggregateLine>, broken: set<int>)
    ensures var t' := AggregatesImported(t, lines, broken).tables;
            && t'.prefixes == t.prefixes
            && |t.aggregates| <= |t'.aggregates|
            && forall i :: 0 <= i < |t.aggregates| ==>
                             && t'.aggregates[i].id == t.aggregates[i].id
                             && t'.aggregates[i].prefix == t.aggregates[i].prefix
    decreases |lines|
  {
    hide WellFormed;
    if lines != [] { ImportGrows(t, lines[..|lines| - 1], broken); }
  }

  lemma {:induction false} WithoutKeepsNets(rows: seq<Aggregate>, id: nat, other: nat)
    requires other != id && AggregateIndex(rows, other).Some?
    ensures var r := WithoutAggregate(rows, id);
            && AggregateIndex(r, other).Some?
            && r[AggregateIndex(r, other).value] == rows[AggregateIndex(rows, other).value]
  {
    hide WellFormed, AggregateIndex;
    var r := WithoutAggregate(rows, id);
    if rows[0].id == other {
      AggregateIndexHead(rows, other);
      AggregateIndexHead(r, other);
    } else {
      AggregateIndexTail(rows, other);
      WithoutKeepsNets(rows[1..], id, other);
      if rows[0].id != id {
        assert r[1..] == WithoutAggregate(rows[1..], id);
        AggregateIndexTail(r, other);
      } else {
        assert r == WithoutAggregate(rows[1..], id);
      }
    }
  }

  lemma AggregateIndexHead(rows: seq<Aggregate>, id: nat)
    requires rows != [] && rows[0].id == id
    ensures AggregateIndex(rows, id) == Some(0)
  {
    var k := AggregateIndex(rows, id);
    assert k.Some? ==> k.value == 0;
  }

  lemma AggregateIndexTail(rows: seq<Aggregate>, id: nat)
    requires rows != [] && rows[0].id != id
    ensures AggregateIndex(rows, id).Some? <==> AggregateIndex(rows[1..], id).Some?
    ensures AggregateIndex(rows, id).Some? ==>
              AggregateIndex(rows, id).value == AggregateIndex(rows[1..], id).value + 1
  {
    var k, k' := AggregateIndex(rows, id), AggregateIndex(rows[1..], id);
    if k.Some? { assert rows[1..][k.value - 1].id == id; }
    if k'.Some? { assert rows[k'.value + 1].id == id; }
  }

  lemma DeleteKeepsContained(t: Tables, id: nat)
    requires Contained(t)
    ensures Contained(Apply(t, DeleteAggregateOp(id)))
  {
    hide WellFormed;
    var t' := Apply(t, DeleteAggregateOp(id));
    if AggregateDeleted(t, id).Ok? {
      forall i | 0 <= i < |t'.prefixes| ensures LinkedInside(t'.aggregates, t'.prefixes[i]) {
        assert LinkedInside(t.aggregates, t.prefixes[i]);
        if t'.prefixes[i].aggregateId.Some? {
          WithoutKeepsNets(t.aggregates, id, t'.prefixes[i].aggregateId.value);
        }
      }
    }
  }

  lemma {:induction false} WithoutPrefixMembers(rows: seq<Prefix>, id: nat)
    ensures forall p :: p in WithoutPrefix(rows, id) ==> p in rows
  {
    if rows != [] { WithoutPrefixMembers(rows[1..], id); }
  }

  lemma {:induction false} PrefixImportKeepsContained(t: Tables, lines: seq<PrefixLine>, broken: set<int>)
    requires Contained(t)
    ensures Contained(PrefixesImported(t, lines, broken).tables)
    decreases |lines|
  {
    if lines != [] {
      PrefixImportKeepsContained(t, lines[..|lines| - 1], broken);
      var s := PrefixesImported(t, lines[..|lines| - 1], broken);
      PrefixRowKeepsContained(s, lines[|lines| - 1], broken);
    }
  }

  lemma PrefixRowKeepsContained(s: Progress, line: PrefixLine, broken: set<int>)
    requires Contained(s.tables)
    ensures Contained(PrefixStep(s, line, broken).tables)
  {
    hide WellFormed, LineChecked, CheckInAggregate;
    var t' := PrefixStep(s, line, broken).tables;
    var o := PrefixRow(s.tables, s.seen, line, line.num in broken);
    if !o.Failed? {
      var net := line.cidr.value.Parse().value;
      CheckedInside(s.tables, net, line);
      assert t'.aggregates == s.tables.aggregates;
      forall i | 0 <= i < |t'.prefixes| ensures LinkedInside(t'.aggregates, t'.prefixes[i]) {
        if i < |s.tables.prefixes| { assert LinkedInside(s.tables.aggregates, s.tables.prefixes[i]); }
      }
    }
  }

  lemma CheckedInside(t: Tables, net: Net, line: PrefixLine)
    requires LineChecked(t, net, line).Ok?
    ensures CheckInAggregate(t.aggregates, Some(net), LineChecked(t, net, line).value).None?
  {
  }

  /** The aggregate the longest match picks passes the containment check. */
  lemma {:induction false} ResolvedInside(rows: seq<Aggregate>, prefix: Option<Net>)
    requires DistinctIds(rows)
    requires LongestMatch.Resolve(Candidates(rows), prefix).Some?
    ensures CheckInAggregate(rows, prefix, LongestMatch.Resolve(Candidates(rows), prefix)).None?
  {
    var k := LongestMatch.BestIndex(Candidates(rows), prefix.value).value;
    assert LongestMatch.Holds(Candidates(rows)[k], prefix.value);
    var i := AggregateIndex(rows, rows[k].id);
    assert i == Some(k);
  }

  ghost predicate AllLinked(aggs: seq<Aggregate>, rows: seq<Prefix>) {
    forall i :: 0 <= i < |rows| ==> LinkedInside(aggs, rows[i])
  }

  lemma MergedPrefixLinked(aggs: seq<Aggregate>, s: Pending<Prefix>, item: PrefixItem)
    requires DistinctIds(aggs) && AllLinked(aggs, s.rows) && AllLinked(aggs, s.added)
    ensures var s' := PrefixMerged(aggs, s, item); AllLinked(aggs, s'.rows) && AllLinked(aggs, s'.added)
  {
    hide WellFormed, CheckInAggregate, LongestMatch.Resolve;
    if LongestMatch.Resolve(Candidates(aggs), item.prefix.Parse()).Some? {
      ResolvedInside(aggs, item.prefix.Parse());
    }
  }

  lemma {:induction false} MergedPrefixesLinked(aggs: seq<Aggregate>, rows: seq<Prefix>, items: seq<PrefixItem>)
    requires DistinctIds(aggs) && AllLinked(aggs, rows)
    ensures var s := PrefixesMerged(aggs, rows, items); AllLinked(aggs, s.rows) && AllLinked(aggs, s.added)
    decreases |items|
  {
    if items != [] {
      MergedPrefixesLinked(aggs, rows, items[..|items| - 1]);
      MergedPrefixLinked(aggs, PrefixesMerged(aggs, rows, items[..|items| - 1]), items[|items| - 1]);
    }
  }

  lemma MergeKeepsContained(t: Tables, aggItems: seq<AggregateItem>, prefItems: seq<PrefixItem>, refusal: Refusal)
    requires IdsFresh(t) && Contained(t)
    ensures Contained(MergeStored(t, aggItems, prefItems, refusal))
  {
    hide WellFormed, CheckInAggregate, PrefixesMerged, AggregatesMerged;
    var t1 := AggregatesSaved(t, aggItems);
    MergeKeepsRows(t.aggregates, aggItems);
    assert t1.prefixes == t.prefixes;
    GrownKeepsNets(t.aggregates, t1.aggregates);
    KeptNetsKeepContainment(t, t1.aggregates);
    MergedPrefixesLinked(t1.aggregates, t1.prefixes, prefItems);
    var p := PrefixesMerged(t1.aggregates, t1.prefixes, prefItems);
    assert Contained(t1);
    var t2 := Saved(t1, t1.aggregates, p.rows, [], p.added);
    assert t2.aggregates == t1.aggregates;
    assert Contained(t2);
  }

  /** Every prefix linked to the aggregate lies inside the network. */
  ghost predicate LinkedFit(t: Tables, id: nat, net: Option<Net>) {
    forall i :: 0 <= i < |t.prefixes| && t.prefixes[i].aggregateId == Some(id) ==>
                  && net.Some? && t.prefixes[i].prefix.Parse().Some?
                  && SubnetOf(t.prefixes[i].prefix.Parse().value, net.value)
  }

  /** Giving an aggregate a network keeps the promise exactly when every prefix linked to it lies
      inside that network; the handler does not look. */
  lemma {:induction false} ReaddressKeepsContainedIff(t: Tables, id: nat, p: AggregatePatch)
    requires IdsFresh(t) && Contained(t) && p.prefix.Some? && AggregateUpdated(t, id, p).Ok?
    ensures Contained(Apply(t, UpdateAggregateOp(id, p))) <==> LinkedFit(t, id, p.prefix.value.Parse())
  {
    hide WellFormed;
    var t' := Apply(t, UpdateAggregateOp(id, p));
    assert t'.prefixes == t.prefixes;
    forall i | 0 <= i < |t.prefixes|
      ensures LinkedInside(t'.aggregates, t.prefixes[i]) <==>
              (t.prefixes[i].aggregateId == Some(id) ==>
                 SubnetOf(t.prefixes[i].prefix.Parse().value, p.prefix.value.Parse().value))
    {
      assert LinkedInside(t.aggregates, t.prefixes[i]);
      if t.prefixes[i].aggregateId.Some? {
        SameIdsSameIndex(t.aggregates, t'.aggregates, t.prefixes[i].aggregateId.value);
      }
    }
  }

  /** The guard `update_aggregate` lacks: an accepted network holds the linked prefixes. */
  ghost predicate ReaddressFits(t: Tables, op: Op) {
    op.UpdateAggregateOp? && op.aggregatePatch.prefix.Some? && AggregateUpdated(t, op.id, op.aggregatePatch).Ok? ==>
      LinkedFit(t, op.id, op.aggregatePatch.prefix.value.Parse())
  }

  /** Sending an aggregate its present network again, as the edit forms do, always fits. */
  lemma ResentNetworkFits(t: Tables, id: nat, p: AggregatePatch)
    requires Contained(t) && AggregateIndex(t.aggregates, id).Some? && p.prefix.Some?
    requires p.prefix.value.Parse() == t.aggregates[AggregateIndex(t.aggregates, id).value].prefix.Parse()
    ensures ReaddressFits(t, UpdateAggregateOp(id, p))
  {
    hide WellFormed, AggregateUpdated;
    forall i | 0 <= i < |t.prefixes| && t.prefixes[i].aggregateId == Some(id)
      ensures p.prefix.value.Parse().Some? && t.prefixes[i].prefix.Parse().Some?
      ensures SubnetOf(t.prefixes[i].prefix.Parse().value, p.prefix.value.Parse().value)
    {
      assert LinkedInside(t.aggregates, t.prefixes[i]);
    }
  }

  lemma ApplyKeepsContainedIff(t: Tables, op: Op)
    requires IdsFresh(t) && Contained(t)
    ensures Contained(Apply(t, op)) <==> ReaddressFits(t, op)
  {
    hide WellFormed, CheckInAggregate, Merge, WithoutAggregate, LinkedFit;
    var t' := Apply(t, op);
    match op
    case CreateAggregateOp(_) =>
      GrownKeepsNets(t.aggregates, t'.aggregates);
      KeptNetsKeepContainment(t, t'.aggregates);
    case UpdateAggregateOp(id, p) =>
      if p.prefix.Some? && AggregateUpdated(t, id, p).Ok? {
        ReaddressKeepsContainedIff(t, id, p);
      } else {
        GrownKeepsNets(t.aggregates, t'.aggregates);
        KeptNetsKeepContainment(t, t'.aggregates);
      }
    case DeleteAggregateOp(id) => DeleteKeepsContained(t, id);
    case CreatePrefixOp(_) => assert t'.aggregates == t.aggregates;
    case UpdatePrefixOp(_, _) =>
    case DeletePrefixOp(id) =>
      WithoutPrefixMembers(t.prefixes, id);
      forall i | 0 <= i < |t'.prefixes| ensures LinkedInside(t'.aggregates, t'.prefixes[i]) {
        assert t'.prefixes[i] in t.prefixes;
      }
    case ImportAggregatesOp(lines, broken) =>
      ImportGrows(t, lines, broken);
      GrownKeepsNets(t.aggregates, t'.aggregates);
      KeptNetsKeepContainment(t, t'.aggregates);
    case ImportPrefixesOp(lines, broken) =>
      PrefixImportKeepsContained(t, lines, broken);
    case MergeOp(aggItems, prefItems, refusal) => MergeKeepsContained(t, aggItems, prefItems, refusal);
  }

  /** Every linked prefix lies inside its aggregate at every point of the run. */
  ghost predicate AlwaysContained(t: Tables, ops: seq<Op>) {
    forall n :: 0 <= n <= |ops| ==> Contained(Run(t, ops[..n]))
  }

  ghost predicate ReaddressesFit(t: Tables, ops: seq<Op>) {
    forall n :: 0 <= n < |ops| ==> ReaddressFits(Run(t, ops[..n]), ops[n])
  }

  lemma ContainedOneMore(t: Tables, ops: seq<Op>)
    requires ops != []
    ensures var before := ops[..|ops| - 1];
            && (AlwaysContained(t, ops) <==> AlwaysContained(t, before) && Contained(Run(t, ops)))
            && (ReaddressesFit(t, ops) <==> ReaddressesFit(t, before) && ReaddressFits(Run(t, before), ops[|ops| - 1]))
  {
    hide Run, Contained, ReaddressFits;
    var before := ops[..|ops| - 1];
    assert ops[..|ops|] == ops;
    forall n | 0 <= n <= |before| ensures ops[..n] == before[..n] {}
  }

  /** A linked prefix lies inside its aggregate at every point of a run exactly when every accepted
      aggregate update that carries a network carries one that holds the prefixes linked then. */
  lemma {:induction false} ContainedOverRuns(t: Tables, ops: seq<Op>)
    requires IdsFresh(t) && Contained(t)
    ensures IdsFresh(Run(t, ops))
    ensures AlwaysContained(t, ops) <==> ReaddressesFit(t, ops)
    decreases |ops|
  {
    hide Contained, ReaddressFits, Apply;
    if ops != [] {
      hide AlwaysContained, ReaddressesFit;
      var before := ops[..|ops| - 1];
      ContainedOverRuns(t, before);
      ContainedOneMore(t, ops);
      ApplyKeepsIds(Run(t, before), ops[|ops| - 1]);
      if AlwaysContained(t, before) {
        ContainedAtEnd(t, before);
        ApplyKeepsContainedIff(Run(t, before), ops[|ops| - 1]);
      }
    }
  }

  lemma ContainedAtEnd(t: Tables, ops: seq<Op>)
    requires AlwaysContained(t, ops)
    ensures Contained(Run(t, ops))
  {
    assert ops[..|ops|] == ops;
  }

  lemma SameIdsSameIndex(rows: seq<Aggregate>, later: seq<Aggregate>, id: nat)
    requires |rows| == |later| && forall i :: 0 <= i < |rows| ==> later[i].id == rows[i].id
    ensures AggregateIndex(later, id) == AggregateIndex(rows, id)
  {
    hide WellFormed;
    var k, k' := AggregateIndex(rows, id), AggregateIndex(later, id);
    if k.Some? { assert later[k.value].id == id; }
    if k'.Some? { assert rows[k'.value].id == id; }
  }

  /** Moving an aggregate away from a prefix linked to it is accepted and leaves the prefix outside. */
  lemma ReaddressCanStrand(before: Net, after: Net, linked: Net)
    requires SubnetOf(linked, before) && !Overlaps(linked, after)
    ensures var t := Tables([Aggregate(0, Canonical(before), None, None, None)],
                            [Prefix(0, Canonical(linked), "active", None, false, false, None, None, Some(0))], 1, 1);
            var p := AggregatePatch(Some(Canonical(after)), None, None, None);
            && IdsFresh(t) && Contained(t) && AggregateUpdated(t, 0, p).Ok?
            && !Contained(Apply(t, UpdateAggregateOp(0, p)))
  {
    hide WellFormed;
    var t := Tables([Aggregate(0, Canonical(before), None, None, None)],
                    [Prefix(0, Canonical(linked), "active", None, false, false, None, None, Some(0))], 1, 1);
    var p := AggregatePatch(Some(Canonical(after)), None, None, None);
    AggregateIndexHead(t.aggregates, 0);
    assert LinkedInside(t.aggregates, t.prefixes[0]);
    assert !OverlapsExisting(t.aggregates, Some(after), Some(0));
    ReaddressKeepsContainedIff(t, 0, p);
  }

  // ---------- free space of reachable tables ----------

  /** The prefix column of the rows linked to an aggregate, as the sweep reads it. */
  function Children(rows: seq<Prefix>, id: nat): seq<Option<Net>> {
    if rows == [] then []
    else (if rows[0].aggregateId == Some(id) then [rows[0].prefix.Parse()] else []) + Children(rows[1..], id)
  }

  lemma {:induction false} LinkedChildrenInside(aggs: seq<Aggregate>, rows: seq<Prefix>, id: nat)
    requires AllLinked(aggs, rows) && AggregateIndex(aggs, id).Some?
    requires aggs[AggregateIndex(aggs, id).value].prefix.Parse().Some?
    ensures FreeSpaceLaws.AllInside(aggs[AggregateIndex(aggs, id).value].prefix.Parse().value,
                                    FreeSpace.Parsed(Children(rows, id)))
  {
    hide WellFormed, AggregateIndex;
    if rows != [] {
      assert AllLinked(aggs, rows[1..]);
      LinkedChildrenInside(aggs, rows[1..], id);
      assert LinkedInside(aggs, rows[0]);
      var head := if rows[0].aggregateId == Some(id) then [rows[0].prefix.Parse()] else [];
      var tail := Children(rows[1..], id);
      if head != [] {
        assert (head + tail)[0] == head[0] && (head + tail)[1..] == tail;
      } else {
        assert head + tail == tail;
      }
    }
  }

  /** In every state reached by such a run, the free and used addresses of an aggregate add up to
      its size exactly when its prefixes are disjoint. */
  lemma ConservationOverRuns(t: Tables, ops: seq<Op>, id: nat)
    requires IdsFresh(t) && Contained(t) && ReaddressesFit(t, ops)
    requires var aggs := Run(t, ops).aggregates;
             AggregateIndex(aggs, id).Some? && aggs[AggregateIndex(aggs, id).value].prefix.Parse().Some?
    ensures var t' := Run(t, ops);
            var agg := t'.aggregates[AggregateIndex(t'.aggregates, id).value].prefix.Parse();
            var children := Children(t'.prefixes, id);
            FreeSpace.Available(agg, children).Ok? ==>
              (RangeCover.TotalSize(FreeSpace.Available(agg, children).value) + FreeSpace.Used(children)
               == Size(agg.value)
               <==> FreeSpaceLaws.PairwiseDisjoint(FreeSpace.Parsed(children)))
  {
    hide WellFormed, AggregateIndex, Run, FreeSpace.Available;
    ContainedOverRuns(t, ops);
    ContainedAtEnd(t, ops);
    var t' := Run(t, ops);
    var agg := t'.aggregates[AggregateIndex(t'.aggregates, id).value].prefix.Parse();
    var children := Children(t'.prefixes, id);
    assert AllLinked(t'.aggregates, t'.prefixes);
    LinkedChildrenInside(t'.aggregates, t'.prefixes, id);
    if FreeSpace.Available(agg, children).Ok? {
      FreeSpaceLaws.ConservationIff(agg.value, children);
    }
  }

  /** In every state reached by such a run, the offered ranges are exactly the addresses of the
      aggregate in no linked prefix iff no prefix hides a gap from the sweep. */
  lemma FreeSpaceOverRuns(t: Tables, ops: seq<Op>, id: nat, nets: seq<Net>)
    requires IdsFresh(t) && Contained(t) && ReaddressesFit(t, ops)
    requires var aggs := Run(t, ops).aggregates;
             AggregateIndex(aggs, id).Some? && aggs[AggregateIndex(aggs, id).value].prefix.Parse().Some?
    ensures var t' := Run(t, ops);
            var agg := t'.aggregates[AggregateIndex(t'.aggregates, id).value].prefix.Parse();
            var children := Children(t'.prefixes, id);
            FreeSpace.Available(agg, children).Ok? && FreeSpace.Arranged(agg.value, children, nets) ==>
              (RangeCover.CoversExactly(FreeSpace.Available(agg, children).value,
                                        FreeSpaceLaws.FreeSet(agg.value, FreeSpace.Parsed(children)))
               <==> FreeSpaceLaws.NoHiddenGap(nets, Last(agg.value)))
  {
    hide WellFormed, AggregateIndex, Run, FreeSpace.Available, FreeSpace.Arranged, FreeSpaceLaws.NoHiddenGap;
    ContainedOverRuns(t, ops);
    ContainedAtEnd(t, ops);
    var t' := Run(t, ops);
    var agg := t'.aggregates[AggregateIndex(t'.aggregates, id).value].prefix.Parse();
    var children := Children(t'.prefixes, id);
    assert AllLinked(t'.aggregates, t'.prefixes);
    LinkedChildrenInside(t'.aggregates, t'.prefixes, id);
    if FreeSpace.Available(agg, children).Ok? && FreeSpace.Arranged(agg.value, children, nets) {
      FreeSpaceLaws.AnswerIsFreeSpaceIff(agg.value, children, nets);
    }
  }
}
