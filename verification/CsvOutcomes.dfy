/** What the two CSV imports store and refuse, told from the file and the tables before it: which
    rows fail, and what every column of a row that does not fail becomes. */
module CsvOutcomes {
  import opened Wrappers
  import opened Cidr
  import opened IpamTables
  import opened CsvImport
  import opened CsvLaws
  import opened IpamRuns

  /** Row numbers differ, as `enumerate` makes them. */
  ghost predicate PrefixNumbersDiffer(lines: seq<PrefixLine>) {
    forall i, j :: 0 <= i < j < |lines| ==> lines[i].num != lines[j].num
  }

  ghost predicate AggregateNumbersDiffer(lines: seq<AggregateLine>) {
    forall i, j :: 0 <= i < j < |lines| ==> lines[i].num != lines[j].num
  }

  ghost predicate HasError(errors: seq<RowError>, num: int) {
    exists e :: 0 <= e < |errors| && errors[e].num == num
  }

  ghost predicate Names(cidr: Option<CidrText>, net: Net) {
    cidr.Some? && cidr.value.Parse() == Some(net)
  }

  // ---------- prefixes ----------

  /** Row `k` is the first of the table with this network. */
  ghost predicate FirstPrefixOf(rows: seq<Prefix>, k: int, net: Net) {
    && 0 <= k < |rows| && rows[k].prefix.Parse() == Some(net)
    && forall j :: 0 <= j < k ==> rows[j].prefix.Parse() != Some(net)
  }

  ghost predicate FirstAggregateOf(rows: seq<Aggregate>, k: int, net: Net) {
    && 0 <= k < |rows| && rows[k].prefix.Parse() == Some(net)
    && forall j :: 0 <= j < k ==> rows[j].prefix.Parse() != Some(net)
  }

  /** The aggregate id the two aggregate cells stand for: the id cell if it is given, else the first
      aggregate of the network in the other cell, else none. */
  ghost predicate StandsFor(aggs: seq<Aggregate>, line: PrefixLine, link: Option<nat>) {
    if line.aggregateId.Read? then link.Some? && link.value == line.aggregateId.value
    else if line.aggregateCidr.Some? then
      exists k :: 0 <= k < |aggs| && line.aggregateCidr.value.Parse().Some? && link == Some(aggs[k].id) &&
                  FirstAggregateOf(aggs, k, line.aggregateCidr.value.Parse().value)
    else link == None
  }

  /** The aggregate cells name an aggregate that holds the network, or nothing. */
  ghost predicate LinkAllowed(aggs: seq<Aggregate>, line: PrefixLine, net: Net) {
    && !line.aggregateId.Unreadable?
    && (line.aggregateId.Read? ==>
          exists k :: 0 <= k < |aggs| && aggs[k].id == line.aggregateId.value && HoldsNet(aggs[k], net))
    && (line.aggregateId.Blank? && line.aggregateCidr.Some? ==>
          exists k :: 0 <= k < |aggs| && line.aggregateCidr.value.Parse().Some? && HoldsNet(aggs[k], net) &&
                      FirstAggregateOf(aggs, k, line.aggregateCidr.value.Parse().value))
  }

  ghost predicate HoldsNet(a: Aggregate, net: Net) {
    a.prefix.Parse().Some? && SubnetOf(net, a.prefix.Parse().value)
  }

  /** A row is accepted when its network is readable and in no earlier row, its cells are readable, its
      aggregate holds it, and the database does not refuse it. */
  ghost predicate PrefixAccepted(aggs: seq<Aggregate>, lines: seq<PrefixLine>, broken: set<int>, i: int)
    requires 0 <= i < |lines|
  {
    var line := lines[i];
    && line.cidr.Some? && line.cidr.value.Parse().Some?
    && (forall j :: 0 <= j < i ==> !Names(lines[j].cidr, line.cidr.value.Parse().value))
    && line.status.Read? && !line.vlan.Unreadable? && !line.isPool.Unreadable? && !line.markUtilized.Unreadable?
    && LinkAllowed(aggs, line, line.cidr.value.Parse().value)
    && line.num !in broken
  }

  /** The columns of an accepted row: given cells are stored; blank ones keep what the row had, or are
      empty in a new row. The link is always what the aggregate cells stand for. */
  ghost predicate PrefixStored(aggs: seq<Aggregate>, before: Option<Prefix>, net: Net, line: PrefixLine, row: Prefix)
    requires line.status.Read?
  {
    && row.status == line.status.value
    && row.description ==
       (if line.description.Some? || before.None? then line.description else before.value.description)
    && row.isPool == (if line.isPool.Read? then line.isPool.value else before.Some? && before.value.isPool)
    && row.markUtilized ==
       (if line.markUtilized.Read? then line.markUtilized.value else before.Some? && before.value.markUtilized)
    && row.vlanId ==
       (if line.vlan.Read? then Some(line.vlan.value) else if before.Some? then before.value.vlanId else None)
    && row.location == (if line.location.Some? || before.None? then line.location else before.value.location)
    && StandsFor(aggs, line, row.aggregateId)
    && (before.Some? ==> row.id == before.value.id && row.prefix == before.value.prefix)
    && (before.None? ==> row.prefix == Canonical(net))
  }

  lemma {:induction false} OnlyWithId(aggs: seq<Aggregate>, k: int)
    requires DistinctIds(aggs) && 0 <= k < |aggs|
    ensures AggregateIndex(aggs, aggs[k].id) == Some(k)
  {
    hide WellFormed;
    var i := AggregateIndex(aggs, aggs[k].id);
  }

  /** The id cell. */
  lemma {:induction false} IdCell(t: Tables, net: Net, line: PrefixLine)
    requires DistinctIds(t.aggregates) && line.aggregateId.Read?
    ensures var agg := LineAggregate(t, line);
            && (agg.Ok? && CheckInAggregate(t.aggregates, Some(net), agg.value).None? <==>
                LinkAllowed(t.aggregates, line, net))
            && (agg.Ok? ==> StandsFor(t.aggregates, line, agg.value))
  {
    hide WellFormed, DistinctIds;
    var aggs, agg := t.aggregates, LineAggregate(t, line);
    if agg.Ok? && CheckInAggregate(aggs, Some(net), agg.value).None? {
      var k := AggregateIndex(aggs, agg.value.value).value;
      assert aggs[k].id == line.aggregateId.value && HoldsNet(aggs[k], net);
    }
    if LinkAllowed(aggs, line, net) {
      var k :| 0 <= k < |aggs| && aggs[k].id == line.aggregateId.value && HoldsNet(aggs[k], net);
      OnlyWithId(aggs, k);
    }
  }

  /** The network cell, and no cell at all. */
  lemma {:induction false} NetworkCell(t: Tables, net: Net, line: PrefixLine)
    requires DistinctIds(t.aggregates) && line.aggregateId.Blank?
    ensures var agg := LineAggregate(t, line);
            && (agg.Ok? && CheckInAggregate(t.aggregates, Some(net), agg.value).None? <==>
                LinkAllowed(t.aggregates, line, net))
            && (agg.Ok? ==> StandsFor(t.aggregates, line, agg.value))
  {
    hide WellFormed, DistinctIds;
    var aggs, agg := t.aggregates, LineAggregate(t, line);
    if line.aggregateCidr.Some? && line.aggregateCidr.value.Parse().Some? {
      var named := line.aggregateCidr.value.Parse().value;
      var k := AggregateByNet(aggs, named);
      if k.Some? {
        OnlyWithId(aggs, k.value);
        assert FirstAggregateOf(aggs, k.value, named);
        assert CheckInAggregate(aggs, Some(net), agg.value).None? <==> HoldsNet(aggs[k.value], net);
      }
      forall j | FirstAggregateOf(aggs, j, named) ensures k == Some(j) {}
    }
  }

  lemma {:induction false} CellsOfOutcome(t: Tables, net: Net, line: PrefixLine)
    requires DistinctIds(t.aggregates)
    ensures var r := LineChecked(t, net, line);
            && (r.Ok? <==> line.status.Read? && !line.vlan.Unreadable? && LinkAllowed(t.aggregates, line, net))
            && (r.Ok? ==> StandsFor(t.aggregates, line, r.value))
  {
    if line.aggregateId.Read? { IdCell(t, net, line); }
    if line.aggregateId.Blank? { NetworkCell(t, net, line); }
    hide WellFormed, DistinctIds, StandsFor, CheckInAggregate;
  }

  lemma {:induction false} SeenPrefixes(t: Tables, lines: seq<PrefixLine>, broken: set<int>, i: nat, net: Net)
    requires i <= |lines|
    ensures net in PrefixesImported(t, lines[..i], broken).seen <==> exists j :: 0 <= j < i && Names(lines[j].cidr, net)
    decreases i
  {
    hide PrefixRow, WellFormed;
    if i > 0 {
      SeenPrefixes(t, lines, broken, i - 1, net);
      assert lines[..i][..i - 1] == lines[..i - 1];
      assert Names(lines[i - 1].cidr, net) <==> NetOf(lines[i - 1].cidr) == Some(net);
    }
  }

  /** Rows of networks not yet named are as they were. */
  lemma {:induction false} UnseenPrefix(t: Tables, lines: seq<PrefixLine>, broken: set<int>, i: nat, net: Net)
    requires i <= |lines| && net !in PrefixesImported(t, lines[..i], broken).seen
    ensures var rows := PrefixesImported(t, lines[..i], broken).tables.prefixes;
            var k := PrefixByNet(rows, net);
            k == PrefixByNet(t.prefixes, net) && (k.Some? ==> rows[k.value] == t.prefixes[k.value])
    decreases i
  {
    if i > 0 {
      assert lines[..i][..i - 1] == lines[..i - 1];
      UnseenStep(PrefixesImported(t, lines[..i - 1], broken), lines[i - 1], broken, net);
      UnseenPrefix(t, lines, broken, i - 1, net);
    }
  }

  lemma UnseenStep(s: Progress, line: PrefixLine, broken: set<int>, net: Net)
    requires net !in PrefixStep(s, line, broken).seen
    ensures net !in s.seen
    ensures var rows, rows' := s.tables.prefixes, PrefixStep(s, line, broken).tables.prefixes;
            var k := PrefixByNet(rows, net);
            PrefixByNet(rows', net) == k && (k.Some? ==> rows'[k.value] == rows[k.value])
  {
    hide WellFormed, LineChecked, PrefixByNet;
    var rows, rows' := s.tables.prefixes, PrefixStep(s, line, broken).tables.prefixes;
    assert |rows| <= |rows'| && forall j :: 0 <= j < |rows| ==>
      rows'[j].prefix == rows[j].prefix && (rows[j].prefix.Parse() == Some(net) ==> rows'[j] == rows[j]);
    assert forall j :: |rows| <= j < |rows'| ==> rows'[j].prefix.Parse() != Some(net);
    PrefixFoundAlike(rows, rows', net);
  }

  lemma PrefixFoundAlike(rows: seq<Prefix>, rows': seq<Prefix>, net: Net)
    requires |rows| <= |rows'| && forall j :: 0 <= j < |rows| ==> rows'[j].prefix == rows[j].prefix
    requires forall j :: |rows| <= j < |rows'| ==> rows'[j].prefix.Parse() != Some(net)
    ensures PrefixByNet(rows', net) == PrefixByNet(rows, net)
  {
    hide WellFormed;
    var k, k' := PrefixByNet(rows, net), PrefixByNet(rows', net);
    if k.Some? { assert rows'[k.value].prefix.Parse() == Some(net); }
    if k'.Some? { assert rows[k'.value].prefix.Parse() == Some(net); }
  }

  /** How row `i` of the file ends. */
  function PrefixOutcome(t: Tables, lines: seq<PrefixLine>, broken: set<int>, i: nat): Outcome
    requires i < |lines|
  {
    var s := PrefixesImported(t, lines[..i], broken);
    PrefixRow(s.tables, s.seen, lines[i], lines[i].num in broken)
  }

  lemma {:induction false} PrefixErrors(t: Tables, lines: seq<PrefixLine>, broken: set<int>, n: nat, i: nat)
    requires PrefixNumbersDiffer(lines) && n <= |lines| && i < |lines|
    ensures HasError(PrefixesImported(t, lines[..n], broken).errors, lines[i].num) <==>
            i < n && PrefixOutcome(t, lines, broken, i).Failed?
    decreases n
  {
    hide PrefixRow, WellFormed;
    if n > 0 {
      PrefixErrors(t, lines, broken, n - 1, i);
      assert lines[..n][..n - 1] == lines[..n - 1];
      var s, s' := PrefixesImported(t, lines[..n - 1], broken), PrefixesImported(t, lines[..n], broken);
      assert s' == PrefixStep(s, lines[n - 1], broken);
      ErrorAppended(s.errors, s'.errors, lines[n - 1].num, lines[i].num);
    }
  }

  lemma ErrorAppended(errors: seq<RowError>, errors': seq<RowError>, num: int, other: int)
    requires errors' == errors ||
             (|errors'| == |errors| + 1 && errors'[..|errors|] == errors && errors'[|errors|].num == num)
    ensures HasError(errors', other) <==> HasError(errors, other) || (errors' != errors && num == other)
  {
    if HasError(errors, other) {
      var e :| 0 <= e < |errors| && errors[e].num == other;
      assert errors'[e] == errors'[..|errors|][e] || errors' == errors;
    }
    if HasError(errors', other) && errors' != errors {
      var e :| 0 <= e < |errors'| && errors'[e].num == other;
      assert e < |errors| ==> errors[e] == errors'[..|errors|][e];
    }
  }

  lemma {:induction false} OutcomeIff(t: Tables, lines: seq<PrefixLine>, broken: set<int>, i: nat)
    requires DistinctIds(t.aggregates) && i < |lines|
    ensures !PrefixOutcome(t, lines, broken, i).Failed? <==> PrefixAccepted(t.aggregates, lines, broken, i)
  {
    hide WellFormed, LineChecked, PrefixesImported, LinkAllowed, DistinctIds;
    var s := PrefixesImported(t, lines[..i], broken);
    var line := lines[i];
    PrefixAccounting(t, lines[..i], broken);
    assert s.tables.aggregates == t.aggregates;
    if line.cidr.Some? && line.cidr.value.Parse().Some? {
      var net := line.cidr.value.Parse().value;
      SeenPrefixes(t, lines, broken, i, net);
      CellsOfOutcome(s.tables, net, line);
    }
  }

  lemma StoredNow(t: Tables, seen: set<Net>, line: PrefixLine, fails: bool)
    requires DistinctIds(t.aggregates) && !PrefixRow(t, seen, line, fails).Failed?
    ensures line.status.Read? && line.cidr.Some? && line.cidr.value.Parse().Some?
    ensures var net := line.cidr.value.Parse().value;
            var rows, k := PrefixRow(t, seen, line, fails).tables.prefixes, PrefixByNet(t.prefixes, net);
            var at := if k.Some? then k.value else |t.prefixes|;
            && FirstPrefixOf(rows, at, net)
            && PrefixStored(t.aggregates, if k.Some? then Some(t.prefixes[k.value]) else None, net, line, rows[at])
  {
    hide WellFormed, LineChecked;
    var net := line.cidr.value.Parse().value;
    CellsOfOutcome(t, net, line);
    CheckedReadsStatus(t, net, line);
  }

  lemma FirstIsFound(rows: seq<Prefix>, k: int, net: Net)
    requires FirstPrefixOf(rows, k, net)
    ensures PrefixByNet(rows, net) == Some(k)
  {
    hide WellFormed;
    FirstPrefix(rows, k, net);
  }

  /** The columns after the whole file: an accepted row is found under its network with exactly the
      columns it gives, and what the network's row had before where it gives none. */
  lemma {:induction false} PrefixFileOutcome(t: Tables, lines: seq<PrefixLine>, broken: set<int>, i: nat)
    requires PrefixNumbersDiffer(lines) && DistinctIds(t.aggregates) && i < |lines|
    ensures var end := PrefixesImported(t, lines, broken);
            && (HasError(end.errors, lines[i].num) <==> !PrefixAccepted(t.aggregates, lines, broken, i))
            && (PrefixAccepted(t.aggregates, lines, broken, i) ==>
                  var net := lines[i].cidr.value.Parse().value;
                  var k, k0 := PrefixByNet(end.tables.prefixes, net), PrefixByNet(t.prefixes, net);
                  k.Some? && PrefixStored(t.aggregates, if k0.Some? then Some(t.prefixes[k0.value]) else None, net,
                                          lines[i], end.tables.prefixes[k.value]))
  {
    hide WellFormed, PrefixRow, PrefixStored, PrefixAccepted, PrefixNumbersDiffer, DistinctIds;
    OutcomeIff(t, lines, broken, i);
    PrefixErrors(t, lines, broken, |lines|, i);
    assert lines[..|lines|] == lines;
    if PrefixAccepted(t.aggregates, lines, broken, i) { AcceptedIsStored(t, lines, broken, i); }
  }

  lemma {:induction false} AcceptedIsStored(t: Tables, lines: seq<PrefixLine>, broken: set<int>, i: nat)
    requires DistinctIds(t.aggregates) && i < |lines| && !PrefixOutcome(t, lines, broken, i).Failed?
    ensures lines[i].status.Read? && lines[i].cidr.Some? && lines[i].cidr.value.Parse().Some?
    ensures var rows := PrefixesImported(t, lines, broken).tables.prefixes;
            var net := lines[i].cidr.value.Parse().value;
            var k, k0 := PrefixByNet(rows, net), PrefixByNet(t.prefixes, net);
            k.Some? && PrefixStored(t.aggregates, if k0.Some? then Some(t.prefixes[k0.value]) else None, net,
                                    lines[i], rows[k.value])
  {
    hide WellFormed, PrefixStored, DistinctIds, LineChecked;
    var s, s' := PrefixesImported(t, lines[..i], broken), PrefixesImported(t, lines[..i + 1], broken);
    assert lines[..i + 1][..i] == lines[..i];
    PrefixAccounting(t, lines[..i], broken);
    StoredNow(s.tables, s.seen, lines[i], lines[i].num in broken);
    var net := lines[i].cidr.value.Parse().value;
    assert net !in s.seen && net in s'.seen;
    UnseenPrefix(t, lines, broken, i, net);
    PrefixesExtend(t, lines, broken, i + 1, |lines|);
    assert lines[..|lines|] == lines;
    var rows := PrefixesImported(t, lines, broken).tables.prefixes;
    hide PrefixRow, PrefixesImported;
    PrefixFoundLater(s'.tables.prefixes, rows, s'.seen, net);
    var k := PrefixByNet(s.tables.prefixes, net);
    FirstIsFound(s'.tables.prefixes, if k.Some? then k.value else |s.tables.prefixes|, net);
  }

  /** All other rows stay as they were. */
  lemma {:induction false} PrefixRowKept(t: Tables, lines: seq<PrefixLine>, broken: set<int>, n: nat, k: nat)
    requires n <= |lines| && k < |t.prefixes|
    ensures var rows := PrefixesImported(t, lines[..n], broken).tables.prefixes;
            && |t.prefixes| <= |rows| && (forall j :: 0 <= j < |t.prefixes| ==> rows[j].prefix == t.prefixes[j].prefix)
            && (rows[k] != t.prefixes[k] ==>
                  exists i :: 0 <= i < n && !PrefixOutcome(t, lines, broken, i).Failed? &&
                              lines[i].cidr.Some? && lines[i].cidr.value.Parse().Some? &&
                              FirstPrefixOf(t.prefixes, k, lines[i].cidr.value.Parse().value))
    decreases n
  {
    hide WellFormed, LineChecked;
    if n > 0 {
      PrefixRowKept(t, lines, broken, n - 1, k);
      assert lines[..n][..n - 1] == lines[..n - 1];
      var s := PrefixesImported(t, lines[..n - 1], broken);
      var line := lines[n - 1];
      var o := PrefixOutcome(t, lines, broken, n - 1);
      assert PrefixesImported(t, lines[..n], broken) == PrefixStep(s, line, broken);
      if !o.Failed? {
        var net := line.cidr.value.Parse().value;
        if PrefixByNet(s.tables.prefixes, net) == Some(k) { assert FirstPrefixOf(t.prefixes, k, net); }
      }
    }
  }

  /** A row of the table changes only for an accepted row of the file, and then it is the first row of
      that row's network. */
  lemma {:induction false} PrefixesElsewhereKept(t: Tables, lines: seq<PrefixLine>, broken: set<int>, k: nat)
    requires DistinctIds(t.aggregates) && k < |t.prefixes|
    ensures var rows := PrefixesImported(t, lines, broken).tables.prefixes;
            && k < |rows|
            && (rows[k] != t.prefixes[k] ==>
                  exists i :: 0 <= i < |lines| && PrefixAccepted(t.aggregates, lines, broken, i) &&
                              FirstPrefixOf(t.prefixes, k, lines[i].cidr.value.Parse().value))
  {
    hide WellFormed, PrefixOutcome, PrefixesImported;
    PrefixRowKept(t, lines, broken, |lines|, k);
    assert lines[..|lines|] == lines;
    forall i | 0 <= i < |lines|
      ensures !PrefixOutcome(t, lines, broken, i).Failed? <==> PrefixAccepted(t.aggregates, lines, broken, i)
    {
      OutcomeIff(t, lines, broken, i);
    }
  }

  // ---------- aggregates ----------

  ghost predicate NetOverlaps(a: Aggregate, net: Net) {
    a.prefix.Parse().Some? && Overlaps(net, a.prefix.Parse().value)
  }

  /** A row is accepted when its network is readable and in no earlier row, its date is readable, the
      database does not refuse it, and its network is in the table or overlaps neither the table nor
      an accepted earlier row. */
  ghost predicate AggregateAccepted(aggs: seq<Aggregate>, lines: seq<AggregateLine>, broken: set<int>, i: nat)
    requires i < |lines|
    decreases i
  {
    var line := lines[i];
    && line.cidr.Some? && line.cidr.value.Parse().Some?
    && (forall j :: 0 <= j < i ==> !Names(lines[j].cidr, line.cidr.value.Parse().value))
    && !line.dateAdded.Unreadable? && line.num !in broken
    && ((exists k :: 0 <= k < |aggs| && aggs[k].prefix.Parse() == line.cidr.value.Parse()) ||
        ((forall k :: 0 <= k < |aggs| ==> !NetOverlaps(aggs[k], line.cidr.value.Parse().value)) &&
         (forall j: nat :: j < i && AggregateAccepted(aggs, lines, broken, j) ==>
            !Overlaps(line.cidr.value.Parse().value, lines[j].cidr.value.Parse().value))))
  }

  /** Given cells are stored; blank ones keep what the row had, or are empty in a new row. */
  ghost predicate AggregateStored(before: Option<Aggregate>, net: Net, line: AggregateLine, row: Aggregate) {
    && row.rir == (if line.rir.Some? || before.None? then line.rir else before.value.rir)
    && row.dateAdded ==
       (if line.dateAdded.Read? then Some(line.dateAdded.value)
        else if before.Some? then before.value.dateAdded else None)
    && row.description ==
       (if line.description.Some? || before.None? then line.description else before.value.description)
    && (before.Some? ==> row.id == before.value.id && row.prefix == before.value.prefix)
    && (before.None? ==> row.prefix == Canonical(net))
  }

  function AggregateOutcome(t: Tables, lines: seq<AggregateLine>, broken: set<int>, i: nat): Outcome
    requires i < |lines|
  {
    var s := AggregatesImported(t, lines[..i], broken);
    AggregateRow(s.tables, s.seen, lines[i], lines[i].num in broken)
  }

  lemma {:induction false} SeenAggregates(t: Tables, lines: seq<AggregateLine>, broken: set<int>, i: nat, net: Net)
    requires i <= |lines|
    ensures net in AggregatesImported(t, lines[..i], broken).seen <==>
            exists j :: 0 <= j < i && Names(lines[j].cidr, net)
    decreases i
  {
    hide AggregateRow, WellFormed;
    if i > 0 {
      SeenAggregates(t, lines, broken, i - 1, net);
      assert lines[..i][..i - 1] == lines[..i - 1];
      assert Names(lines[i - 1].cidr, net) <==> NetOf(lines[i - 1].cidr) == Some(net);
    }
  }

  lemma {:induction false} UnseenAggregate(t: Tables, lines: seq<AggregateLine>, broken: set<int>, i: nat, net: Net)
    requires i <= |lines| && net !in AggregatesImported(t, lines[..i], broken).seen
    ensures var rows := AggregatesImported(t, lines[..i], broken).tables.aggregates;
            var k := AggregateByNet(rows, net);
            k == AggregateByNet(t.aggregates, net) && (k.Some? ==> rows[k.value] == t.aggregates[k.value])
    decreases i
  {
    if i > 0 {
      assert lines[..i][..i - 1] == lines[..i - 1];
      UnseenAggregateStep(AggregatesImported(t, lines[..i - 1], broken), lines[i - 1], broken, net);
      UnseenAggregate(t, lines, broken, i - 1, net);
    }
  }

  lemma UnseenAggregateStep(s: Progress, line: AggregateLine, broken: set<int>, net: Net)
    requires net !in AggregateStep(s, line, broken).seen
    ensures net !in s.seen
    ensures var rows, rows' := s.tables.aggregates, AggregateStep(s, line, broken).tables.aggregates;
            var k := AggregateByNet(rows, net);
            AggregateByNet(rows', net) == k && (k.Some? ==> rows'[k.value] == rows[k.value])
  {
    hide WellFormed, AggregateByNet, OverlapsExisting;
    var rows, rows' := s.tables.aggregates, AggregateStep(s, line, broken).tables.aggregates;
    assert |rows| <= |rows'| && forall j :: 0 <= j < |rows| ==>
      rows'[j].prefix == rows[j].prefix && (rows[j].prefix.Parse() == Some(net) ==> rows'[j] == rows[j]);
    assert forall j :: |rows| <= j < |rows'| ==> rows'[j].prefix.Parse() != Some(net);
    AggregateFoundAlike(rows, rows', net);
  }

  lemma AggregateFoundAlike(rows: seq<Aggregate>, rows': seq<Aggregate>, net: Net)
    requires |rows| <= |rows'| && forall j :: 0 <= j < |rows| ==> rows'[j].prefix == rows[j].prefix
    requires forall j :: |rows| <= j < |rows'| ==> rows'[j].prefix.Parse() != Some(net)
    ensures AggregateByNet(rows', net) == AggregateByNet(rows, net)
  {
    hide WellFormed;
    var k, k' := AggregateByNet(rows, net), AggregateByNet(rows', net);
    if k.Some? { assert rows'[k.value].prefix.Parse() == Some(net); }
    if k'.Some? { assert rows[k'.value].prefix.Parse() == Some(net); }
  }

  lemma {:induction false} AggregateErrors(t: Tables, lines: seq<AggregateLine>, broken: set<int>, n: nat, i: nat)
    requires AggregateNumbersDiffer(lines) && n <= |lines| && i < |lines|
    ensures HasError(AggregatesImported(t, lines[..n], broken).errors, lines[i].num) <==>
            i < n && AggregateOutcome(t, lines, broken, i).Failed?
    decreases n
  {
    hide AggregateRow, WellFormed;
    if n > 0 {
      AggregateErrors(t, lines, broken, n - 1, i);
      assert lines[..n][..n - 1] == lines[..n - 1];
      var s, s' := AggregatesImported(t, lines[..n - 1], broken), AggregatesImported(t, lines[..n], broken);
      assert s' == AggregateStep(s, lines[n - 1], broken);
      ErrorAppended(s.errors, s'.errors, lines[n - 1].num, lines[i].num);
    }
  }

  ghost predicate Took(t: Tables, lines: seq<AggregateLine>, broken: set<int>, j: nat, net: Net)
    requires j < |lines|
  {
    !AggregateOutcome(t, lines, broken, j).Failed? && NetOf(lines[j].cidr) == Some(net)
  }

  ghost predicate HasNet(rows: seq<Aggregate>, net: Net) {
    exists k :: 0 <= k < |rows| && rows[k].prefix.Parse() == Some(net)
  }

  ghost predicate TookBefore(t: Tables, lines: seq<AggregateLine>, broken: set<int>, i: nat, net: Net)
    requires i <= |lines|
  {
    exists j: nat :: j < i && Took(t, lines, broken, j, net)
  }

  /** The networks in the table are those from before and those of the rows that did not fail. */
  lemma {:induction false} NetsSoFar(t: Tables, lines: seq<AggregateLine>, broken: set<int>, i: nat, net: Net)
    requires i <= |lines|
    ensures HasNet(AggregatesImported(t, lines[..i], broken).tables.aggregates, net) <==>
            HasNet(t.aggregates, net) || TookBefore(t, lines, broken, i, net)
    decreases i
  {
    hide WellFormed, OverlapsExisting, Took, HasNet, AggregateStep;
    if i > 0 {
      NetsSoFar(t, lines, broken, i - 1, net);
      assert lines[..i][..i - 1] == lines[..i - 1];
      NetsStep(t, lines, broken, i - 1, net);
      assert TookBefore(t, lines, broken, i, net) <==>
             TookBefore(t, lines, broken, i - 1, net) || Took(t, lines, broken, i - 1, net);
    }
  }

  lemma NetsStep(t: Tables, lines: seq<AggregateLine>, broken: set<int>, i: nat, net: Net)
    requires i < |lines|
    ensures var s := AggregatesImported(t, lines[..i], broken);
            HasNet(AggregateStep(s, lines[i], broken).tables.aggregates, net) <==>
            HasNet(s.tables.aggregates, net) || Took(t, lines, broken, i, net)
  {
    hide WellFormed, OverlapsExisting, AggregatesImported;
    var s := AggregatesImported(t, lines[..i], broken);
    var rows, rows' := s.tables.aggregates, AggregateStep(s, lines[i], broken).tables.aggregates;
    assert |rows| <= |rows'| && forall j :: 0 <= j < |rows| ==> rows'[j].prefix == rows[j].prefix;
    if k :| 0 <= k < |rows| && rows[k].prefix.Parse() == Some(net) { assert rows'[k].prefix.Parse() == Some(net); }
    if k :| 0 <= k < |rows'| && rows'[k].prefix.Parse() == Some(net) {
      assert k < |rows| ==> rows[k].prefix.Parse() == Some(net);
    }
    if Took(t, lines, broken, i, net) {
      var k := AggregateByNet(rows, net);
      assert rows'[if k.Some? then k.value else |rows|].prefix.Parse() == Some(net);
    }
  }

  lemma {:induction false} AggregateOutcomeIff(t: Tables, lines: seq<AggregateLine>, broken: set<int>, i: nat)
    requires i < |lines|
    ensures !AggregateOutcome(t, lines, broken, i).Failed? <==> AggregateAccepted(t.aggregates, lines, broken, i)
    decreases i
  {
    hide WellFormed, AggregatesImported, OverlapsExisting;
    var s := AggregatesImported(t, lines[..i], broken);
    var line := lines[i];
    forall j: nat | j < i
      ensures !AggregateOutcome(t, lines, broken, j).Failed? <==> AggregateAccepted(t.aggregates, lines, broken, j)
    {
      AggregateOutcomeIff(t, lines, broken, j);
    }
    if line.cidr.Some? && line.cidr.value.Parse().Some? {
      var net := line.cidr.value.Parse().value;
      SeenAggregates(t, lines, broken, i, net);
      if net !in s.seen {
        UnseenAggregate(t, lines, broken, i, net);
        OverlapSoFar(t, lines, broken, i, net);
      }
    }
  }

  lemma {:induction false} OverlapSoFar(t: Tables, lines: seq<AggregateLine>, broken: set<int>, i: nat, net: Net)
    requires i <= |lines|
    ensures OverlapsExisting(AggregatesImported(t, lines[..i], broken).tables.aggregates, Some(net), None) <==>
            (exists k :: 0 <= k < |t.aggregates| && NetOverlaps(t.aggregates[k], net)) ||
            (exists j: nat :: j < i && !AggregateOutcome(t, lines, broken, j).Failed? && TakenOverlap(lines, j, net))
  {
    hide WellFormed, AggregatesImported, AggregateOutcome;
    var rows := AggregatesImported(t, lines[..i], broken).tables.aggregates;
    if k :| 0 <= k < |rows| && Clash(rows[k], net) {
      var m := rows[k].prefix.Parse().value;
      NetsSoFar(t, lines, broken, i, m);
      if j: nat :| j < i && Took(t, lines, broken, j, m) { assert TakenOverlap(lines, j, net); }
      if k :| 0 <= k < |t.aggregates| && t.aggregates[k].prefix.Parse() == Some(m) {
        assert NetOverlaps(t.aggregates[k], net);
      }
    }
    if k :| 0 <= k < |t.aggregates| && NetOverlaps(t.aggregates[k], net) {
      var m := t.aggregates[k].prefix.Parse().value;
      NetsSoFar(t, lines, broken, i, m);
      var k' :| 0 <= k' < |rows| && rows[k'].prefix.Parse() == Some(m);
      assert Clash(rows[k'], net);
    }
    if j: nat :| j < i && !AggregateOutcome(t, lines, broken, j).Failed? && TakenOverlap(lines, j, net) {
      var m := lines[j].cidr.value.Parse().value;
      assert Took(t, lines, broken, j, m);
      NetsSoFar(t, lines, broken, i, m);
      var k' :| 0 <= k' < |rows| && rows[k'].prefix.Parse() == Some(m);
      assert Clash(rows[k'], net);
    }
  }

  ghost predicate TakenOverlap(lines: seq<AggregateLine>, j: nat, net: Net)
    requires j < |lines|
  {
    lines[j].cidr.Some? && lines[j].cidr.value.Parse().Some? && Overlaps(net, lines[j].cidr.value.Parse().value)
  }

  lemma {:induction false} AggregateIsStored(t: Tables, lines: seq<AggregateLine>, broken: set<int>, i: nat)
    requires i < |lines| && !AggregateOutcome(t, lines, broken, i).Failed?
    ensures lines[i].cidr.Some? && lines[i].cidr.value.Parse().Some?
    ensures var rows := AggregatesImported(t, lines, broken).tables.aggregates;
            var net := lines[i].cidr.value.Parse().value;
            var k, k0 := AggregateByNet(rows, net), AggregateByNet(t.aggregates, net);
            k.Some? && AggregateStored(if k0.Some? then Some(t.aggregates[k0.value]) else None, net, lines[i],
                                       rows[k.value])
  {
    hide WellFormed, OverlapsExisting;
    var s, s' := AggregatesImported(t, lines[..i], broken), AggregatesImported(t, lines[..i + 1], broken);
    assert lines[..i + 1][..i] == lines[..i];
    var net := lines[i].cidr.value.Parse().value;
    assert net !in s.seen && net in s'.seen;
    UnseenAggregate(t, lines, broken, i, net);
    AggregatesExtend(t, lines, broken, i + 1, |lines|);
    assert lines[..|lines|] == lines;
    var rows := AggregatesImported(t, lines, broken).tables.aggregates;
    AggregateFoundLater(s'.tables.aggregates, rows, s'.seen, net);
    var k := AggregateByNet(s.tables.aggregates, net);
    FirstAggregate(s'.tables.aggregates, if k.Some? then k.value else |s.tables.aggregates|, net);
  }

  /** The same for the aggregate file. */
  lemma {:induction false} AggregateFileOutcome(t: Tables, lines: seq<AggregateLine>, broken: set<int>, i: nat)
    requires AggregateNumbersDiffer(lines) && i < |lines|
    ensures var end := AggregatesImported(t, lines, broken);
            && (HasError(end.errors, lines[i].num) <==> !AggregateAccepted(t.aggregates, lines, broken, i))
            && (AggregateAccepted(t.aggregates, lines, broken, i) ==>
                  var net := lines[i].cidr.value.Parse().value;
                  var k, k0 := AggregateByNet(end.tables.aggregates, net), AggregateByNet(t.aggregates, net);
                  k.Some? && AggregateStored(if k0.Some? then Some(t.aggregates[k0.value]) else None, net, lines[i],
                                             end.tables.aggregates[k.value]))
  {
    hide WellFormed, AggregateRow, AggregateStored, AggregateNumbersDiffer, OverlapsExisting;
    AggregateOutcomeIff(t, lines, broken, i);
    AggregateErrors(t, lines, broken, |lines|, i);
    assert lines[..|lines|] == lines;
    if AggregateAccepted(t.aggregates, lines, broken, i) { AggregateIsStored(t, lines, broken, i); }
  }

  // ---------- why a row fails ----------

  ghost predicate NamedEarlier(lines: seq<PrefixLine>, i: int, net: Net)
    requires 0 <= i <= |lines|
  {
    exists j :: 0 <= j < i && Names(lines[j].cidr, net)
  }

  /** The reason given for a prefix row is the first thing wrong with it. */
  lemma {:induction false} PrefixReason(t: Tables, lines: seq<PrefixLine>, broken: set<int>, i: nat)
    requires DistinctIds(t.aggregates) && i < |lines| && PrefixOutcome(t, lines, broken, i).Failed?
    ensures var line, reason := lines[i], PrefixOutcome(t, lines, broken, i).reason;
            if line.cidr.None? then reason == EmptyCidr
            else if line.cidr.value.Parse().None? then reason == BadCidr
            else if NamedEarlier(lines, i, line.cidr.value.Parse().value) then reason == DuplicateInFile
            else if !line.status.Read? then reason == BadStatus
            else if line.aggregateId.Unreadable? then reason == BadAggregateId
            else if !LinkAllowed(t.aggregates, line, line.cidr.value.Parse().value)
            then reason in {UnknownAggregate, BadCidr, Rejected(InvalidCidr), Rejected(OutsideAggregate)}
            else if line.vlan.Unreadable? then reason == BadVlan
            else if line.isPool.Unreadable? || line.markUtilized.Unreadable? then reason == BadBoolean
            else line.num in broken && reason == Rejected(DatabaseError)
  {
    hide WellFormed, PrefixesImported, DistinctIds, LinkAllowed;
    var s := PrefixesImported(t, lines[..i], broken);
    var line := lines[i];
    PrefixAccounting(t, lines[..i], broken);
    assert s.tables.aggregates == t.aggregates;
    if line.cidr.Some? && line.cidr.value.Parse().Some? {
      var net := line.cidr.value.Parse().value;
      SeenPrefixes(t, lines, broken, i, net);
      if line.aggregateId.Read? { IdCell(s.tables, net, line); }
      if line.aggregateId.Blank? { NetworkCell(s.tables, net, line); }
      CheckReasons(s.tables, net, line);
    }
  }

  lemma {:induction false} CheckReasons(t: Tables, net: Net, line: PrefixLine)
    ensures var agg := LineAggregate(t, line);
            && (agg.Err? ==> agg.error in {BadAggregateId, UnknownAggregate, BadCidr})
            && (agg.Err? && agg.error == BadAggregateId <==> line.aggregateId.Unreadable?)
            && (agg.Ok? && CheckInAggregate(t.aggregates, Some(net), agg.value).Some? ==>
                  CheckInAggregate(t.aggregates, Some(net), agg.value).value in {InvalidCidr, OutsideAggregate})
  {
    hide WellFormed;
    var agg := LineAggregate(t, line);
    if agg.Ok? && agg.value.Some? && line.aggregateId.Blank? {
      var k := AggregateByNet(t.aggregates, line.aggregateCidr.value.Parse().value).value;
      assert t.aggregates[k].id == agg.value.value;
    }
  }

  /** The same for an aggregate row. */
  lemma {:induction false} AggregateReason(t: Tables, lines: seq<AggregateLine>, broken: set<int>, i: nat)
    requires i < |lines| && AggregateOutcome(t, lines, broken, i).Failed?
    ensures var line, reason := lines[i], AggregateOutcome(t, lines, broken, i).reason;
            if line.cidr.None? then reason == EmptyCidr
            else if line.cidr.value.Parse().None? then reason == BadCidr
            else if exists j :: 0 <= j < i && Names(lines[j].cidr, line.cidr.value.Parse().value)
            then reason == DuplicateInFile
            else if line.dateAdded.Unreadable? then reason == BadDate
            else if HasNet(t.aggregates, line.cidr.value.Parse().value)
            then line.num in broken && reason == Rejected(DatabaseError)
            else if (exists k :: 0 <= k < |t.aggregates| &&
                                 NetOverlaps(t.aggregates[k], line.cidr.value.Parse().value)) ||
                    (exists j: nat :: j < i && AggregateAccepted(t.aggregates, lines, broken, j) &&
                                      TakenOverlap(lines, j, line.cidr.value.Parse().value))
            then reason == Overlapping
            else line.num in broken && reason == Rejected(DatabaseError)
  {
    hide WellFormed, AggregatesImported, OverlapsExisting;
    var s := AggregatesImported(t, lines[..i], broken);
    var line := lines[i];
    forall j: nat | j < i
      ensures !AggregateOutcome(t, lines, broken, j).Failed? <==> AggregateAccepted(t.aggregates, lines, broken, j)
    {
      AggregateOutcomeIff(t, lines, broken, j);
    }
    if line.cidr.Some? && line.cidr.value.Parse().Some? {
      var net := line.cidr.value.Parse().value;
      SeenAggregates(t, lines, broken, i, net);
      if net !in s.seen {
        UnseenAggregate(t, lines, broken, i, net);
        OverlapSoFar(t, lines, broken, i, net);
        assert HasNet(t.aggregates, net) <==> AggregateByNet(t.aggregates, net).Some?;
        hide AggregateAccepted, AggregateByNet;
      }
    }
  }
}
