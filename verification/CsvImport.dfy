/** The two CSV imports of ipam_csv_import.py, starting from the non-blank rows that
    `_validate_and_read_rows` returns. A cell is already classified: trimmed text is None
    when blank, and a date, boolean, integer or status cell says whether it is readable. */
module CsvImport {
  import opened Wrappers
  import opened Cidr
  import opened IpamTables

  datatype Cell<+T> = Blank | Read(value: T) | Unreadable

  datatype AggregateLine = AggregateLine(
    num: int, cidr: Option<CidrText>, rir: Option<string>, dateAdded: Cell<int>, description: Option<string>)

  datatype PrefixLine = PrefixLine(
    num: int, cidr: Option<CidrText>, status: Cell<string>, description: Option<string>, isPool: Cell<bool>,
    markUtilized: Cell<bool>, vlan: Cell<int>, location: Option<string>,
    aggregateCidr: Option<CidrText>, aggregateId: Cell<int>)

  datatype Reason =
    | EmptyCidr
    | BadCidr
    | DuplicateInFile
    | BadDate
    | Overlapping
    | BadStatus
    | BadAggregateId
    | UnknownAggregate
    | BadVlan
    | BadBoolean
    | Rejected(error: IpamError)

  datatype RowError = RowError(num: int, reason: Reason)

  datatype Outcome = Imported(tables: Tables) | Updated(tables: Tables) | Failed(reason: Reason)

  /** Tables, networks seen in the file, and the four values the import returns. */
  datatype Progress = Progress(
    tables: Tables, seen: set<Net>, imported: nat, updated: nat, failed: nat, errors: seq<RowError>)

  function Start(t: Tables): Progress {
    Progress(t, {}, 0, 0, 0, [])
  }

  function Count(s: Progress, num: int, net: Option<Net>, o: Outcome): Progress {
    var seen := if net.Some? then s.seen + {net.value} else s.seen;
    match o
    case Imported(t) => s.(tables := t, seen := seen, imported := s.imported + 1)
    case Updated(t) => s.(tables := t, seen := seen, updated := s.updated + 1)
    case Failed(reason) => s.(seen := seen, failed := s.failed + 1, errors := s.errors + [RowError(num, reason)])
  }

  function NetOf(cidr: Option<CidrText>): Option<Net> {
    if cidr.None? then None else cidr.value.Parse()
  }

  // ---------- aggregates ----------

  function FillAggregate(a: Aggregate, line: AggregateLine): Aggregate {
    a.(rir := Keep(line.rir, a.rir),
       dateAdded := if line.dateAdded.Read? then Some(line.dateAdded.value) else a.dateAdded,
       description := Keep(line.description, a.description))
  }

  function NewAggregate(net: Net, line: AggregateLine): Aggregate {
    FillAggregate(Aggregate(0, Canonical(net), None, None, None), line)
  }

  /** One row of `import_aggregates_csv`; `fails` says that the database refuses the commit. */
  function AggregateRow(t: Tables, seen: set<Net>, line: AggregateLine, fails: bool): Outcome {
    if line.cidr.None? then Failed(EmptyCidr)
    else if line.cidr.value.Parse().None? then Failed(BadCidr)
    else
      var net := line.cidr.value.Parse().value;
      if net in seen then Failed(DuplicateInFile)
      else if line.dateAdded.Unreadable? then Failed(BadDate)
      else
        var k := AggregateByNet(t.aggregates, net);
        if k.Some? then
          if fails then Failed(Rejected(DatabaseError))
          else Updated(t.(aggregates := t.aggregates[k.value := FillAggregate(t.aggregates[k.value], line)]))
        else if OverlapsExisting(t.aggregates, Some(net), None) then Failed(Overlapping)
        else if fails then Failed(Rejected(DatabaseError))
        else Imported(Saved(t, t.aggregates, t.prefixes, [NewAggregate(net, line)], []))
  }

  function AggregateStep(s: Progress, line: AggregateLine, broken: set<int>): Progress {
    Count(s, line.num, NetOf(line.cidr), AggregateRow(s.tables, s.seen, line, line.num in broken))
  }

  /** The import after all of `lines`; `broken` holds the rows whose commit the database refuses. */
  function AggregatesImported(t: Tables, lines: seq<AggregateLine>, broken: set<int>): Progress {
    if lines == [] then Start(t)
    else
      var n := |lines| - 1;
      AggregateStep(AggregatesImported(t, lines[..n], broken), lines[n], broken)
  }

  method ImportAggregatesCsv(db: Session, lines: seq<AggregateLine>, broken: set<int>)
    returns (imported: nat, updated: nat, failed: nat, errors: seq<RowError>)
    requires db.Clean()
    modifies db
    ensures db.Clean()
    ensures exists seen ::
              AggregatesImported(old(db.stored), lines, broken)
                == Progress(db.stored, seen, imported, updated, failed, errors)
  {
    imported, updated, failed, errors := 0, 0, 0, [];
    var seen: set<Net> := {};
    for n := 0 to |lines|
      invariant db.Clean()
      invariant AggregatesImported(old(db.stored), lines[..n], broken)
                == Progress(db.stored, seen, imported, updated, failed, errors)
    {
      assert lines[..n + 1][..n] == lines[..n];
      var line := lines[n];
      if line.cidr.None? {
        failed, errors := failed + 1, errors + [RowError(line.num, EmptyCidr)];
        continue;
      }
      if line.cidr.value.Parse().None? {
        db.Rollback();
        failed, errors := failed + 1, errors + [RowError(line.num, BadCidr)];
        continue;
      }
      var net := line.cidr.value.Parse().value;
      if net in seen {
        assert seen + {net} == seen;
        failed, errors := failed + 1, errors + [RowError(line.num, DuplicateInFile)];
        continue;
      }
      var outcome := ImportAggregateRow(db, net, line, line.num in broken, seen);
      seen := seen + {net};
      match outcome {
        case Imported(_) => imported := imported + 1;
        case Updated(_) => updated := updated + 1;
        case Failed(reason) =>
          failed, errors := failed + 1, errors + [RowError(line.num, reason)];
      }
    }
    assert lines[..|lines|] == lines;
  }

  /** The part of the loop body after the row's network is marked as seen. */
  method ImportAggregateRow(db: Session, net: Net, line: AggregateLine, fails: bool, ghost seen: set<Net>)
    returns (o: Outcome)
    requires db.Clean() && NetOf(line.cidr) == Some(net) && net !in seen
    modifies db
    ensures db.Clean() && o == AggregateRow(old(db.stored), seen, line, fails)
    ensures db.stored == if o.Failed? then old(db.stored) else o.tables
  {
    hide WellFormed;
    if line.dateAdded.Unreadable? {
      db.Rollback();
      return Failed(BadDate);
    }
    var k := AggregateByNet(db.aggregates, net);
    var ok: bool;
    assert db.aggregates + [] == db.aggregates && db.prefixes + [] == db.prefixes;
    if k.Some? {
      var i := k.value;
      var row := db.aggregates[i];
      row := row.(rir := Keep(line.rir, row.rir));
      row := row.(dateAdded := if line.dateAdded.Read? then Some(line.dateAdded.value) else row.dateAdded);
      row := row.(description := Keep(line.description, row.description));
      db.aggregates := db.aggregates[i := row];
      assert db.aggregates == old(db.aggregates)[i := FillAggregate(old(db.aggregates)[i], line)];
      assert db.aggregates + [] == db.aggregates;
      ok := db.Commit(fails);
      if ok { return Updated(db.stored); }
    } else {
      if OverlapsExisting(db.aggregates, Some(net), None) { return Failed(Overlapping); }
      var row := NewAggregate(net, line);
      NewTextUnique(db.aggregates, row.(id := db.stored.nextAggregate));
      assert NumberAggregates([row], db.stored.nextAggregate) == [row.(id := db.stored.nextAggregate)];
      db.newAggregates := db.newAggregates + [row];
      ok := db.Commit(fails);
      if ok { return Imported(db.stored); }
    }
    db.Rollback();
    o := Failed(Rejected(DatabaseError));
  }

  // ---------- prefixes ----------

  /** `_resolve_aggregate_id_from_row`: the id column wins over the CIDR column. */
  function LineAggregate(t: Tables, line: PrefixLine): Result<Option<nat>, Reason> {
    if line.aggregateId.Unreadable? then Err(BadAggregateId)
    else if line.aggregateId.Read? then
      if line.aggregateId.value < 0 then Err(UnknownAggregate)
      else if AggregateIndex(t.aggregates, line.aggregateId.value).None? then Err(UnknownAggregate)
      else Ok(Some(line.aggregateId.value))
    else if line.aggregateCidr.Some? then
      if line.aggregateCidr.value.Parse().None? then Err(BadCidr)
      else
        var k := AggregateByNet(t.aggregates, line.aggregateCidr.value.Parse().value);
        if k.None? then Err(UnknownAggregate) else Ok(Some(t.aggregates[k.value].id))
    else Ok(None)
  }

  /** What the checks before the first assignment yield: the aggregate id or a reason to fail. */
  function LineChecked(t: Tables, net: Net, line: PrefixLine): Result<Option<nat>, Reason> {
    if !line.status.Read? then Err(BadStatus)
    else
      var agg := LineAggregate(t, line);
      if agg.Err? then agg
      else
        var bad := CheckInAggregate(t.aggregates, Some(net), agg.value);
        if bad.Some? then Err(Rejected(bad.value))
        else if line.vlan.Unreadable? then Err(BadVlan)
        else agg
  }

  function FillPrefix(p: Prefix, line: PrefixLine, aggId: Option<nat>): Prefix
    requires line.status.Read?
  {
    p.(status := line.status.value,
       description := Keep(line.description, p.description),
       isPool := if line.isPool.Read? then line.isPool.value else p.isPool,
       markUtilized := if line.markUtilized.Read? then line.markUtilized.value else p.markUtilized,
       vlanId := if line.vlan.Read? then Some(line.vlan.value) else p.vlanId,
       location := Keep(line.location, p.location),
       aggregateId := aggId)
  }

  function NewPrefix(net: Net, line: PrefixLine, aggId: Option<nat>): Prefix
    requires line.status.Read?
  {
    FillPrefix(Prefix(0, Canonical(net), "", None, false, false, None, None, None), line, aggId)
  }

  /** One row of `import_prefixes_csv`. */
  function PrefixRow(t: Tables, seen: set<Net>, line: PrefixLine, fails: bool): Outcome {
    if line.cidr.None? then Failed(EmptyCidr)
    else if line.cidr.value.Parse().None? then Failed(BadCidr)
    else
      var net := line.cidr.value.Parse().value;
      if net in seen then Failed(DuplicateInFile)
      else
        var agg := LineChecked(t, net, line);
        if agg.Err? then Failed(agg.error)
        else if line.isPool.Unreadable? || line.markUtilized.Unreadable? then Failed(BadBoolean)
        else if fails then Failed(Rejected(DatabaseError))
        else
          var k := PrefixByNet(t.prefixes, net);
          if k.Some? then
            Updated(t.(prefixes := t.prefixes[k.value := FillPrefix(t.prefixes[k.value], line, agg.value)]))
          else
            Imported(Saved(t, t.aggregates, t.prefixes, [], [NewPrefix(net, line, agg.value)]))
  }

  function PrefixStep(s: Progress, line: PrefixLine, broken: set<int>): Progress {
    Count(s, line.num, NetOf(line.cidr), PrefixRow(s.tables, s.seen, line, line.num in broken))
  }

  function PrefixesImported(t: Tables, lines: seq<PrefixLine>, broken: set<int>): Progress {
    if lines == [] then Start(t)
    else
      var n := |lines| - 1;
      PrefixStep(PrefixesImported(t, lines[..n], broken), lines[n], broken)
  }

  method ImportPrefixesCsv(db: Session, lines: seq<PrefixLine>, broken: set<int>)
    returns (imported: nat, updated: nat, failed: nat, errors: seq<RowError>)
    requires db.Clean()
    modifies db
    ensures db.Clean()
    ensures exists seen ::
              PrefixesImported(old(db.stored), lines, broken)
                == Progress(db.stored, seen, imported, updated, failed, errors)
  {
    imported, updated, failed, errors := 0, 0, 0, [];
    var seen: set<Net> := {};
    for n := 0 to |lines|
      invariant db.Clean()
      invariant PrefixesImported(old(db.stored), lines[..n], broken)
                == Progress(db.stored, seen, imported, updated, failed, errors)
    {
      assert lines[..n + 1][..n] == lines[..n];
      var line := lines[n];
      if line.cidr.None? {
        failed, errors := failed + 1, errors + [RowError(line.num, EmptyCidr)];
        continue;
      }
      if line.cidr.value.Parse().None? {
        db.Rollback();
        failed, errors := failed + 1, errors + [RowError(line.num, BadCidr)];
        continue;
      }
      var net := line.cidr.value.Parse().value;
      if net in seen {
        assert seen + {net} == seen;
        failed, errors := failed + 1, errors + [RowError(line.num, DuplicateInFile)];
        continue;
      }
      var outcome := ImportPrefixRow(db, net, line, line.num in broken, seen);
      seen := seen + {net};
      match outcome {
        case Imported(_) => imported := imported + 1;
        case Updated(_) => updated := updated + 1;
        case Failed(reason) =>
          failed, errors := failed + 1, errors + [RowError(line.num, reason)];
      }
    }
    assert lines[..|lines|] == lines;
  }

  /** The loop body after the row's network is marked as seen. An existing row is changed
      field by field; an unreadable boolean stops it halfway and the rollback undoes it. */
  method ImportPrefixRow(db: Session, net: Net, line: PrefixLine, fails: bool, ghost seen: set<Net>)
    returns (o: Outcome)
    requires db.Clean() && NetOf(line.cidr) == Some(net) && net !in seen
    modifies db
    ensures db.Clean() && o == PrefixRow(old(db.stored), seen, line, fails)
    ensures db.stored == if o.Failed? then old(db.stored) else o.tables
  {
    hide WellFormed;
    var agg := LineChecked(db.stored, net, line);
    if agg.Err? {
      db.Rollback();
      return Failed(agg.error);
    }
    var k := PrefixByNet(db.prefixes, net);
    var ok: bool;
    assert db.aggregates + [] == db.aggregates && db.prefixes + [] == db.prefixes;
    if k.Some? {
      var i := k.value;
      var row := db.prefixes[i].(status := line.status.value);
      row := row.(description := Keep(line.description, row.description));
      db.prefixes := db.prefixes[i := row];
      if line.isPool.Unreadable? {
        db.Rollback();
        return Failed(BadBoolean);
      }
      row := row.(isPool := if line.isPool.Read? then line.isPool.value else row.isPool);
      db.prefixes := db.prefixes[i := row];
      if line.markUtilized.Unreadable? {
        db.Rollback();
        return Failed(BadBoolean);
      }
      row := row.(markUtilized := if line.markUtilized.Read? then line.markUtilized.value else row.markUtilized);
      row := row.(vlanId := if line.vlan.Read? then Some(line.vlan.value) else row.vlanId);
      row := row.(location := Keep(line.location, row.location));
      row := row.(aggregateId := agg.value);
      db.prefixes := db.prefixes[i := row];
      assert db.prefixes == old(db.prefixes)[i := FillPrefix(old(db.prefixes)[i], line, agg.value)];
      assert db.prefixes + [] == db.prefixes;
      ok := db.Commit(fails);
      if ok { return Updated(db.stored); }
    } else {
      if line.isPool.Unreadable? || line.markUtilized.Unreadable? {
        db.Rollback();
        return Failed(BadBoolean);
      }
      db.newPrefixes := db.newPrefixes + [NewPrefix(net, line, agg.value)];
      ok := db.Commit(fails);
      if ok { return Imported(db.stored); }
    }
    db.Rollback();
    o := Failed(Rejected(DatabaseError));
  }
}
