/** The NetBox import of ipam_router.py and `apply_phpipam_subnets_to_db`. After their field
    conversions both walk the same two loops, so one merge models them. */
module ExternalMerge {
  import opened Wrappers
  import opened Cidr
  import opened IpamTables
  import LongestMatch

  /** Converted items; phpIPAM leaves `rir`, `dateAdded`, `isPool` and `markUtilized` None. */
  datatype AggregateItem = AggregateItem(
    prefix: CidrText, rir: Option<string>, dateAdded: Option<int>, description: Option<string>)

  datatype PrefixItem = PrefixItem(
    prefix: CidrText, status: string, description: Option<string>, isPool: Option<bool>,
    markUtilized: Option<bool>, vlanId: Option<int>, location: Option<string>)

  /** `filter(prefix == p).first()` compares the stored text. */
  function AggregateByText(rows: seq<Aggregate>, text: CidrText): (k: Option<nat>)
    ensures k.Some? ==> k.value < |rows| && rows[k.value].prefix == text
    ensures k.Some? ==> forall j :: 0 <= j < k.value ==> rows[j].prefix != text
    ensures k.None? ==> forall j :: 0 <= j < |rows| ==> rows[j].prefix != text
  {
    FirstIndex(rows, (a: Aggregate) => a.prefix == text)
  }

  function PrefixByText(rows: seq<Prefix>, text: CidrText): (k: Option<nat>)
    ensures k.Some? ==> k.value < |rows| && rows[k.value].prefix == text
    ensures k.Some? ==> forall j :: 0 <= j < k.value ==> rows[j].prefix != text
    ensures k.None? ==> forall j :: 0 <= j < |rows| ==> rows[j].prefix != text
  {
    FirstIndex(rows, (p: Prefix) => p.prefix == text)
  }

  /** Loaded rows, unsaved new rows, and the created and updated counts of one loop. */
  datatype Pending<R> = Pending(rows: seq<R>, added: seq<R>, created: nat, updated: nat)

  function AggregateMerged(s: Pending<Aggregate>, item: AggregateItem): Pending<Aggregate> {
    if item.prefix.Parse().None? then s
    else
      var k := AggregateByText(s.rows, item.prefix);
      if k.Some? then
        var row := s.rows[k.value];
        s.(rows := s.rows[k.value := row.(rir := Keep(item.rir, row.rir),
                                          dateAdded := Keep(item.dateAdded, row.dateAdded),
                                          description := Keep(item.description, row.description))],
           updated := s.updated + 1)
      else
        s.(added := s.added + [Aggregate(0, item.prefix, item.rir, item.dateAdded, item.description)],
           created := s.created + 1)
  }

  function AggregatesMerged(rows: seq<Aggregate>, items: seq<AggregateItem>): Pending<Aggregate> {
    if items == [] then Pending(rows, [], 0, 0)
    else AggregateMerged(AggregatesMerged(rows, items[..|items| - 1]), items[|items| - 1])
  }

  function PrefixMerged(aggregates: seq<Aggregate>, s: Pending<Prefix>, item: PrefixItem): Pending<Prefix> {
    if item.prefix.Parse().None? then s
    else
      var aggId := LongestMatch.Resolve(Candidates(aggregates), item.prefix.Parse());
      var k := PrefixByText(s.rows, item.prefix);
      if k.Some? then
        var row := s.rows[k.value];
        s.(rows := s.rows[k.value := row.(status := item.status,
                                          description := Keep(item.description, row.description),
                                          isPool := if item.isPool.Some? then item.isPool.value else row.isPool,
                                          markUtilized := if item.markUtilized.Some? then item.markUtilized.value
                                                          else row.markUtilized,
                                          vlanId := Keep(item.vlanId, row.vlanId),
                                          location := Keep(item.location, row.location),
                                          aggregateId := Keep(aggId, row.aggregateId))],
           updated := s.updated + 1)
      else
        s.(added := s.added + [Prefix(0, item.prefix, item.status, item.description,
                                      item.isPool == Some(true), item.markUtilized == Some(true),
                                      item.vlanId, item.location, aggId)],
           created := s.created + 1)
  }

  function PrefixesMerged(aggregates: seq<Aggregate>, rows: seq<Prefix>, items: seq<PrefixItem>): Pending<Prefix> {
    if items == [] then Pending(rows, [], 0, 0)
    else PrefixMerged(aggregates, PrefixesMerged(aggregates, rows, items[..|items| - 1]), items[|items| - 1])
  }

  datatype Merged = Merged(tables: Tables, aggCreated: nat, aggUpdated: nat, prefCreated: nat, prefUpdated: nat)

  /** The tables after the first commit. */
  function AggregatesSaved(t: Tables, aggItems: seq<AggregateItem>): Tables {
    var a := AggregatesMerged(t.aggregates, aggItems);
    Saved(t, a.rows, t.prefixes, a.added, [])
  }

  function Merge(t: Tables, aggItems: seq<AggregateItem>, prefItems: seq<PrefixItem>): Result<Merged, IpamError> {
    var a := AggregatesMerged(t.aggregates, aggItems);
    var t1 := AggregatesSaved(t, aggItems);
    if !TextsUnique(t1.aggregates) then Err(DatabaseError)
    else
      var p := PrefixesMerged(t1.aggregates, t1.prefixes, prefItems);
      Ok(Merged(Saved(t1, t1.aggregates, p.rows, [], p.added), a.created, a.updated, p.created, p.updated))
  }

  /** The commit the database refuses for a reason of its own (a text too long, a lost connection). */
  datatype Refusal = NoRefusal | AtAggregates | AtPrefixes

  /** What a merge leaves stored: a refused second commit keeps the aggregates of the first. */
  function MergeStored(t: Tables, aggItems: seq<AggregateItem>, prefItems: seq<PrefixItem>, refusal: Refusal): Tables {
    var r := Merge(t, aggItems, prefItems);
    if r.Err? || refusal.AtAggregates? then t
    else if refusal.AtPrefixes? then AggregatesSaved(t, aggItems)
    else r.value.tables
  }

  method MergeAggregates(db: Session, items: seq<AggregateItem>) returns (created: nat, updated: nat)
    requires db.Clean()
    modifies db`aggregates, db`newAggregates
    ensures Pending(db.aggregates, db.newAggregates, created, updated) == AggregatesMerged(old(db.aggregates), items)
  {
    hide WellFormed;
    created, updated := 0, 0;
    for n := 0 to |items|
      invariant Pending(db.aggregates, db.newAggregates, created, updated)
                == AggregatesMerged(old(db.aggregates), items[..n])
    {
      assert items[..n + 1][..n] == items[..n];
      var item := items[n];
      if item.prefix.Parse().None? { continue; }
      var k := AggregateByText(db.aggregates, item.prefix);
      if k.Some? {
        var row := db.aggregates[k.value];
        row := row.(rir := Keep(item.rir, row.rir));
        row := row.(description := Keep(item.description, row.description));
        row := row.(dateAdded := Keep(item.dateAdded, row.dateAdded));
        db.aggregates := db.aggregates[k.value := row];
        updated := updated + 1;
      } else {
        db.newAggregates := db.newAggregates + [Aggregate(0, item.prefix, item.rir, item.dateAdded, item.description)];
        created := created + 1;
      }
    }
    assert items[..|items|] == items;
  }

  method MergePrefixes(db: Session, items: seq<PrefixItem>) returns (created: nat, updated: nat)
    requires db.Clean()
    modifies db`prefixes, db`newPrefixes
    ensures Pending(db.prefixes, db.newPrefixes, created, updated)
            == PrefixesMerged(db.aggregates, old(db.prefixes), items)
  {
    hide WellFormed, LongestMatch.Resolve, LongestMatch.IsLongestMatch;
    created, updated := 0, 0;
    for n := 0 to |items|
      invariant Pending(db.prefixes, db.newPrefixes, created, updated)
                == PrefixesMerged(db.aggregates, old(db.prefixes), items[..n])
    {
      assert items[..n + 1][..n] == items[..n];
      var item := items[n];
      if item.prefix.Parse().None? { continue; }
      var aggId := LongestMatch.ResolveAggregateId(Candidates(db.aggregates), item.prefix.Parse());
      var k := PrefixByText(db.prefixes, item.prefix);
      if k.Some? {
        var row := db.prefixes[k.value].(status := item.status);
        row := row.(description := Keep(item.description, row.description));
        row := row.(isPool := if item.isPool.Some? then item.isPool.value else row.isPool);
        row := row.(markUtilized := if item.markUtilized.Some? then item.markUtilized.value else row.markUtilized);
        row := row.(vlanId := Keep(item.vlanId, row.vlanId));
        row := row.(location := Keep(item.location, row.location));
        row := row.(aggregateId := Keep(aggId, row.aggregateId));
        db.prefixes := db.prefixes[k.value := row];
        updated := updated + 1;
      } else {
        db.newPrefixes := db.newPrefixes +
          [Prefix(0, item.prefix, item.status, item.description, item.isPool == Some(true),
                  item.markUtilized == Some(true), item.vlanId, item.location, aggId)];
        created := created + 1;
      }
    }
    assert items[..|items|] == items;
  }

  /** The two loops, each followed by a commit. A first commit that the database or the unique
      constraint refuses ends the import with nothing stored; a refused second one keeps the
      aggregates. */
  method MergeExternal(db: Session, aggItems: seq<AggregateItem>, prefItems: seq<PrefixItem>, refusal: Refusal)
    returns (r: Result<Merged, IpamError>)
    requires db.Clean()
    modifies db
    ensures db.Clean() && db.stored == MergeStored(old(db.stored), aggItems, prefItems, refusal)
    ensures r == if refusal.NoRefusal? then Merge(old(db.stored), aggItems, prefItems) else Err(DatabaseError)
  {
    var aggCreated, aggUpdated := MergeAggregates(db, aggItems);
    assert db.prefixes + [] == db.prefixes;
    var ok := db.Commit(refusal.AtAggregates?);
    if !ok {
      db.Rollback();
      return Err(DatabaseError);
    }
    var prefCreated, prefUpdated := MergePrefixes(db, prefItems);
    assert db.aggregates + [] == db.aggregates;
    ok := db.Commit(refusal.AtPrefixes?);
    if !ok {
      db.Rollback();
      return Err(DatabaseError);
    }
    r := Ok(Merged(db.stored, aggCreated, aggUpdated, prefCreated, prefUpdated));
  }
}
