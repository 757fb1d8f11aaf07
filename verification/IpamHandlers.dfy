/** The aggregate and prefix request handlers of ipam_router.py. Each handler is a method on
    a session; the function of the same stem gives the tables it leaves behind or the error
    it raises. Text fields arrive trimmed, with blank text as None. */
module IpamHandlers {
  import opened Wrappers
  import opened IpamTables

  /** An update leaves a field alone when it is None. */
  datatype AggregatePatch = AggregatePatch(
    prefix: Option<CidrText>, rir: Option<Option<string>>, dateAdded: Option<int>, description: Option<Option<string>>)

  datatype PrefixPatch = PrefixPatch(
    prefix: Option<CidrText>, status: Option<string>, description: Option<Option<string>>, isPool: Option<bool>,
    markUtilized: Option<bool>, vlanId: Option<int>, location: Option<Option<string>>, aggregateId: Option<nat>)

  function PatchAggregate(a: Aggregate, p: AggregatePatch): Aggregate {
    a.(prefix := Or(p.prefix, a.prefix),
       rir := Or(p.rir, a.rir),
       dateAdded := if p.dateAdded.Some? then p.dateAdded else a.dateAdded,
       description := Or(p.description, a.description))
  }

  function PatchPrefix(r: Prefix, p: PrefixPatch): Prefix {
    r.(prefix := Or(p.prefix, r.prefix),
       status := Or(p.status, r.status),
       description := Or(p.description, r.description),
       isPool := Or(p.isPool, r.isPool),
       markUtilized := Or(p.markUtilized, r.markUtilized),
       vlanId := if p.vlanId.Some? then p.vlanId else r.vlanId,
       location := Or(p.location, r.location),
       aggregateId := if p.aggregateId.Some? then p.aggregateId else r.aggregateId)
  }

  // ---------- create_aggregate ----------

  function AggregateCreated(t: Tables, row: Aggregate): Result<Tables, IpamError> {
    if row.prefix.Parse().None? then Err(InvalidCidr)
    else if OverlapsExisting(t.aggregates, row.prefix.Parse(), None) then Err(OverlapsAggregate)
    else Ok(Saved(t, t.aggregates, t.prefixes, [row], []))
  }

  method CreateAggregate(db: Session, row: Aggregate) returns (r: Result<Tables, IpamError>)
    requires db.Clean()
    modifies db
    ensures db.Clean() && r == AggregateCreated(old(db.stored), row)
    ensures db.stored == if r.Ok? then r.value else old(db.stored)
  {
    if row.prefix.Parse().None? { return Err(InvalidCidr); }
    if OverlapsExisting(db.aggregates, row.prefix.Parse(), None) { return Err(OverlapsAggregate); }
    NewTextUnique(db.aggregates, row.(id := db.stored.nextAggregate));
    assert NumberAggregates([row], db.stored.nextAggregate) == [row.(id := db.stored.nextAggregate)];
    db.newAggregates := db.newAggregates + [row];
    var ok := db.Commit(false);
    r := Ok(db.stored);
  }

  // ---------- update_aggregate ----------

  function AggregateUpdated(t: Tables, id: nat, p: AggregatePatch): Result<Tables, IpamError> {
    var k := AggregateIndex(t.aggregates, id);
    if k.None? then Err(NotFound)
    else if p.prefix.Some? && p.prefix.value.Parse().None? then Err(InvalidCidr)
    else if p.prefix.Some? && OverlapsExisting(t.aggregates, p.prefix.value.Parse(), Some(id)) then
      Err(OverlapsAggregate)
    else
      var rows := t.aggregates[k.value := PatchAggregate(t.aggregates[k.value], p)];
      if !TextsUnique(rows) then Err(DatabaseError)
      else Ok(t.(aggregates := rows))
  }

  method UpdateAggregate(db: Session, id: nat, p: AggregatePatch) returns (r: Result<Tables, IpamError>)
    requires db.Clean()
    modifies db
    ensures db.Clean() && r == AggregateUpdated(old(db.stored), id, p)
    ensures db.stored == if r.Ok? then r.value else old(db.stored)
  {
    var k := AggregateIndex(db.aggregates, id);
    if k.None? { return Err(NotFound); }
    var i := k.value;
    if p.prefix.Some? {
      if p.prefix.value.Parse().None? { return Err(InvalidCidr); }
      if OverlapsExisting(db.aggregates, p.prefix.value.Parse(), Some(id)) { return Err(OverlapsAggregate); }
      db.aggregates := db.aggregates[i := db.aggregates[i].(prefix := p.prefix.value)];
    }
    var row := db.aggregates[i];
    row := row.(rir := Or(p.rir, row.rir));
    row := row.(dateAdded := if p.dateAdded.Some? then p.dateAdded else row.dateAdded);
    row := row.(description := Or(p.description, row.description));
    db.aggregates := db.aggregates[i := row];
    assert db.aggregates == old(db.aggregates)[i := PatchAggregate(old(db.aggregates)[i], p)];
    assert db.aggregates + [] == db.aggregates && db.prefixes + [] == db.prefixes;
    var ok := db.Commit(false);
    if !ok {
      db.Rollback();
      return Err(DatabaseError);
    }
    r := Ok(db.stored);
  }

  // ---------- delete_aggregate ----------

  function AggregateDeleted(t: Tables, id: nat): Result<Tables, IpamError> {
    if AggregateIndex(t.aggregates, id).None? then Err(NotFound)
    else Ok(t.(aggregates := WithoutAggregate(t.aggregates, id), prefixes := Unlinked(t.prefixes, id)))
  }

  method DeleteAggregate(db: Session, id: nat) returns (r: Result<Tables, IpamError>)
    requires db.Clean()
    modifies db
    ensures db.Clean() && r == AggregateDeleted(old(db.stored), id)
    ensures db.stored == if r.Ok? then r.value else old(db.stored)
  {
    if AggregateIndex(db.aggregates, id).None? { return Err(NotFound); }
    WithoutKeepsUnique(db.aggregates, id);
    db.aggregates := WithoutAggregate(db.aggregates, id);
    db.prefixes := Unlinked(db.prefixes, id);
    assert db.aggregates + [] == db.aggregates && db.prefixes + [] == db.prefixes;
    var ok := db.Commit(false);
    r := Ok(db.stored);
  }

  lemma {:induction false} WithoutMembers(rows: seq<Aggregate>, id: nat)
    ensures forall a :: a in WithoutAggregate(rows, id) <==> a in rows && a.id != id
  {
    if rows != [] {
      WithoutMembers(rows[1..], id);
      assert forall a :: a in rows <==> a == rows[0] || a in rows[1..];
    }
  }

  lemma {:induction false} WithoutKeepsUnique(rows: seq<Aggregate>, id: nat)
    requires TextsUnique(rows)
    ensures TextsUnique(WithoutAggregate(rows, id))
  {
    if rows != [] {
      var tail := WithoutAggregate(rows[1..], id);
      WithoutKeepsUnique(rows[1..], id);
      WithoutMembers(rows[1..], id);
      forall j | 0 <= j < |tail| ensures tail[j].prefix != rows[0].prefix {
        assert tail[j] in rows[1..];
      }
    }
  }

  // ---------- create_prefix, update_prefix, delete_prefix ----------

  function PrefixCreated(t: Tables, row: Prefix): Result<Tables, IpamError> {
    if row.prefix.Parse().None? then Err(InvalidCidr)
    else
      var bad := CheckInAggregate(t.aggregates, row.prefix.Parse(), row.aggregateId);
      if bad.Some? then Err(bad.value)
      else Ok(Saved(t, t.aggregates, t.prefixes, [], [row]))
  }

  method CreatePrefix(db: Session, row: Prefix) returns (r: Result<Tables, IpamError>)
    requires db.Clean()
    modifies db
    ensures db.Clean() && r == PrefixCreated(old(db.stored), row)
    ensures db.stored == if r.Ok? then r.value else old(db.stored)
  {
    if row.prefix.Parse().None? { return Err(InvalidCidr); }
    var bad := CheckInAggregate(db.aggregates, row.prefix.Parse(), row.aggregateId);
    if bad.Some? { return Err(bad.value); }
    db.newPrefixes := db.newPrefixes + [row];
    assert db.aggregates + [] == db.aggregates;
    var ok := db.Commit(false);
    r := Ok(db.stored);
  }

  function PrefixUpdated(t: Tables, id: nat, p: PrefixPatch): Result<Tables, IpamError> {
    var k := PrefixIndex(t.prefixes, id);
    if k.None? then Err(NotFound)
    else if p.prefix.Some? && p.prefix.value.Parse().None? then Err(InvalidCidr)
    else
      var next := PatchPrefix(t.prefixes[k.value], p);
      var bad := if p.prefix.Some? || p.aggregateId.Some?
                 then CheckInAggregate(t.aggregates, next.prefix.Parse(), next.aggregateId) else None;
      if bad.Some? then Err(bad.value)
      else Ok(t.(prefixes := t.prefixes[k.value := next]))
  }

  /** The attribute assignments of `update_prefix` after the aggregate check. */
  method AssignPrefixFields(db: Session, i: nat, p: PrefixPatch)
    requires i < |db.prefixes|
    modifies db`prefixes
    ensures db.prefixes == old(db.prefixes)[i := PatchPrefix(old(db.prefixes)[i], p.(prefix := None))]
  {
    var row := db.prefixes[i];
    row := row.(status := Or(p.status, row.status));
    row := row.(description := Or(p.description, row.description));
    row := row.(isPool := Or(p.isPool, row.isPool));
    row := row.(markUtilized := Or(p.markUtilized, row.markUtilized));
    row := row.(vlanId := if p.vlanId.Some? then p.vlanId else row.vlanId);
    row := row.(location := Or(p.location, row.location));
    row := row.(aggregateId := if p.aggregateId.Some? then p.aggregateId else row.aggregateId);
    db.prefixes := db.prefixes[i := row];
  }

  /** The row already carries the new text when the aggregate check fails; only closing the
      session discards it. */
  method UpdatePrefix(db: Session, id: nat, p: PrefixPatch) returns (r: Result<Tables, IpamError>)
    requires db.Clean()
    modifies db
    ensures db.Clean() && r == PrefixUpdated(old(db.stored), id, p)
    ensures db.stored == if r.Ok? then r.value else old(db.stored)
  {
    var k := PrefixIndex(db.prefixes, id);
    if k.None? { return Err(NotFound); }
    var i := k.value;
    ghost var row := db.prefixes[i];
    if p.prefix.Some? {
      if p.prefix.value.Parse().None? { return Err(InvalidCidr); }
      db.prefixes := db.prefixes[i := db.prefixes[i].(prefix := p.prefix.value)];
    }
    var aggId := if p.aggregateId.Some? then p.aggregateId else db.prefixes[i].aggregateId;
    if p.prefix.Some? || p.aggregateId.Some? {
      var bad := CheckInAggregate(db.aggregates, db.prefixes[i].prefix.Parse(), aggId);
      if bad.Some? {
        db.Rollback();
        return Err(bad.value);
      }
    }
    AssignPrefixFields(db, i, p);
    assert db.prefixes == old(db.prefixes)[i := PatchPrefix(row, p)];
    assert db.aggregates + [] == db.aggregates && db.prefixes + [] == db.prefixes;
    var ok := db.Commit(false);
    r := Ok(db.stored);
  }

  function PrefixDeleted(t: Tables, id: nat): Result<Tables, IpamError> {
    if PrefixIndex(t.prefixes, id).None? then Err(NotFound)
    else Ok(t.(prefixes := WithoutPrefix(t.prefixes, id)))
  }

  method DeletePrefix(db: Session, id: nat) returns (r: Result<Tables, IpamError>)
    requires db.Clean()
    modifies db
    ensures db.Clean() && r == PrefixDeleted(old(db.stored), id)
    ensures db.stored == if r.Ok? then r.value else old(db.stored)
  {
    if PrefixIndex(db.prefixes, id).None? { return Err(NotFound); }
    db.prefixes := WithoutPrefix(db.prefixes, id);
    assert db.aggregates + [] == db.aggregates && db.prefixes + [] == db.prefixes;
    var ok := db.Commit(false);
    r := Ok(db.stored);
  }
}
