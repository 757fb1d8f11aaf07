/** The two IPAM tables, the checks in ipam_validators.py, and a database session with
    committed rows, unsaved attribute changes and unsaved new rows (autoflush is off, so
    queries never see the new rows). */
module IpamTables {
  import opened Wrappers
  import opened Cidr
  import LongestMatch

  /** A CIDR column. `Canonical` is the text `str(ip_network(...))`; any other spelling
      carries the network that `ip_network(text, strict=False)` reads, if it reads one. */
  datatype CidrText = Canonical(net: Net) | Spelled(text: string, value: Option<Net>) {
    function Parse(): Option<Net> {
      if Canonical? then Some(net) else value
    }
  }

  datatype Aggregate = Aggregate(
    id: nat, prefix: CidrText, rir: Option<string>, dateAdded: Option<int>, description: Option<string>)

  datatype Prefix = Prefix(
    id: nat, prefix: CidrText, status: string, description: Option<string>, isPool: bool,
    markUtilized: bool, vlanId: Option<int>, location: Option<string>, aggregateId: Option<nat>)

  datatype Tables = Tables(
    aggregates: seq<Aggregate>, prefixes: seq<Prefix>, nextAggregate: nat, nextPrefix: nat)

  datatype IpamError =
    | NotFound
    | InvalidCidr
    | OverlapsAggregate
    | AggregateMissing
    | OutsideAggregate
    | DatabaseError

  // ---------- queries ----------

  /** `query(...).filter(p).first()` in row order. */
  function FirstIndex<R>(rows: seq<R>, p: R -> bool): (k: Option<nat>)
    ensures k.Some? ==> k.value < |rows| && p(rows[k.value])
    ensures k.Some? ==> forall j :: 0 <= j < k.value ==> !p(rows[j])
    ensures k.None? ==> forall j :: 0 <= j < |rows| ==> !p(rows[j])
  {
    if rows == [] then None
    else if p(rows[0]) then Some(0)
    else
      var k := FirstIndex(rows[1..], p);
      if k.None? then None else Some(k.value + 1)
  }

  function AggregateIndex(rows: seq<Aggregate>, id: nat): (k: Option<nat>)
    ensures k.Some? ==> k.value < |rows| && rows[k.value].id == id
    ensures k.Some? ==> forall j :: 0 <= j < k.value ==> rows[j].id != id
    ensures k.None? ==> forall j :: 0 <= j < |rows| ==> rows[j].id != id
  {
    FirstIndex(rows, (a: Aggregate) => a.id == id)
  }

  function PrefixIndex(rows: seq<Prefix>, id: nat): (k: Option<nat>)
    ensures k.Some? ==> k.value < |rows| && rows[k.value].id == id
    ensures k.None? ==> forall j :: 0 <= j < |rows| ==> rows[j].id != id
  {
    FirstIndex(rows, (p: Prefix) => p.id == id)
  }

  /** `_find_aggregate_by_normalized`: the first row that denotes `net`. */
  function AggregateByNet(rows: seq<Aggregate>, net: Net): (k: Option<nat>)
    ensures k.Some? ==> k.value < |rows| && rows[k.value].prefix.Parse() == Some(net)
    ensures k.Some? ==> forall j :: 0 <= j < k.value ==> rows[j].prefix.Parse() != Some(net)
    ensures k.None? ==> forall j :: 0 <= j < |rows| ==> rows[j].prefix.Parse() != Some(net)
  {
    FirstIndex(rows, (a: Aggregate) => a.prefix.Parse() == Some(net))
  }

  /** `_find_prefix_by_normalized`. */
  function PrefixByNet(rows: seq<Prefix>, net: Net): (k: Option<nat>)
    ensures k.Some? ==> k.value < |rows| && rows[k.value].prefix.Parse() == Some(net)
    ensures k.Some? ==> forall j :: 0 <= j < k.value ==> rows[j].prefix.Parse() != Some(net)
    ensures k.None? ==> forall j :: 0 <= j < |rows| ==> rows[j].prefix.Parse() != Some(net)
  {
    FirstIndex(rows, (p: Prefix) => p.prefix.Parse() == Some(net))
  }

  // ---------- ipam_validators.py ----------

  predicate Clash(row: Aggregate, net: Net) {
    row.prefix.Parse().Some? && Overlaps(net, row.prefix.Parse().value)
  }

  /** `ipam_aggregate_overlaps_existing`; an unreadable text counts as overlapping. */
  predicate OverlapsExisting(rows: seq<Aggregate>, net: Option<Net>, exclude: Option<nat>) {
    net.None? || exists i :: 0 <= i < |rows| && exclude != Some(rows[i].id) && Clash(rows[i], net.value)
  }

  /** `check_prefix_in_aggregate`; None means accepted. */
  function CheckInAggregate(rows: seq<Aggregate>, prefix: Option<Net>, aggregateId: Option<nat>): Option<IpamError> {
    if aggregateId.None? then None
    else
      var k := AggregateIndex(rows, aggregateId.value);
      if k.None? then Some(AggregateMissing)
      else
        var agg := rows[k.value].prefix.Parse();
        if prefix.None? || agg.None? then Some(InvalidCidr)
        else if !SubnetOf(prefix.value, agg.value) then Some(OutsideAggregate)
        else None
  }

  function Candidates(rows: seq<Aggregate>): (c: seq<LongestMatch.Candidate>)
    ensures |c| == |rows|
    ensures forall i :: 0 <= i < |rows| ==> c[i] == LongestMatch.Candidate(rows[i].id, rows[i].prefix.Parse())
  {
    if rows == [] then []
    else [LongestMatch.Candidate(rows[0].id, rows[0].prefix.Parse())] + Candidates(rows[1..])
  }

  // ---------- saving ----------

  function NumberAggregates(rows: seq<Aggregate>, next: nat): (r: seq<Aggregate>)
    ensures |r| == |rows|
    ensures forall i :: 0 <= i < |rows| ==> r[i] == rows[i].(id := next + i)
  {
    if rows == [] then [] else [rows[0].(id := next)] + NumberAggregates(rows[1..], next + 1)
  }

  function NumberPrefixes(rows: seq<Prefix>, next: nat): (r: seq<Prefix>)
    ensures |r| == |rows|
    ensures forall i :: 0 <= i < |rows| ==> r[i] == rows[i].(id := next + i)
  {
    if rows == [] then [] else [rows[0].(id := next)] + NumberPrefixes(rows[1..], next + 1)
  }

  /** The tables after a commit of the changed rows and the new ones. */
  function Saved(t: Tables, aggregates: seq<Aggregate>, prefixes: seq<Prefix>,
                 newAggregates: seq<Aggregate>, newPrefixes: seq<Prefix>): Tables
  {
    Tables(aggregates + NumberAggregates(newAggregates, t.nextAggregate),
           prefixes + NumberPrefixes(newPrefixes, t.nextPrefix),
           t.nextAggregate + |newAggregates|, t.nextPrefix + |newPrefixes|)
  }

  /** The UNIQUE constraint on the aggregate's prefix column. */
  predicate TextsUnique(rows: seq<Aggregate>) {
    forall i, j :: 0 <= i < j < |rows| ==> rows[i].prefix != rows[j].prefix
  }

  lemma NewTextUnique(rows: seq<Aggregate>, a: Aggregate)
    requires TextsUnique(rows) && !OverlapsExisting(rows, a.prefix.Parse(), None)
    ensures TextsUnique(rows + [a])
  {
    forall i | 0 <= i < |rows| ensures rows[i].prefix != a.prefix {
      assert !Clash(rows[i], a.prefix.Parse().value);
    }
  }

  // ---------- foreign key ON DELETE SET NULL ----------

  function WithoutAggregate(rows: seq<Aggregate>, id: nat): seq<Aggregate> {
    if rows == [] then []
    else (if rows[0].id == id then [] else [rows[0]]) + WithoutAggregate(rows[1..], id)
  }

  function Unlinked(rows: seq<Prefix>, id: nat): (r: seq<Prefix>)
    ensures |r| == |rows|
    ensures forall i :: 0 <= i < |rows| ==>
                          r[i] == if rows[i].aggregateId == Some(id) then rows[i].(aggregateId := None) else rows[i]
  {
    if rows == [] then []
    else [if rows[0].aggregateId == Some(id) then rows[0].(aggregateId := None) else rows[0]] + Unlinked(rows[1..], id)
  }

  function WithoutPrefix(rows: seq<Prefix>, id: nat): seq<Prefix> {
    if rows == [] then []
    else (if rows[0].id == id then [] else [rows[0]]) + WithoutPrefix(rows[1..], id)
  }

  // ---------- the session ----------

  class Session {
    var stored: Tables
    var aggregates: seq<Aggregate>
    var prefixes: seq<Prefix>
    var newAggregates: seq<Aggregate>
    var newPrefixes: seq<Prefix>

    ghost predicate Clean()
      reads this
    {
      && TextsUnique(stored.aggregates)
      && aggregates == stored.aggregates && prefixes == stored.prefixes
      && newAggregates == [] && newPrefixes == []
    }

    constructor (t: Tables)
      requires TextsUnique(t.aggregates)
      ensures Clean() && stored == t
    {
      stored := t;
      aggregates, prefixes := t.aggregates, t.prefixes;
      newAggregates, newPrefixes := [], [];
    }

    /** `commit` raises when the database does (`fails`) or when the unique constraint is
        broken; nothing is stored then. */
    method Commit(fails: bool) returns (ok: bool)
      modifies this
      ensures ok == (!fails && TextsUnique(old(aggregates + NumberAggregates(newAggregates, stored.nextAggregate))))
      ensures ok ==> Clean() && stored == old(Saved(stored, aggregates, prefixes, newAggregates, newPrefixes))
      ensures !ok ==> unchanged(this)
    {
      var next := Saved(stored, aggregates, prefixes, newAggregates, newPrefixes);
      ok := !fails && TextsUnique(next.aggregates);
      if ok {
        stored := next;
        aggregates, prefixes := next.aggregates, next.prefixes;
        newAggregates, newPrefixes := [], [];
      }
    }

    /** `rollback`, and also what closing the session after an exception does. */
    method Rollback()
      requires TextsUnique(stored.aggregates)
      modifies this
      ensures Clean() && stored == old(stored)
    {
      aggregates, prefixes := stored.aggregates, stored.prefixes;
      newAggregates, newPrefixes := [], [];
    }
  }
}
