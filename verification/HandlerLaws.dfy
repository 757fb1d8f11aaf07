/** What each aggregate and prefix request answers and stores, column by column, told from the
    tables before it. */
module HandlerLaws {
  import opened Wrappers
  import opened Cidr
  import opened IpamTables
  import opened IpamHandlers

  /** Row `k` is the only aggregate with the id. */
  ghost predicate AggregateAt(rows: seq<Aggregate>, k: int, id: nat) {
    0 <= k < |rows| && rows[k].id == id && forall j :: 0 <= j < |rows| && j != k ==> rows[j].id != id
  }

  ghost predicate PrefixAt(rows: seq<Prefix>, k: int, id: nat) {
    0 <= k < |rows| && rows[k].id == id && forall j :: 0 <= j < |rows| && j != k ==> rows[j].id != id
  }

  /** Some aggregate, other than the excluded one, shares an address with the network. */
  ghost predicate OverlapsAnother(rows: seq<Aggregate>, net: Net, excluded: Option<nat>) {
    exists i, x :: 0 <= i < |rows| && excluded != Some(rows[i].id) && rows[i].prefix.Parse().Some? &&
                   Contains(rows[i].prefix.Parse().value, x) && Contains(net, x)
  }

  lemma {:induction false} OverlapMeansShared(rows: seq<Aggregate>, net: Net, excluded: Option<nat>)
    ensures OverlapsExisting(rows, Some(net), excluded) <==> OverlapsAnother(rows, net, excluded)
  {
    hide Aligned, Contains, Overlaps;
    if i :| 0 <= i < |rows| && excluded != Some(rows[i].id) && Clash(rows[i], net) {
      OverlapsIffShared(net, rows[i].prefix.Parse().value);
      var x :| Contains(net, x) && Contains(rows[i].prefix.Parse().value, x);
    }
    if OverlapsAnother(rows, net, excluded) {
      var i, x :| 0 <= i < |rows| && excluded != Some(rows[i].id) && rows[i].prefix.Parse().Some? &&
                  Contains(rows[i].prefix.Parse().value, x) && Contains(net, x);
      OverlapsIffShared(net, rows[i].prefix.Parse().value);
      assert Clash(rows[i], net);
    }
  }

  /** `create_aggregate`: refused when unreadable or when it shares an address with an aggregate; else
      the row is appended with a new id and nothing else changes. */
  lemma {:induction false} CreateAggregateLaw(t: Tables, row: Aggregate)
    ensures var r, net := AggregateCreated(t, row), row.prefix.Parse();
            if net.None? then r == Err(InvalidCidr)
            else if OverlapsAnother(t.aggregates, net.value, None) then r == Err(OverlapsAggregate)
            else var added := Aggregate(t.nextAggregate, row.prefix, row.rir, row.dateAdded, row.description);
                 r == Ok(Tables(t.aggregates + [added], t.prefixes, t.nextAggregate + 1, t.nextPrefix))
  {
    hide Aligned;
    if row.prefix.Parse().Some? {
      OverlapMeansShared(t.aggregates, row.prefix.Parse().value, None);
      hide OverlapsExisting, OverlapsAnother;
      assert NumberAggregates([row], t.nextAggregate)
          == [Aggregate(t.nextAggregate, row.prefix, row.rir, row.dateAdded, row.description)];
      assert t.prefixes + [] == t.prefixes;
    }
  }

  /** `update_aggregate`: exactly which error, and column by column what an accepted update stores. */
  lemma {:induction false} UpdateAggregateLaw(t: Tables, id: nat, p: AggregatePatch, k: int)
    requires TextsUnique(t.aggregates) && AggregateAt(t.aggregates, k, id)
    ensures var r := AggregateUpdated(t, id, p);
            if p.prefix.Some? && p.prefix.value.Parse().None? then r == Err(InvalidCidr)
            else if p.prefix.Some? && OverlapsAnother(t.aggregates, p.prefix.value.Parse().value, Some(id))
            then r == Err(OverlapsAggregate)
            else r.Ok? && AggregateUpdateStored(t, r.value, k, p)
  {
    hide Aligned;
    assert AggregateIndex(t.aggregates, id) == Some(k);
    if p.prefix.Some? && p.prefix.value.Parse().Some? {
      var net := p.prefix.value.Parse().value;
      OverlapMeansShared(t.aggregates, net, Some(id));
      if !OverlapsAnother(t.aggregates, net, Some(id)) {
        NewTextStaysUnique(t.aggregates, k, id, p.prefix.value, PatchAggregate(t.aggregates[k], p));
      }
    }
  }

  lemma {:induction false} NewTextStaysUnique(rows: seq<Aggregate>, k: int, id: nat, text: CidrText, row: Aggregate)
    requires TextsUnique(rows) && AggregateAt(rows, k, id) && text.Parse().Some? && row.prefix == text
    requires !OverlapsAnother(rows, text.Parse().value, Some(id))
    ensures TextsUnique(rows[k := row])
  {
    hide Aligned;
    var net := text.Parse().value;
    forall i | 0 <= i < |rows| && i != k ensures rows[i].prefix != text {
      assert rows[i].prefix == text ==> Contains(net, net.base);
    }
  }

  ghost predicate AggregateUpdateStored(t: Tables, t': Tables, k: int, p: AggregatePatch)
    requires 0 <= k < |t.aggregates|
  {
    && |t'.aggregates| == |t.aggregates| && t'.prefixes == t.prefixes
    && t'.nextAggregate == t.nextAggregate && t'.nextPrefix == t.nextPrefix
    && (forall j :: 0 <= j < |t.aggregates| && j != k ==> t'.aggregates[j] == t.aggregates[j])
    && var before, row := t.aggregates[k], t'.aggregates[k];
       && row.id == before.id
       && row.prefix == (if p.prefix.Some? then p.prefix.value else before.prefix)
       && row.rir == (if p.rir.Some? then p.rir.value else before.rir)
       && row.dateAdded == (if p.dateAdded.Some? then p.dateAdded else before.dateAdded)
       && row.description == (if p.description.Some? then p.description.value else before.description)
  }

  lemma {:induction false} UnknownAggregate(t: Tables, id: nat, p: AggregatePatch)
    requires forall j :: 0 <= j < |t.aggregates| ==> t.aggregates[j].id != id
    ensures AggregateUpdated(t, id, p) == Err(NotFound) && AggregateDeleted(t, id) == Err(NotFound)
  {
    hide WellFormed;
    var k := AggregateIndex(t.aggregates, id);
  }

  lemma {:induction false} WithoutAt(rows: seq<Aggregate>, id: nat, k: int)
    requires AggregateAt(rows, k, id)
    ensures WithoutAggregate(rows, id) == rows[..k] + rows[k + 1..]
    decreases |rows|
  {
    if k == 0 {
      WithoutNone(rows[1..], id);
      assert rows[..0] + rows[1..] == rows[1..];
    } else {
      WithoutAt(rows[1..], id, k - 1);
      assert rows[..k] + rows[k + 1..] == [rows[0]] + (rows[1..][..k - 1] + rows[1..][k..]);
    }
  }

  lemma {:induction false} WithoutNone(rows: seq<Aggregate>, id: nat)
    requires forall j :: 0 <= j < |rows| ==> rows[j].id != id
    ensures WithoutAggregate(rows, id) == rows
  {
    if rows != [] { WithoutNone(rows[1..], id); }
  }

  /** `delete_aggregate`: the row goes, its prefixes stay and lose their link, nothing else changes. */
  lemma {:induction false} DeleteAggregateLaw(t: Tables, id: nat, k: int)
    requires AggregateAt(t.aggregates, k, id)
    ensures var r := AggregateDeleted(t, id);
            && r.Ok? && r.value.aggregates == t.aggregates[..k] + t.aggregates[k + 1..]
            && r.value.nextAggregate == t.nextAggregate && r.value.nextPrefix == t.nextPrefix
            && |r.value.prefixes| == |t.prefixes|
            && forall i :: 0 <= i < |t.prefixes| ==>
                 r.value.prefixes[i] == if t.prefixes[i].aggregateId == Some(id)
                                        then t.prefixes[i].(aggregateId := None) else t.prefixes[i]
  {
    hide WellFormed, AggregateIndex;
    var found := AggregateIndex(t.aggregates, id);
    WithoutAt(t.aggregates, id, k);
  }

  // ---------- prefixes ----------

  /** What the aggregate check answers, told from the only row with the id, if there is one. */
  ghost predicate LinkChecked(rows: seq<Aggregate>, net: Option<Net>, link: Option<nat>, answer: Option<IpamError>) {
    if link.None? then answer == None
    else if forall j :: 0 <= j < |rows| ==> rows[j].id != link.value then answer == Some(AggregateMissing)
    else exists k :: 0 <= k < |rows| && rows[k].id == link.value &&
                     answer == (if net.None? || rows[k].prefix.Parse().None? then Some(InvalidCidr)
                                else if rows[k].prefix.Parse().value.base <= net.value.base &&
                                        Last(net.value) <= Last(rows[k].prefix.Parse().value) then None
                                else Some(OutsideAggregate))
  }

  lemma {:induction false} CheckLaw(rows: seq<Aggregate>, net: Option<Net>, link: Option<nat>)
    ensures LinkChecked(rows, net, link, CheckInAggregate(rows, net, link))
  {
    hide Aligned;
    if link.Some? { var k := AggregateIndex(rows, link.value); }
  }

  /** `create_prefix`. */
  lemma {:induction false} CreatePrefixLaw(t: Tables, row: Prefix)
    ensures var r, net := PrefixCreated(t, row), row.prefix.Parse();
            if net.None? then r == Err(InvalidCidr)
            else if r.Err? then LinkChecked(t.aggregates, net, row.aggregateId, Some(r.error))
            else && LinkChecked(t.aggregates, net, row.aggregateId, None)
                 && r.value == Tables(t.aggregates, t.prefixes + [row.(id := t.nextPrefix)],
                                      t.nextAggregate, t.nextPrefix + 1)
  {
    hide WellFormed, CheckInAggregate, LinkChecked;
    CheckLaw(t.aggregates, row.prefix.Parse(), row.aggregateId);
    assert NumberPrefixes([row], t.nextPrefix) == [row.(id := t.nextPrefix)];
    assert t.aggregates + [] == t.aggregates;
  }

  ghost predicate PrefixUpdateStored(t: Tables, t': Tables, k: int, p: PrefixPatch)
    requires 0 <= k < |t.prefixes|
  {
    && |t'.prefixes| == |t.prefixes| && t'.aggregates == t.aggregates
    && t'.nextAggregate == t.nextAggregate && t'.nextPrefix == t.nextPrefix
    && (forall j :: 0 <= j < |t.prefixes| && j != k ==> t'.prefixes[j] == t.prefixes[j])
    && var before, row := t.prefixes[k], t'.prefixes[k];
       && row.id == before.id
       && row.prefix == (if p.prefix.Some? then p.prefix.value else before.prefix)
       && row.status == (if p.status.Some? then p.status.value else before.status)
       && row.description == (if p.description.Some? then p.description.value else before.description)
       && row.isPool == (if p.isPool.Some? then p.isPool.value else before.isPool)
       && row.markUtilized == (if p.markUtilized.Some? then p.markUtilized.value else before.markUtilized)
       && row.vlanId == (if p.vlanId.Some? then p.vlanId else before.vlanId)
       && row.location == (if p.location.Some? then p.location.value else before.location)
       && row.aggregateId == (if p.aggregateId.Some? then p.aggregateId else before.aggregateId)
  }

  /** `update_prefix`: the check runs only when the text or the link is sent, on the text and link the
      row would have. */
  lemma {:induction false} UpdatePrefixLaw(t: Tables, id: nat, p: PrefixPatch, k: int)
    requires PrefixAt(t.prefixes, k, id)
    ensures var r := PrefixUpdated(t, id, p);
            var text := if p.prefix.Some? then p.prefix.value else t.prefixes[k].prefix;
            var link := if p.aggregateId.Some? then p.aggregateId else t.prefixes[k].aggregateId;
            if p.prefix.Some? && p.prefix.value.Parse().None? then r == Err(InvalidCidr)
            else if r.Err? then (p.prefix.Some? || p.aggregateId.Some?) &&
                                LinkChecked(t.aggregates, text.Parse(), link, Some(r.error))
            else && (p.prefix.Some? || p.aggregateId.Some? ==> LinkChecked(t.aggregates, text.Parse(), link, None))
                 && PrefixUpdateStored(t, r.value, k, p)
  {
    hide WellFormed, CheckInAggregate, LinkChecked, PrefixIndex;
    var found := PrefixIndex(t.prefixes, id);
    assert found == Some(k);
    var next := PatchPrefix(t.prefixes[k], p);
    CheckLaw(t.aggregates, next.prefix.Parse(), next.aggregateId);
  }

  lemma {:induction false} UnknownPrefix(t: Tables, id: nat, p: PrefixPatch)
    requires forall j :: 0 <= j < |t.prefixes| ==> t.prefixes[j].id != id
    ensures PrefixUpdated(t, id, p) == Err(NotFound) && PrefixDeleted(t, id) == Err(NotFound)
  {
    hide WellFormed;
    var k := PrefixIndex(t.prefixes, id);
  }

  lemma {:induction false} PrefixWithoutAt(rows: seq<Prefix>, id: nat, k: int)
    requires PrefixAt(rows, k, id)
    ensures WithoutPrefix(rows, id) == rows[..k] + rows[k + 1..]
    decreases |rows|
  {
    if k == 0 {
      PrefixWithoutNone(rows[1..], id);
      assert rows[..0] + rows[1..] == rows[1..];
    } else {
      PrefixWithoutAt(rows[1..], id, k - 1);
      assert rows[..k] + rows[k + 1..] == [rows[0]] + (rows[1..][..k - 1] + rows[1..][k..]);
    }
  }

  lemma {:induction false} PrefixWithoutNone(rows: seq<Prefix>, id: nat)
    requires forall j :: 0 <= j < |rows| ==> rows[j].id != id
    ensures WithoutPrefix(rows, id) == rows
  {
    if rows != [] { PrefixWithoutNone(rows[1..], id); }
  }

  /** `delete_prefix`. */
  lemma {:induction false} DeletePrefixLaw(t: Tables, id: nat, k: int)
    requires PrefixAt(t.prefixes, k, id)
    ensures PrefixDeleted(t, id)
            == Ok(Tables(t.aggregates, t.prefixes[..k] + t.prefixes[k + 1..], t.nextAggregate, t.nextPrefix))
  {
    hide WellFormed, PrefixIndex;
    var found := PrefixIndex(t.prefixes, id);
    PrefixWithoutAt(t.prefixes, id, k);
  }
}
