/** What the external merges store, told from the items and the tables before them: every column of
    every row, and for phpIPAM which rows become aggregates and which become prefixes. */
module MergeOutcomes {
  import opened Wrappers
  import opened Cidr
  import opened IpamTables
  import opened ExternalMerge
  import opened MergeLaws
  import LongestMatch

  /** The value is the last one given, or the old one when none is given. */
  ghost predicate LastGiven<T(!new)>(value: Option<T>, before: Option<T>, given: seq<Option<T>>) {
    && (forall i :: 0 <= i < |given| && given[i].Some? && NoneAfter(given, i) ==> value == given[i])
    && (NoneAfter(given, -1) ==> value == before)
  }

  ghost predicate NoneAfter<T(!new)>(given: seq<Option<T>>, i: int) {
    forall j :: 0 <= j < |given| && i < j ==> given[j].None?
  }

  lemma {:induction false} GiveOne<T(!new)>(value: Option<T>, before: Option<T>, given: seq<Option<T>>, more: Option<T>)
    requires LastGiven(value, before, given)
    ensures LastGiven(Keep(more, value), before, given + [more])
  {
    var all := given + [more];
    forall i | 0 <= i < |given| && NoneAfter(all, i) ensures all[i] == given[i] && NoneAfter(given, i) && more.None? {
      assert all[|given|].None?;
      forall j | 0 <= j < |given| && i < j ensures given[j].None? { assert all[j].None?; }
    }
    if NoneAfter(all, -1) {
      assert all[|given|].None?;
      forall j | 0 <= j < |given| ensures given[j].None? { assert all[j].None?; }
    }
  }

  // ---------- aggregates ----------

  /** What the items of one text give for a column. */
  function GivenBy<T>(items: seq<AggregateItem>, text: CidrText, column: AggregateItem -> Option<T>)
    : (g: seq<Option<T>>)
    ensures |g| == |items|
    ensures forall i :: 0 <= i < |items| ==> g[i] == if items[i].prefix == text then column(items[i]) else None
  {
    if items == [] then []
    else
      var n := |items| - 1;
      GivenBy(items[..n], text, column) + [if items[n].prefix == text then column(items[n]) else None]
  }

  ghost predicate AggregateColumns(before: Aggregate, row: Aggregate, items: seq<AggregateItem>) {
    && row.id == before.id && row.prefix == before.prefix
    && LastGiven(row.rir, before.rir, GivenBy(items, before.prefix, (x: AggregateItem) => x.rir))
    && LastGiven(row.dateAdded, before.dateAdded, GivenBy(items, before.prefix, (x: AggregateItem) => x.dateAdded))
    && LastGiven(row.description, before.description,
                 GivenBy(items, before.prefix, (x: AggregateItem) => x.description))
  }

  lemma {:induction false} ColumnsStep(before: Aggregate, row: Aggregate, items: seq<AggregateItem>,
                                       item: AggregateItem, row': Aggregate)
    requires AggregateColumns(before, row, items)
    requires if item.prefix == before.prefix
             then row' == row.(rir := Keep(item.rir, row.rir), dateAdded := Keep(item.dateAdded, row.dateAdded),
                               description := Keep(item.description, row.description))
             else row' == row
    ensures AggregateColumns(before, row', items + [item])
  {
    hide LastGiven;
    assert (items + [item])[..|items|] == items;
    var named := item.prefix == before.prefix;
    GiveOne(row.rir, before.rir, GivenBy(items, before.prefix, (x: AggregateItem) => x.rir),
            if named then item.rir else None);
    GiveOne(row.dateAdded, before.dateAdded, GivenBy(items, before.prefix, (x: AggregateItem) => x.dateAdded),
            if named then item.dateAdded else None);
    GiveOne(row.description, before.description, GivenBy(items, before.prefix, (x: AggregateItem) => x.description),
            if named then item.description else None);
  }

  /** The readable items whose text no row has. */
  function NewAggregates(rows: seq<Aggregate>, items: seq<AggregateItem>): seq<AggregateItem> {
    if items == [] then []
    else
      var n := |items| - 1;
      NewAggregates(rows, items[..n]) +
      if items[n].prefix.Parse().Some? && AggregateByText(rows, items[n].prefix).None? then [items[n]] else []
  }

  function Readable(items: seq<AggregateItem>): nat {
    if items == [] then 0 else Readable(items[..|items| - 1]) + if items[|items| - 1].prefix.Parse().Some? then 1 else 0
  }

  lemma {:induction false} NewAggregateIff(rows: seq<Aggregate>, items: seq<AggregateItem>, x: AggregateItem)
    ensures x in NewAggregates(rows, items) <==>
            x in items && x.prefix.Parse().Some? && forall k :: 0 <= k < |rows| ==> rows[k].prefix != x.prefix
    decreases |items|
  {
    hide WellFormed;
    if items != [] {
      NewAggregateIff(rows, items[..|items| - 1], x);
      assert items == items[..|items| - 1] + [items[|items| - 1]];
    }
  }

  /** The first loop: columns of the stored rows, the new rows in order, and the two counts. */
  lemma {:induction false} AggregateLoop(rows: seq<Aggregate>, items: seq<AggregateItem>)
    requires TextsUnique(rows)
    ensures var s := AggregatesMerged(rows, items);
            var novel := NewAggregates(rows, items);
            && |s.rows| == |rows| && |s.added| == |novel| && s.created == |novel|
            && s.created + s.updated == Readable(items)
            && (forall k :: 0 <= k < |rows| ==> s.rows[k].prefix == rows[k].prefix)
            && (forall k :: 0 <= k < |rows| && rows[k].prefix.Parse().Some? ==>
                              AggregateColumns(rows[k], s.rows[k], items))
            && (forall k :: 0 <= k < |rows| && rows[k].prefix.Parse().None? ==> s.rows[k] == rows[k])
            && forall a :: 0 <= a < |novel| ==>
                 s.added[a] == Aggregate(0, novel[a].prefix, novel[a].rir, novel[a].dateAdded, novel[a].description)
    decreases |items|
  {
    hide WellFormed, LastGiven, TextsUnique;
    if items == [] {
      NothingGivenYet(rows);
    } else {
      var n := |items| - 1;
      AggregateLoop(rows, items[..n]);
      AggregateLoopStep(rows, items);
    }
  }

  lemma {:induction false} NothingGivenYet(rows: seq<Aggregate>)
    ensures forall k :: 0 <= k < |rows| ==> AggregateColumns(rows[k], rows[k], [])
  {
  }

  lemma {:induction false} AggregateLoopStep(rows: seq<Aggregate>, items: seq<AggregateItem>)
    requires TextsUnique(rows) && items != []
    requires var s := AggregatesMerged(rows, items[..|items| - 1]);
             && |s.rows| == |rows| && (forall k :: 0 <= k < |rows| ==> s.rows[k].prefix == rows[k].prefix)
             && (forall k :: 0 <= k < |rows| && rows[k].prefix.Parse().Some? ==>
                               AggregateColumns(rows[k], s.rows[k], items[..|items| - 1]))
    ensures var s' := AggregatesMerged(rows, items);
            forall k :: 0 <= k < |rows| && rows[k].prefix.Parse().Some? ==> AggregateColumns(rows[k], s'.rows[k], items)
  {
    hide WellFormed, AggregateColumns, AggregatesMerged;
    var n := |items| - 1;
    var s, item := AggregatesMerged(rows, items[..n]), items[n];
    var s' := AggregateMerged(s, item);
    assert s' == AggregatesMerged(rows, items) by { MergedUnfold(rows, items); }
    assert items == items[..n] + [item];
    forall k | 0 <= k < |rows| && rows[k].prefix.Parse().Some? ensures AggregateColumns(rows[k], s'.rows[k], items) {
      if item.prefix == rows[k].prefix { assert AggregateByText(s.rows, item.prefix) == Some(k); }
      ColumnsStep(rows[k], s.rows[k], items[..n], item, s'.rows[k]);
    }
  }

  lemma MergedUnfold(rows: seq<Aggregate>, items: seq<AggregateItem>)
    requires items != []
    ensures AggregatesMerged(rows, items)
            == AggregateMerged(AggregatesMerged(rows, items[..|items| - 1]), items[|items| - 1])
  {
  }

  /** After a merge: old aggregate rows keep id and text and take the last value given for each column;
      the rows behind them are the items of new texts, in order, with their values. */
  lemma {:induction false} MergedAggregates(t: Tables, aggItems: seq<AggregateItem>, prefItems: seq<PrefixItem>)
    requires TextsUnique(t.aggregates) && Merge(t, aggItems, prefItems).Ok?
    ensures var m := Merge(t, aggItems, prefItems).value;
            var rows, novel := m.tables.aggregates, NewAggregates(t.aggregates, aggItems);
            && |rows| == |t.aggregates| + |novel| && m.aggCreated == |novel|
            && m.aggCreated + m.aggUpdated == Readable(aggItems)
            && (forall k :: 0 <= k < |t.aggregates| ==>
                  if t.aggregates[k].prefix.Parse().Some? then AggregateColumns(t.aggregates[k], rows[k], aggItems)
                  else rows[k] == t.aggregates[k])
            && forall a :: 0 <= a < |novel| ==>
                 rows[|t.aggregates| + a] == Aggregate(t.nextAggregate + a, novel[a].prefix, novel[a].rir,
                                                       novel[a].dateAdded, novel[a].description)
  {
    hide WellFormed, AggregateColumns, AggregatesMerged, PrefixesMerged, NewAggregates, Readable, TextsUnique;
    AggregateLoop(t.aggregates, aggItems);
    assert Merge(t, aggItems, prefItems).value.tables.aggregates == AggregatesSaved(t, aggItems).aggregates;
  }

  // ---------- prefixes ----------

  function Given<T>(items: seq<PrefixItem>, text: CidrText, column: PrefixItem -> Option<T>): (g: seq<Option<T>>)
    ensures |g| == |items|
    ensures forall i :: 0 <= i < |items| ==> g[i] == if items[i].prefix == text then column(items[i]) else None
  {
    if items == [] then []
    else
      var n := |items| - 1;
      Given(items[..n], text, column) + [if items[n].prefix == text then column(items[n]) else None]
  }

  lemma {:induction false} GivenStep<T>(items: seq<PrefixItem>, item: PrefixItem, text: CidrText,
                                        column: PrefixItem -> Option<T>)
    ensures Given(items + [item], text, column)
            == Given(items, text, column) + [if item.prefix == text then column(item) else None]
  {
    assert (items + [item])[..|items|] == items;
  }

  /** The columns a merge can set on a prefix row. The link is checked separately. */
  ghost predicate PrefixColumns(before: Prefix, row: Prefix, items: seq<PrefixItem>) {
    && row.id == before.id && row.prefix == before.prefix
    && LastGiven(Some(row.status), Some(before.status), Given(items, before.prefix, (x: PrefixItem) => Some(x.status)))
    && LastGiven(row.description, before.description, Given(items, before.prefix, (x: PrefixItem) => x.description))
    && LastGiven(Some(row.isPool), Some(before.isPool), Given(items, before.prefix, (x: PrefixItem) => x.isPool))
    && LastGiven(Some(row.markUtilized), Some(before.markUtilized),
                 Given(items, before.prefix, (x: PrefixItem) => x.markUtilized))
    && LastGiven(row.vlanId, before.vlanId, Given(items, before.prefix, (x: PrefixItem) => x.vlanId))
    && LastGiven(row.location, before.location, Given(items, before.prefix, (x: PrefixItem) => x.location))
  }

  lemma {:induction false} PrefixColumnsStep(before: Prefix, row: Prefix, items: seq<PrefixItem>, item: PrefixItem,
                                             row': Prefix)
    requires PrefixColumns(before, row, items)
    requires row'.id == row.id && row'.prefix == row.prefix
    requires if item.prefix == before.prefix
             then && row'.status == item.status && row'.description == Keep(item.description, row.description)
                  && row'.isPool == (if item.isPool.Some? then item.isPool.value else row.isPool)
                  && row'.markUtilized ==
                     (if item.markUtilized.Some? then item.markUtilized.value else row.markUtilized)
                  && row'.vlanId == Keep(item.vlanId, row.vlanId) && row'.location == Keep(item.location, row.location)
             else row' == row
    ensures PrefixColumns(before, row', items + [item])
  {
    hide LastGiven;
    var text := before.prefix;
    var named := item.prefix == text;
    GivenStep(items, item, text, (x: PrefixItem) => Some(x.status));
    GivenStep(items, item, text, (x: PrefixItem) => x.description);
    GivenStep(items, item, text, (x: PrefixItem) => x.isPool);
    GivenStep(items, item, text, (x: PrefixItem) => x.markUtilized);
    GivenStep(items, item, text, (x: PrefixItem) => x.vlanId);
    GivenStep(items, item, text, (x: PrefixItem) => x.location);
    hide Given;
    GiveOne(Some(row.status), Some(before.status), Given(items, text, (x: PrefixItem) => Some(x.status)),
            if named then Some(item.status) else None);
    GiveOne(row.description, before.description, Given(items, text, (x: PrefixItem) => x.description),
            if named then item.description else None);
    GiveOne(Some(row.isPool), Some(before.isPool), Given(items, text, (x: PrefixItem) => x.isPool),
            if named then item.isPool else None);
    GiveOne(Some(row.markUtilized), Some(before.markUtilized), Given(items, text, (x: PrefixItem) => x.markUtilized),
            if named then item.markUtilized else None);
    GiveOne(row.vlanId, before.vlanId, Given(items, text, (x: PrefixItem) => x.vlanId),
            if named then item.vlanId else None);
    GiveOne(row.location, before.location, Given(items, text, (x: PrefixItem) => x.location),
            if named then item.location else None);
  }

  function NewPrefixes(rows: seq<Prefix>, items: seq<PrefixItem>): seq<PrefixItem> {
    if items == [] then []
    else
      var n := |items| - 1;
      NewPrefixes(rows, items[..n]) +
      if items[n].prefix.Parse().Some? && PrefixByText(rows, items[n].prefix).None? then [items[n]] else []
  }

  function ReadablePrefixes(items: seq<PrefixItem>): nat {
    if items == [] then 0
    else ReadablePrefixes(items[..|items| - 1]) + if items[|items| - 1].prefix.Parse().Some? then 1 else 0
  }

  lemma {:induction false} NewPrefixIff(rows: seq<Prefix>, items: seq<PrefixItem>, x: PrefixItem)
    ensures x in NewPrefixes(rows, items) <==>
            x in items && x.prefix.Parse().Some? && forall k :: 0 <= k < |rows| ==> rows[k].prefix != x.prefix
    decreases |items|
  {
    hide WellFormed;
    if items != [] {
      NewPrefixIff(rows, items[..|items| - 1], x);
      assert items == items[..|items| - 1] + [items[|items| - 1]];
    }
  }

  /** A new prefix row carries the item's values; what the item leaves out is empty or false. */
  ghost predicate FromItem(row: Prefix, x: PrefixItem) {
    && row.prefix == x.prefix && row.status == x.status && row.description == x.description
    && row.isPool == (x.isPool.Some? && x.isPool.value)
    && row.markUtilized == (x.markUtilized.Some? && x.markUtilized.value)
    && row.vlanId == x.vlanId && row.location == x.location
  }

  ghost predicate FirstOfText(rows: seq<Prefix>, k: int) {
    0 <= k < |rows| && forall j :: 0 <= j < k ==> rows[j].prefix != rows[k].prefix
  }

  /** The second loop. */
  ghost predicate PrefixLoopDone(rows: seq<Prefix>, items: seq<PrefixItem>, s: Pending<Prefix>) {
    var novel := NewPrefixes(rows, items);
    && |s.rows| == |rows| && |s.added| == |novel| && s.created == |novel|
    && s.created + s.updated == ReadablePrefixes(items)
    && (forall k :: 0 <= k < |rows| ==> s.rows[k].prefix == rows[k].prefix)
    && (forall k :: 0 <= k < |rows| ==>
          if rows[k].prefix.Parse().Some? && FirstOfText(rows, k) then PrefixColumns(rows[k], s.rows[k], items)
          else s.rows[k] == rows[k])
    && (forall a :: 0 <= a < |novel| ==> FromItem(s.added[a], novel[a]))
  }

  lemma {:induction false} PrefixLoop(aggs: seq<Aggregate>, rows: seq<Prefix>, items: seq<PrefixItem>)
    ensures PrefixLoopDone(rows, items, PrefixesMerged(aggs, rows, items))
    decreases |items|
  {
    if items == [] {
      NoPrefixGivenYet(rows);
    } else {
      PrefixLoop(aggs, rows, items[..|items| - 1]);
      PrefixLoopStep(aggs, rows, items, PrefixesMerged(aggs, rows, items[..|items| - 1]));
    }
  }

  lemma {:induction false} NoPrefixGivenYet(rows: seq<Prefix>)
    ensures PrefixLoopDone(rows, [], Pending(rows, [], 0, 0))
  {
    hide WellFormed;
    assert forall k :: 0 <= k < |rows| ==> PrefixColumns(rows[k], rows[k], []);
  }

  lemma {:induction false} PrefixLoopStep(aggs: seq<Aggregate>, rows: seq<Prefix>, items: seq<PrefixItem>,
                                          s: Pending<Prefix>)
    requires items != [] && PrefixLoopDone(rows, items[..|items| - 1], s)
    ensures PrefixLoopDone(rows, items, PrefixMerged(aggs, s, items[|items| - 1]))
  {
    hide WellFormed, PrefixColumns, LongestMatch.Resolve;
    var n := |items| - 1;
    var item := items[n];
    var s' := PrefixMerged(aggs, s, item);
    assert items == items[..n] + [item];
    SameTextFound(rows, s.rows, item.prefix);
    forall k | 0 <= k < |rows|
      ensures if rows[k].prefix.Parse().Some? && FirstOfText(rows, k) then PrefixColumns(rows[k], s'.rows[k], items)
              else s'.rows[k] == rows[k]
    {
      if rows[k].prefix.Parse().Some? && FirstOfText(rows, k) {
        if item.prefix == rows[k].prefix { FirstByText(rows, k, item.prefix); }
        PrefixColumnsStep(rows[k], s.rows[k], items[..n], item, s'.rows[k]);
      }
    }
  }

  lemma SameTextFound(rows: seq<Prefix>, later: seq<Prefix>, text: CidrText)
    requires |rows| == |later| && forall k :: 0 <= k < |rows| ==> later[k].prefix == rows[k].prefix
    ensures PrefixByText(later, text) == PrefixByText(rows, text)
  {
    hide WellFormed;
    var k := PrefixByText(rows, text);
    if k.Some? { FirstByText(later, k.value, text); }
    var k' := PrefixByText(later, text);
    if k'.Some? { assert rows[k'.value].prefix == text; }
  }

  /** After a merge: the first prefix row of each text takes the last value given for each column; other
      old rows stay; behind them come the items of new texts, in order, one row each. */
  lemma {:induction false} MergedPrefixes(t: Tables, aggItems: seq<AggregateItem>, prefItems: seq<PrefixItem>)
    requires Merge(t, aggItems, prefItems).Ok?
    ensures var m := Merge(t, aggItems, prefItems).value;
            var rows, novel := m.tables.prefixes, NewPrefixes(t.prefixes, prefItems);
            && |rows| == |t.prefixes| + |novel| && m.prefCreated == |novel|
            && m.prefCreated + m.prefUpdated == ReadablePrefixes(prefItems)
            && (forall k :: 0 <= k < |t.prefixes| ==>
                  if t.prefixes[k].prefix.Parse().Some? && FirstOfText(t.prefixes, k)
                  then PrefixColumns(t.prefixes[k], rows[k], prefItems) else rows[k] == t.prefixes[k])
            && forall a :: 0 <= a < |novel| ==>
                 FromItem(rows[|t.prefixes| + a], novel[a]) && rows[|t.prefixes| + a].id == t.nextPrefix + a
  {
    hide WellFormed, PrefixColumns, AggregatesMerged, PrefixesMerged, NewPrefixes, ReadablePrefixes;
    var t1 := AggregatesSaved(t, aggItems);
    assert t1.prefixes == t.prefixes && t1.nextPrefix == t.nextPrefix;
    PrefixLoop(t1.aggregates, t1.prefixes, prefItems);
  }

  // ---------- links ----------

  ghost predicate HeldBySome(aggs: seq<Aggregate>, p: Net) {
    exists a :: 0 <= a < |aggs| && AggregateHolds(aggs, a, p)
  }

  /** The link is an innermost aggregate that holds the prefix, or none when no aggregate does. */
  ghost predicate LinkedToInnermost(aggs: seq<Aggregate>, p: Net, link: Option<nat>) {
    if HeldBySome(aggs, p) then exists a :: 0 <= a < |aggs| && link == Some(aggs[a].id) && InnermostHolder(aggs, a, p)
    else link == None
  }

  ghost predicate NewRowLinked(aggs: seq<Aggregate>, row: Prefix) {
    row.prefix.Parse().Some? && LinkedToInnermost(aggs, row.prefix.Parse().value, row.aggregateId)
  }

  lemma {:induction false} LinkLoop(aggs: seq<Aggregate>, rows: seq<Prefix>, items: seq<PrefixItem>)
    ensures var s := PrefixesMerged(aggs, rows, items);
            && |s.rows| == |rows|
            && (forall k :: 0 <= k < |rows| ==> LinkAfter(aggs, rows[k], s.rows[k], items))
            && forall a :: 0 <= a < |s.added| ==> NewRowLinked(aggs, s.added[a])
    decreases |items|
  {
    hide WellFormed, LongestMatch.Resolve, LinkedToInnermost;
    if items != [] {
      var n := |items| - 1;
      LinkLoop(aggs, rows, items[..n]);
      LinkStep(aggs, rows, items, PrefixesMerged(aggs, rows, items[..n]));
    }
  }

  /** The link of an old row stays unless an item names the row's text and an aggregate holds it. */
  ghost predicate LinkAfter(aggs: seq<Aggregate>, before: Prefix, row: Prefix, items: seq<PrefixItem>) {
    row.prefix == before.prefix &&
    (row.aggregateId == before.aggregateId ||
     (before.prefix.Parse().Some? && HeldBySome(aggs, before.prefix.Parse().value) &&
      (exists i :: 0 <= i < |items| && items[i].prefix == before.prefix) &&
      LinkedToInnermost(aggs, before.prefix.Parse().value, row.aggregateId)))
  }

  lemma {:induction false} LinkStep(aggs: seq<Aggregate>, rows: seq<Prefix>, items: seq<PrefixItem>, s: Pending<Prefix>)
    requires items != [] && |s.rows| == |rows|
    requires forall k :: 0 <= k < |rows| ==> LinkAfter(aggs, rows[k], s.rows[k], items[..|items| - 1])
    requires forall a :: 0 <= a < |s.added| ==> NewRowLinked(aggs, s.added[a])
    ensures var s' := PrefixMerged(aggs, s, items[|items| - 1]);
            && |s'.rows| == |rows|
            && (forall k :: 0 <= k < |rows| ==> LinkAfter(aggs, rows[k], s'.rows[k], items))
            && forall a :: 0 <= a < |s'.added| ==> NewRowLinked(aggs, s'.added[a])
  {
    hide WellFormed, LongestMatch.Resolve, HeldBySome, LinkedToInnermost;
    var n := |items| - 1;
    var item := items[n];
    var s' := PrefixMerged(aggs, s, item);
    assert forall i :: 0 <= i < n ==> items[..n][i] == items[i];
    if item.prefix.Parse().Some? { ResolvedLink(aggs, item.prefix.Parse().value); }
    forall k | 0 <= k < |rows| ensures LinkAfter(aggs, rows[k], s'.rows[k], items) {
      assert LinkAfter(aggs, rows[k], s.rows[k], items[..n]);
    }
  }

  lemma ResolvedLink(aggs: seq<Aggregate>, p: Net)
    ensures var best := LongestMatch.Resolve(Candidates(aggs), Some(p));
            LinkedToInnermost(aggs, p, best) && (best.Some? <==> HeldBySome(aggs, p))
  {
    hide LongestMatch.Resolve;
    ResolvedIsInnermost(aggs, p);
  }

  /** After a merge a new prefix row is linked to an innermost aggregate that holds it, or to none when
      none does; an old row keeps its link unless it is named and some aggregate holds it. */
  lemma {:induction false} MergedLinks(t: Tables, aggItems: seq<AggregateItem>, prefItems: seq<PrefixItem>)
    requires Merge(t, aggItems, prefItems).Ok?
    ensures var t' := Merge(t, aggItems, prefItems).value.tables;
            && |t.prefixes| <= |t'.prefixes|
            && (forall k :: 0 <= k < |t.prefixes| ==>
                              LinkAfter(t'.aggregates, t.prefixes[k], t'.prefixes[k], prefItems))
            && forall k :: |t.prefixes| <= k < |t'.prefixes| ==>
                 NewRowLinked(t'.aggregates, t'.prefixes[k])
  {
    hide WellFormed, AggregatesMerged, PrefixesMerged, LinkedToInnermost, HeldBySome;
    var t1 := AggregatesSaved(t, aggItems);
    assert t1.prefixes == t.prefixes;
    LinkLoop(t1.aggregates, t1.prefixes, prefItems);
    var s := PrefixesMerged(t1.aggregates, t1.prefixes, prefItems);
    var t' := Merge(t, aggItems, prefItems).value.tables;
    assert t'.aggregates == t1.aggregates;
    forall k | |t.prefixes| <= k < |t'.prefixes|
      ensures t'.prefixes[k].prefix == s.added[k - |t.prefixes|].prefix &&
              t'.prefixes[k].aggregateId == s.added[k - |t.prefixes|].aggregateId
    {
    }
  }
}
