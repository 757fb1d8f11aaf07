/** What an external merge promises about the links it sets. */
module MergeLaws {
  import opened Wrappers
  import opened Cidr
  import opened IpamTables
  import opened ExternalMerge
  import LongestMatch

  // ---------- rows already stored ----------

  lemma {:induction false} MergeKeepsRows(rows: seq<Aggregate>, items: seq<AggregateItem>)
    ensures var s := AggregatesMerged(rows, items);
            |s.rows| == |rows| &&
            forall i :: 0 <= i < |rows| ==> s.rows[i].id == rows[i].id && s.rows[i].prefix == rows[i].prefix
    decreases |items|
  {
    hide WellFormed;
    if items != [] { MergeKeepsRows(rows, items[..|items| - 1]); }
  }

  // ---------- when a merge is refused ----------

  /** The item's text is readable and in no stored row, so the merge adds a row for it. */
  predicate IsNew(rows: seq<Aggregate>, item: AggregateItem) {
    item.prefix.Parse().Some? && AggregateByText(rows, item.prefix).None?
  }

  /** The texts the batch names that no stored row has, in order. */
  function NewTexts(rows: seq<Aggregate>, items: seq<AggregateItem>): seq<CidrText> {
    if items == [] then []
    else
      var item := items[|items| - 1];
      NewTexts(rows, items[..|items| - 1]) + if IsNew(rows, item) then [item.prefix] else []
  }

  ghost predicate AllDifferent(texts: seq<CidrText>) {
    forall i, j :: 0 <= i < j < |texts| ==> texts[i] != texts[j]
  }

  lemma SameTexts(rows: seq<Aggregate>, later: seq<Aggregate>, text: CidrText)
    requires |rows| == |later| && forall i :: 0 <= i < |rows| ==> later[i].prefix == rows[i].prefix
    ensures AggregateByText(later, text).None? <==> AggregateByText(rows, text).None?
  {
    hide WellFormed;
    var k, k' := AggregateByText(rows, text), AggregateByText(later, text);
    if k.Some? { assert later[k.value].prefix == text; }
    if k'.Some? { assert rows[k'.value].prefix == text; }
  }

  /** One new row for every naming of a new text, and stored texts are never added. */
  lemma {:induction false} AddedTexts(rows: seq<Aggregate>, items: seq<AggregateItem>)
    ensures var added, texts := AggregatesMerged(rows, items).added, NewTexts(rows, items);
            && |added| == |texts|
            && forall a :: 0 <= a < |added| ==> added[a].prefix == texts[a] && AggregateByText(rows, texts[a]).None?
    decreases |items|
  {
    hide WellFormed, AggregateByText;
    if items != [] {
      var n := |items| - 1;
      AddedTexts(rows, items[..n]);
      MergeKeepsRows(rows, items[..n]);
      SameTexts(rows, AggregatesMerged(rows, items[..n]).rows, items[n].prefix);
    }
  }

  lemma UniqueTogether(rows: seq<Aggregate>, later: seq<Aggregate>, texts: seq<CidrText>)
    requires TextsUnique(rows) && |later| == |rows| + |texts|
    requires forall i :: 0 <= i < |rows| ==> later[i].prefix == rows[i].prefix
    requires forall a :: 0 <= a < |texts| ==>
                           later[|rows| + a].prefix == texts[a] && AggregateByText(rows, texts[a]).None?
    ensures TextsUnique(later) <==> AllDifferent(texts)
  {
    hide WellFormed, AggregateByText;
    var m := |rows|;
    if TextsUnique(later) {
      forall i, j | 0 <= i < j < |texts| ensures texts[i] != texts[j] {
        assert later[m + i].prefix != later[m + j].prefix;
      }
    }
    if AllDifferent(texts) {
      forall i, j | 0 <= i < j < |later| ensures later[i].prefix != later[j].prefix {
        if j >= m {
          assert later[m + (j - m)].prefix == texts[j - m];
          if i >= m { assert later[m + (i - m)].prefix == texts[i - m]; }
        }
      }
    }
  }

  /** Because unsaved rows are invisible to the lookup, a batch is refused as a whole exactly
      when it names one new aggregate text twice. */
  lemma {:induction false} RefusedIffRepeated(t: Tables, aggItems: seq<AggregateItem>, prefItems: seq<PrefixItem>)
    requires TextsUnique(t.aggregates)
    ensures Merge(t, aggItems, prefItems).Err? <==> !AllDifferent(NewTexts(t.aggregates, aggItems))
  {
    hide WellFormed, AggregatesMerged, PrefixesMerged, NewTexts, AggregateByText;
    AddedTexts(t.aggregates, aggItems);
    MergeKeepsRows(t.aggregates, aggItems);
    UniqueTogether(t.aggregates, AggregatesSaved(t, aggItems).aggregates, NewTexts(t.aggregates, aggItems));
  }

  // ---------- links ----------

  ghost predicate LinkedAsResolved(aggs: seq<Aggregate>, rows: seq<Prefix>, added: seq<Prefix>, text: CidrText) {
    var all := rows + added;
    var k := PrefixByText(all, text);
    var best := LongestMatch.Resolve(Candidates(aggs), text.Parse());
    k.Some? && (best.Some? ==> all[k.value].aggregateId == best)
  }

  lemma FirstByText(rows: seq<Prefix>, k: nat, text: CidrText)
    requires k < |rows| && rows[k].prefix == text
    requires forall j :: 0 <= j < k ==> rows[j].prefix != text
    ensures PrefixByText(rows, text) == Some(k)
  {
    hide WellFormed;
    var r := PrefixByText(rows, text);
    assert r.Some? ==> rows[r.value].prefix == text;
  }

  ghost predicate NoneAdded(added: seq<Prefix>, text: CidrText) {
    forall i :: 0 <= i < |added| ==> added[i].prefix != text
  }

  lemma ItemLinked(aggs: seq<Aggregate>, s: Pending<Prefix>, item: PrefixItem, text: CidrText)
    requires item.prefix.Parse().Some?
    requires LinkedAsResolved(aggs, s.rows, s.added, text) || (item.prefix == text && NoneAdded(s.added, text))
    ensures var s' := PrefixMerged(aggs, s, item); LinkedAsResolved(aggs, s'.rows, s'.added, text)
  {
    hide WellFormed, LongestMatch.Resolve;
    var s' := PrefixMerged(aggs, s, item);
    var all, all' := s.rows + s.added, s'.rows + s'.added;
    assert forall i :: 0 <= i < |all| ==> all'[i].prefix == all[i].prefix;
    if LinkedAsResolved(aggs, s.rows, s.added, text) {
      var k := PrefixByText(all, text).value;
      FirstByText(all', k, text);
      if item.prefix == text && PrefixByText(s.rows, text).Some? {
        FirstByText(all, PrefixByText(s.rows, text).value, text);
      } else {
        assert all'[k] == all[k];
      }
    } else {
      var found := PrefixByText(s.rows, text);
      var k := if found.Some? then found.value else |all|;
      FirstByText(all', k, text);
    }
  }

  lemma MergeLinkStep(aggs: seq<Aggregate>, s: Pending<Prefix>, item: PrefixItem, text: CidrText, named: bool)
    requires text.Parse().Some?
    requires if named then LinkedAsResolved(aggs, s.rows, s.added, text) else NoneAdded(s.added, text)
    ensures var s' := PrefixMerged(aggs, s, item);
            if named || item.prefix == text then LinkedAsResolved(aggs, s'.rows, s'.added, text)
            else NoneAdded(s'.added, text)
  {
    hide WellFormed, LongestMatch.Resolve;
    if item.prefix.Parse().Some? && (named || item.prefix == text) { ItemLinked(aggs, s, item, text); }
  }

  lemma {:induction false} MergeLinks(aggs: seq<Aggregate>, rows: seq<Prefix>, items: seq<PrefixItem>, text: CidrText)
    requires text.Parse().Some?
    ensures var s := PrefixesMerged(aggs, rows, items);
            if exists i :: 0 <= i < |items| && items[i].prefix == text
            then LinkedAsResolved(aggs, s.rows, s.added, text)
            else NoneAdded(s.added, text)
    decreases |items|
  {
    hide WellFormed, LongestMatch.Resolve, LinkedAsResolved, PrefixByText, PrefixMerged;
    if items != [] {
      var n := |items| - 1;
      MergeLinks(aggs, rows, items[..n], text);
      assert forall i :: 0 <= i < n ==> items[..n][i] == items[i];
      var named := exists i :: 0 <= i < n && items[i].prefix == text;
      MergeLinkStep(aggs, PrefixesMerged(aggs, rows, items[..n]), items[n], text, named);
    }
  }

  /** The row found by the text is linked to an aggregate whose network contains the prefix and lies
      inside every other that does, unless none does. */
  ghost predicate LinkedInnermost(aggs: seq<Aggregate>, rows: seq<Prefix>, text: CidrText)
    requires text.Parse().Some?
  {
    var k := PrefixByText(rows, text);
    && k.Some?
    && ((exists a :: 0 <= a < |aggs| && AggregateHolds(aggs, a, text.Parse().value)) ==>
          exists a :: 0 <= a < |aggs| && rows[k.value].aggregateId == Some(aggs[a].id) &&
                      InnermostHolder(aggs, a, text.Parse().value))
  }

  ghost predicate AggregateHolds(aggs: seq<Aggregate>, a: int, p: Net)
    requires 0 <= a < |aggs|
  {
    aggs[a].prefix.Parse().Some? && SubnetOf(p, aggs[a].prefix.Parse().value)
  }

  ghost predicate InnermostHolder(aggs: seq<Aggregate>, a: int, p: Net)
    requires 0 <= a < |aggs|
  {
    && AggregateHolds(aggs, a, p)
    && forall b :: 0 <= b < |aggs| && AggregateHolds(aggs, b, p) ==>
         SubnetOf(aggs[a].prefix.Parse().value, aggs[b].prefix.Parse().value)
  }

  lemma ResolvedIsInnermost(aggs: seq<Aggregate>, p: Net)
    ensures var best := LongestMatch.Resolve(Candidates(aggs), Some(p));
            if exists a :: 0 <= a < |aggs| && AggregateHolds(aggs, a, p)
            then exists a :: 0 <= a < |aggs| && best == Some(aggs[a].id) && InnermostHolder(aggs, a, p)
            else best == None
  {
    hide WellFormed, LongestMatch.Resolve;
    var rows := Candidates(aggs);
    LongestMatch.ResolveIsLongestMatch(rows, Some(p));
    forall a | 0 <= a < |aggs| ensures LongestMatch.RowHolds(rows, a, p) <==> AggregateHolds(aggs, a, p) {}
    var best := LongestMatch.Resolve(rows, Some(p));
    if best.Some? {
      var k :| 0 <= k < |rows| && best == Some(rows[k].id) && LongestMatch.IsInnermost(rows, k, p);
      assert InnermostHolder(aggs, k, p);
    }
  }

  /** After a merge the row of every imported prefix that some aggregate contains is linked to
      the innermost one, whether the row was there before or not. */
  lemma MergeLinksBySmallest(t: Tables, aggItems: seq<AggregateItem>, prefItems: seq<PrefixItem>, i: nat)
    requires Merge(t, aggItems, prefItems).Ok? && i < |prefItems| && prefItems[i].prefix.Parse().Some?
    ensures var t' := Merge(t, aggItems, prefItems).value.tables;
            LinkedInnermost(t'.aggregates, t'.prefixes, prefItems[i].prefix)
  {
    hide WellFormed, LongestMatch.Resolve, PrefixesMerged, AggregatesMerged;
    var text := prefItems[i].prefix;
    var t1 := AggregatesSaved(t, aggItems);
    assert t1.prefixes == t.prefixes;
    var p := PrefixesMerged(t1.aggregates, t1.prefixes, prefItems);
    MergeLinks(t1.aggregates, t1.prefixes, prefItems, text);
    var t' := Merge(t, aggItems, prefItems).value.tables;
    assert t'.aggregates == t1.aggregates;
    var all := p.rows + p.added;
    var k := PrefixByText(all, text).value;
    assert forall j :: 0 <= j < |all| ==> t'.prefixes[j].prefix == all[j].prefix &&
                                          t'.prefixes[j].aggregateId == all[j].aggregateId;
    FirstByText(t'.prefixes, k, text);
    ResolvedIsInnermost(t'.aggregates, text.Parse().value);
  }
}
