/** `apply_phpipam_subnets_to_db`: phpIPAM's folders become aggregates and its other subnets become
    prefixes, in one merge. */
module Phpipam {
  import opened Wrappers
  import opened Cidr
  import opened IpamTables
  import opened ExternalMerge
  import opened MergeLaws
  import opened MergeOutcomes

  /** A phpIPAM row; `net` is what `_row_to_cidr` reads, None when it reads nothing. */
  datatype PhpipamRow = PhpipamRow(
    net: Option<Net>, isFolder: bool, status: string, description: Option<string>,
    vlanId: Option<int>, location: Option<string>)

  function Folders(rows: seq<PhpipamRow>): seq<AggregateItem> {
    if rows == [] then []
    else
      var r := rows[|rows| - 1];
      Folders(rows[..|rows| - 1]) +
      if r.net.Some? && r.isFolder then [AggregateItem(Canonical(r.net.value), None, None, r.description)] else []
  }

  function Leaves(rows: seq<PhpipamRow>): seq<PrefixItem> {
    if rows == [] then []
    else
      var r := rows[|rows| - 1];
      Leaves(rows[..|rows| - 1]) +
      if r.net.Some? && !r.isFolder
      then [PrefixItem(Canonical(r.net.value), r.status, r.description, None, None, r.vlanId, r.location)] else []
  }

  // ---------- what is stored ----------

  ghost predicate IsFolder(rows: seq<PhpipamRow>, i: int, net: Net) {
    0 <= i < |rows| && rows[i].net == Some(net) && rows[i].isFolder
  }

  ghost predicate IsLeaf(rows: seq<PhpipamRow>, i: int, net: Net) {
    0 <= i < |rows| && rows[i].net == Some(net) && !rows[i].isFolder
  }

  /** A folder row has an aggregate under its network's text; the last description given is stored. */
  ghost predicate FolderStored(rows: seq<PhpipamRow>, i: int, net: Net, aggs: seq<Aggregate>) {
    exists k :: 0 <= k < |aggs| && aggs[k].prefix == Canonical(net) &&
                (IsFolder(rows, i, net) && rows[i].description.Some? &&
                 (forall j :: i < j && IsFolder(rows, j, net) ==> rows[j].description.None?) ==>
                   aggs[k].description == rows[i].description)
  }

  /** A prefix row with the values the subnet row gives. */
  ghost predicate LeafValues(r: PhpipamRow, net: Net, p: Prefix) {
    && p.prefix == Canonical(net) && p.status == r.status
    && (r.description.Some? ==> p.description == r.description)
    && (r.vlanId.Some? ==> p.vlanId == r.vlanId) && (r.location.Some? ==> p.location == r.location)
  }

  /** A subnet row has a prefix; the last row of the subnet gives its values. */
  ghost predicate LeafStored(rows: seq<PhpipamRow>, i: int, net: Net, prefixes: seq<Prefix>) {
    && (exists k :: 0 <= k < |prefixes| && prefixes[k].prefix == Canonical(net))
    && (0 <= i < |rows| && (forall j :: i < j ==> !IsLeaf(rows, j, net)) ==>
          exists k :: 0 <= k < |prefixes| && LeafValues(rows[i], net, prefixes[k]))
  }

  ghost predicate FromFolder(rows: seq<PhpipamRow>, a: Aggregate) {
    exists i, net :: IsFolder(rows, i, net) && a.prefix == Canonical(net) && a.description == rows[i].description &&
                     a.rir == None && a.dateAdded == None
  }

  ghost predicate FromLeaf(rows: seq<PhpipamRow>, p: Prefix) {
    exists i, net :: IsLeaf(rows, i, net) && NewLeaf(rows[i], net, p)
  }

  /** Every folder is an aggregate, every other subnet a prefix, and nothing else is added. */
  ghost predicate PhpipamStored(t: Tables, rows: seq<PhpipamRow>, t': Tables) {
    && (forall i, net :: IsFolder(rows, i, net) ==> FolderStored(rows, i, net, t'.aggregates))
    && (forall i, net :: IsLeaf(rows, i, net) ==> LeafStored(rows, i, net, t'.prefixes))
    && |t.aggregates| <= |t'.aggregates| && |t.prefixes| <= |t'.prefixes|
    && (forall k :: |t.aggregates| <= k < |t'.aggregates| ==> FromFolder(rows, t'.aggregates[k]))
    && (forall k :: |t.prefixes| <= k < |t'.prefixes| ==> FromLeaf(rows, t'.prefixes[k]))
  }

  ghost predicate NewLeaf(r: PhpipamRow, net: Net, p: Prefix) {
    && p.prefix == Canonical(net) && p.status == r.status && p.description == r.description
    && p.vlanId == r.vlanId && p.location == r.location && !p.isPool && !p.markUtilized
  }

  function FolderItem(r: PhpipamRow, net: Net): AggregateItem {
    AggregateItem(Canonical(net), None, None, r.description)
  }

  function LeafItem(r: PhpipamRow, net: Net): PrefixItem {
    PrefixItem(Canonical(net), r.status, r.description, None, None, r.vlanId, r.location)
  }

  lemma {:induction false} FolderPosition(rows: seq<PhpipamRow>, i: nat, n: nat)
    requires i < n <= |rows| && rows[i].net.Some? && rows[i].isFolder
    ensures var p, all := |Folders(rows[..i])|, Folders(rows[..n]);
            && p < |all| && all[p] == FolderItem(rows[i], rows[i].net.value)
            && forall q :: p < q < |all| ==> LaterFolder(rows, i, n, all[q])
    decreases n
  {
    hide WellFormed;
    assert rows[..n][..n - 1] == rows[..n - 1];
    if i < n - 1 {
      FolderPosition(rows, i, n - 1);
      var before, all := Folders(rows[..n - 1]), Folders(rows[..n]);
      forall q | |Folders(rows[..i])| < q < |all| ensures LaterFolder(rows, i, n, all[q]) {
        if q < |before| {
          assert LaterFolder(rows, i, n - 1, before[q]);
        } else {
          assert IsFolder(rows, n - 1, rows[n - 1].net.value);
        }
      }
    }
  }

  ghost predicate LaterFolder(rows: seq<PhpipamRow>, i: nat, n: nat, x: AggregateItem)
    requires n <= |rows|
  {
    exists j, net :: i < j < n && IsFolder(rows, j, net) && x == FolderItem(rows[j], net)
  }

  lemma {:induction false} LeafPosition(rows: seq<PhpipamRow>, i: nat, n: nat)
    requires i < n <= |rows| && rows[i].net.Some? && !rows[i].isFolder
    ensures var p, all := |Leaves(rows[..i])|, Leaves(rows[..n]);
            && p < |all| && all[p] == LeafItem(rows[i], rows[i].net.value)
            && forall q :: p < q < |all| ==> LaterLeaf(rows, i, n, all[q])
    decreases n
  {
    hide WellFormed;
    assert rows[..n][..n - 1] == rows[..n - 1];
    if i < n - 1 {
      LeafPosition(rows, i, n - 1);
      var before, all := Leaves(rows[..n - 1]), Leaves(rows[..n]);
      forall q | |Leaves(rows[..i])| < q < |all| ensures LaterLeaf(rows, i, n, all[q]) {
        if q < |before| {
          assert LaterLeaf(rows, i, n - 1, before[q]);
        } else {
          assert IsLeaf(rows, n - 1, rows[n - 1].net.value);
        }
      }
    }
  }

  ghost predicate LaterLeaf(rows: seq<PhpipamRow>, i: nat, n: nat, x: PrefixItem)
    requires n <= |rows|
  {
    exists j, net :: i < j < n && IsLeaf(rows, j, net) && x == LeafItem(rows[j], net)
  }

  lemma {:induction false} FolderOrigin(rows: seq<PhpipamRow>, x: AggregateItem)
    requires x in Folders(rows)
    ensures exists i, net :: IsFolder(rows, i, net) && x == FolderItem(rows[i], net)
    decreases |rows|
  {
    hide WellFormed;
    var n := |rows| - 1;
    if x in Folders(rows[..n]) {
      FolderOrigin(rows[..n], x);
      var i, net :| IsFolder(rows[..n], i, net) && x == FolderItem(rows[..n][i], net);
      assert IsFolder(rows, i, net) && x == FolderItem(rows[i], net);
    } else {
      assert IsFolder(rows, n, rows[n].net.value);
    }
  }

  lemma {:induction false} LeafOrigin(rows: seq<PhpipamRow>, x: PrefixItem)
    requires x in Leaves(rows)
    ensures exists i, net :: IsLeaf(rows, i, net) && x == LeafItem(rows[i], net)
    decreases |rows|
  {
    hide WellFormed;
    var n := |rows| - 1;
    if x in Leaves(rows[..n]) {
      LeafOrigin(rows[..n], x);
      var i, net :| IsLeaf(rows[..n], i, net) && x == LeafItem(rows[..n][i], net);
      assert IsLeaf(rows, i, net) && x == LeafItem(rows[i], net);
    } else {
      assert IsLeaf(rows, n, rows[n].net.value);
    }
  }

  lemma {:induction false} FolderIsStored(t: Tables, rows: seq<PhpipamRow>, i: int, net: Net)
    requires TextsUnique(t.aggregates) && Merge(t, Folders(rows), Leaves(rows)).Ok? && IsFolder(rows, i, net)
    ensures FolderStored(rows, i, net, Merge(t, Folders(rows), Leaves(rows)).value.tables.aggregates)
  {
    hide WellFormed, Merge, Folders, Leaves, LastGiven, NewAggregates;
    var items := Folders(rows);
    var aggs := Merge(t, items, Leaves(rows)).value.tables.aggregates;
    FolderPosition(rows, i, |rows|);
    assert rows[..|rows|] == rows;
    var p := |Folders(rows[..i])|;
    var x := items[p];
    MergedAggregates(t, items, Leaves(rows));
    NewAggregateIff(t.aggregates, items, x);
    if x in NewAggregates(t.aggregates, items) {
      var a :| 0 <= a < |NewAggregates(t.aggregates, items)| && NewAggregates(t.aggregates, items)[a] == x;
      assert aggs[|t.aggregates| + a].prefix == Canonical(net);
      assert aggs[|t.aggregates| + a].description == rows[i].description;
    } else {
      var k :| 0 <= k < |t.aggregates| && t.aggregates[k].prefix == x.prefix;
      var given := GivenBy(items, t.aggregates[k].prefix, (y: AggregateItem) => y.description);
      assert AggregateColumns(t.aggregates[k], aggs[k], items);
      if rows[i].description.Some? && (forall j :: i < j && IsFolder(rows, j, net) ==> rows[j].description.None?) {
        forall q | 0 <= q < |given| && p < q ensures given[q].None? {
          assert LaterFolder(rows, i, |rows|, items[q]);
        }
        LastOne(aggs[k].description, t.aggregates[k].description, given, p);
      }
      assert aggs[k].prefix == Canonical(net);
    }
  }

  lemma LastOne<T(!new)>(value: Option<T>, before: Option<T>, given: seq<Option<T>>, p: nat)
    requires LastGiven(value, before, given) && p < |given| && given[p].Some?
    requires forall q :: 0 <= q < |given| && p < q ==> given[q].None?
    ensures value == given[p]
  {
    assert NoneAfter(given, p);
  }

  lemma {:induction false} LeafIsStored(t: Tables, rows: seq<PhpipamRow>, i: int, net: Net)
    requires Merge(t, Folders(rows), Leaves(rows)).Ok? && IsLeaf(rows, i, net)
    ensures LeafStored(rows, i, net, Merge(t, Folders(rows), Leaves(rows)).value.tables.prefixes)
  {
    hide WellFormed, Merge, Folders, Leaves, LastGiven, NewPrefixes;
    var items := Leaves(rows);
    var ps := Merge(t, Folders(rows), items).value.tables.prefixes;
    LeafPosition(rows, i, |rows|);
    assert rows[..|rows|] == rows;
    var p := |Leaves(rows[..i])|;
    var x := items[p];
    MergedPrefixes(t, Folders(rows), items);
    NewPrefixIff(t.prefixes, items, x);
    if x in NewPrefixes(t.prefixes, items) {
      var a :| 0 <= a < |NewPrefixes(t.prefixes, items)| && NewPrefixes(t.prefixes, items)[a] == x;
      assert FromItem(ps[|t.prefixes| + a], x);
      assert LeafValues(rows[i], net, ps[|t.prefixes| + a]);
    } else {
      var k := PrefixByText(t.prefixes, x.prefix).value;
      assert FirstOfText(t.prefixes, k);
      assert PrefixColumns(t.prefixes[k], ps[k], items);
      assert ps[k].prefix == Canonical(net);
      if forall j :: i < j ==> !IsLeaf(rows, j, net) {
        forall q | p < q < |items| ensures items[q].prefix != x.prefix { assert LaterLeaf(rows, i, |rows|, items[q]); }
        LastItemWins(t.prefixes[k], ps[k], items, p);
        assert LeafValues(rows[i], net, ps[k]);
      }
    }
  }

  lemma {:induction false} LastItemWins(before: Prefix, row: Prefix, items: seq<PrefixItem>, p: nat)
    requires PrefixColumns(before, row, items) && p < |items| && items[p].prefix == before.prefix
    requires forall q :: p < q < |items| ==> items[q].prefix != before.prefix
    ensures row.status == items[p].status
    ensures items[p].description.Some? ==> row.description == items[p].description
    ensures items[p].vlanId.Some? ==> row.vlanId == items[p].vlanId
    ensures items[p].location.Some? ==> row.location == items[p].location
  {
    hide LastGiven;
    var text := before.prefix;
    LastOne(Some(row.status), Some(before.status), Given(items, text, (x: PrefixItem) => Some(x.status)), p);
    if items[p].description.Some? {
      LastOne(row.description, before.description, Given(items, text, (x: PrefixItem) => x.description), p);
    }
    if items[p].vlanId.Some? { LastOne(row.vlanId, before.vlanId, Given(items, text, (x: PrefixItem) => x.vlanId), p); }
    if items[p].location.Some? {
      LastOne(row.location, before.location, Given(items, text, (x: PrefixItem) => x.location), p);
    }
  }

  /** Folders are stored as aggregates and other subnets as prefixes, with the values they give, and
      nothing else is added. */
  lemma {:induction false} PhpipamStores(t: Tables, rows: seq<PhpipamRow>)
    requires TextsUnique(t.aggregates) && Merge(t, Folders(rows), Leaves(rows)).Ok?
    ensures PhpipamStored(t, rows, Merge(t, Folders(rows), Leaves(rows)).value.tables)
  {
    hide WellFormed, Merge, Folders, Leaves, AggregateColumns, PrefixColumns, NewAggregates, NewPrefixes, FolderStored,
      LeafStored;
    var folders, leaves := Folders(rows), Leaves(rows);
    var t' := Merge(t, folders, leaves).value.tables;
    MergedAggregates(t, folders, leaves);
    MergedPrefixes(t, folders, leaves);
    forall i, net | IsFolder(rows, i, net) ensures FolderStored(rows, i, net, t'.aggregates) {
      FolderIsStored(t, rows, i, net);
    }
    forall i, net | IsLeaf(rows, i, net)
      ensures LeafStored(rows, i, net, t'.prefixes)
    {
      LeafIsStored(t, rows, i, net);
    }
    forall k | |t.aggregates| <= k < |t'.aggregates|
      ensures FromFolder(rows, t'.aggregates[k])
    {
      var x := NewAggregates(t.aggregates, folders)[k - |t.aggregates|];
      NewAggregateIff(t.aggregates, folders, x);
      FolderOrigin(rows, x);
      assert t'.aggregates[|t.aggregates| + (k - |t.aggregates|)].prefix == x.prefix;
    }
    forall k | |t.prefixes| <= k < |t'.prefixes|
      ensures FromLeaf(rows, t'.prefixes[k])
    {
      var x := NewPrefixes(t.prefixes, leaves)[k - |t.prefixes|];
      NewPrefixIff(t.prefixes, leaves, x);
      LeafOrigin(rows, x);
      assert FromItem(t'.prefixes[|t.prefixes| + (k - |t.prefixes|)], x);
    }
  }

  method ApplyPhpipam(db: Session, rows: seq<PhpipamRow>, refusal: Refusal) returns (r: Result<Merged, IpamError>)
    requires db.Clean()
    modifies db
    ensures db.Clean() && db.stored == MergeStored(old(db.stored), Folders(rows), Leaves(rows), refusal)
    ensures r.Ok? ==> PhpipamStored(old(db.stored), rows, db.stored)
    ensures r == if refusal.NoRefusal? then Merge(old(db.stored), Folders(rows), Leaves(rows)) else Err(DatabaseError)
  {
    var folders: seq<AggregateItem>, leaves: seq<PrefixItem> := [], [];
    for n := 0 to |rows|
      invariant folders == Folders(rows[..n]) && leaves == Leaves(rows[..n])
    {
      assert rows[..n + 1][..n] == rows[..n];
      var row := rows[n];
      if row.net.None? { continue; }
      if row.isFolder {
        folders := folders + [AggregateItem(Canonical(row.net.value), None, None, row.description)];
      } else {
        leaves := leaves + [PrefixItem(Canonical(row.net.value), row.status, row.description, None, None,
                                       row.vlanId, row.location)];
      }
    }
    assert rows[..|rows|] == rows;
    if Merge(db.stored, folders, leaves).Ok? { PhpipamStores(db.stored, rows); }
    r := MergeExternal(db, folders, leaves, refusal);
  }
}
