/** What the CSV imports promise: every row is accounted for, a second import of the same
    file repeats the same failures and changes nothing, and networks stay unique. */
module CsvLaws {
  import opened Wrappers
  import opened Cidr
  import opened IpamTables
  import opened CsvImport

  // ---------- accounting ----------

  lemma {:induction false} AggregateAccounting(t: Tables, lines: seq<AggregateLine>, broken: set<int>)
    ensures var p := AggregatesImported(t, lines, broken);
            && p.imported + p.updated + p.failed == |lines|
            && |p.errors| == p.failed
    decreases |lines|
  {
    if lines != [] { AggregateAccounting(t, lines[..|lines| - 1], broken); }
  }

  lemma {:induction false} PrefixAccounting(t: Tables, lines: seq<PrefixLine>, broken: set<int>)
    ensures var p := PrefixesImported(t, lines, broken);
            && p.imported + p.updated + p.failed == |lines|
            && |p.errors| == p.failed
            && p.tables.aggregates == t.aggregates
            && |p.tables.prefixes| == |t.prefixes| + p.imported
    decreases |lines|
  {
    if lines != [] { PrefixAccounting(t, lines[..|lines| - 1], broken); }
  }

  // ---------- rows that later steps leave alone ----------

  /** `later` keeps the networks of `rows`, keeps whole rows whose network is in `s`, and
      adds no row for a network of `s`. */
  ghost predicate Extends<R>(rows: seq<R>, later: seq<R>, key: R -> Option<Net>, s: set<Net>) {
    && |rows| <= |later|
    && (forall k :: 0 <= k < |rows| ==> key(later[k]) == key(rows[k]))
    && (forall k :: 0 <= k < |rows| && key(rows[k]).Some? && key(rows[k]).value in s ==> later[k] == rows[k])
    && (forall k :: |rows| <= k < |later| && key(later[k]).Some? ==> key(later[k]).value !in s)
  }

  lemma ExtendsTransitive<R>(a: seq<R>, b: seq<R>, c: seq<R>, key: R -> Option<Net>, s: set<Net>, s': set<Net>)
    requires Extends(a, b, key, s) && Extends(b, c, key, s') && s <= s'
    ensures Extends(a, c, key, s)
  {
  }

  // ---------- aggregates: importing twice ----------

  function AggregateNet(a: Aggregate): Option<Net> { a.prefix.Parse() }

  lemma AggregateStepExtends(s: Progress, line: AggregateLine, broken: set<int>)
    ensures var s' := AggregateStep(s, line, broken);
            && Extends(s.tables.aggregates, s'.tables.aggregates, AggregateNet, s.seen)
            && s.seen <= s'.seen
  {
    hide WellFormed;
  }

  lemma {:induction false} AggregatesExtend(t: Tables, lines: seq<AggregateLine>, broken: set<int>, i: nat, n: nat)
    requires i <= n <= |lines|
    ensures var a, b := AggregatesImported(t, lines[..i], broken), AggregatesImported(t, lines[..n], broken);
            Extends(a.tables.aggregates, b.tables.aggregates, AggregateNet, a.seen) && a.seen <= b.seen
    decreases n
  {
    hide WellFormed, AggregateStep, AggregateRow, Count;
    if i < n {
      var a, b := AggregatesImported(t, lines[..i], broken), AggregatesImported(t, lines[..n - 1], broken);
      AggregatesExtend(t, lines, broken, i, n - 1);
      assert lines[..n][..n - 1] == lines[..n - 1];
      AggregateStepExtends(b, lines[n - 1], broken);
      ExtendsTransitive(a.tables.aggregates, b.tables.aggregates,
                        AggregateStep(b, lines[n - 1], broken).tables.aggregates, AggregateNet, a.seen, b.seen);
    }
  }

  predicate SameReason(first: Reason, second: Reason, refused: bool) {
    second == first || (refused && first == Rejected(DatabaseError) && second == Overlapping)
  }

  ghost predicate ErrorsRepeat(first: seq<RowError>, second: seq<RowError>, broken: set<int>) {
    && |second| == |first|
    && forall k :: 0 <= k < |first| ==>
         second[k].num == first[k].num && SameReason(first[k].reason, second[k].reason, first[k].num in broken)
  }

  /** A row fails again in the final table if it failed, and updates nothing if it did not. Only
      the reason can change: a new row whose commit was refused may overlap a later one. */
  lemma AggregateRowAgain(s: Progress, line: AggregateLine, last: Tables, broken: set<int>)
    requires var s' := AggregateStep(s, line, broken);
             Extends(s'.tables.aggregates, last.aggregates, AggregateNet, s'.seen)
    ensures var fails := line.num in broken;
            var o, o' := AggregateRow(s.tables, s.seen, line, fails), AggregateRow(last, s.seen, line, fails);
            if o.Failed? then o'.Failed? && SameReason(o.reason, o'.reason, fails) else o' == Updated(last)
  {
    hide WellFormed;
    if line.cidr.Some? && line.cidr.value.Parse().Some? && !line.dateAdded.Unreadable? {
      var net := line.cidr.value.Parse().value;
      var s' := AggregateStep(s, line, broken);
      if net !in s.seen {
        AggregateFoundLater(s'.tables.aggregates, last.aggregates, s'.seen, net);
        var k := AggregateByNet(s.tables.aggregates, net);
        if k.Some? {
          FirstAggregate(s'.tables.aggregates, k.value, net);
          assert line.num !in broken ==>
              last.aggregates[k.value := FillAggregate(last.aggregates[k.value], line)] == last.aggregates;
        } else if OverlapsExisting(s.tables.aggregates, Some(net), None) {
          var i :| 0 <= i < |s.tables.aggregates| && Clash(s.tables.aggregates[i], net);
          assert AggregateNet(last.aggregates[i]) == AggregateNet(s.tables.aggregates[i]);
          assert Clash(last.aggregates[i], net);
        } else if line.num !in broken {
          var j := |s.tables.aggregates|;
          FirstAggregate(s'.tables.aggregates, j, net);
          assert last.aggregates[j := FillAggregate(last.aggregates[j], line)] == last.aggregates;
        }
      }
    }
  }

  /** The first row of a network in `s` is found at the same place, unchanged, later on. */
  lemma AggregateFoundLater(rows: seq<Aggregate>, later: seq<Aggregate>, s: set<Net>, net: Net)
    requires Extends(rows, later, AggregateNet, s) && net in s
    ensures AggregateByNet(later, net) == AggregateByNet(rows, net)
    ensures AggregateByNet(rows, net).Some? ==>
              later[AggregateByNet(rows, net).value] == rows[AggregateByNet(rows, net).value]
  {
    var k, k' := AggregateByNet(rows, net), AggregateByNet(later, net);
    if k.Some? { assert AggregateNet(later[k.value]) == AggregateNet(rows[k.value]); }
    if k'.Some? { assert AggregateNet(later[k'.value]) == Some(net); }
  }

  lemma FirstAggregate(rows: seq<Aggregate>, k: nat, net: Net)
    requires k < |rows| && AggregateNet(rows[k]) == Some(net)
    requires forall j :: 0 <= j < k ==> AggregateNet(rows[j]) != Some(net)
    ensures AggregateByNet(rows, net) == Some(k)
  {
    var r := AggregateByNet(rows, net);
    assert r.Some? ==> AggregateNet(rows[r.value]) == Some(net);
  }

  /** One row of the second import: the counters move and the tables stay. */
  lemma AggregateStepAgain(s: Progress, line: AggregateLine, last: Tables, again: Progress, broken: set<int>)
    requires var s' := AggregateStep(s, line, broken);
             Extends(s'.tables.aggregates, last.aggregates, AggregateNet, s'.seen)
    requires again == Progress(last, s.seen, 0, s.imported + s.updated, s.failed, again.errors)
    requires ErrorsRepeat(s.errors, again.errors, broken)
    ensures var s', again' := AggregateStep(s, line, broken), AggregateStep(again, line, broken);
            && again' == Progress(last, s'.seen, 0, s'.imported + s'.updated, s'.failed, again'.errors)
            && ErrorsRepeat(s'.errors, again'.errors, broken)
  {
    hide WellFormed, AggregateRow;
    AggregateRowAgain(s, line, last, broken);
  }

  lemma {:induction false} AggregatePrefixAgain(t: Tables, lines: seq<AggregateLine>, broken: set<int>, i: nat)
    requires i <= |lines|
    ensures var last := AggregatesImported(t, lines, broken).tables;
            var a, b := AggregatesImported(t, lines[..i], broken), AggregatesImported(last, lines[..i], broken);
            && b == Progress(last, a.seen, 0, a.imported + a.updated, a.failed, b.errors)
            && ErrorsRepeat(a.errors, b.errors, broken)
    decreases i
  {
    hide WellFormed, AggregateStep;
    if i > 0 {
      hide ErrorsRepeat;
      var last := AggregatesImported(t, lines, broken).tables;
      var a := AggregatesImported(t, lines[..i - 1], broken);
      AggregatePrefixAgain(t, lines, broken, i - 1);
      assert lines[..i][..i - 1] == lines[..i - 1];
      AggregatesExtend(t, lines, broken, i, |lines|);
      assert lines[..|lines|] == lines;
      AggregateStepAgain(a, lines[i - 1], last, AggregatesImported(last, lines[..i - 1], broken), broken);
    }
  }

  /** Importing the same aggregate file a second time imports nothing, updates exactly the rows that
      were imported or updated, fails exactly the same rows and leaves the tables alone, if the
      database refuses the same rows again. Every error is repeated, except that a refused new row
      may now be reported as overlapping. */
  lemma AggregateReimport(t: Tables, lines: seq<AggregateLine>, broken: set<int>)
    ensures var first := AggregatesImported(t, lines, broken);
            var second := AggregatesImported(first.tables, lines, broken);
            && second.tables == first.tables
            && second.imported == 0
            && second.updated == first.imported + first.updated
            && second.failed == first.failed
            && ErrorsRepeat(first.errors, second.errors, broken)
            && (broken == {} ==> second.errors == first.errors)
  {
    AggregatePrefixAgain(t, lines, broken, |lines|);
    assert lines[..|lines|] == lines;
  }

  /** The one difference: a refused row, and after it a row inside its network. The second import
      reports the refused row as overlapping. */
  lemma RefusedRowOverlapsLater(outer: Net, inner: Net)
    requires SubnetOf(inner, outer) && inner != outer
    ensures var lines := [AggregateLine(2, Some(Canonical(outer)), None, Blank, None),
                          AggregateLine(3, Some(Canonical(inner)), None, Blank, None)];
            var first := AggregatesImported(Tables([], [], 1, 1), lines, {2});
            var second := AggregatesImported(first.tables, lines, {2});
            && first.errors == [RowError(2, Rejected(DatabaseError))]
            && second.errors == [RowError(2, Overlapping)]
  {
    hide WellFormed;
    var l2 := AggregateLine(2, Some(Canonical(outer)), None, Blank, None);
    var l3 := AggregateLine(3, Some(Canonical(inner)), None, Blank, None);
    var t := Tables([], [], 1, 1);
    TwoLines(t, l2, l3, {2});
    var first := AggregatesImported(t, [l2, l3], {2});
    TwoLines(first.tables, l2, l3, {2});
    assert first.tables.aggregates == [Aggregate(1, Canonical(inner), None, None, None)];
    assert Clash(first.tables.aggregates[0], outer);
    assert AggregateByNet(first.tables.aggregates, outer).None?;
  }

  lemma TwoLines(t: Tables, a: AggregateLine, b: AggregateLine, broken: set<int>)
    ensures AggregatesImported(t, [a, b], broken) == AggregateStep(AggregateStep(Start(t), a, broken), b, broken)
  {
    hide AggregateStep;
    assert [a, b][..1] == [a] && [a][..0] == [];
    assert AggregatesImported(t, [a], broken) == AggregateStep(Start(t), a, broken);
  }

  // ---------- prefixes: importing twice ----------

  function PrefixNet(p: Prefix): Option<Net> { p.prefix.Parse() }

  lemma PrefixStepExtends(s: Progress, line: PrefixLine, broken: set<int>)
    ensures var s' := PrefixStep(s, line, broken);
            && Extends(s.tables.prefixes, s'.tables.prefixes, PrefixNet, s.seen)
            && s.seen <= s'.seen
  {
    hide WellFormed, LineChecked;
  }

  lemma {:induction false} PrefixesExtend(t: Tables, lines: seq<PrefixLine>, broken: set<int>, i: nat, n: nat)
    requires i <= n <= |lines|
    ensures var a, b := PrefixesImported(t, lines[..i], broken), PrefixesImported(t, lines[..n], broken);
            Extends(a.tables.prefixes, b.tables.prefixes, PrefixNet, a.seen) && a.seen <= b.seen
    decreases n
  {
    hide WellFormed, PrefixStep, PrefixRow, Count;
    if i < n {
      var a, b := PrefixesImported(t, lines[..i], broken), PrefixesImported(t, lines[..n - 1], broken);
      PrefixesExtend(t, lines, broken, i, n - 1);
      assert lines[..n][..n - 1] == lines[..n - 1];
      PrefixStepExtends(b, lines[n - 1], broken);
      ExtendsTransitive(a.tables.prefixes, b.tables.prefixes,
                        PrefixStep(b, lines[n - 1], broken).tables.prefixes, PrefixNet, a.seen, b.seen);
    }
  }

  lemma PrefixFoundLater(rows: seq<Prefix>, later: seq<Prefix>, s: set<Net>, net: Net)
    requires Extends(rows, later, PrefixNet, s) && net in s
    ensures PrefixByNet(later, net) == PrefixByNet(rows, net)
    ensures PrefixByNet(rows, net).Some? ==>
              later[PrefixByNet(rows, net).value] == rows[PrefixByNet(rows, net).value]
  {
    var k, k' := PrefixByNet(rows, net), PrefixByNet(later, net);
    if k.Some? { assert PrefixNet(later[k.value]) == PrefixNet(rows[k.value]); }
    if k'.Some? { assert PrefixNet(later[k'.value]) == Some(net); }
  }

  lemma FirstPrefix(rows: seq<Prefix>, k: nat, net: Net)
    requires k < |rows| && PrefixNet(rows[k]) == Some(net)
    requires forall j :: 0 <= j < k ==> PrefixNet(rows[j]) != Some(net)
    ensures PrefixByNet(rows, net) == Some(k)
  {
    var r := PrefixByNet(rows, net);
    assert r.Some? ==> PrefixNet(rows[r.value]) == Some(net);
  }

  lemma CheckedAlike(t: Tables, last: Tables, net: Net, line: PrefixLine)
    requires t.aggregates == last.aggregates
    ensures LineChecked(t, net, line) == LineChecked(last, net, line)
  {
  }

  lemma PrefixRowAgain(s: Progress, line: PrefixLine, last: Tables, broken: set<int>)
    requires s.tables.aggregates == last.aggregates
    requires var s' := PrefixStep(s, line, broken);
             Extends(s'.tables.prefixes, last.prefixes, PrefixNet, s'.seen)
    ensures var fails := line.num in broken;
            var o, o' := PrefixRow(s.tables, s.seen, line, fails), PrefixRow(last, s.seen, line, fails);
            if o.Failed? then o' == o else o' == Updated(last)
  {
    hide WellFormed, LineChecked;
    if line.cidr.Some? && line.cidr.value.Parse().Some? {
      var net := line.cidr.value.Parse().value;
      var s' := PrefixStep(s, line, broken);
      CheckedAlike(s.tables, last, net, line);
      var agg := LineChecked(s.tables, net, line);
      var readable := !line.isPool.Unreadable? && !line.markUtilized.Unreadable?;
      if net !in s.seen && agg.Ok? && line.num !in broken && readable {
        PrefixFoundLater(s'.tables.prefixes, last.prefixes, s'.seen, net);
        var k := PrefixByNet(s.tables.prefixes, net);
        var j := if k.Some? then k.value else |s.tables.prefixes|;
        FirstPrefix(s'.tables.prefixes, j, net);
        assert StatusRead(line) by { CheckedReadsStatus(s.tables, net, line); }
        assert last.prefixes[j := FillPrefix(last.prefixes[j], line, agg.value)] == last.prefixes;
      }
    }
  }

  predicate StatusRead(line: PrefixLine) { line.status.Read? }

  lemma CheckedReadsStatus(t: Tables, net: Net, line: PrefixLine)
    requires LineChecked(t, net, line).Ok?
    ensures StatusRead(line)
  {
  }

  /** One row of the second import: the counters move and the tables stay. */
  lemma PrefixStepAgain(s: Progress, line: PrefixLine, last: Tables, broken: set<int>)
    requires s.tables.aggregates == last.aggregates
    requires var s' := PrefixStep(s, line, broken);
             Extends(s'.tables.prefixes, last.prefixes, PrefixNet, s'.seen)
    ensures var s' := PrefixStep(s, line, broken);
            PrefixStep(Progress(last, s.seen, 0, s.imported + s.updated, s.failed, s.errors), line, broken)
              == Progress(last, s'.seen, 0, s'.imported + s'.updated, s'.failed, s'.errors)
  {
    hide WellFormed, PrefixRow;
    PrefixRowAgain(s, line, last, broken);
  }

  lemma {:induction false} PrefixPrefixAgain(t: Tables, lines: seq<PrefixLine>, broken: set<int>, i: nat)
    requires i <= |lines|
    ensures var last := PrefixesImported(t, lines, broken).tables;
            var a := PrefixesImported(t, lines[..i], broken);
            PrefixesImported(last, lines[..i], broken)
              == Progress(last, a.seen, 0, a.imported + a.updated, a.failed, a.errors)
    decreases i
  {
    hide WellFormed, PrefixStep;
    if i > 0 {
      var last := PrefixesImported(t, lines, broken).tables;
      var a := PrefixesImported(t, lines[..i - 1], broken);
      PrefixPrefixAgain(t, lines, broken, i - 1);
      assert lines[..i][..i - 1] == lines[..i - 1];
      PrefixesExtend(t, lines, broken, i, |lines|);
      assert lines[..|lines|] == lines;
      PrefixAccounting(t, lines, broken);
      PrefixAccounting(t, lines[..i - 1], broken);
      PrefixStepAgain(a, lines[i - 1], last, broken);
    }
  }

  /** The same for the prefix file, where every error is repeated exactly. */
  lemma PrefixReimport(t: Tables, lines: seq<PrefixLine>, broken: set<int>)
    ensures var first := PrefixesImported(t, lines, broken);
            var second := PrefixesImported(first.tables, lines, broken);
            && second.tables == first.tables
            && second.imported == 0
            && second.updated == first.imported + first.updated
            && second.failed == first.failed
            && second.errors == first.errors
  {
    PrefixPrefixAgain(t, lines, broken, |lines|);
    assert lines[..|lines|] == lines;
  }

  // ---------- networks stay unique ----------

  ghost predicate PrefixNetsUnique(t: Tables) {
    forall i, j :: 0 <= i < j < |t.prefixes| && PrefixNet(t.prefixes[i]).Some? ==>
                     PrefixNet(t.prefixes[i]) != PrefixNet(t.prefixes[j])
  }

  /** The prefix import never stores a second row for a network. */
  lemma {:induction false} PrefixNetsStayUnique(t: Tables, lines: seq<PrefixLine>, broken: set<int>)
    requires PrefixNetsUnique(t)
    ensures PrefixNetsUnique(PrefixesImported(t, lines, broken).tables)
    decreases |lines|
  {
    hide WellFormed, LineChecked;
    if lines != [] {
      PrefixNetsStayUnique(t, lines[..|lines| - 1], broken);
    }
  }
}
