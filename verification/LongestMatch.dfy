/** The "smallest containing network" lookups: `_resolve_aggregate_id_for_prefix`, written
    twice in the repository with the same loop, and `suggest_scope_prefix`, which collects
    candidates and takes a maximum. Both are longest-prefix matches in the sense of
    section 5.1 of RFC 4632. */
module LongestMatch {
  import opened Wrappers
  import opened Cidr

  /** A table row as the lookups see it; `net` is None when the text is blank or malformed. */
  datatype Candidate = Candidate(id: nat, net: Option<Net>)

  predicate Holds(row: Candidate, p: Net) {
    row.net.Some? && SubnetOf(p, row.net.value)
  }

  /** The index chosen after the rows seen so far: replaced only by a strictly smaller network. */
  function BestIndex(rows: seq<Candidate>, p: Net): (r: Option<nat>)
    ensures r.Some? ==> r.value < |rows| && Holds(rows[r.value], p)
  {
    if rows == [] then None
    else
      var n := |rows| - 1;
      var before := BestIndex(rows[..n], p);
      if Holds(rows[n], p) &&
         (before.None? || Size(rows[n].net.value) < Size(rows[before.value].net.value)) then Some(n)
      else before
  }

  function Resolve(rows: seq<Candidate>, prefix: Option<Net>): Option<nat> {
    if prefix.None? then None
    else
      var k := BestIndex(rows, prefix.value);
      if k.None? then None else Some(rows[k.value].id)
  }

  lemma {:induction false} BestIsSmallest(rows: seq<Candidate>, p: Net)
    ensures BestIndex(rows, p).None? ==> forall j :: 0 <= j < |rows| ==> !Holds(rows[j], p)
    ensures BestIndex(rows, p).Some? ==>
              var k := BestIndex(rows, p).value;
              forall j :: 0 <= j < |rows| && Holds(rows[j], p) ==>
                            && Size(rows[k].net.value) <= Size(rows[j].net.value)
                            && (j < k ==> Size(rows[k].net.value) < Size(rows[j].net.value))
    decreases |rows|
  {
    if rows != [] {
      var init := rows[..|rows| - 1];
      BestIsSmallest(init, p);
      assert forall j :: 0 <= j < |init| ==> init[j] == rows[j];
    }
  }

  /** Among networks that contain `p`, the smaller lies inside the larger. */
  lemma ContainersNested(a: Net, b: Net, p: Net)
    requires SubnetOf(p, a) && SubnetOf(p, b) && Size(a) <= Size(b)
    ensures SubnetOf(a, b)
  {
    assert Contains(p, p.base);
    if a.len < b.len {
      Laminar(b, a);
      SubnetLength(b, a);
      assert a.base == b.base;
    } else {
      Laminar(a, b);
    }
  }

  /** None exactly when no row contains the prefix; otherwise the chosen network lies inside
      every other network that contains it. */
  lemma LongestMatchCorrect(rows: seq<Candidate>, p: Net)
    ensures BestIndex(rows, p).None? <==> forall j :: 0 <= j < |rows| ==> !Holds(rows[j], p)
    ensures BestIndex(rows, p).Some? ==>
              forall j :: 0 <= j < |rows| && Holds(rows[j], p) ==>
                            SubnetOf(rows[BestIndex(rows, p).value].net.value, rows[j].net.value)
  {
    BestIsSmallest(rows, p);
    if BestIndex(rows, p).Some? {
      var k := BestIndex(rows, p).value;
      forall j | 0 <= j < |rows| && Holds(rows[j], p)
        ensures SubnetOf(rows[k].net.value, rows[j].net.value)
      {
        ContainersNested(rows[k].net.value, rows[j].net.value, p);
      }
    }
  }

  /** `id` is None exactly when there is no prefix or no row's network contains it. Otherwise it is the
      id of a row whose network contains the prefix and lies inside every other network that does;
      of several rows with that network it is the first. */
  ghost predicate IsLongestMatch(rows: seq<Candidate>, prefix: Option<Net>, id: Option<nat>) {
    if prefix.None? || (forall j :: 0 <= j < |rows| ==> !RowHolds(rows, j, prefix.value)) then id == None
    else exists k :: 0 <= k < |rows| && id == Some(rows[k].id) && IsInnermost(rows, k, prefix.value)
  }

  /** Row `k` has a network and the prefix lies in it. */
  ghost predicate RowHolds(rows: seq<Candidate>, k: int, p: Net)
    requires 0 <= k < |rows|
  {
    rows[k].net.Some? && rows[k].net.value.base <= p.base && Last(p) <= Last(rows[k].net.value)
  }

  ghost predicate IsInnermost(rows: seq<Candidate>, k: int, p: Net)
    requires 0 <= k < |rows|
  {
    && RowHolds(rows, k, p)
    && forall j :: 0 <= j < |rows| && RowHolds(rows, j, p) ==>
         SubnetOf(rows[k].net.value, rows[j].net.value) && (j < k ==> rows[j].net != rows[k].net)
  }

  lemma ResolveIsLongestMatch(rows: seq<Candidate>, prefix: Option<Net>)
    ensures IsLongestMatch(rows, prefix, Resolve(rows, prefix))
  {
    hide Aligned, BestIndex;
    if prefix.Some? {
      var p := prefix.value;
      LongestMatchCorrect(rows, p);
      BestIsSmallest(rows, p);
      forall j | 0 <= j < |rows| ensures RowHolds(rows, j, p) <==> Holds(rows[j], p) {}
      var k := BestIndex(rows, p);
      if k.Some? { assert IsInnermost(rows, k.value, p); }
    }
  }

  method ResolveAggregateId(rows: seq<Candidate>, prefix: Option<Net>) returns (best: Option<nat>)
    ensures best == Resolve(rows, prefix)
    ensures IsLongestMatch(rows, prefix, best)
  {
    if prefix.None? { return None; }
    var p := prefix.value;
    best := None;
    var bestNet: Option<Net> := None;
    for i := 0 to |rows|
      invariant var k := BestIndex(rows[..i], p);
                if k.None? then best == None && bestNet == None
                else best == Some(rows[k.value].id) && bestNet == rows[k.value].net
    {
      assert rows[..i + 1][..i] == rows[..i];
      var row := rows[i];
      if row.net.Some? && SubnetOf(p, row.net.value) {
        if bestNet.None? || Size(row.net.value) < Size(bestNet.value) {
          best := Some(row.id);
          bestNet := row.net;
        }
      }
    }
    assert rows[..|rows|] == rows;
    ResolveIsLongestMatch(rows, prefix);
  }

  ghost function ChosenNet(rows: seq<Candidate>, p: Net): Option<Net> {
    var k := BestIndex(rows, p);
    if k.None? then None else rows[k.value].net
  }

  /** Row order cannot change the chosen network. */
  lemma OrderIrrelevant(rows: seq<Candidate>, other: seq<Candidate>, p: Net)
    requires multiset(rows) == multiset(other)
    ensures ChosenNet(rows, p) == ChosenNet(other, p)
  {
    LongestMatchCorrect(rows, p);
    LongestMatchCorrect(other, p);
    if BestIndex(rows, p).Some? { ChosenElsewhere(rows, other, p); }
    if BestIndex(other, p).Some? { ChosenElsewhere(other, rows, p); }
    if ChosenNet(rows, p).Some? {
      var a, b := ChosenNet(rows, p).value, ChosenNet(other, p).value;
      SubnetLength(a, b);
      SubnetLength(b, a);
    }
  }

  lemma ChosenElsewhere(rows: seq<Candidate>, other: seq<Candidate>, p: Net)
    requires multiset(rows) == multiset(other) && BestIndex(rows, p).Some?
    ensures ChosenNet(other, p).Some? && SubnetOf(ChosenNet(other, p).value, ChosenNet(rows, p).value)
  {
    var row := rows[BestIndex(rows, p).value];
    assert row in multiset(other);
    var j :| 0 <= j < |other| && other[j] == row;
    LongestMatchCorrect(other, p);
  }

  // ---------- suggest_scope_prefix ----------

  const SUGGEST_LIMIT: nat := 500

  /** Python's `max(candidates, key=...)`: the first candidate with the largest key. */
  function FirstMax(keys: seq<int>): (k: nat)
    requires keys != []
    ensures k < |keys|
    ensures forall j :: 0 <= j < |keys| ==> keys[j] <= keys[k] && (j < k ==> keys[j] < keys[k])
  {
    if |keys| == 1 then 0
    else
      var k := FirstMax(keys[..|keys| - 1]);
      assert forall j :: 0 <= j < |keys| - 1 ==> keys[..|keys| - 1][j] == keys[j];
      if keys[k] < keys[|keys| - 1] then |keys| - 1 else k
  }

  method SuggestPrefix(table: seq<Candidate>, scope: Option<Net>) returns (r: Option<nat>)
    ensures r == Resolve(if |table| <= SUGGEST_LIMIT then table else table[..SUGGEST_LIMIT], scope)
    ensures IsLongestMatch(if |table| <= 500 then table else table[..500], scope, r)
  {
    ResolveIsLongestMatch(if |table| <= SUGGEST_LIMIT then table else table[..SUGGEST_LIMIT], scope);
    if scope.None? { return None; }
    var p := scope.value;
    var rows := if |table| <= SUGGEST_LIMIT then table else table[..SUGGEST_LIMIT];
    var chosen: seq<nat> := [];
    var lengths: seq<int> := [];
    for i := 0 to |rows|
      invariant |chosen| == |lengths|
      invariant forall c :: 0 <= c < |chosen| ==> chosen[c] < i && Holds(rows[chosen[c]], p) &&
                                                  lengths[c] == rows[chosen[c]].net.value.len
      invariant forall c, d :: 0 <= c < d < |chosen| ==> chosen[c] < chosen[d]
      invariant forall j :: 0 <= j < i && Holds(rows[j], p) ==> j in chosen
    {
      var row := rows[i];
      if row.net.Some? && (SubnetOf(p, row.net.value) || p == row.net.value) {
        chosen := chosen + [i];
        lengths := lengths + [row.net.value.len];
      }
    }
    BestIsSmallest(rows, p);
    if chosen == [] { return None; }
    var best := FirstMax(lengths);
    r := Some(rows[chosen[best]].id);
    FirstMaxIsBest(rows, p, chosen, lengths);
  }

  /** Longest prefix first and smallest network first are the same choice. */
  lemma FirstMaxIsBest(rows: seq<Candidate>, p: Net, chosen: seq<nat>, lengths: seq<int>)
    requires |chosen| == |lengths| && chosen != []
    requires forall c :: 0 <= c < |chosen| ==> chosen[c] < |rows| && Holds(rows[chosen[c]], p) &&
                                               lengths[c] == rows[chosen[c]].net.value.len
    requires forall c, d :: 0 <= c < d < |chosen| ==> chosen[c] < chosen[d]
    requires forall j :: 0 <= j < |rows| && Holds(rows[j], p) ==> j in chosen
    ensures BestIndex(rows, p) == Some(chosen[FirstMax(lengths)])
  {
    hide Aligned, BestIndex, FirstMax;
    BestIsSmallest(rows, p);
    var b := FirstMax(lengths);
    assert Holds(rows[chosen[b]], p);
    var k := BestIndex(rows, p).value;
    assert k in chosen;
    var c :| 0 <= c < |chosen| && chosen[c] == k;
    LongerIsSmaller(rows[k].net.value, rows[chosen[b]].net.value);
    assert lengths[c] == lengths[b];
    assert Size(rows[k].net.value) == Size(rows[chosen[b]].net.value);
    assert !(b < c) && !(c < b);
  }

  lemma LongerIsSmaller(a: Net, b: Net)
    ensures a.len < b.len ==> Size(b) < Size(a)
  {
    if a.len < b.len {
      Pow2Monotone(32 - b.len + 1, 32 - a.len);
    }
  }
}
