/** The write-back at the end of `_collect_dhcp_via_winrm_powershell`: lease batches are
    gathered in whatever order the fetches complete, counted per (server, scope), and the
    counts are folded into the scope and server records in place. */
module DhcpWriteBack {
  import opened Wrappers

  datatype Key = Key(server: string, scope: string)

  datatype Lease = Lease(key: Key, address: string)

  /** One finished fetch: its rows, or an error. */
  datatype Batch = Rows(leases: seq<Lease>) | Failed

  datatype Scope = Scope(key: Key, total: int, used: int, available: int)

  datatype Server = Server(total: int, used: int, available: int)

  function AllLeases(batches: seq<Batch>): seq<Lease> {
    if batches == [] then []
    else
      var b := batches[|batches| - 1];
      AllLeases(batches[..|batches| - 1]) + if b.Rows? then b.leases else []
  }

  function ErrorCount(batches: seq<Batch>): nat {
    if batches == [] then 0
    else ErrorCount(batches[..|batches| - 1]) + if batches[|batches| - 1].Failed? then 1 else 0
  }

  method GatherLeases(batches: seq<Batch>) returns (leases: seq<Lease>, errors: nat)
    ensures leases == AllLeases(batches) && errors == ErrorCount(batches)
  {
    leases, errors := [], 0;
    for i := 0 to |batches|
      invariant leases == AllLeases(batches[..i]) && errors == ErrorCount(batches[..i])
    {
      assert batches[..i + 1][..i] == batches[..i];
      if batches[i].Failed? {
        errors := errors + 1;
      } else {
        leases := leases + batches[i].leases;
      }
    }
    assert batches[..|batches|] == batches;
  }

  function Count(leases: seq<Lease>, k: Key): nat {
    if leases == [] then 0
    else Count(leases[..|leases| - 1], k) + if leases[|leases| - 1].key == k then 1 else 0
  }

  function WrittenScope(sc: Scope, n: nat): Scope {
    if n > 0 then sc.(used := n, available := Max(0, sc.total - n)) else sc
  }

  function WrittenServer(srv: Server, used: int): Server {
    srv.(used := used, available := Max(0, srv.total - used))
  }

  function TotalUsed(scopes: seq<Scope>): int {
    if scopes == [] then 0 else TotalUsed(scopes[..|scopes| - 1]) + scopes[|scopes| - 1].used
  }

  /** Every scope with leases holds its count, the others keep what they had, and every server
      holds the sum over the written scopes. */
  ghost predicate WrittenBack(leases: seq<Lease>, scopes: seq<Scope>, servers: seq<Server>,
                              scopes': seq<Scope>, servers': seq<Server>) {
    && |scopes'| == |scopes| && |servers'| == |servers|
    && (forall i :: 0 <= i < |scopes| ==> scopes'[i] == WrittenScope(scopes[i], Count(leases, scopes[i].key)))
    && (forall i :: 0 <= i < |servers| ==> servers'[i] == WrittenServer(servers[i], TotalUsed(scopes')))
  }

  method CountLeases(leases: seq<Lease>) returns (counts: map<Key, nat>)
    ensures forall k :: (if k in counts then counts[k] else 0) == Count(leases, k)
  {
    counts := map[];
    for i := 0 to |leases|
      invariant forall k :: (if k in counts then counts[k] else 0) == Count(leases[..i], k)
    {
      assert leases[..i + 1][..i] == leases[..i];
      var k := leases[i].key;
      counts := counts[k := (if k in counts then counts[k] else 0) + 1];
    }
    assert leases[..|leases|] == leases;
  }

  method WriteBack(leases: seq<Lease>, scopes: array<Scope>, servers: array<Server>)
    modifies scopes, servers
    ensures WrittenBack(leases, old(scopes[..]), old(servers[..]), scopes[..], servers[..])
  {
    var counts := CountLeases(leases);
    var total := 0;
    for i := 0 to scopes.Length
      invariant forall j :: 0 <= j < i ==> scopes[j] == WrittenScope(old(scopes[j]), Count(leases, old(scopes[j]).key))
      invariant forall j :: i <= j < scopes.Length ==> scopes[j] == old(scopes[j])
      invariant servers[..] == old(servers[..])
      invariant total == TotalUsed(scopes[..i])
    {
      ghost var before := scopes[..i];
      var sc := scopes[i];
      var n := if sc.key in counts then counts[sc.key] else 0;
      if n > 0 {
        scopes[i] := sc.(used := n, available := Max(0, sc.total - n));
      }
      assert scopes[..i] == before && scopes[..i + 1][..i] == before;
      total := total + scopes[i].used;
    }
    assert scopes[..scopes.Length] == scopes[..];
    ghost var written := scopes[..];
    for i := 0 to servers.Length
      invariant scopes[..] == written
      invariant forall j :: 0 <= j < i ==> servers[j] == WrittenServer(old(servers[j]), total)
      invariant forall j :: i <= j < servers.Length ==> servers[j] == old(servers[j])
    {
      servers[i] := servers[i].(used := total, available := Max(0, servers[i].total - total));
    }
  }

  /** The end of the collection: it fails, writing nothing, when there were errors and not one
      lease; otherwise the counts are written back. */
  method Finish(batches: seq<Batch>, scopes: array<Scope>, servers: array<Server>) returns (ok: bool)
    modifies scopes, servers
    ensures ok == !(ErrorCount(batches) > 0 && AllLeases(batches) == [])
    ensures ok ==> WrittenBack(AllLeases(batches), old(scopes[..]), old(servers[..]), scopes[..], servers[..])
    ensures !ok ==> scopes[..] == old(scopes[..]) && servers[..] == old(servers[..])
  {
    var leases, errors := GatherLeases(batches);
    ok := !(errors > 0 && leases == []);
    if ok {
      WriteBack(leases, scopes, servers);
    }
  }

  // ---------- completion order ----------

  lemma MiddleOut<T>(a: seq<T>, m: seq<T>, b: seq<T>)
    ensures multiset((a + m) + b) == multiset(a + b) + multiset(m)
  {
  }

  lemma Without<T>(xs: seq<T>, p: nat)
    requires p < |xs|
    ensures multiset(xs) == multiset(xs[..p] + xs[p + 1..]) + multiset([xs[p]])
  {
    assert xs == (xs[..p] + [xs[p]]) + xs[p + 1..];
    MiddleOut(xs[..p], [xs[p]], xs[p + 1..]);
  }

  /** The last element of `xs` taken out of a permutation of `xs`. */
  lemma TakeOut<T>(xs: seq<T>, ys: seq<T>) returns (p: nat)
    requires multiset(xs) == multiset(ys) && xs != []
    ensures p < |ys| && ys[p] == xs[|xs| - 1]
    ensures multiset(xs[..|xs| - 1]) == multiset(ys[..p] + ys[p + 1..])
  {
    var n := |xs| - 1;
    assert xs[n] in multiset(ys);
    p :| 0 <= p < |ys| && ys[p] == xs[n];
    Without(xs, n);
    Without(ys, p);
    assert xs[..n] + xs[n + 1..] == xs[..n];
    assert multiset(xs[..n]) == multiset(xs) - multiset([xs[n]]);
  }

  lemma {:induction false} CountOfMultiset(xs: seq<Lease>, ys: seq<Lease>, k: Key)
    requires multiset(xs) == multiset(ys)
    ensures Count(xs, k) == Count(ys, k)
    decreases |xs|
  {
    if xs != [] {
      var p := TakeOut(xs, ys);
      CountOfMultiset(xs[..|xs| - 1], ys[..p] + ys[p + 1..], k);
      CountSplit(ys, p, k);
    } else {
      assert |multiset(ys)| == 0;
    }
  }

  lemma {:induction false} CountConcat(xs: seq<Lease>, ys: seq<Lease>, k: Key)
    ensures Count(xs + ys, k) == Count(xs, k) + Count(ys, k)
    decreases |ys|
  {
    if ys == [] {
      assert xs + ys == xs;
    } else {
      assert (xs + ys)[..|xs + ys| - 1] == xs + ys[..|ys| - 1];
      CountConcat(xs, ys[..|ys| - 1], k);
    }
  }

  lemma CountSplit(ys: seq<Lease>, p: nat, k: Key)
    requires p < |ys|
    ensures Count(ys, k) == Count(ys[..p] + ys[p + 1..], k) + if ys[p].key == k then 1 else 0
  {
    assert ys == ys[..p] + ([ys[p]] + ys[p + 1..]);
    CountConcat(ys[..p], [ys[p]] + ys[p + 1..], k);
    CountConcat([ys[p]], ys[p + 1..], k);
    CountConcat(ys[..p], ys[p + 1..], k);
    assert [ys[p]][..0] == [];
  }

  lemma {:induction false} LeasesConcat(xs: seq<Batch>, ys: seq<Batch>)
    ensures AllLeases(xs + ys) == AllLeases(xs) + AllLeases(ys)
    ensures ErrorCount(xs + ys) == ErrorCount(xs) + ErrorCount(ys)
    decreases |ys|
  {
    if ys == [] {
      assert xs + ys == xs;
    } else {
      assert (xs + ys)[..|xs + ys| - 1] == xs + ys[..|ys| - 1];
      LeasesConcat(xs, ys[..|ys| - 1]);
    }
  }

  lemma {:induction false} BatchSplit(ys: seq<Batch>, p: nat)
    requires p < |ys|
    ensures multiset(AllLeases(ys)) ==
            multiset(AllLeases(ys[..p] + ys[p + 1..])) + multiset(if ys[p].Rows? then ys[p].leases else [])
    ensures ErrorCount(ys) == ErrorCount(ys[..p] + ys[p + 1..]) + if ys[p].Failed? then 1 else 0
  {
    hide AllLeases, ErrorCount;
    assert ys == ys[..p + 1] + ys[p + 1..];
    LeasesConcat(ys[..p], ys[p + 1..]);
    LeasesConcat(ys[..p + 1], ys[p + 1..]);
    LastBatch(ys, p);
    MiddleOut(AllLeases(ys[..p]), if ys[p].Rows? then ys[p].leases else [], AllLeases(ys[p + 1..]));
  }

  lemma LastBatch(ys: seq<Batch>, p: nat)
    requires p < |ys|
    ensures AllLeases(ys[..p + 1]) == AllLeases(ys[..p]) + if ys[p].Rows? then ys[p].leases else []
    ensures ErrorCount(ys[..p + 1]) == ErrorCount(ys[..p]) + if ys[p].Failed? then 1 else 0
  {
    assert ys[..p + 1][..p] == ys[..p];
  }

  lemma {:induction false} LeasesOfMultiset(xs: seq<Batch>, ys: seq<Batch>)
    requires multiset(xs) == multiset(ys)
    ensures multiset(AllLeases(xs)) == multiset(AllLeases(ys))
    ensures ErrorCount(xs) == ErrorCount(ys)
    decreases |xs|
  {
    if xs != [] {
      var p := TakeOut(xs, ys);
      LeasesOfMultiset(xs[..|xs| - 1], ys[..p] + ys[p + 1..]);
      BatchSplit(ys, p);
    } else {
      assert |multiset(ys)| == 0;
    }
  }

  /** The order in which the fetches complete does not change what is written, nor whether the
      collection fails. */
  lemma {:induction false} OrderIrrelevant(
      batches: seq<Batch>, other: seq<Batch>, scopes: seq<Scope>, servers: seq<Server>,
      scopes1: seq<Scope>, servers1: seq<Server>, scopes2: seq<Scope>, servers2: seq<Server>)
    requires multiset(batches) == multiset(other)
    requires WrittenBack(AllLeases(batches), scopes, servers, scopes1, servers1)
    requires WrittenBack(AllLeases(other), scopes, servers, scopes2, servers2)
    ensures scopes1 == scopes2 && servers1 == servers2
    ensures multiset(AllLeases(batches)) == multiset(AllLeases(other))
    ensures ErrorCount(batches) == ErrorCount(other)
    ensures AllLeases(batches) == [] <==> AllLeases(other) == []
  {
    LeasesOfMultiset(batches, other);
    assert |multiset(AllLeases(batches))| == |AllLeases(batches)|;
    assert |multiset(AllLeases(other))| == |AllLeases(other)|;
    forall i | 0 <= i < |scopes| ensures scopes1[i] == scopes2[i] {
      CountOfMultiset(AllLeases(batches), AllLeases(other), scopes[i].key);
    }
    assert scopes1 == scopes2;
    assert servers1 == servers2;
  }

  // ---------- sums ----------

  /** A scope that got leases adds up exactly when they fit in the pool, and so does a server. */
  lemma AddsUpIffFits(leases: seq<Lease>, scopes: seq<Scope>, servers: seq<Server>,
                      scopes': seq<Scope>, servers': seq<Server>)
    requires WrittenBack(leases, scopes, servers, scopes', servers')
    ensures forall i :: 0 <= i < |scopes| && Count(leases, scopes[i].key) > 0 ==>
                          (scopes'[i].used + scopes'[i].available == scopes'[i].total
                           <==> scopes'[i].used <= scopes'[i].total)
    ensures forall i :: 0 <= i < |servers| ==>
                          (servers'[i].used + servers'[i].available == servers'[i].total
                           <==> TotalUsed(scopes') <= servers'[i].total)
  {
  }

  /** The figures scopes without leases bring along. */
  function StaleUsed(leases: seq<Lease>, scopes: seq<Scope>): int {
    if scopes == [] then 0
    else
      var sc := scopes[|scopes| - 1];
      StaleUsed(leases, scopes[..|scopes| - 1]) + if Count(leases, sc.key) > 0 then 0 else sc.used
  }

  function CountSum(leases: seq<Lease>, scopes: seq<Scope>): nat {
    if scopes == [] then 0
    else CountSum(leases, scopes[..|scopes| - 1]) + Count(leases, scopes[|scopes| - 1].key)
  }

  /** How many scope records carry the key. */
  function Carriers(scopes: seq<Scope>, k: Key): nat {
    if scopes == [] then 0
    else Carriers(scopes[..|scopes| - 1], k) + if scopes[|scopes| - 1].key == k then 1 else 0
  }

  function CarrierSum(leases: seq<Lease>, scopes: seq<Scope>): nat {
    if leases == [] then 0
    else CarrierSum(leases[..|leases| - 1], scopes) + Carriers(scopes, leases[|leases| - 1].key)
  }

  function Matched(leases: seq<Lease>, scopes: seq<Scope>): nat {
    if leases == [] then 0
    else Matched(leases[..|leases| - 1], scopes) + if Carriers(scopes, leases[|leases| - 1].key) > 0 then 1 else 0
  }

  lemma {:induction false} WrittenTotal(leases: seq<Lease>, scopes: seq<Scope>, scopes': seq<Scope>)
    requires |scopes'| == |scopes|
    requires forall i :: 0 <= i < |scopes| ==> scopes'[i] == WrittenScope(scopes[i], Count(leases, scopes[i].key))
    ensures TotalUsed(scopes') == StaleUsed(leases, scopes) + CountSum(leases, scopes)
    decreases |scopes|
  {
    if scopes != [] {
      WrittenTotal(leases, scopes[..|scopes| - 1], scopes'[..|scopes| - 1]);
    }
  }

  lemma {:induction false} NoLeases(scopes: seq<Scope>)
    ensures CountSum([], scopes) == 0
    decreases |scopes|
  {
    if scopes != [] { NoLeases(scopes[..|scopes| - 1]); }
  }

  lemma {:induction false} OneMoreLease(leases: seq<Lease>, scopes: seq<Scope>)
    requires leases != []
    ensures CountSum(leases, scopes) ==
            CountSum(leases[..|leases| - 1], scopes) + Carriers(scopes, leases[|leases| - 1].key)
    decreases |scopes|
  {
    if scopes != [] { OneMoreLease(leases, scopes[..|scopes| - 1]); }
  }

  /** Summing lease counts over scopes is summing carriers over leases. */
  lemma {:induction false} DoubleCounting(leases: seq<Lease>, scopes: seq<Scope>)
    ensures CountSum(leases, scopes) == CarrierSum(leases, scopes)
    decreases |leases|
  {
    if leases == [] {
      NoLeases(scopes);
    } else {
      OneMoreLease(leases, scopes);
      DoubleCounting(leases[..|leases| - 1], scopes);
    }
  }

  ghost predicate SharedKey(leases: seq<Lease>, scopes: seq<Scope>) {
    exists i :: 0 <= i < |leases| && Carriers(scopes, leases[i].key) > 1
  }

  lemma {:induction false} MatchedOnce(leases: seq<Lease>, scopes: seq<Scope>)
    ensures Matched(leases, scopes) <= CarrierSum(leases, scopes)
    ensures Matched(leases, scopes) == CarrierSum(leases, scopes) <==> !SharedKey(leases, scopes)
    decreases |leases|
  {
    if leases != [] {
      var init := leases[..|leases| - 1];
      MatchedOnce(init, scopes);
      assert forall i :: 0 <= i < |init| ==> init[i] == leases[i];
      if SharedKey(init, scopes) {
        var i :| 0 <= i < |init| && Carriers(scopes, init[i].key) > 1;
        assert Carriers(scopes, leases[i].key) > 1;
      }
    }
  }

  /** A server's figure counts every lease of a known scope once, exactly when no lease's
      (server, scope) key belongs to two scope records. */
  lemma ServerCountsEachLeaseOnceIff(leases: seq<Lease>, scopes: seq<Scope>, servers: seq<Server>,
                                     scopes': seq<Scope>, servers': seq<Server>, i: nat)
    requires WrittenBack(leases, scopes, servers, scopes', servers') && i < |servers|
    ensures servers'[i].used == TotalUsed(scopes')
    ensures servers'[i].used >= StaleUsed(leases, scopes) + Matched(leases, scopes)
    ensures servers'[i].used == StaleUsed(leases, scopes) + Matched(leases, scopes) <==> !SharedKey(leases, scopes)
  {
    WrittenTotal(leases, scopes, scopes');
    DoubleCounting(leases, scopes);
    MatchedOnce(leases, scopes);
  }

  ghost predicate DistinctKeys(scopes: seq<Scope>) {
    forall i, j :: 0 <= i < j < |scopes| ==> scopes[i].key != scopes[j].key
  }

  lemma {:induction false} DistinctCarriers(scopes: seq<Scope>, k: Key)
    requires DistinctKeys(scopes)
    ensures Carriers(scopes, k) <= 1
    ensures Carriers(scopes, k) == 1 <==> exists i :: 0 <= i < |scopes| && scopes[i].key == k
    decreases |scopes|
  {
    if scopes != [] {
      var n := |scopes| - 1;
      DistinctCarriers(scopes[..n], k);
      assert forall i :: 0 <= i < n ==> scopes[..n][i] == scopes[i];
    }
  }

  /** Distinct scope keys therefore never count a lease twice. */
  lemma DistinctKeysShareNothing(leases: seq<Lease>, scopes: seq<Scope>)
    requires DistinctKeys(scopes)
    ensures !SharedKey(leases, scopes)
  {
    forall i | 0 <= i < |leases| ensures Carriers(scopes, leases[i].key) <= 1 {
      DistinctCarriers(scopes, leases[i].key);
    }
  }

  // ---------- the figures, told without their loops ----------

  /** A scope's count is the number of lease rows with its key. */
  lemma {:induction false} CountLaw(leases: seq<Lease>, k: Key)
    ensures Count(leases, k) == |set i | 0 <= i < |leases| && leases[i].key == k|
    decreases |leases|
  {
    if leases != [] {
      var n := |leases| - 1;
      CountLaw(leases[..n], k);
      OneMoreOfKey(leases, k);
    }
  }

  lemma {:induction false} OneMoreOfKey(leases: seq<Lease>, k: Key)
    requires leases != []
    ensures var n := |leases| - 1;
            |set i | 0 <= i < |leases| && leases[i].key == k|
            == |set i | 0 <= i < n && leases[..n][i].key == k| + if leases[n].key == k then 1 else 0
  {
    var n := |leases| - 1;
    var all := set i | 0 <= i < |leases| && leases[i].key == k;
    var init := set i | 0 <= i < n && leases[..n][i].key == k;
    assert n !in init;
    if leases[n].key == k {
      assert all == init + {n};
    } else {
      assert all == init;
    }
  }

  /** All leases are the rows of the successful fetches, fetch after fetch. */
  lemma {:induction false} GatherLaw(before: seq<Batch>, after: seq<Batch>, leases: seq<Lease>)
    ensures AllLeases([]) == [] && ErrorCount([]) == 0
    ensures AllLeases(before + [Rows(leases)] + after) == AllLeases(before) + leases + AllLeases(after)
    ensures ErrorCount(before + [Rows(leases)] + after) == ErrorCount(before) + ErrorCount(after)
    ensures AllLeases(before + [Failed] + after) == AllLeases(before) + AllLeases(after)
    ensures ErrorCount(before + [Failed] + after) == ErrorCount(before) + 1 + ErrorCount(after)
  {
    LeasesConcat(before + [Rows(leases)], after);
    LeasesConcat(before, [Rows(leases)]);
    LeasesConcat(before + [Failed], after);
    LeasesConcat(before, [Failed]);
    assert [Rows(leases)][..0] == [] && [Failed][..0] == [];
    assert AllLeases(before) + [] == AllLeases(before);
  }

  /** The sum does not depend on where it is split. */
  lemma {:induction false} TotalLaw(a: seq<Scope>, b: seq<Scope>, sc: Scope)
    ensures TotalUsed([]) == 0 && TotalUsed([sc]) == sc.used && TotalUsed(a + b) == TotalUsed(a) + TotalUsed(b)
    decreases |b|
  {
    assert [sc][..0] == [];
    if b == [] {
      assert a + b == a;
    } else {
      TotalLaw(a, b[..|b| - 1], sc);
      assert (a + b)[..|a + b| - 1] == a + b[..|b| - 1];
    }
  }

  /** What is written: key and total stay; a scope with leases holds their number and what is left of its
      total, not below 0; others keep their figures; every server gets the sum of the scopes. */
  lemma {:induction false} WriteBackLaw(leases: seq<Lease>, scopes: seq<Scope>, servers: seq<Server>,
                                        scopes': seq<Scope>, servers': seq<Server>)
    requires WrittenBack(leases, scopes, servers, scopes', servers')
    ensures |scopes'| == |scopes| && |servers'| == |servers|
    ensures forall i :: 0 <= i < |scopes| ==>
                          && scopes'[i].key == scopes[i].key && scopes'[i].total == scopes[i].total
                          && var n := Count(leases, scopes[i].key);
                             && scopes'[i].used == (if n == 0 then scopes[i].used else n)
                             && scopes'[i].available == (if n == 0 then scopes[i].available
                                                         else if n <= scopes[i].total then scopes[i].total - n else 0)
    ensures forall i :: 0 <= i < |servers| ==>
                          && servers'[i].total == servers[i].total && servers'[i].used == TotalUsed(scopes')
                          && servers'[i].available == if TotalUsed(scopes') <= servers[i].total
                                                      then servers[i].total - TotalUsed(scopes') else 0
  {
  }
}
