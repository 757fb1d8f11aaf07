/** `_aggregate_available_ranges` and `_aggregate_utilization`: the sweep over an
    aggregate's child prefixes and the count of used addresses.

    A child row's CIDR column is `None` when it is blank or does not parse. */
module FreeSpace {
  import opened Wrappers
  import opened Cidr
  import opened RangeCover

  datatype Gap = Gap(lo: int, hi: int)

  /** `IPv4Address(2^32)` raises when a prefix ends at 255.255.255.255. */
  datatype AddressError = AddressTooLarge

  // ---------- children and their order ----------

  function Parsed(children: seq<Option<Net>>): seq<Net> {
    if children == [] then []
    else (if children[0].Some? then [children[0].value] else []) + Parsed(children[1..])
  }

  function Inside(agg: Net, nets: seq<Net>): seq<Net> {
    if nets == [] then []
    else (if SubnetOf(nets[0], agg) then [nets[0]] else []) + Inside(agg, nets[1..])
  }

  /** The sort key (network_address, num_addresses). */
  predicate KeyLess(a: Net, b: Net) {
    a.base < b.base || (a.base == b.base && Size(a) < Size(b))
  }

  function Insert(n: Net, s: seq<Net>): seq<Net> {
    if s == [] then [n]
    else if KeyLess(s[0], n) then [s[0]] + Insert(n, s[1..])
    else [n] + s
  }

  /** Python's stable `list.sort` by that key; equal keys are equal networks. */
  function SortNets(s: seq<Net>): seq<Net> {
    if s == [] then [] else Insert(s[0], SortNets(s[1..]))
  }

  /** The child networks in sweep order. */
  function SweepOrder(agg: Net, children: seq<Option<Net>>): seq<Net> {
    SortNets(Inside(agg, Parsed(children)))
  }

  ghost predicate ByBase(s: seq<Net>) {
    forall i, j :: 0 <= i < j < |s| ==> s[i].base <= s[j].base
  }

  /** Ascending by network address, and by number of addresses where that is the same. */
  ghost predicate BySortKey(s: seq<Net>) {
    forall i, j :: 0 <= i < j < |s| ==>
                     s[i].base < s[j].base || (s[i].base == s[j].base && Size(s[i]) <= Size(s[j]))
  }

  lemma {:induction false} InsertKeepsOrder(n: Net, s: seq<Net>)
    requires BySortKey(s)
    ensures BySortKey(Insert(n, s))
    ensures Insert(n, s) != [] && (Insert(n, s)[0] == n || (s != [] && Insert(n, s)[0] == s[0]))
  {
    hide WellFormed;
    if s != [] && KeyLess(s[0], n) {
      InsertKeepsOrder(n, s[1..]);
      var t := Insert(n, s[1..]);
      assert t[0] == n || t[0] == s[1];
      assert Insert(n, s) == [s[0]] + t;
    }
  }

  lemma {:induction false} SortOrders(s: seq<Net>)
    ensures BySortKey(SortNets(s)) && ByBase(SortNets(s))
  {
    if s != [] {
      SortOrders(s[1..]);
      InsertKeepsOrder(s[0], SortNets(s[1..]));
    }
  }

  lemma {:induction false} InsertContents(n: Net, s: seq<Net>)
    ensures multiset(Insert(n, s)) == multiset([n] + s)
  {
    if s != [] && KeyLess(s[0], n) {
      InsertContents(n, s[1..]);
      assert [n] + s == [n, s[0]] + s[1..];
    }
  }

  lemma {:induction false} SortPermutes(s: seq<Net>)
    ensures multiset(SortNets(s)) == multiset(s)
  {
    if s != [] {
      SortPermutes(s[1..]);
      InsertContents(s[0], SortNets(s[1..]));
      assert s == [s[0]] + s[1..];
    }
  }

  lemma SameKeySameNet(a: Net, b: Net)
    requires a.base == b.base && Size(a) == Size(b)
    ensures a == b
  {
    if a.len < b.len { Pow2Monotone(32 - b.len + 1, 32 - a.len); }
    if b.len < a.len { Pow2Monotone(32 - a.len + 1, 32 - b.len); }
  }

  /** The key orders networks completely: there is one sorted arrangement. */
  lemma {:induction false} SortedUnique(a: seq<Net>, b: seq<Net>)
    requires BySortKey(a) && BySortKey(b) && multiset(a) == multiset(b)
    ensures a == b
  {
    hide WellFormed, BySortKey, Size;
    SameLength(a, b);
    if a != [] {
      FirstIsLeast(a, b);
      FirstIsLeast(b, a);
      SameKeySameNet(a[0], b[0]);
      TailsAlike(a, b);
      SortedUnique(a[1..], b[1..]);
      assert a == [a[0]] + a[1..] && b == [b[0]] + b[1..];
    }
  }

  lemma SameLength(a: seq<Net>, b: seq<Net>)
    requires multiset(a) == multiset(b)
    ensures |a| == |b|
  {
    assert |multiset(a)| == |a| && |multiset(b)| == |b|;
  }

  lemma {:induction false} TailsAlike(a: seq<Net>, b: seq<Net>)
    requires BySortKey(a) && BySortKey(b) && multiset(a) == multiset(b) && a != [] && b != [] && a[0] == b[0]
    ensures BySortKey(a[1..]) && BySortKey(b[1..]) && multiset(a[1..]) == multiset(b[1..])
  {
    hide BySortKey;
    SortedTail(a);
    SortedTail(b);
    TailMultiset(a);
    TailMultiset(b);
  }

  lemma {:induction false} SortedTail(a: seq<Net>)
    requires BySortKey(a) && a != []
    ensures BySortKey(a[1..])
  {
    hide WellFormed, Size;
    var tail := a[1..];
    forall i, j | 0 <= i < j < |tail|
      ensures tail[i].base < tail[j].base || (tail[i].base == tail[j].base && Size(tail[i]) <= Size(tail[j]))
    {
      assert tail[i] == a[i + 1] && tail[j] == a[j + 1];
    }
  }

  lemma TailMultiset<T>(a: seq<T>)
    requires a != []
    ensures multiset(a[1..]) == multiset(a) - multiset{a[0]}
  {
    assert a == [a[0]] + a[1..];
  }

  lemma {:induction false} FirstIsLeast(a: seq<Net>, b: seq<Net>)
    requires BySortKey(a) && multiset(a) == multiset(b) && a != [] && b != []
    ensures a[0].base < b[0].base || (a[0].base == b[0].base && Size(a[0]) <= Size(b[0]))
  {
    hide WellFormed;
    assert b[0] in multiset(a);
    var i :| 0 <= i < |a| && a[i] == b[0];
  }

  /** How often a child network is listed, and how often the sweep sees it. */
  lemma {:induction false} ParsedCount(children: seq<Option<Net>>, n: Net)
    ensures multiset(Parsed(children))[n] == multiset(children)[Some(n)]
  {
    if children != [] {
      ParsedCount(children[1..], n);
      assert children == [children[0]] + children[1..];
    }
  }

  lemma {:induction false} InsideCount(agg: Net, nets: seq<Net>, n: Net)
    ensures multiset(Inside(agg, nets))[n] == if SubnetOf(n, agg) then multiset(nets)[n] else 0
  {
    hide WellFormed;
    if nets != [] {
      InsideCount(agg, nets[1..], n);
      assert nets == [nets[0]] + nets[1..];
    }
  }

  /** `nets` are the readable children inside the aggregate, ascending by address and then size. */
  ghost predicate Arranged(agg: Net, children: seq<Option<Net>>, nets: seq<Net>) {
    && BySortKey(nets)
    && forall n: Net :: multiset(nets)[n] == if SubnetOf(n, agg) then multiset(children)[Some(n)] else 0
  }

  /** The sweep order is that arrangement. */
  lemma ArrangedIff(agg: Net, children: seq<Option<Net>>, nets: seq<Net>)
    ensures Arranged(agg, children, nets) <==> nets == SweepOrder(agg, children)
  {
    hide WellFormed;
    var order := SweepOrder(agg, children);
    var inside := Inside(agg, Parsed(children));
    SortOrders(inside);
    SortPermutes(inside);
    var counts: multiset<Net> := multiset(order);
    forall n: Net ensures counts[n] == if SubnetOf(n, agg) then multiset(children)[Some(n)] else 0 {
      ParsedCount(children, n);
      InsideCount(agg, Parsed(children), n);
    }
    if Arranged(agg, children, nets) {
      assert multiset(nets) == multiset(order);
      SortedUnique(nets, order);
    }
  }

  // ---------- the sweep ----------

  function Sweep(rest: seq<Net>, low: int, last: int): Result<seq<Gap>, AddressError> {
    if rest == [] then
      Ok(if low <= last then [Gap(low, last)] else [])
    else
      var s := rest[0];
      var here := if low < s.base then [Gap(low, s.base - 1)] else [];
      if Last(s) + 1 == ADDRESS_COUNT then Err(AddressTooLarge)
      else if Last(s) + 1 > last then Ok(here)
      else match Sweep(rest[1..], Last(s) + 1, last)
        case Err(e) => Err(e)
        case Ok(gaps) => Ok(here + gaps)
  }

  predicate GapsInRange(gaps: seq<Gap>) {
    forall g :: g in gaps ==> IsRange(g.lo, g.hi)
  }

  function Decompose(gaps: seq<Gap>): seq<Net>
    requires GapsInRange(gaps)
  {
    if gaps == [] then [] else RangeCidrs(gaps[0].lo, gaps[0].hi) + Decompose(gaps[1..])
  }

  lemma {:induction false} SweepInRange(rest: seq<Net>, low: int, last: int)
    requires 0 <= low && last < ADDRESS_COUNT
    requires Sweep(rest, low, last).Ok?
    ensures GapsInRange(Sweep(rest, low, last).value)
    decreases |rest|
  {
    if rest != [] && Last(rest[0]) + 1 <= last {
      SweepInRange(rest[1..], Last(rest[0]) + 1, last);
    }
  }

  /** What `_aggregate_available_ranges` returns or raises. */
  function Available(agg: Option<Net>, children: seq<Option<Net>>): Result<seq<Net>, AddressError> {
    if agg.None? then Ok([])
    else
      var net := agg.value;
      var gaps := Sweep(SweepOrder(net, children), net.base, Last(net));
      if gaps.Err? then Err(gaps.error)
      else
        SweepInRange(SweepOrder(net, children), net.base, Last(net));
        Ok(Decompose(gaps.value))
  }

  method CollectSubnets(agg: Net, children: seq<Option<Net>>) returns (subnets: seq<Net>)
    ensures subnets == Inside(agg, Parsed(children))
  {
    hide WellFormed, SubnetOf, Parsed, Inside;
    assert children[0..] == children;
    NothingInside(agg, children);
    subnets := [];
    for i := 0 to |children|
      invariant subnets + Inside(agg, Parsed(children[i..])) == Inside(agg, Parsed(children))
    {
      var p := children[i];
      ParsedFrom(children, i);
      InsideHead(agg, p, Parsed(children[i + 1..]));
      if p.Some? && SubnetOf(p.value, agg) {
        subnets := subnets + [p.value];
      }
    }
  }

  lemma ParsedFrom(children: seq<Option<Net>>, i: nat)
    requires i < |children|
    ensures Parsed(children[i..]) == (if children[i].Some? then [children[i].value] else []) + Parsed(children[i + 1..])
  {
    assert children[i..][1..] == children[i + 1..];
  }

  lemma NothingInside(agg: Net, children: seq<Option<Net>>)
    ensures Inside(agg, Parsed(children[|children|..])) == []
  {
  }

  lemma InsideHead(agg: Net, p: Option<Net>, rest: seq<Net>)
    ensures Inside(agg, (if p.Some? then [p.value] else []) + rest) ==
            (if p.Some? && SubnetOf(p.value, agg) then [p.value] else []) + Inside(agg, rest)
  {
    if p.Some? {
      assert ([p.value] + rest)[1..] == rest;
    } else {
      assert [] + rest == rest;
    }
  }

  ghost predicate Continues(whole: Result<seq<Gap>, AddressError>, gaps: seq<Gap>,
                            rest: Result<seq<Gap>, AddressError>) {
    whole == match rest case Err(e) => Err(e) case Ok(more) => Ok(gaps + more)
  }

  lemma SweepStep(whole: Result<seq<Gap>, AddressError>, gaps: seq<Gap>, rest: seq<Net>, low: int, last: int)
    requires rest != [] && Continues(whole, gaps, Sweep(rest, low, last))
    ensures var s := rest[0];
            var more := gaps + if low < s.base then [Gap(low, s.base - 1)] else [];
            if Last(s) + 1 == ADDRESS_COUNT then whole == Err(AddressTooLarge)
            else if Last(s) + 1 > last then whole == Ok(more)
            else Continues(whole, more, Sweep(rest[1..], Last(s) + 1, last))
  {
    var here := if low < rest[0].base then [Gap(low, rest[0].base - 1)] else [];
    match Sweep(rest[1..], Last(rest[0]) + 1, last)
    case Err(_) =>
    case Ok(more) => assert gaps + (here + more) == (gaps + here) + more;
  }

  method SweepGaps(subnets: seq<Net>, agg: Net) returns (r: Result<seq<Gap>, AddressError>)
    ensures r == Sweep(subnets, agg.base, Last(agg))
  {
    hide Aligned;
    ghost var whole := Sweep(subnets, agg.base, Last(agg));
    var gaps: seq<Gap> := [];
    var low := agg.base;
    var i := 0;
    assert subnets[0..] == subnets;
    assert Continues(whole, gaps, whole) by { assert whole.Ok? ==> [] + whole.value == whole.value; }
    while i < |subnets|
      invariant 0 <= i <= |subnets|
      invariant Continues(whole, gaps, Sweep(subnets[i..], low, Last(agg)))
    {
      var s := subnets[i];
      SweepStep(whole, gaps, subnets[i..], low, Last(agg));
      assert subnets[i..][1..] == subnets[i + 1..];
      if low < s.base {
        gaps := gaps + [Gap(low, s.base - 1)];
      } else {
        assert gaps + [] == gaps;
      }
      if Last(s) + 1 == ADDRESS_COUNT { return Err(AddressTooLarge); }
      low := Last(s) + 1;
      if low > Last(agg) { break; }
      i := i + 1;
    }
    if low <= Last(agg) {
      gaps := gaps + [Gap(low, Last(agg))];
    }
    r := Ok(gaps);
  }

  method AvailableRanges(agg: Option<Net>, children: seq<Option<Net>>)
    returns (r: Result<seq<Net>, AddressError>)
    ensures r == Available(agg, children)
  {
    hide Aligned, RangeCidrs, Sweep, SortNets, Inside, Parsed;
    if agg.None? { return Ok([]); }
    var net := agg.value;
    var subnets := CollectSubnets(net, children);
    subnets := SortNets(subnets);
    var gaps := SweepGaps(subnets, net);
    if gaps.Err? { return Err(gaps.error); }
    SweepInRange(subnets, net.base, Last(net));
    var result := [];
    for i := 0 to |gaps.value|
      invariant GapsInRange(gaps.value[i..])
      invariant result + Decompose(gaps.value[i..]) == Decompose(gaps.value)
    {
      assert gaps.value[i..] == [gaps.value[i]] + gaps.value[i + 1..];
      var nets := AddressRangeToCidrs(gaps.value[i].lo, gaps.value[i].hi);
      result := result + nets;
    }
    assert result + [] == result;
    r := Ok(result);
  }

  // ---------- utilisation ----------

  /** `_aggregate_utilization`'s `used`: every parsed child counts, inside the aggregate or not. */
  ghost function Used(children: seq<Option<Net>>): int {
    TotalSize(Parsed(children))
  }

  method Utilization(agg: Option<Net>, children: seq<Option<Net>>) returns (count: nat, used: int)
    ensures count == |children|
    ensures used == if agg.None? then 0 else Used(children)
  {
    count := |children|;
    used := 0;
    if agg.None? { return; }
    for i := 0 to |children|
      invariant used + Used(children[i..]) == Used(children)
    {
      assert children[i..] == [children[i]] + children[i + 1..];
      if children[i].Some? {
        assert Parsed(children[i..])[1..] == Parsed(children[i + 1..]);
        used := used + Size(children[i].value);
      } else {
        assert Parsed(children[i..]) == Parsed(children[i + 1..]);
      }
    }
  }
}
