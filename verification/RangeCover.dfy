/** `_address_range_to_cidrs`: the greedy decomposition of an address interval into
    CIDR blocks. The loop is proved equal to `RangeCidrs`; the lemmas show that
    `RangeCidrs` tiles the interval, is a shortest cover of it, and never has more
    than 62 blocks. */
module RangeCover {
  import opened Cidr

  /** The exponent at which the doubling loop stops when it is at 2^e. */
  function Doubled(addr: int, remaining: int, e: nat): (r: nat)
    requires Pow2(e) <= remaining && Aligned(addr, e)
    ensures e <= r && Pow2(r) <= remaining && Aligned(addr, r)
    ensures Pow2(r + 1) <= remaining ==> !Aligned(addr, r + 1)
    decreases remaining - Pow2(e)
  {
    if Pow2(e + 1) <= remaining && Aligned(addr, e + 1) then Doubled(addr, remaining, e + 1) else e
  }

  predicate IsRange(start: int, end: int) {
    0 <= start && end < ADDRESS_COUNT
  }

  function FirstExponent(start: int, end: int): (e: nat)
    requires IsRange(start, end) && start <= end
    ensures e <= 32 && Pow2(e) <= end - start + 1 && Aligned(start, e)
    ensures Pow2(e + 1) <= end - start + 1 ==> !Aligned(start, e + 1)
  {
    var e := Doubled(start, end - start + 1, 0);
    Pow2Values();
    Pow2Strict(e, 33);
    e
  }

  function FirstBlock(start: int, end: int): (n: Net)
    requires IsRange(start, end) && start <= end
    ensures n.base == start && Last(n) <= end && Size(n) == Pow2(FirstExponent(start, end))
  {
    Network(start, 32 - FirstExponent(start, end))
  }

  function RangeCidrs(start: int, end: int): seq<Net>
    requires IsRange(start, end)
    decreases end - start + 1
  {
    if start > end then []
    else var n := FirstBlock(start, end); [n] + RangeCidrs(start + Size(n), end)
  }

  lemma GreedyStep(out: seq<Net>, addr: int, end: int)
    requires IsRange(addr, end) && addr <= end
    ensures var n := FirstBlock(addr, end);
            out + RangeCidrs(addr, end) == (out + [n]) + RangeCidrs(addr + Size(n), end)
  {
  }

  lemma DoublingStep(addr: int, remaining: int, size: int, e: nat)
    requires size == Pow2(e) && size * 2 <= remaining && addr % (size * 2) == 0
    requires Aligned(addr, e)
    ensures size * 2 == Pow2(e + 1) && Aligned(addr, e + 1)
    ensures Doubled(addr, remaining, e + 1) == Doubled(addr, remaining, e)
  {
    AlignedIsModulo(addr, e + 1);
  }

  /** The inner loop: double while the block still fits and stays aligned. */
  method DoubleSize(addr: int, remaining: int) returns (size: int)
    requires 1 <= remaining
    ensures size == Pow2(Doubled(addr, remaining, 0))
  {
    size := 1;
    ghost var e := 0;
    while size * 2 <= remaining && addr % (size * 2) == 0
      invariant size == Pow2(e) <= remaining && Aligned(addr, e)
      invariant Doubled(addr, remaining, e) == Doubled(addr, remaining, 0)
      decreases remaining - size
    {
      DoublingStep(addr, remaining, size, e);
      size := size * 2;
      e := e + 1;
    }
    AlignedIsModulo(addr, e + 1);
  }

  /** The block the doubling loop names is the first greedy block. */
  lemma DoublingDone(addr: int, end: int, size: int, e: nat)
    requires IsRange(addr, end) && addr <= end
    requires size == Pow2(e) && e == FirstExponent(addr, end)
    ensures BitLength(size) == e + 1
    ensures Mask(addr, 32 - e) == FirstBlock(addr, end)
    ensures size == Size(FirstBlock(addr, end))
  {
    BitLengthOfPow2(e);
    AlignedMask(addr, 32 - e);
  }

  method AddressRangeToCidrs(start: int, end: int) returns (out: seq<Net>)
    requires IsRange(start, end)
    ensures out == RangeCidrs(start, end)
  {
    hide Aligned, Pow2, Doubled, BitLength;
    if start > end { return []; }
    out := [];
    var addr := start;
    while addr <= end
      invariant start <= addr
      invariant out + RangeCidrs(addr, end) == RangeCidrs(start, end)
      decreases end - addr + 1
    {
      var remaining := end - addr + 1;
      var size := DoubleSize(addr, remaining);
      DoublingDone(addr, end, size, FirstExponent(addr, end));
      GreedyStep(out, addr, end);
      var prefixLen := 33 - BitLength(size);
      var net := Mask(addr, prefixLen);
      out := out + [net];
      addr := addr + size;
    }
  }

  /** `strict=False` never clears a bit of an aligned address. */
  lemma AlignedMask(addr: int, len: int)
    requires 0 <= addr < ADDRESS_COUNT && 0 <= len <= 32
    requires Aligned(addr, 32 - len)
    ensures Mask(addr, len) == Network(addr, len)
  {
    AlignedIsModulo(addr, 32 - len);
  }

  // ---------- exact tiling ----------

  /** The blocks are contiguous, the first starts at `start` and the last ends at `end`. */
  ghost predicate Tiles(nets: seq<Net>, start: int, end: int) {
    if nets == [] then start == end + 1
    else
      && nets[0].base == start
      && Last(nets[|nets| - 1]) == end
      && forall i :: 0 < i < |nets| ==> nets[i].base == Last(nets[i - 1]) + 1
  }

  lemma {:induction false} RangeTiling(start: int, end: int)
    requires IsRange(start, end) && start <= end + 1
    ensures Tiles(RangeCidrs(start, end), start, end)
    decreases end - start + 1
  {
    hide Aligned;
    if start <= end {
      RangeTiling(start + Size(FirstBlock(start, end)), end);
    }
  }

  /** Exactly the addresses of the interval are covered. */
  lemma {:induction false} RangeMembership(start: int, end: int, a: int)
    requires IsRange(start, end)
    ensures InSome(RangeCidrs(start, end), a) <==> start <= a <= end
    decreases end - start + 1
  {
    hide Aligned;
    if start <= end {
      var n := FirstBlock(start, end);
      var rest := RangeCidrs(start + Size(n), end);
      RangeMembership(start + Size(n), end, a);
      InSomeConcat([n], rest, a);
      assert InSome([n], a) <==> Contains(n, a) by { assert [n][0] == n; }
    }
  }

  lemma InSomeConcat(xs: seq<Net>, ys: seq<Net>, a: int)
    ensures InSome(xs + ys, a) <==> InSome(xs, a) || InSome(ys, a)
  {
    if InSome(xs, a) {
      var i :| 0 <= i < |xs| && Contains(xs[i], a);
      assert (xs + ys)[i] == xs[i];
    }
    if InSome(ys, a) {
      var i :| 0 <= i < |ys| && Contains(ys[i], a);
      assert (xs + ys)[|xs| + i] == ys[i];
    }
  }

  ghost function TotalSize(nets: seq<Net>): int {
    if nets == [] then 0 else Size(nets[0]) + TotalSize(nets[1..])
  }

  lemma {:induction false} RangeTotal(start: int, end: int)
    requires IsRange(start, end) && start <= end + 1
    ensures TotalSize(RangeCidrs(start, end)) == end - start + 1
    decreases end - start + 1
  {
    hide Aligned;
    if start <= end {
      RangeTotal(start + Size(FirstBlock(start, end)), end);
    }
  }

  // ---------- minimality ----------

  ghost predicate CoversExactly(nets: seq<Net>, s: iset<int>) {
    forall a :: InSome(nets, a) <==> a in s
  }

  ghost predicate Ascending(nets: seq<Net>) {
    forall i, j :: 0 <= i < j < |nets| ==> Last(nets[i]) < nets[j].base
  }

  ghost predicate Within(b: Net, s: iset<int>) {
    forall a :: Contains(b, a) ==> a in s
  }

  /** Every CIDR block made of addresses of `s` lies inside one member. */
  ghost predicate Saturates(nets: seq<Net>, s: iset<int>) {
    forall b: Net :: Within(b, s) ==> exists i :: 0 <= i < |nets| && SubnetOf(b, nets[i])
  }

  ghost predicate ShortestCover(nets: seq<Net>, s: iset<int>) {
    && CoversExactly(nets, s)
    && forall other: seq<Net> :: CoversExactly(other, s) ==> |nets| <= |other|
  }

  /** No larger block starts at `start` and stays inside the interval. */
  lemma LargestAtStart(start: int, end: int, b: Net)
    requires IsRange(start, end) && start == b.base && Last(b) <= end
    ensures FirstBlock(start, end).len <= b.len
  {
    var e := FirstExponent(start, end);
    var f := 32 - b.len;
    if e < f {
      AlignedDown(start, e + 1, f);
      Pow2Monotone(e + 1, f);
    }
  }

  /** A block inside the interval lies inside one block of the greedy decomposition. */
  lemma {:induction false} RangeSaturates(start: int, end: int, b: Net)
    requires IsRange(start, end) && start <= b.base && Last(b) <= end
    ensures exists i :: 0 <= i < |RangeCidrs(start, end)| && SubnetOf(b, RangeCidrs(start, end)[i])
    decreases end - start + 1
  {
    hide Aligned;
    var n := FirstBlock(start, end);
    var nets := RangeCidrs(start, end);
    if b.base > Last(n) {
      RangeSaturates(start + Size(n), end, b);
      var rest := RangeCidrs(start + Size(n), end);
      var i :| 0 <= i < |rest| && SubnetOf(b, rest[i]);
      assert nets[i + 1] == rest[i];
    } else {
      assert Overlaps(b, n);
      if b.len < n.len {
        Laminar(n, b);
        LargestAtStart(start, end, b);
      }
      Laminar(b, n);
      assert SubnetOf(b, nets[0]);
    }
  }

  /** A saturating list of disjoint blocks is a shortest cover: each member's first
      address needs a block of its own in every other cover. */
  lemma SaturatedIsShortest(nets: seq<Net>, other: seq<Net>, s: iset<int>)
    requires CoversExactly(nets, s) && CoversExactly(other, s)
    requires Ascending(nets) && Saturates(nets, s)
    ensures |nets| <= |other|
  {
    var w := Witnesses(nets, other, s, |nets|);
    Pigeonhole(w, |other|);
  }

  lemma {:induction false} Witnesses(nets: seq<Net>, other: seq<Net>, s: iset<int>, n: nat)
    returns (w: seq<nat>)
    requires CoversExactly(nets, s) && CoversExactly(other, s)
    requires Ascending(nets) && Saturates(nets, s) && n <= |nets|
    ensures |w| == n
    ensures forall i :: 0 <= i < n ==> w[i] < |other| && Contains(other[w[i]], nets[i].base)
    ensures forall i, j :: 0 <= i < j < n ==> w[i] != w[j]
  {
    if n == 0 {
      w := [];
    } else {
      var v := Witnesses(nets, other, s, n - 1);
      assert InSome(nets, nets[n - 1].base) by { assert Contains(nets[n - 1], nets[n - 1].base); }
      var k :| 0 <= k < |other| && Contains(other[k], nets[n - 1].base);
      forall i | 0 <= i < n - 1 ensures v[i] != k {
        if v[i] == k { OneBlockOneMember(nets, other, s, k, i, n - 1); }
      }
      w := v + [k];
    }
  }

  lemma OneBlockOneMember(nets: seq<Net>, other: seq<Net>, s: iset<int>, k: nat, i: nat, j: nat)
    requires CoversExactly(other, s) && Ascending(nets) && Saturates(nets, s)
    requires k < |other| && i < |nets| && j < |nets|
    requires Contains(other[k], nets[i].base) && Contains(other[k], nets[j].base)
    ensures i == j
  {
    assert Within(other[k], s) by {
      forall a | Contains(other[k], a) ensures a in s { assert InSome(other, a); }
    }
    var m :| 0 <= m < |nets| && SubnetOf(other[k], nets[m]);
    assert Contains(nets[m], nets[i].base) && Contains(nets[m], nets[j].base);
  }

  lemma {:induction false} Pigeonhole(w: seq<nat>, n: nat)
    requires forall i :: 0 <= i < |w| ==> w[i] < n
    requires forall i, j :: 0 <= i < j < |w| ==> w[i] != w[j]
    ensures |w| <= n
    decreases n
  {
    if w == [] { return; }
    assert w[0] < n;
    if k :| 0 <= k < |w| && w[k] == n - 1 {
      Pigeonhole(w[..k] + w[k + 1..], n - 1);
    } else {
      Pigeonhole(w, n - 1);
    }
  }

  lemma TilesAscend(nets: seq<Net>, start: int, end: int, i: nat, j: nat)
    requires Tiles(nets, start, end) && i < j < |nets|
    ensures Last(nets[i]) < nets[j].base
    decreases j
  {
    if i + 1 < j { TilesAscend(nets, start, end, i, j - 1); }
  }

  ghost predicate Between(start: int, end: int, a: int) {
    start <= a <= end
  }

  ghost function Interval(start: int, end: int): iset<int> {
    iset a | Between(start, end, a)
  }

  /** The greedy decomposition of an interval is a shortest CIDR cover of it. */
  lemma RangeIsShortestCover(start: int, end: int)
    requires IsRange(start, end)
    ensures ShortestCover(RangeCidrs(start, end), Interval(start, end))
    ensures Ascending(RangeCidrs(start, end))
    ensures Saturates(RangeCidrs(start, end), Interval(start, end))
  {
    var nets := RangeCidrs(start, end);
    var s := Interval(start, end);
    forall a ensures InSome(nets, a) <==> a in s { RangeMembership(start, end, a); }
    if start <= end { RangeTiling(start, end); }
    forall i, j | 0 <= i < j < |nets| ensures Last(nets[i]) < nets[j].base {
      TilesAscend(nets, start, end, i, j);
    }
    forall b: Net | Within(b, s) ensures exists i :: 0 <= i < |nets| && SubnetOf(b, nets[i]) {
      assert Contains(b, b.base) && Contains(b, Last(b));
      RangeSaturates(start, end, b);
    }
    forall other: seq<Net> | CoversExactly(other, s) ensures |nets| <= |other| {
      SaturatedIsShortest(nets, other, s);
    }
  }

  // ---------- shape and length ----------

  /** Sizes strictly rise up to position p, may repeat once, and strictly fall after it. */
  ghost predicate RiseAndFall(nets: seq<Net>, p: nat) {
    && (forall i :: 0 < i <= p && i < |nets| ==> Size(nets[i - 1]) < Size(nets[i]))
    && (p + 1 < |nets| ==> Size(nets[p]) >= Size(nets[p + 1]))
    && (forall i :: p + 1 < i < |nets| ==> Size(nets[i - 1]) > Size(nets[i]))
  }

  /** From an address aligned beyond what is left, sizes fall and each exponent occurs at most once. */
  lemma {:induction false} Falling(start: int, end: int, e: nat)
    requires IsRange(start, end) && Aligned(start, e) && end - start + 1 < Pow2(e)
    ensures |RangeCidrs(start, end)| <= e
    ensures forall i :: 0 <= i < |RangeCidrs(start, end)| ==> Size(RangeCidrs(start, end)[i]) < Pow2(e)
    ensures forall i :: 0 < i < |RangeCidrs(start, end)| ==>
                          Size(RangeCidrs(start, end)[i - 1]) > Size(RangeCidrs(start, end)[i])
    decreases end - start + 1
  {
    hide Aligned;
    if start <= end {
      var f := FirstExponent(start, end);
      Pow2Strict(f, e);
      AlignedDown(start, f + 1, e);
      NextAligned(start, f);
      Falling(start + Pow2(f), end, f);
    }
  }

  lemma NextAligned(start: int, e: nat)
    requires Aligned(start, e)
    ensures Aligned(start + Pow2(e), e)
  {
    Pow2Aligned(e, e);
    AlignedSum(start, Pow2(e), e);
  }

  /** After a block that alignment limited, the next address has a higher alignment. */
  lemma {:induction false} Shape(start: int, end: int) returns (p: nat)
    requires IsRange(start, end)
    ensures RiseAndFall(RangeCidrs(start, end), p)
    decreases end - start + 1
  {
    hide Aligned;
    p := 0;
    if start <= end {
      var e := FirstExponent(start, end);
      var next := start + Pow2(e);
      NextAligned(start, e);
      if end - next + 1 < Pow2(e + 1) {
        PeakFirst(start, end, e);
      } else {
        OddMultipleStep(start, e);
        var q := Shape(next, end);
        FirstAtLeast(next, end, e + 1);
        Pow2Monotone(e + 1, FirstExponent(next, end));
        var rest := RangeCidrs(next, end);
        assert rest[0] == FirstBlock(next, end);
        PrependSmaller(FirstBlock(start, end), rest, q);
        assert RangeCidrs(start, end) == [FirstBlock(start, end)] + rest;
        p := q + 1;
      }
    }
  }

  lemma PrependSmaller(n: Net, rest: seq<Net>, q: nat)
    requires RiseAndFall(rest, q) && rest != [] && Size(n) < Size(rest[0])
    ensures RiseAndFall([n] + rest, q + 1)
  {
    var nets := [n] + rest;
    assert forall i :: 0 < i < |nets| ==> nets[i] == rest[i - 1];
  }

  lemma PeakFirst(start: int, end: int, e: nat)
    requires IsRange(start, end) && start <= end && e == FirstExponent(start, end)
    requires end - (start + Pow2(e)) + 1 < Pow2(e + 1)
    ensures RiseAndFall(RangeCidrs(start, end), 0)
  {
    hide Aligned;
    var next := start + Pow2(e);
    NextAligned(start, e);
    if end - next + 1 < Pow2(e) {
      Falling(next, end, e);
    } else {
      OddMultipleStep(start, e);
      Falling(next, end, e + 1);
      FirstAtMost(next, end, e);
    }
  }

  lemma FirstAtMost(start: int, end: int, e: nat)
    requires IsRange(start, end) && start <= end && end - start + 1 < Pow2(e + 1)
    ensures FirstExponent(start, end) <= e
    ensures Size(FirstBlock(start, end)) <= Pow2(e)
  {
    Pow2Strict(FirstExponent(start, end), e + 1);
    Pow2Monotone(FirstExponent(start, end), e);
  }

  lemma FirstAtLeast(start: int, end: int, e: nat)
    requires IsRange(start, end) && Aligned(start, e) && Pow2(e) <= end - start + 1
    ensures FirstExponent(start, end) >= e
  {
    var f := FirstExponent(start, end);
    if f < e {
      AlignedDown(start, f + 1, e);
      Pow2Monotone(f + 1, e);
    }
  }

  lemma AlignmentOrder(x: int, i: nat, j: nat)
    requires Aligned(x, j) && !Aligned(x, i)
    ensures j < i
  {
    if i <= j { AlignedDown(x, i, j); }
  }

  /** A positive address aligned to 2^31 is at least 2^31. */
  lemma UpperHalf(x: int)
    requires 0 < x && Aligned(x, 31)
    ensures Pow2(31) <= x
  {
    Pow2Aligned(31, 31);
    AlignedGap(Pow2(31), x, 31);
  }

  lemma {:induction false} RisingLength(start: int, end: int, k: nat)
    requires IsRange(start, end) && 0 < start && k <= 31 && Aligned(start, k)
    ensures |RangeCidrs(start, end)| <= 62 - k
    decreases end - start + 1
  {
    hide Aligned;
    Pow2Values();
    if start <= end {
      var e := FirstExponent(start, end);
      var next := start + Pow2(e);
      NextAligned(start, e);
      Pow2Strict(e, 32);
      if e == 31 { UpperHalf(start); }
      if end - next + 1 < Pow2(e) {
        if k == 31 { UpperHalf(start); }
        Falling(next, end, e);
      } else {
        OddMultipleStep(start, e);
        AlignmentOrder(start, e + 1, k);
        RisingLength(next, end, e + 1);
      }
    }
  }

  /** Any IPv4 range is covered by at most 62 blocks. */
  lemma LengthBound(start: int, end: int)
    requires IsRange(start, end)
    ensures |RangeCidrs(start, end)| <= 62
  {
    if start > 0 {
      RisingLength(start, end, 0);
    } else if start <= end {
      var e := FirstExponent(start, end);
      ZeroAligned(e + 1);
      NextAligned(start, e);
      Falling(start + Pow2(e), end, e);
    }
  }

  lemma {:induction false} ZeroAligned(e: nat)
    ensures Aligned(0, e)
    decreases e
  {
    if e > 0 { ZeroAligned(e - 1); }
  }

  // The bound is reached: everything between the first and the last address.

  lemma {:induction false} TailLength(start: int, k: nat)
    requires k <= 31 && 0 <= start == ADDRESS_COUNT - Pow2(k)
    ensures |RangeCidrs(start, ADDRESS_COUNT - 2)| == k
    decreases k
  {
    hide Aligned;
    if k > 0 {
      ComplementAligned(k);
      AlignedDown(start, k - 1, k);
      FirstAtLeast(start, ADDRESS_COUNT - 2, k - 1);
      FirstAtMost(start, ADDRESS_COUNT - 2, k - 1);
      TailLength(start + Pow2(k - 1), k - 1);
    }
  }

  lemma {:induction false} ComplementAligned(k: nat)
    requires k <= 32
    ensures Aligned(ADDRESS_COUNT - Pow2(k), k)
  {
    Pow2Values();
    Pow2Aligned(k, 32);
    Pow2Aligned(k, k);
    AlignedDifference(ADDRESS_COUNT, Pow2(k), k);
  }

  lemma {:induction false} AlignedDifference(x: int, y: int, e: nat)
    requires Aligned(x, e) && Aligned(y, e)
    ensures Aligned(x - y, e)
    decreases e
  {
    if e > 0 { AlignedDifference(x / 2, y / 2, e - 1); }
  }

  lemma HeadStep(k: nat)
    requires k <= 30
    ensures IsRange(Pow2(k), ADDRESS_COUNT - 2) && Pow2(k) <= ADDRESS_COUNT - 2
    ensures FirstExponent(Pow2(k), ADDRESS_COUNT - 2) == k
  {
    hide Aligned;
    Pow2Values();
    Pow2Monotone(k + 1, 31);
    Pow2Aligned(k, k);
    OnlyOwnAlignment(k);
    FirstAtLeast(Pow2(k), ADDRESS_COUNT - 2, k);
    AlignmentOrder(Pow2(k), k + 1, FirstExponent(Pow2(k), ADDRESS_COUNT - 2));
  }

  lemma {:induction false} HeadLength(start: int, k: nat)
    requires k <= 31 && start == Pow2(k)
    ensures |RangeCidrs(start, ADDRESS_COUNT - 2)| == 62 - k
    decreases 31 - k
  {
    hide Aligned;
    if k == 31 {
      Pow2Values();
      TailLength(start, 31);
    } else {
      HeadStep(k);
      HeadLength(start + Pow2(k), k + 1);
    }
  }

  lemma {:induction false} OnlyOwnAlignment(k: nat)
    ensures !Aligned(Pow2(k), k + 1)
  {
    if k > 0 { OnlyOwnAlignment(k - 1); }
  }

  /** The bound is attained by the range 0.0.0.1 to 255.255.255.254. */
  lemma LengthBoundAttained()
    ensures |RangeCidrs(1, ADDRESS_COUNT - 2)| == 62
  {
    HeadLength(1, 0);
  }
}
