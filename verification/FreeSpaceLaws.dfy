/** What the free-space sweep promises: when it raises, exactly when its answer is the
    free space of the aggregate, and exactly when free and used sizes add up. */
module FreeSpaceLaws {
  import opened Wrappers
  import opened Cidr
  import opened RangeCover
  import opened FreeSpace

  /** Addresses of the aggregate in none of `nets`. */
  ghost predicate IsFree(agg: Net, nets: seq<Net>, a: int) {
    Contains(agg, a) && !InSome(nets, a)
  }

  ghost function FreeSet(agg: Net, nets: seq<Net>): iset<int> {
    iset a | IsFree(agg, nets, a)
  }

  // ---------- the swept list holds the parsed children inside the aggregate ----------

  ghost predicate AllInside(agg: Net, nets: seq<Net>) {
    forall i :: 0 <= i < |nets| ==> SubnetOf(nets[i], agg)
  }

  lemma {:induction false} InsideMembers(agg: Net, nets: seq<Net>, n: Net)
    ensures n in Inside(agg, nets) <==> n in nets && SubnetOf(n, agg)
  {
    if nets != [] { InsideMembers(agg, nets[1..], n); }
  }

  lemma SweepOrderMembers(agg: Net, children: seq<Option<Net>>, n: Net)
    ensures n in SweepOrder(agg, children) <==> n in Parsed(children) && SubnetOf(n, agg)
  {
    var inside := Inside(agg, Parsed(children));
    SortPermutes(inside);
    assert n in SortNets(inside) <==> n in multiset(SortNets(inside));
    assert n in inside <==> n in multiset(inside);
    InsideMembers(agg, Parsed(children), n);
  }

  lemma SweepOrderFits(agg: Net, children: seq<Option<Net>>)
    ensures ByBase(SweepOrder(agg, children))
    ensures AllInside(agg, SweepOrder(agg, children))
  {
    var nets := SweepOrder(agg, children);
    SortOrders(Inside(agg, Parsed(children)));
    forall i | 0 <= i < |nets| ensures SubnetOf(nets[i], agg) {
      SweepOrderMembers(agg, children, nets[i]);
    }
  }

  // ---------- when the sweep raises ----------

  lemma {:induction false} SweepRaises(rest: seq<Net>, low: int, agg: Net)
    requires AllInside(agg, rest)
    ensures Sweep(rest, low, Last(agg)).Err? <==>
            exists i :: 0 <= i < |rest| && Last(rest[i]) == ADDRESS_COUNT - 1
    decreases |rest|
  {
    if rest != [] {
      var s := rest[0];
      assert SubnetOf(s, agg);
      if Last(s) + 1 != ADDRESS_COUNT {
        if Last(s) + 1 > Last(agg) {
          forall i | 0 <= i < |rest| ensures Last(rest[i]) != ADDRESS_COUNT - 1 {
            assert SubnetOf(rest[i], agg);
          }
        } else {
          SweepRaises(rest[1..], Last(s) + 1, agg);
          forall i | 0 < i < |rest| ensures rest[i] == rest[1..][i - 1] {}
        }
      }
    }
  }

  /** The request fails exactly when a prefix inside the aggregate ends at 255.255.255.255. */
  lemma RaisesIffTopAddressUsed(agg: Net, children: seq<Option<Net>>)
    ensures Available(Some(agg), children).Err? <==>
            exists n :: n in Parsed(children) && SubnetOf(n, agg) && Last(n) == ADDRESS_COUNT - 1
  {
    var nets := SweepOrder(agg, children);
    SweepOrderFits(agg, children);
    SweepRaises(nets, agg.base, agg);
    if exists i :: 0 <= i < |nets| && Last(nets[i]) == ADDRESS_COUNT - 1 {
      var i :| 0 <= i < |nets| && Last(nets[i]) == ADDRESS_COUNT - 1;
      SweepOrderMembers(agg, children, nets[i]);
    }
    if n :| n in Parsed(children) && SubnetOf(n, agg) && Last(n) == ADDRESS_COUNT - 1 {
      SweepOrderMembers(agg, children, n);
      var i :| 0 <= i < |nets| && nets[i] == n;
    }
  }

  // ---------- when the answer is the free space ----------

  ghost predicate InGaps(gaps: seq<Gap>, a: int) {
    exists i :: 0 <= i < |gaps| && gaps[i].lo <= a <= gaps[i].hi
  }

  lemma InGapsConcat(xs: seq<Gap>, ys: seq<Gap>, a: int)
    ensures InGaps(xs + ys, a) <==> InGaps(xs, a) || InGaps(ys, a)
  {
    if InGaps(xs, a) {
      var i :| 0 <= i < |xs| && xs[i].lo <= a <= xs[i].hi;
      assert (xs + ys)[i] == xs[i];
    }
    if InGaps(ys, a) {
      var i :| 0 <= i < |ys| && ys[i].lo <= a <= ys[i].hi;
      assert (xs + ys)[|xs| + i] == ys[i];
    }
  }

  /** A gap is emitted only where `low` lies beyond everything swept so far (`top`). */
  ghost predicate Sound(rest: seq<Net>, low: int, top: int, last: int) {
    if rest == [] then low <= last ==> top < low
    else
      var s := rest[0];
      && (low < s.base ==> top < low)
      && (Last(s) + 1 <= last ==> Sound(rest[1..], Last(s) + 1, Max(top, Last(s)), last))
  }

  ghost predicate Swept(rest: seq<Net>, low: int, top: int, agg: Net) {
    && ByBase(rest) && AllInside(agg, rest)
    && low <= top + 1 && top <= Last(agg)
    && Sweep(rest, low, Last(agg)).Ok?
  }

  lemma SweptTail(rest: seq<Net>, low: int, top: int, agg: Net)
    requires Swept(rest, low, top, agg) && rest != [] && Last(rest[0]) + 1 <= Last(agg)
    ensures Swept(rest[1..], Last(rest[0]) + 1, Max(top, Last(rest[0])), agg)
  {
    assert SubnetOf(rest[0], agg);
  }

  lemma InSomeHead(nets: seq<Net>, a: int)
    requires nets != []
    ensures InSome(nets, a) <==> Contains(nets[0], a) || InSome(nets[1..], a)
  {
    assert nets == [nets[0]] + nets[1..];
    InSomeConcat([nets[0]], nets[1..], a);
    assert InSome([nets[0]], a) <==> Contains(nets[0], a) by { assert [nets[0]][0] == nets[0]; }
  }

  lemma BeforeAll(nets: seq<Net>, a: int)
    requires ByBase(nets) && nets != [] && a < nets[0].base
    ensures !InSome(nets, a)
  {
    forall i | 0 <= i < |nets| ensures !Contains(nets[i], a) {
      assert i > 0 ==> nets[0].base <= nets[i].base;
    }
  }

  lemma {:induction false} SoundCoversFree(rest: seq<Net>, low: int, top: int, agg: Net, a: int)
    requires Swept(rest, low, top, agg) && Sound(rest, low, top, Last(agg))
    ensures InGaps(Sweep(rest, low, Last(agg)).value, a) <==>
            top < a <= Last(agg) && low <= a && !InSome(rest, a)
    decreases |rest|
  {
    hide Aligned;
    var last := Last(agg);
    if rest == [] {
      if low <= last { assert [Gap(low, last)][0] == Gap(low, last); }
    } else {
      var s := rest[0];
      assert SubnetOf(s, agg);
      var here := if low < s.base then [Gap(low, s.base - 1)] else [];
      assert InGaps(here, a) <==> low <= a < s.base by {
        if low < s.base { assert here[0] == Gap(low, s.base - 1); }
      }
      InSomeHead(rest, a);
      if a < s.base { BeforeAll(rest, a); }
      if Last(s) + 1 <= last {
        SweptTail(rest, low, top, agg);
        SoundCoversFree(rest[1..], Last(s) + 1, Max(top, Last(s)), agg, a);
        InGapsConcat(here, Sweep(rest[1..], Last(s) + 1, last).value, a);
      }
    }
  }

  /** An unsound sweep reports an address some prefix covers. */
  lemma {:induction false} UnsoundReportsUsed(rest: seq<Net>, low: int, top: int, agg: Net, prev: int)
    returns (a: int)
    requires Swept(rest, low, top, agg) && !Sound(rest, low, top, Last(agg))
    requires prev <= low && (rest != [] ==> prev <= rest[0].base)
    ensures InGaps(Sweep(rest, low, Last(agg)).value, a)
    ensures prev <= a <= top || InSome(rest, a)
    decreases |rest|
  {
    hide Aligned;
    var last := Last(agg);
    if rest == [] {
      a := low;
      assert [Gap(low, last)][0] == Gap(low, last);
    } else {
      var s := rest[0];
      assert SubnetOf(s, agg);
      var here := if low < s.base then [Gap(low, s.base - 1)] else [];
      if low < s.base && low <= top {
        a := low;
        assert here[0] == Gap(low, s.base - 1);
      } else {
        SweptTail(rest, low, top, agg);
        a := UnsoundReportsUsed(rest[1..], Last(s) + 1, Max(top, Last(s)), agg, s.base);
      }
      InSomeHead(rest, a);
      if Last(s) + 1 <= last {
        InGapsConcat(here, Sweep(rest[1..], Last(s) + 1, last).value, a);
      }
    }
  }

  lemma {:induction false} DecomposeMembers(gaps: seq<Gap>, a: int)
    requires GapsInRange(gaps)
    ensures InSome(Decompose(gaps), a) <==> InGaps(gaps, a)
  {
    if gaps != [] {
      var g := gaps[0];
      RangeMembership(g.lo, g.hi, a);
      InSomeConcat(RangeCidrs(g.lo, g.hi), Decompose(gaps[1..]), a);
      DecomposeMembers(gaps[1..], a);
      assert gaps == [g] + gaps[1..];
      InGapsConcat([g], gaps[1..], a);
      assert InGaps([g], a) <==> g.lo <= a <= g.hi by { assert [g][0] == g; }
    }
  }

  /** The condition a caller can check on the sorted prefixes: a prefix that ends before an
      earlier one does must be followed by one that starts no later than right behind it
      (unless the sweep has already reached the end of the aggregate). */
  ghost predicate NoHiddenGap(nets: seq<Net>, last: int) {
    forall i :: 0 <= i < |nets| ==> NoGapBehind(nets, i, last)
  }

  ghost predicate NoGapBehind(nets: seq<Net>, i: int, last: int)
    requires 0 <= i < |nets|
  {
    Shadowed(nets, i) && !Reached(nets, i, last) ==>
      i + 1 < |nets| && nets[i + 1].base <= Last(nets[i]) + 1
  }

  ghost predicate Shadowed(nets: seq<Net>, i: int)
    requires i < |nets|
  {
    exists j :: 0 <= j < i && Last(nets[i]) < Last(nets[j])
  }

  ghost predicate Reached(nets: seq<Net>, i: int, last: int)
    requires i < |nets|
  {
    exists j :: 0 <= j < i && Last(nets[j]) == last
  }

  ghost function TopEnd(nets: seq<Net>, start: int): int {
    if nets == [] then start - 1 else Max(TopEnd(nets[..|nets| - 1], start), Last(nets[|nets| - 1]))
  }

  ghost function LowAfter(nets: seq<Net>, start: int): int {
    if nets == [] then start else Last(nets[|nets| - 1]) + 1
  }

  lemma {:induction false} TopEndBound(nets: seq<Net>, start: int, x: int)
    requires forall i :: 0 <= i < |nets| ==> start <= Last(nets[i])
    ensures x < TopEnd(nets, start) <==> x < start - 1 || exists i :: 0 <= i < |nets| && x < Last(nets[i])
  {
    if nets != [] {
      var init := nets[..|nets| - 1];
      TopEndBound(init, start, x);
      if i :| 0 <= i < |nets| && x < Last(nets[i]) {
        assert i < |init| ==> init[i] == nets[i];
      }
      if i :| 0 <= i < |init| && x < Last(init[i]) {
        assert nets[i] == init[i];
      }
    }
  }

  /** The sweep behind the first `k` prefixes is sound iff no hidden gap follows from there on. */
  lemma {:induction false} SoundIffNoHiddenGap(nets: seq<Net>, k: nat, agg: Net)
    requires ByBase(nets) && AllInside(agg, nets) && k <= |nets|
    requires forall j :: 0 <= j < k ==> Last(nets[j]) != Last(agg)
    ensures Sound(nets[k..], LowAfter(nets[..k], agg.base), TopEnd(nets[..k], agg.base), Last(agg)) <==>
            forall i :: Max(k - 1, 0) <= i < |nets| ==> NoGapBehind(nets, i, Last(agg))
    decreases |nets| - k
  {
    hide NoGapBehind, Aligned, TopEnd, LowAfter, ByBase;
    EmitHere(nets, k, agg);
    if k < |nets| {
      assert SubnetOf(nets[k], agg);
      assert nets[k..][0] == nets[k] && nets[k..][1..] == nets[k + 1..];
      OneMoreSwept(nets, k, agg.base);
      if Last(nets[k]) + 1 <= Last(agg) {
        SoundIffNoHiddenGap(nets, k + 1, agg);
      } else {
        StoppedAt(nets, k, agg);
      }
    }
  }

  lemma OneMoreSwept(nets: seq<Net>, k: nat, start: int)
    requires k < |nets|
    ensures TopEnd(nets[..k + 1], start) == Max(TopEnd(nets[..k], start), Last(nets[k]))
    ensures LowAfter(nets[..k + 1], start) == Last(nets[k]) + 1
  {
    assert nets[..k + 1][..k] == nets[..k];
  }

  /** Emitting a gap after `k` prefixes is sound iff the last of them hides no gap. */
  lemma EmitHere(nets: seq<Net>, k: nat, agg: Net)
    requires AllInside(agg, nets) && k <= |nets|
    requires forall j :: 0 <= j < k ==> Last(nets[j]) != Last(agg)
    ensures var low, top := LowAfter(nets[..k], agg.base), TopEnd(nets[..k], agg.base);
            ((if k < |nets| then low < nets[k].base else low <= Last(agg)) ==> top < low) <==>
            (k > 0 ==> NoGapBehind(nets, k - 1, Last(agg)))
  {
    hide Aligned;
    GapAllowed(nets, k, agg);
    assert k > 0 ==> nets[..k][k - 1] == nets[k - 1];
  }

  lemma StoppedAt(nets: seq<Net>, k: nat, agg: Net)
    requires AllInside(agg, nets) && k < |nets| && Last(nets[k]) == Last(agg)
    ensures forall i :: k <= i < |nets| ==> NoGapBehind(nets, i, Last(agg))
  {
    hide Aligned;
    forall i | k <= i < |nets| ensures NoGapBehind(nets, i, Last(agg)) {
      assert forall j :: 0 <= j < |nets| ==> SubnetOf(nets[j], agg);
    }
  }

  lemma GapAllowed(nets: seq<Net>, k: nat, agg: Net)
    requires AllInside(agg, nets) && k <= |nets|
    requires forall j :: 0 <= j < k ==> Last(nets[j]) != Last(agg)
    ensures LowAfter(nets[..k], agg.base) <= TopEnd(nets[..k], agg.base) <==> k > 0 && Shadowed(nets, k - 1)
    ensures k > 0 ==> !Reached(nets, k - 1, Last(agg)) && LowAfter(nets[..k], agg.base) <= Last(agg)
  {
    hide Aligned;
    assert forall i :: 0 <= i < |nets| ==> SubnetOf(nets[i], agg);
    if k > 0 {
      var done := nets[..k];
      var x := Last(nets[k - 1]);
      TopEndBound(done, agg.base, x);
      assert done[k - 1] == nets[k - 1];
      if Shadowed(nets, k - 1) {
        var j :| 0 <= j < k - 1 && x < Last(nets[j]);
        assert done[j] == nets[j];
      }
    }
  }

  /** The whole sweep from the aggregate's first address. */
  lemma WholeSweep(agg: Net, nets: seq<Net>)
    requires ByBase(nets) && AllInside(agg, nets) && Sweep(nets, agg.base, Last(agg)).Ok?
    ensures Swept(nets, agg.base, agg.base - 1, agg)
    ensures Sound(nets, agg.base, agg.base - 1, Last(agg)) <==> NoHiddenGap(nets, Last(agg))
  {
    SoundIffNoHiddenGap(nets, 0, agg);
    assert nets[0..] == nets && nets[..0] == [];
  }

  lemma SweptAddresses(agg: Net, children: seq<Option<Net>>, a: int)
    ensures InSome(SweepOrder(agg, children), a) <==> InSome(Inside(agg, Parsed(children)), a)
  {
    var inside := Inside(agg, Parsed(children));
    SortPermutes(inside);
    if InSome(SortNets(inside), a) { SameMembersCover(SortNets(inside), inside, a); }
    if InSome(inside, a) { SameMembersCover(inside, SortNets(inside), a); }
  }

  lemma SameMembersCover(xs: seq<Net>, ys: seq<Net>, a: int)
    requires multiset(xs) == multiset(ys) && InSome(xs, a)
    ensures InSome(ys, a)
  {
    var i :| 0 <= i < |xs| && Contains(xs[i], a);
    assert xs[i] in multiset(ys);
    var j :| 0 <= j < |ys| && ys[j] == xs[i];
  }

  lemma AnswerMembers(agg: Net, children: seq<Option<Net>>, a: int)
    requires Available(Some(agg), children).Ok?
    ensures Sweep(SweepOrder(agg, children), agg.base, Last(agg)).Ok?
    ensures InSome(Available(Some(agg), children).value, a) <==>
            InGaps(Sweep(SweepOrder(agg, children), agg.base, Last(agg)).value, a)
  {
    var nets := SweepOrder(agg, children);
    SweepInRange(nets, agg.base, Last(agg));
    DecomposeMembers(Sweep(nets, agg.base, Last(agg)).value, a);
  }

  lemma {:induction false} FreeSpaceExact(agg: Net, children: seq<Option<Net>>)
    requires Available(Some(agg), children).Ok?
    requires NoHiddenGap(SweepOrder(agg, children), Last(agg))
    ensures CoversExactly(Available(Some(agg), children).value, FreeSet(agg, Inside(agg, Parsed(children))))
  {
    var nets := SweepOrder(agg, children);
    SweepOrderFits(agg, children);
    WholeSweep(agg, nets);
    forall a
      ensures InSome(Available(Some(agg), children).value, a) <==>
              a in FreeSet(agg, Inside(agg, Parsed(children)))
    {
      AnswerMembers(agg, children, a);
      SoundCoversFree(nets, agg.base, agg.base - 1, agg, a);
      SweptAddresses(agg, children, a);
    }
  }

  lemma {:induction false} UsedAddressReported(agg: Net, children: seq<Option<Net>>) returns (a: int)
    requires Available(Some(agg), children).Ok?
    requires !NoHiddenGap(SweepOrder(agg, children), Last(agg))
    ensures InSome(Available(Some(agg), children).value, a)
    ensures InSome(Inside(agg, Parsed(children)), a)
  {
    var nets := SweepOrder(agg, children);
    SweepOrderFits(agg, children);
    AnswerMembers(agg, children, 0);
    WholeSweep(agg, nets);
    assert nets != [] ==> SubnetOf(nets[0], agg);
    a := UnsoundReportsUsed(nets, agg.base, agg.base - 1, agg, agg.base);
    AnswerMembers(agg, children, a);
    SweptAddresses(agg, children, a);
  }

  /** Measured against the prefixes inside the aggregate alone. */
  lemma {:induction false} AnswerIsInnerFreeSpaceIff(agg: Net, children: seq<Option<Net>>)
    requires Available(Some(agg), children).Ok?
    ensures CoversExactly(Available(Some(agg), children).value, FreeSet(agg, Inside(agg, Parsed(children)))) <==>
            NoHiddenGap(SweepOrder(agg, children), Last(agg))
  {
    if NoHiddenGap(SweepOrder(agg, children), Last(agg)) {
      FreeSpaceExact(agg, children);
    } else {
      var a := UsedAddressReported(agg, children);
      assert !IsFree(agg, Inside(agg, Parsed(children)), a);
    }
  }

  // ---------- prefixes that reach out of the aggregate ----------

  /** Every listed prefix that overlaps the aggregate lies inside it. */
  ghost predicate NoneReachesOut(agg: Net, nets: seq<Net>) {
    forall i :: 0 <= i < |nets| && Overlaps(nets[i], agg) ==> SubnetOf(nets[i], agg)
  }

  ghost predicate Full(agg: Net, nets: seq<Net>) {
    forall a :: Contains(agg, a) ==> InSome(nets, a)
  }

  lemma {:induction false} FreeSetsAgree(agg: Net, nets: seq<Net>)
    requires NoneReachesOut(agg, nets)
    ensures FreeSet(agg, Inside(agg, nets)) == FreeSet(agg, nets)
  {
    hide Aligned;
    var inner := Inside(agg, nets);
    forall a | Contains(agg, a) ensures InSome(inner, a) <==> InSome(nets, a) {
      if InSome(nets, a) {
        var i :| 0 <= i < |nets| && Contains(nets[i], a);
        OverlapsIffShared(nets[i], agg);
        InsideMembers(agg, nets, nets[i]);
        var j :| 0 <= j < |inner| && inner[j] == nets[i];
        assert Contains(inner[j], a);
      }
      if InSome(inner, a) {
        var j :| 0 <= j < |inner| && Contains(inner[j], a);
        InsideMembers(agg, nets, inner[j]);
        var i :| 0 <= i < |nets| && nets[i] == inner[j];
        assert Contains(nets[i], a);
      }
    }
  }

  /** A prefix that reaches out of the aggregate holds all of it. */
  lemma ReachingOutFills(agg: Net, nets: seq<Net>)
    requires !NoneReachesOut(agg, nets)
    ensures Full(agg, nets)
  {
    hide Aligned;
    var i :| 0 <= i < |nets| && Overlaps(nets[i], agg) && !SubnetOf(nets[i], agg);
    if agg.len <= nets[i].len { Laminar(nets[i], agg); } else { Laminar(agg, nets[i]); }
    forall a | Contains(agg, a) ensures InSome(nets, a) { assert Contains(nets[i], a); }
  }

  /** What the sweep needs of the arranged prefixes: none hides a gap, and either no prefix reaches
      out of the aggregate or those inside it fill it already. */
  ghost predicate SweepExact(agg: Net, children: seq<Option<Net>>, nets: seq<Net>) {
    && NoHiddenGap(nets, Last(agg))
    && (NoneReachesOut(agg, Parsed(children)) || Full(agg, nets))
  }

  lemma FullAlike(agg: Net, children: seq<Option<Net>>)
    ensures Full(agg, SweepOrder(agg, children)) <==> Full(agg, Inside(agg, Parsed(children)))
  {
    hide Aligned, SweepOrder, Inside;
    forall a ensures InSome(SweepOrder(agg, children), a) <==> InSome(Inside(agg, Parsed(children)), a) {
      SweptAddresses(agg, children, a);
    }
  }

  lemma {:induction false} SweepExactFreeSet(agg: Net, children: seq<Option<Net>>)
    requires SweepExact(agg, children, SweepOrder(agg, children))
    ensures FreeSet(agg, Inside(agg, Parsed(children))) == FreeSet(agg, Parsed(children))
  {
    hide Aligned;
    if NoneReachesOut(agg, Parsed(children)) {
      FreeSetsAgree(agg, Parsed(children));
    } else {
      FullAlike(agg, children);
      ReachingOutFills(agg, Parsed(children));
    }
  }

  lemma {:induction false} SweptIsFreeSpaceIff(agg: Net, children: seq<Option<Net>>)
    requires Available(Some(agg), children).Ok?
    ensures CoversExactly(Available(Some(agg), children).value, FreeSet(agg, Parsed(children))) <==>
            SweepExact(agg, children, SweepOrder(agg, children))
  {
    hide Aligned, NoHiddenGap, NoneReachesOut, Inside, Parsed, Available;
    var inner, all := FreeSet(agg, Inside(agg, Parsed(children))), FreeSet(agg, Parsed(children));
    var answer := Available(Some(agg), children).value;
    AnswerIsInnerFreeSpaceIff(agg, children);
    FullAlike(agg, children);
    if SweepExact(agg, children, SweepOrder(agg, children)) {
      SweepExactFreeSet(agg, children);
    } else if NoneReachesOut(agg, Parsed(children)) {
      FreeSetsAgree(agg, Parsed(children));
    } else {
      ReachingOutFills(agg, Parsed(children));
      assert all == iset{};
      if NoHiddenGap(SweepOrder(agg, children), Last(agg)) {
        var a :| Contains(agg, a) && !InSome(Inside(agg, Parsed(children)), a);
        assert a in inner;
        assert InSome(answer, a);
      } else {
        var a := UsedAddressReported(agg, children);
      }
    }
  }

  /** When the request succeeds, its answer is exactly the aggregate's addresses in no listed prefix
      iff the condition holds of the inner prefixes ascending by address and then size. */
  lemma AnswerIsFreeSpaceIff(agg: Net, children: seq<Option<Net>>, nets: seq<Net>)
    requires Available(Some(agg), children).Ok? && Arranged(agg, children, nets)
    ensures CoversExactly(Available(Some(agg), children).value, FreeSet(agg, Parsed(children))) <==>
            SweepExact(agg, children, nets)
  {
    hide Aligned, NoHiddenGap, NoneReachesOut, Inside, Parsed, Available, Arranged;
    ArrangedIff(agg, children, nets);
    SweptIsFreeSpaceIff(agg, children);
  }

  /** A linked prefix wider than the aggregate is ignored: the whole aggregate is offered although
      that prefix covers all of it. */
  lemma WiderPrefixIgnored(agg: Net, wider: Net)
    requires SubnetOf(agg, wider) && agg != wider
    ensures var r := Available(Some(agg), [Some(wider)]);
            r.Ok? && forall a :: Contains(agg, a) ==> InSome(r.value, a) && Contains(wider, a)
  {
    hide Aligned;
    var children: seq<Option<Net>> := [Some(wider)];
    assert children[1..] == [];
    assert Parsed(children) == [wider];
    SubnetLength(agg, wider);
    if SubnetOf(wider, agg) { SubnetLength(wider, agg); }
    assert [wider][1..] == [];
    assert Inside(agg, [wider]) == [];
    assert Sweep([], agg.base, Last(agg)) == Ok([Gap(agg.base, Last(agg))]);
    AnswerIsInnerFreeSpaceIff(agg, children);
    forall a | Contains(agg, a) ensures InSome(Available(Some(agg), children).value, a) {
      assert a in FreeSet(agg, Inside(agg, Parsed(children)));
    }
  }

  // ---------- shortest and ascending ----------

  ghost predicate GapsAscend(gaps: seq<Gap>) {
    forall i, j :: 0 <= i < j < |gaps| ==> gaps[i].hi < gaps[j].lo
  }

  lemma {:induction false} SoundGapsAscend(rest: seq<Net>, low: int, top: int, agg: Net)
    requires Swept(rest, low, top, agg) && Sound(rest, low, top, Last(agg))
    ensures GapsAscend(Sweep(rest, low, Last(agg)).value)
    ensures forall i :: 0 <= i < |Sweep(rest, low, Last(agg)).value| ==>
                          top < Sweep(rest, low, Last(agg)).value[i].lo <= Sweep(rest, low, Last(agg)).value[i].hi
    decreases |rest|
  {
    hide Aligned;
    if rest != [] {
      var s := rest[0];
      assert SubnetOf(s, agg);
      if Last(s) + 1 <= Last(agg) {
        SweptTail(rest, low, top, agg);
        SoundGapsAscend(rest[1..], Last(s) + 1, Max(top, Last(s)), agg);
      }
    }
  }

  /** A free interval lies inside one gap. */
  lemma {:induction false} FreeIntervalInGap(rest: seq<Net>, low: int, top: int, agg: Net, x: int, y: int)
    requires Swept(rest, low, top, agg) && Sound(rest, low, top, Last(agg))
    requires top < x <= y <= Last(agg) && low <= x
    requires forall a :: x <= a <= y ==> !InSome(rest, a)
    ensures exists g :: g in Sweep(rest, low, Last(agg)).value && g.lo <= x && y <= g.hi
    decreases |rest|
  {
    hide Aligned;
    var last := Last(agg);
    if rest == [] {
      assert Gap(low, last) in Sweep(rest, low, last).value;
    } else {
      var s := rest[0];
      assert SubnetOf(s, agg);
      InSomeHead(rest, s.base);
      InSomeHead(rest, x);
      if y < s.base {
        assert Gap(low, s.base - 1) in Sweep(rest, low, last).value;
      } else {
        assert Last(s) < x;
        SweptTail(rest, low, top, agg);
        forall a | x <= a <= y ensures !InSome(rest[1..], a) { InSomeHead(rest, a); }
        FreeIntervalInGap(rest[1..], Last(s) + 1, Max(top, Last(s)), agg, x, y);
      }
    }
  }

  lemma {:induction false} DecomposeAscends(gaps: seq<Gap>)
    requires GapsInRange(gaps) && GapsAscend(gaps)
    ensures Ascending(Decompose(gaps))
  {
    if gaps != [] {
      var g := gaps[0];
      var head, tail := RangeCidrs(g.lo, g.hi), Decompose(gaps[1..]);
      RangeIsShortestCover(g.lo, g.hi);
      DecomposeAscends(gaps[1..]);
      forall i, j | 0 <= i < |head| && 0 <= j < |tail| ensures Last(head[i]) < tail[j].base {
        assert Contains(head[i], Last(head[i])) && Contains(tail[j], tail[j].base);
        RangeMembership(g.lo, g.hi, Last(head[i]));
        DecomposeMembers(gaps[1..], tail[j].base);
      }
      AscendingConcat(head, tail);
    }
  }

  lemma AscendingConcat(xs: seq<Net>, ys: seq<Net>)
    requires Ascending(xs) && Ascending(ys)
    requires forall i, j :: 0 <= i < |xs| && 0 <= j < |ys| ==> Last(xs[i]) < ys[j].base
    ensures Ascending(xs + ys)
  {
  }

  lemma {:induction false} DecomposeHolds(gaps: seq<Gap>, g: Gap, b: Net)
    requires GapsInRange(gaps) && g in gaps && g.lo <= b.base && Last(b) <= g.hi
    ensures exists i :: 0 <= i < |Decompose(gaps)| && SubnetOf(b, Decompose(gaps)[i])
  {
    var nets := Decompose(gaps);
    if gaps[0] == g {
      RangeSaturates(g.lo, g.hi, b);
      var i :| 0 <= i < |RangeCidrs(g.lo, g.hi)| && SubnetOf(b, RangeCidrs(g.lo, g.hi)[i]);
      assert SubnetOf(b, nets[i]);
    } else {
      DecomposeHolds(gaps[1..], g, b);
      var rest := Decompose(gaps[1..]);
      var i :| 0 <= i < |rest| && SubnetOf(b, rest[i]);
      assert nets[|RangeCidrs(gaps[0].lo, gaps[0].hi)| + i] == rest[i];
    }
  }

  lemma AnswerSaturates(agg: Net, children: seq<Option<Net>>, b: Net)
    requires Available(Some(agg), children).Ok?
    requires NoHiddenGap(SweepOrder(agg, children), Last(agg))
    requires Within(b, FreeSet(agg, Inside(agg, Parsed(children))))
    ensures exists i :: 0 <= i < |Available(Some(agg), children).value| &&
                        SubnetOf(b, Available(Some(agg), children).value[i])
  {
    var nets := SweepOrder(agg, children);
    SweepOrderFits(agg, children);
    AnswerMembers(agg, children, 0);
    WholeSweep(agg, nets);
    assert Contains(b, b.base) && Contains(b, Last(b));
    forall a | b.base <= a <= Last(b) ensures !InSome(nets, a) {
      assert Contains(b, a);
      SweptAddresses(agg, children, a);
    }
    FreeIntervalInGap(nets, agg.base, agg.base - 1, agg, b.base, Last(b));
    var gaps := Sweep(nets, agg.base, Last(agg)).value;
    var g :| g in gaps && g.lo <= b.base && Last(b) <= g.hi;
    SweepInRange(nets, agg.base, Last(agg));
    DecomposeHolds(gaps, g, b);
  }

  lemma {:induction false} InnerShortestCover(agg: Net, children: seq<Option<Net>>)
    requires Available(Some(agg), children).Ok?
    requires NoHiddenGap(SweepOrder(agg, children), Last(agg))
    ensures ShortestCover(Available(Some(agg), children).value, FreeSet(agg, Inside(agg, Parsed(children))))
    ensures Ascending(Available(Some(agg), children).value)
  {
    var nets := SweepOrder(agg, children);
    var s := FreeSet(agg, Inside(agg, Parsed(children)));
    var answer := Available(Some(agg), children).value;
    FreeSpaceExact(agg, children);
    assert Ascending(answer) by {
      SweepOrderFits(agg, children);
      AnswerMembers(agg, children, 0);
      WholeSweep(agg, nets);
      SweepInRange(nets, agg.base, Last(agg));
      SoundGapsAscend(nets, agg.base, agg.base - 1, agg);
      DecomposeAscends(Sweep(nets, agg.base, Last(agg)).value);
    }
    forall b: Net | Within(b, s) ensures exists i :: 0 <= i < |answer| && SubnetOf(b, answer[i]) {
      AnswerSaturates(agg, children, b);
    }
    forall other: seq<Net> | CoversExactly(other, s) ensures |answer| <= |other| {
      SaturatedIsShortest(answer, other, s);
    }
  }

  /** Exactly under that condition the answer is a shortest CIDR cover of the addresses in no listed
      prefix; it then ascends, so its members are disjoint. */
  lemma AnswerIsShortestCover(agg: Net, children: seq<Option<Net>>, nets: seq<Net>)
    requires Available(Some(agg), children).Ok? && Arranged(agg, children, nets)
    ensures ShortestCover(Available(Some(agg), children).value, FreeSet(agg, Parsed(children))) <==>
            SweepExact(agg, children, nets)
    ensures SweepExact(agg, children, nets) ==> Ascending(Available(Some(agg), children).value)
  {
    hide Available, Inside, Parsed, NoneReachesOut, NoHiddenGap, Arranged;
    ArrangedIff(agg, children, nets);
    SweptIsFreeSpaceIff(agg, children);
    if SweepExact(agg, children, nets) {
      InnerShortestCover(agg, children);
      SweepExactFreeSet(agg, children);
    }
  }

  // ---------- simple sufficient conditions, and the failure ----------

  ghost predicate EndsNeverDecrease(nets: seq<Net>) {
    forall i, j :: 0 <= i < j < |nets| ==> Last(nets[i]) <= Last(nets[j])
  }

  lemma EndsNeverDecreaseSuffices(nets: seq<Net>, last: int)
    requires EndsNeverDecrease(nets)
    ensures NoHiddenGap(nets, last)
  {
  }

  /** For prefixes inside the aggregate whose ends never decrease, ascending by address and then
      size, and that stop short of 255.255.255.255, the request succeeds and its answer is the
      shortest CIDR cover of exactly the addresses in no listed prefix. */
  lemma FittingPrefixesExact(agg: Net, children: seq<Option<Net>>, nets: seq<Net>)
    requires AllInside(agg, Parsed(children)) && Arranged(agg, children, nets) && EndsNeverDecrease(nets)
    requires forall n :: n in Parsed(children) ==> Last(n) != ADDRESS_COUNT - 1
    ensures Available(Some(agg), children).Ok?
    ensures ShortestCover(Available(Some(agg), children).value, FreeSet(agg, Parsed(children)))
    ensures Ascending(Available(Some(agg), children).value)
  {
    hide Available, Arranged, Aligned;
    RaisesIffTopAddressUsed(agg, children);
    EndsNeverDecreaseSuffices(nets, Last(agg));
    assert NoneReachesOut(agg, Parsed(children));
    AnswerIsShortestCover(agg, children, nets);
  }

  /** Whenever two networks are nested they start at the same address. */
  ghost predicate NestedShareBase(nets: seq<Net>) {
    forall i, j :: 0 <= i < |nets| && 0 <= j < |nets| && SubnetOf(nets[i], nets[j]) ==> nets[i].base == nets[j].base
  }

  /** Prefixes inside the aggregate below 255.255.255.255 that nest only at a common start, in
      particular disjoint ones, are handled exactly, in whatever order they are listed. */
  lemma CommonStartsExact(agg: Net, children: seq<Option<Net>>)
    requires AllInside(agg, Parsed(children)) && NestedShareBase(Parsed(children))
    requires forall n :: n in Parsed(children) ==> Last(n) != ADDRESS_COUNT - 1
    ensures Available(Some(agg), children).Ok?
    ensures ShortestCover(Available(Some(agg), children).value, FreeSet(agg, Parsed(children)))
  {
    hide Available, Aligned, SweepOrder;
    var nets := SweepOrder(agg, children);
    ArrangedIff(agg, children, nets);
    forall i, j | 0 <= i < j < |nets| ensures Last(nets[i]) <= Last(nets[j]) {
      SweepOrderMembers(agg, children, nets[i]);
      SweepOrderMembers(agg, children, nets[j]);
      CommonStartsAscend(nets[i], nets[j]);
    }
    FittingPrefixesExact(agg, children, nets);
  }

  lemma CommonStartsAscend(a: Net, b: Net)
    requires a.base < b.base || (a.base == b.base && Size(a) <= Size(b))
    requires SubnetOf(a, b) ==> a.base == b.base
    requires SubnetOf(b, a) ==> a.base == b.base
    ensures Last(a) <= Last(b)
  {
    if Overlaps(a, b) {
      if a.len <= b.len { Laminar(b, a); } else { Laminar(a, b); }
    }
  }

  lemma ParsedPair(a: Net, b: Net)
    ensures Parsed([Some(a), Some(b)]) == [a, b]
  {
    var one: seq<Option<Net>> := [Some(b)];
    var two: seq<Option<Net>> := [Some(a), Some(b)];
    assert two[1..] == one && |one[1..]| == 0;
    assert Parsed(one) == [b];
  }

  /** Aggregate 0.0.0.0/24 with 0.0.0.0/25 and the nested 0.0.0.32/27: the sweep goes back
      and offers 0.0.0.64, which the /25 covers. */
  lemma NestedPrefixReportedFree()
    ensures var agg, outer, nested := Network(0, 24), Network(0, 25), Network(32, 27);
            && WellFormed(agg) && WellFormed(outer) && WellFormed(nested)
            && Available(Some(agg), [Some(outer), Some(nested)]).Ok?
            && InSome(Available(Some(agg), [Some(outer), Some(nested)]).value, 64)
            && Contains(outer, 64)
  {
    assert Pow2(5) == 32 && Pow2(7) == 128 && Pow2(8) == 256;
    ZeroAligned(8);
    ZeroAligned(7);
    Pow2Aligned(5, 5);
    var agg: Net := Network(0, 24);
    var outer: Net := Network(0, 25);
    var nested: Net := Network(32, 27);
    var children: seq<Option<Net>> := [Some(outer), Some(nested)];
    var nets: seq<Net> := [outer, nested];
    ParsedPair(outer, nested);
    InsideTotal(agg, nets);
    assert nets[1..] == [nested] && nets[1..][1..] == [];
    assert SortNets([nested]) == [nested];
    assert SortNets(nets) == nets;
    var tail: seq<Gap> := [Gap(64, 255)];
    assert [] + tail == tail;
    assert Sweep([], 64, 255) == Ok(tail);
    assert Sweep([nested], 128, 255) == Ok(tail);
    var gaps := Sweep(nets, 0, 255);
    assert gaps == Ok([Gap(64, 255)]);
    AnswerMembers(agg, children, 64);
    assert gaps.value[0] == Gap(64, 255);
  }

  // ---------- conservation ----------

  ghost predicate PairwiseDisjoint(nets: seq<Net>) {
    nets == [] || (DisjointFromAll(nets[0], nets[1..]) && PairwiseDisjoint(nets[1..]))
  }

  ghost predicate DisjointFromAll(n: Net, nets: seq<Net>) {
    forall m :: m in nets ==> !Overlaps(n, m)
  }

  lemma {:induction false} InsertDisjoint(n: Net, s: seq<Net>)
    ensures PairwiseDisjoint(Insert(n, s)) <==> DisjointFromAll(n, s) && PairwiseDisjoint(s)
  {
    if s != [] && KeyLess(s[0], n) {
      var t := Insert(n, s[1..]);
      InsertDisjoint(n, s[1..]);
      assert Insert(n, s)[1..] == t;
      InsertContents(n, s[1..]);
      forall m ensures m in t <==> m == n || m in s[1..] {
        assert m in t <==> m in multiset(t);
        assert m in [n] + s[1..] <==> m in multiset([n] + s[1..]);
      }
      assert forall m :: m in s <==> m == s[0] || m in s[1..];
      assert DisjointFromAll(s[0], t) <==> !Overlaps(s[0], n) && DisjointFromAll(s[0], s[1..]);
      assert DisjointFromAll(n, s) <==> !Overlaps(n, s[0]) && DisjointFromAll(n, s[1..]);
    } else {
      assert ([n] + s)[1..] == s;
    }
  }

  lemma {:induction false} SortDisjoint(s: seq<Net>)
    ensures PairwiseDisjoint(SortNets(s)) <==> PairwiseDisjoint(s)
  {
    if s != [] {
      SortDisjoint(s[1..]);
      InsertDisjoint(s[0], SortNets(s[1..]));
      SortPermutes(s[1..]);
      forall m ensures m in SortNets(s[1..]) <==> m in s[1..] {
        assert m in SortNets(s[1..]) <==> m in multiset(SortNets(s[1..]));
      }
    }
  }

  lemma {:induction false} InsertTotal(n: Net, s: seq<Net>)
    ensures TotalSize(Insert(n, s)) == Size(n) + TotalSize(s)
  {
    if s != [] && KeyLess(s[0], n) {
      InsertTotal(n, s[1..]);
      assert Insert(n, s)[1..] == Insert(n, s[1..]);
    } else {
      assert ([n] + s)[1..] == s;
    }
  }

  lemma {:induction false} SortTotal(s: seq<Net>)
    ensures TotalSize(SortNets(s)) == TotalSize(s)
  {
    if s != [] {
      SortTotal(s[1..]);
      InsertTotal(s[0], SortNets(s[1..]));
    }
  }

  lemma {:induction false} TotalConcat(xs: seq<Net>, ys: seq<Net>)
    ensures TotalSize(xs + ys) == TotalSize(xs) + TotalSize(ys)
  {
    if xs == [] {
      assert xs + ys == ys;
    } else {
      assert (xs + ys)[1..] == xs[1..] + ys;
      TotalConcat(xs[1..], ys);
    }
  }

  lemma {:induction false} TotalNonNegative(nets: seq<Net>)
    ensures nets == [] ==> TotalSize(nets) == 0
    ensures nets != [] ==> TotalSize(nets) > 0
  {
    hide Aligned;
    if nets != [] { TotalNonNegative(nets[1..]); }
  }

  /** Parsed children outside the aggregate add to `used` but not to the sweep. */
  lemma {:induction false} InsideTotal(agg: Net, nets: seq<Net>)
    ensures TotalSize(Inside(agg, nets)) <= TotalSize(nets)
    ensures TotalSize(Inside(agg, nets)) == TotalSize(nets) <==> AllInside(agg, nets)
    ensures AllInside(agg, nets) ==> Inside(agg, nets) == nets
  {
    if nets != [] {
      InsideTotal(agg, nets[1..]);
      var tail := Inside(agg, nets[1..]);
      if SubnetOf(nets[0], agg) {
        assert Inside(agg, nets)[1..] == tail;
        assert nets == [nets[0]] + nets[1..];
      } else {
        assert Inside(agg, nets) == tail;
      }
      assert AllInside(agg, nets) <==> SubnetOf(nets[0], agg) && AllInside(agg, nets[1..]) by {
        assert forall i :: 0 < i < |nets| ==> nets[i] == nets[1..][i - 1];
        assert forall i :: 0 <= i < |nets| - 1 ==> nets[1..][i] == nets[i + 1];
      }
    }
  }

  ghost function GapTotal(gaps: seq<Gap>): int {
    if gaps == [] then 0 else gaps[0].hi - gaps[0].lo + 1 + GapTotal(gaps[1..])
  }

  lemma {:induction false} DecomposeTotal(gaps: seq<Gap>)
    requires GapsInRange(gaps) && forall g :: g in gaps ==> g.lo <= g.hi
    ensures TotalSize(Decompose(gaps)) == GapTotal(gaps)
  {
    if gaps != [] {
      RangeTotal(gaps[0].lo, gaps[0].hi);
      TotalConcat(RangeCidrs(gaps[0].lo, gaps[0].hi), Decompose(gaps[1..]));
      DecomposeTotal(gaps[1..]);
    }
  }

  lemma {:induction false} SweepGapsNonEmpty(rest: seq<Net>, low: int, last: int)
    requires Sweep(rest, low, last).Ok?
    ensures forall g :: g in Sweep(rest, low, last).value ==> g.lo <= g.hi
    decreases |rest|
  {
    if rest != [] && Last(rest[0]) + 1 <= last {
      SweepGapsNonEmpty(rest[1..], Last(rest[0]) + 1, last);
    }
  }

  /** Gaps plus swept prefixes are never less than what the sweep had to cover, and equal it
      exactly when the prefixes start at or after `low` and are pairwise disjoint. */
  lemma {:induction false} SweepBalance(rest: seq<Net>, low: int, agg: Net)
    requires ByBase(rest) && AllInside(agg, rest) && low <= Last(agg) + 1
    requires Sweep(rest, low, Last(agg)).Ok?
    ensures var total := GapTotal(Sweep(rest, low, Last(agg)).value) + TotalSize(rest);
            && Last(agg) + 1 - low <= total
            && (Last(agg) + 1 - low == total <==> PairwiseDisjoint(rest) && (rest == [] || low <= rest[0].base))
    decreases |rest|
  {
    hide Aligned;
    var last := Last(agg);
    if rest != [] {
      var s := rest[0];
      var tail := rest[1..];
      assert SubnetOf(s, agg);
      if Last(s) + 1 > last {
        SweepStops(rest, agg);
      } else {
        SweepBalance(tail, Last(s) + 1, agg);
        GapTotalHead(low, s.base, Sweep(tail, Last(s) + 1, last).value);
        HeadDisjoint(rest);
      }
    }
  }

  lemma GapTotalHead(low: int, base: int, more: seq<Gap>)
    ensures GapTotal((if low < base then [Gap(low, base - 1)] else []) + more) ==
            (if low < base then base - low else 0) + GapTotal(more)
  {
    hide Aligned;
    if low < base {
      assert ([Gap(low, base - 1)] + more)[1..] == more;
    } else {
      assert [] + more == more;
    }
  }

  /** Whatever is sorted behind a prefix that reaches the aggregate's end overlaps it. */
  lemma SweepStops(rest: seq<Net>, agg: Net)
    requires ByBase(rest) && AllInside(agg, rest) && rest != [] && Last(rest[0]) == Last(agg)
    ensures PairwiseDisjoint(rest) <==> |rest| == 1
    ensures TotalSize(rest) >= Size(rest[0])
    ensures TotalSize(rest) == Size(rest[0]) <==> |rest| == 1
  {
    hide Aligned;
    TotalNonNegative(rest[1..]);
    if |rest| > 1 {
      assert SubnetOf(rest[1], agg) && rest[0].base <= rest[1].base;
      assert rest[1..][0] == rest[1] && Overlaps(rest[0], rest[1]);
    }
  }

  lemma HeadDisjoint(rest: seq<Net>)
    requires ByBase(rest) && rest != []
    ensures DisjointFromAll(rest[0], rest[1..]) <==> |rest| == 1 || Last(rest[0]) < rest[1].base
  {
    hide Aligned;
    if |rest| > 1 {
      assert rest[1] == rest[1..][0] && rest[0].base <= rest[1].base;
      if Last(rest[0]) < rest[1].base {
        forall m | m in rest[1..] ensures !Overlaps(rest[0], m) {
          var i :| 0 <= i < |rest| - 1 && rest[1..][i] == m;
          assert rest[i + 1] == m && (i > 0 ==> rest[1].base <= rest[i + 1].base);
        }
      } else {
        assert Overlaps(rest[0], rest[1..][0]);
      }
    }
  }

  /** Free plus used addresses never fall short of the aggregate, and equal its size exactly
      when every parsed child lies inside it and no two overlap. */
  lemma ConservationIff(agg: Net, children: seq<Option<Net>>)
    requires Available(Some(agg), children).Ok?
    ensures Size(agg) <= TotalSize(Available(Some(agg), children).value) + Used(children)
    ensures TotalSize(Available(Some(agg), children).value) + Used(children) == Size(agg) <==>
            AllInside(agg, Parsed(children)) && PairwiseDisjoint(Parsed(children))
  {
    var inside := Inside(agg, Parsed(children));
    var nets := SweepOrder(agg, children);
    SweepOrderFits(agg, children);
    AnswerMembers(agg, children, 0);
    SweepInRange(nets, agg.base, Last(agg));
    SweepGapsNonEmpty(nets, agg.base, Last(agg));
    DecomposeTotal(Sweep(nets, agg.base, Last(agg)).value);
    SweepBalance(nets, agg.base, agg);
    assert nets != [] ==> SubnetOf(nets[0], agg);
    SortTotal(inside);
    SortDisjoint(inside);
    InsideTotal(agg, Parsed(children));
  }

  /** Disjoint prefixes never hide a gap, so their free space is reported exactly. */
  lemma DisjointNeverHides(agg: Net, children: seq<Option<Net>>, nets: seq<Net>)
    requires PairwiseDisjoint(Inside(agg, Parsed(children))) && Arranged(agg, children, nets)
    ensures NoHiddenGap(nets, Last(agg))
  {
    ArrangedIff(agg, children, nets);
    SortDisjoint(Inside(agg, Parsed(children)));
    SweepOrderFits(agg, children);
    DisjointAscends(SweepOrder(agg, children));
  }

  lemma {:induction false} DisjointAscends(nets: seq<Net>)
    requires ByBase(nets) && PairwiseDisjoint(nets)
    ensures EndsNeverDecrease(nets)
  {
    if nets != [] {
      DisjointAscends(nets[1..]);
      forall i, j | 0 <= i < j < |nets| ensures Last(nets[i]) <= Last(nets[j]) {
        if i == 0 {
          assert nets[j] == nets[1..][j - 1];
          assert !Overlaps(nets[0], nets[j]) && nets[0].base <= nets[j].base;
        } else {
          assert nets[i] == nets[1..][i - 1] && nets[j] == nets[1..][j - 1];
        }
      }
    }
  }
}
