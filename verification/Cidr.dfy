/** IPv4 addresses as integers and CIDR networks as aligned power-of-two blocks
    (section 3.1 of RFC 4632). */
module Cidr {
  const ADDRESS_COUNT: int := 0x1_0000_0000

  function Pow2(n: nat): (p: int)
    ensures p >= 1
  {
    if n == 0 then 1 else 2 * Pow2(n - 1)
  }

  /** Python's int.bit_length on non-negative integers. */
  function BitLength(n: nat): nat {
    if n == 0 then 0 else 1 + BitLength(n / 2)
  }

  datatype Network = Network(base: int, len: int)

  predicate WellFormed(n: Network) {
    && 0 <= n.len <= 32
    && 0 <= n.base
    && Aligned(n.base, 32 - n.len)
    && n.base + Pow2(32 - n.len) <= ADDRESS_COUNT
  }

  type Net = n: Network | WellFormed(n) witness Network(0, 32)

  function Size(n: Net): int {
    Pow2(32 - n.len)
  }

  /** The broadcast address. */
  function Last(n: Net): int {
    n.base + Size(n) - 1
  }

  predicate Contains(n: Net, a: int) {
    n.base <= a <= Last(n)
  }

  predicate SubnetOf(inner: Net, outer: Net) {
    outer.base <= inner.base && Last(inner) <= Last(outer)
  }

  /** ipaddress's `overlaps`: one of the four end points lies in the other network. */
  predicate Overlaps(a: Net, b: Net) {
    Contains(a, b.base) || Contains(a, Last(b)) || Contains(b, a.base) || Contains(b, Last(a))
  }

  ghost predicate InSome(nets: seq<Net>, a: int) {
    exists i :: 0 <= i < |nets| && Contains(nets[i], a)
  }

  // ---------- powers of two ----------

  lemma Pow2Monotone(i: nat, j: nat)
    requires i <= j
    ensures Pow2(i) <= Pow2(j)
    decreases j
  {
    if i < j { Pow2Monotone(i, j - 1); }
  }

  lemma Pow2Strict(i: nat, j: nat)
    requires Pow2(i) < Pow2(j)
    ensures i < j
  {
    if j <= i { Pow2Monotone(j, i); }
  }

  lemma Pow2Values()
    ensures Pow2(32) == ADDRESS_COUNT
    ensures Pow2(31) == 0x8000_0000
  {
    assert Pow2(8) == 256;
    assert Pow2(16) == 65536;
    assert Pow2(24) == 0x100_0000;
  }

  lemma {:induction false} BitLengthOfPow2(e: nat)
    ensures BitLength(Pow2(e)) == e + 1
  {
    if e > 0 {
      BitLengthOfPow2(e - 1);
      assert Pow2(e) / 2 == Pow2(e - 1);
    }
  }

  /** `x` is a multiple of 2^e: its low e bits are zero. */
  predicate Aligned(x: int, e: nat)
    decreases e
  {
    e == 0 || (x % 2 == 0 && Aligned(x / 2, e - 1))
  }

  lemma ModDouble(x: int, p: int)
    requires p > 0
    ensures x % (2 * p) == 0 <==> x % 2 == 0 && (x / 2) % p == 0
  {
    var h := x / 2;
    if x % 2 == 0 && h % p == 0 {
      var q := h / p;
      assert h == q * p;
      assert x == q * (2 * p);
      MultipleOf(q, 2 * p);
    }
    if x % (2 * p) == 0 {
      var q := x / (2 * p);
      assert x == 2 * (q * p);
      MultipleOf(q, p);
    }
  }

  lemma MultipleOf(q: int, s: int)
    requires s > 0
    ensures (q * s) % s == 0
  {
    MulOrder(q - (q * s) / s, s);
  }

  lemma MulOrder(d: int, s: int)
    requires s > 0
    ensures d >= 1 ==> d * s >= s
    ensures d <= -1 ==> d * s <= -s
  {
  }

  /** `Aligned` is the `addr % size == 0` test of the program. */
  lemma {:induction false} AlignedIsModulo(x: int, e: nat)
    ensures Aligned(x, e) <==> x % Pow2(e) == 0
    decreases e
  {
    if e > 0 {
      AlignedIsModulo(x / 2, e - 1);
      ModDouble(x, Pow2(e - 1));
    }
  }

  lemma {:induction false} AlignedDown(x: int, i: nat, j: nat)
    requires i <= j && Aligned(x, j)
    ensures Aligned(x, i)
    decreases i
  {
    if i > 0 { AlignedDown(x / 2, i - 1, j - 1); }
  }

  lemma {:induction false} AlignedSum(x: int, y: int, e: nat)
    requires Aligned(x, e) && Aligned(y, e)
    ensures Aligned(x + y, e)
    decreases e
  {
    if e > 0 { AlignedSum(x / 2, y / 2, e - 1); }
  }

  lemma {:induction false} Pow2Aligned(i: nat, j: nat)
    requires i <= j
    ensures Aligned(Pow2(j), i)
  {
    if i > 0 { Pow2Aligned(i - 1, j - 1); }
  }

  /** Multiples of 2^e less than 2^e apart are in order. */
  lemma {:induction false} AlignedGap(x: int, y: int, e: nat)
    requires Aligned(x, e) && Aligned(y, e) && x < y + Pow2(e)
    ensures x <= y
    decreases e
  {
    if e > 0 { AlignedGap(x / 2, y / 2, e - 1); }
  }

  /** An odd multiple of 2^e becomes a multiple of 2^(e+1) one step further. */
  lemma {:induction false} OddMultipleStep(x: int, e: nat)
    requires Aligned(x, e) && !Aligned(x, e + 1)
    ensures Aligned(x + Pow2(e), e + 1)
    decreases e
  {
    if e > 0 {
      OddMultipleStep(x / 2, e - 1);
    } else {
      assert x % 2 == 1;
    }
  }

  // ---------- CIDR blocks ----------

  /** Two CIDR blocks that share an address are nested, the longer prefix inside. */
  lemma Laminar(a: Net, b: Net)
    requires Overlaps(a, b) && b.len <= a.len
    ensures SubnetOf(a, b)
  {
    var e := 32 - a.len;
    AlignedDown(b.base, e, 32 - b.len);
    Pow2Aligned(e, 32 - b.len);
    AlignedSum(b.base, Size(b), e);
    Pow2Aligned(e, e);
    AlignedSum(a.base, Size(a), e);
    Pow2Monotone(e, 32 - b.len);
    AlignedGap(b.base, a.base, e);
    AlignedGap(a.base + Size(a), b.base + Size(b), e);
  }

  /** `Overlaps` is exactly "some address lies in both". */
  lemma OverlapsIffShared(a: Net, b: Net)
    ensures Overlaps(a, b) <==> exists x :: Contains(a, x) && Contains(b, x)
  {
    if Overlaps(a, b) {
      var x := if a.base <= b.base then b.base else a.base;
      assert Contains(a, x) && Contains(b, x);
    }
  }

  /** A network inside another has at least as long a prefix, and the same one only when equal. */
  lemma SubnetLength(a: Net, b: Net)
    requires SubnetOf(a, b)
    ensures b.len <= a.len
    ensures a.len == b.len ==> a == b
  {
    if a.len < b.len {
      Pow2Monotone(32 - b.len, 32 - a.len);
      assert a.base == b.base && Size(a) == Size(b);
      assert Size(a) == 2 * Pow2(32 - a.len - 1);
      Pow2Monotone(32 - b.len, 32 - a.len - 1);
      assert false;
    }
  }

  /** `ip_network(addr/len, strict=False)`: host bits are cleared. */
  function Mask(addr: int, len: int): (n: Net)
    requires 0 <= addr < ADDRESS_COUNT && 0 <= len <= 32
    ensures n.len == len && Contains(n, addr)
  {
    MaskWellFormed(addr, len);
    Network(addr - addr % Pow2(32 - len), len)
  }

  lemma RemainderCleared(x: int, s: int)
    requires x >= 0 && s > 0
    ensures 0 <= x - x % s <= x < x - x % s + s
    ensures (x - x % s) % s == 0
  {
    assert x - x % s == (x / s) * s;
    MultipleOf(x / s, s);
  }

  /** An aligned block that starts inside the address space stays inside it. */
  lemma BlockFits(base: int, e: nat)
    requires e <= 32 && Aligned(base, e) && base < ADDRESS_COUNT
    ensures base + Pow2(e) <= ADDRESS_COUNT
  {
    Pow2Values();
    Pow2Aligned(e, 32);
    Pow2Aligned(e, e);
    AlignedSum(base, Pow2(e), e);
    AlignedGap(base + Pow2(e), ADDRESS_COUNT, e);
  }

  lemma MaskWellFormed(addr: int, len: int)
    requires 0 <= addr < ADDRESS_COUNT && 0 <= len <= 32
    ensures WellFormed(Network(addr - addr % Pow2(32 - len), len))
  {
    RemainderCleared(addr, Pow2(32 - len));
    AlignedIsModulo(addr - addr % Pow2(32 - len), 32 - len);
    BlockFits(addr - addr % Pow2(32 - len), 32 - len);
  }
}
