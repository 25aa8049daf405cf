/** IPv4 networks and egress allowlist rules (crates/domain/src/egress.rs).

    A `u32` is a number below 2^32; its `&` and `<<` are written out. */
module EgressModel {
  import opened Prelude

  const U32 := 0x1_0000_0000
  type Ipv4Addr = a: int | 0 <= a < U32 witness 0

  // ---------------------------------------------------------------- u32 arithmetic

  function And(a: nat, b: nat): nat {
    if a == 0 || b == 0 then 0
    else 2 * And(a / 2, b / 2) + if a % 2 == 1 && b % 2 == 1 then 1 else 0
  }

  function ShiftLeft(a: nat, k: nat): (r: Ipv4Addr) {
    a * Pow2(k) % U32
  }

  function MaskBits(prefix: nat): Ipv4Addr
    requires prefix <= 32
  {
    if prefix == 0 then 0 else ShiftLeft(U32 - 1, 32 - prefix)
  }

  /** Addresses of a network with this prefix length. */
  function Block(prefix: nat): (b: nat)
    requires prefix <= 32
    ensures b >= 1
  {
    Pow2(32 - prefix)
  }

  lemma {:induction false} Pow2Splits(i: nat, j: nat)
    ensures Pow2(i + j) == Pow2(i) * Pow2(j)
  {
    if i > 0 {
      Pow2Splits(i - 1, j);
      assert Pow2(i + j) == 2 * Pow2(i - 1 + j);
    }
  }

  lemma FullBlock()
    ensures Pow2(32) == U32 && Block(0) == U32 && Block(32) == 1
  {
    assert Pow2(8) == 256;
    Pow2Splits(8, 8);
    Pow2Splits(16, 16);
  }

  lemma {:induction false} AndKeepsAll(a: nat, n: nat)
    requires a < Pow2(n)
    ensures And(a, Pow2(n) - 1) == a
  {
    if n > 0 && a > 0 {
      AndKeepsAll(a / 2, n - 1);
      assert (Pow2(n) - 1) / 2 == Pow2(n - 1) - 1;
    }
  }

  lemma HalvedRemainder(a: nat, p: nat)
    requires p >= 1
    ensures a % (2 * p) == 2 * (a / 2 % p) + a % 2
  {
    var q := a / 2 / p;
    assert a == 2 * (p * q + a / 2 % p) + a % 2;
    assert a == (2 * p) * q + (2 * (a / 2 % p) + a % 2);
    DivisionIsUnique(a, 2 * p, q, 2 * (a / 2 % p) + a % 2);
  }

  lemma {:induction false} Pow2Grows(k: nat, n: nat)
    requires k <= n
    ensures Pow2(k) <= Pow2(n)
    decreases n
  {
    if k < n {
      Pow2Grows(k, n - 1);
    }
  }

  lemma MaskHalves(n: nat, k: nat)
    requires 1 <= k <= n
    ensures Pow2(k) == 2 * Pow2(k - 1) && Pow2(n) == 2 * Pow2(n - 1) && Pow2(k - 1) <= Pow2(n - 1)
  {
    Pow2Grows(k - 1, n - 1);
  }

  lemma AndWithEven(a: nat, m: nat)
    ensures And(a, 2 * m) == 2 * And(a / 2, m)
  {
  }

  /** The number with its `k` low bits cleared. */
  function High(a: nat, k: nat): nat {
    if k == 0 then a else 2 * High(a / 2, k - 1)
  }

  lemma {:induction false} HighIsRounded(a: nat, k: nat)
    ensures High(a, k) == a - a % Pow2(k)
  {
    if k > 0 {
      HighIsRounded(a / 2, k - 1);
      HalvedRemainder(a, Pow2(k - 1));
    }
  }

  lemma {:induction false} AndClearsLowBits(a: nat, n: nat, k: nat)
    requires k <= n && a < Pow2(n)
    ensures Pow2(k) <= Pow2(n) && And(a, Pow2(n) - Pow2(k)) == High(a, k)
    decreases k
  {
    if k == 0 {
      AndKeepsAll(a, n);
    } else {
      MaskHalves(n, k);
      AndClearsLowBits(a / 2, n - 1, k - 1);
      AndWithEven(a, Pow2(n - 1) - Pow2(k - 1));
    }
  }

  lemma MaskIsHighBits(prefix: nat)
    requires prefix <= 32
    ensures MaskBits(prefix) == U32 - Block(prefix)
  {
    FullBlock();
    if prefix > 0 {
      var b := Block(prefix);
      Pow2Grows(32 - prefix, 31);
      assert Pow2(31) * 2 == U32;
      assert (U32 - 1) * b == U32 * (b - 1) + (U32 - b);
      DivisionIsUnique((U32 - 1) * b, U32, b - 1, U32 - b);
    }
  }

  lemma Masked(a: Ipv4Addr, prefix: nat)
    requires prefix <= 32
    ensures And(a, MaskBits(prefix)) == a - a % Block(prefix)
  {
    FullBlock();
    MaskIsHighBits(prefix);
    AndClearsLowBits(a, 32, 32 - prefix);
    HighIsRounded(a, 32 - prefix);
  }

  // ---------------------------------------------------------------- networks

  datatype Ipv4Cidr = Ipv4Cidr(network: Ipv4Addr, prefix: nat) {
    /** Every value the constructor can build. */
    ghost predicate Valid() { prefix <= 32 && network % Block(prefix) == 0 }

    function Size(): nat
      requires prefix <= 32
    {
      Block(prefix)
    }

    predicate Contains(a: Ipv4Addr)
      requires prefix <= 32
    {
      And(a, MaskBits(prefix)) == network
    }

    predicate ContainsNet(other: Ipv4Cidr)
      requires prefix <= 32
    {
      other.prefix >= prefix && Contains(other.network)
    }

    predicate Overlaps(other: Ipv4Cidr)
      requires prefix <= 32 && other.prefix <= 32
    {
      ContainsNet(other) || other.ContainsNet(this)
    }
  }

  /** The prefix of a `u8` above 32 counts as 32. */
  function New(a: Ipv4Addr, prefix: nat): (c: Ipv4Cidr)
    ensures c.Valid() && c.Contains(a) && c.prefix == if prefix <= 32 then prefix else 32
  {
    var p := if prefix > 32 then 32 else prefix;
    Masked(a, p);
    AlignedDown(a, Block(p));
    Ipv4Cidr(And(a, MaskBits(p)), p)
  }

  lemma AlignedDown(a: nat, b: nat)
    requires b >= 1
    ensures 0 <= a - a % b <= a && (a - a % b) % b == 0
  {
    DivisionIsUnique(a - a % b, b, a / b, 0);
  }

  /** Rounding down to a multiple of `b` gives `n` exactly on the block that starts at `n`. */
  lemma RoundsDownInsideTheBlock(a: nat, n: nat, b: nat)
    requires b >= 1 && n % b == 0
    ensures a - a % b == n <==> n <= a < n + b
  {
    assert n == b * (n / b);
    if n <= a < n + b {
      DivisionIsUnique(a, b, n / b, a - n);
    }
  }

  /** An address between two multiples of `b` has its own block between them. */
  lemma BlockStaysBetween(b: nat, first: int, at: int, till: int, a: int)
    requires b >= 1
    requires b * first <= a < b * till && b * at <= a < b * at + b
    ensures b * first <= b * at && b * at + b <= b * till
  {
    assert b * (at + 1) == b * at + b;
    if at + 1 <= first {
      MultipliesUp(b, at + 1, first);
    } else if till <= at {
      MultipliesUp(b, till, at);
    } else {
      MultipliesUp(b, first, at);
      MultipliesUp(b, at + 1, till);
    }
  }

  lemma BlockEndsInside(b: nat, blocks: nat, n: nat)
    requires b >= 1 && n % b == 0 && n < b * blocks
    ensures n + b <= b * blocks
  {
    assert n == b * (n / b);
    BlockStaysBetween(b, 0, n / b, blocks, n);
  }

  lemma NetworkEndsInside(c: Ipv4Cidr)
    requires c.Valid()
    ensures c.network + c.Size() <= U32
  {
    FullBlock();
    Pow2Splits(32 - c.prefix, c.prefix);
    BlockEndsInside(c.Size(), Pow2(c.prefix), c.network);
  }

  /** A network is the interval of `Size` addresses that starts at its own. */
  lemma ContainsIsAnInterval(c: Ipv4Cidr, a: Ipv4Addr)
    requires c.Valid()
    ensures c.Contains(a) <==> c.network <= a < c.network + c.Size()
    ensures c.network + c.Size() <= U32
  {
    NetworkEndsInside(c);
    Masked(a, c.prefix);
    RoundsDownInsideTheBlock(a, c.network, c.Size());
  }

  lemma NarrowerBlockDivides(wide: nat, narrow: nat) returns (ratio: nat)
    requires wide <= narrow <= 32
    ensures Block(wide) == Block(narrow) * ratio && ratio >= 1
  {
    Pow2Splits(32 - narrow, narrow - wide);
    assert 32 - narrow + (narrow - wide) == 32 - wide;
    ratio := Pow2(narrow - wide);
  }

  lemma AlignedBlocksNest(wide: nat, narrow: nat, ratio: nat, n: nat, m: nat, a: nat)
    requires narrow >= 1 && wide == narrow * ratio && wide >= 1
    requires n % wide == 0 && m % narrow == 0
    requires n <= a < n + wide && m <= a < m + narrow
    ensures n <= m && m + narrow <= n + wide
  {
    var first, at := n / wide * ratio, m / narrow;
    assert n == narrow * first by {
      assert n == narrow * ratio * (n / wide);
    }
    assert m == narrow * at;
    assert n + wide == narrow * (first + ratio);
    BlockStaysBetween(narrow, first, at, first + ratio, a);
  }

  /** Two networks that share an address: the one with the longer prefix lies inside the other. */
  lemma SharingNetworksNest(wide: Ipv4Cidr, narrow: Ipv4Cidr, a: Ipv4Addr)
    requires wide.Valid() && narrow.Valid() && wide.prefix <= narrow.prefix
    requires wide.Contains(a) && narrow.Contains(a)
    ensures wide.network <= narrow.network && narrow.network + narrow.Size() <= wide.network + wide.Size()
  {
    var ratio := NarrowerBlockDivides(wide.prefix, narrow.prefix);
    ContainsIsAnInterval(wide, a);
    ContainsIsAnInterval(narrow, a);
    AlignedBlocksNest(wide.Size(), narrow.Size(), ratio, wide.network, narrow.network, a);
  }

  /** `contains_net` is set inclusion. */
  lemma ContainsNetIsInclusion(c: Ipv4Cidr, d: Ipv4Cidr)
    requires c.Valid() && d.Valid()
    ensures c.ContainsNet(d) <==> forall a: Ipv4Addr :: d.Contains(a) ==> c.Contains(a)
  {
    ContainsIsAnInterval(d, d.network);
    if c.ContainsNet(d) {
      SharingNetworksNest(c, d, d.network);
      forall a: Ipv4Addr | d.Contains(a) ensures c.Contains(a) {
        ContainsIsAnInterval(d, a);
        ContainsIsAnInterval(c, a);
      }
    } else if forall a: Ipv4Addr :: d.Contains(a) ==> c.Contains(a) {
      var last := d.network + d.Size() - 1;
      ContainsIsAnInterval(d, last);
      assert d.Contains(d.network) && d.Contains(last);
      ContainsIsAnInterval(c, d.network);
      ContainsIsAnInterval(c, last);
      LongerPrefixIsSmaller(d.prefix, c.prefix);
      assert false;
    }
  }

  lemma LongerPrefixIsSmaller(p: nat, q: nat)
    requires p <= 32 && q <= 32
    ensures p < q ==> Block(p) > Block(q)
  {
    if p < q {
      Pow2Grows(32 - q, 32 - p - 1);
    }
  }

  /** `overlaps` is non-empty intersection. */
  lemma OverlapsIsIntersection(c: Ipv4Cidr, d: Ipv4Cidr)
    requires c.Valid() && d.Valid()
    ensures c.Overlaps(d) <==> exists a: Ipv4Addr :: c.Contains(a) && d.Contains(a)
  {
    ContainsIsAnInterval(c, c.network);
    ContainsIsAnInterval(d, d.network);
    if c.ContainsNet(d) {
      assert c.Contains(d.network) && d.Contains(d.network);
    } else if d.ContainsNet(c) {
      assert c.Contains(c.network) && d.Contains(c.network);
    } else if a: Ipv4Addr :| c.Contains(a) && d.Contains(a) {
      if c.prefix <= d.prefix {
        SharingNetworksNest(c, d, a);
        ContainsIsAnInterval(c, d.network);
      } else {
        SharingNetworksNest(d, c, a);
        ContainsIsAnInterval(d, c.network);
      }
      assert false;
    }
  }

  /** Any two networks are nested or disjoint, and mutual inclusion is equality. */
  lemma NestedOrDisjoint(c: Ipv4Cidr, d: Ipv4Cidr)
    requires c.Valid() && d.Valid()
    ensures
      || (forall a: Ipv4Addr :: d.Contains(a) ==> c.Contains(a))
      || (forall a: Ipv4Addr :: c.Contains(a) ==> d.Contains(a))
      || (forall a: Ipv4Addr :: !(c.Contains(a) && d.Contains(a)))
    ensures (forall a: Ipv4Addr :: c.Contains(a) <==> d.Contains(a)) ==> c == d
  {
    OverlapsIsIntersection(c, d);
    ContainsNetIsInclusion(c, d);
    ContainsNetIsInclusion(d, c);
    if forall a: Ipv4Addr :: c.Contains(a) <==> d.Contains(a) {
      assert c.prefix == d.prefix;
      ContainsIsAnInterval(c, c.network);
      ContainsIsAnInterval(d, c.network);
      ContainsIsAnInterval(c, d.network);
      ContainsIsAnInterval(d, d.network);
      assert c.Contains(c.network) && d.Contains(d.network);
    }
  }

  function Interval(from: nat, till: nat): (s: set<nat>)
    ensures forall a :: a in s <==> from <= a < till
    decreases till
  {
    if from >= till then {} else Interval(from, till - 1) + {till - 1}
  }

  lemma {:induction false} IntervalSize(from: nat, till: nat)
    requires from <= till
    ensures |Interval(from, till)| == till - from
    decreases till
  {
    if from < till {
      IntervalSize(from, till - 1);
    }
  }

  ghost function Addresses(c: Ipv4Cidr): set<nat>
    requires c.prefix <= 32
  {
    set a: nat | a < U32 && c.Contains(a)
  }

  /** `size` is the number of addresses `contains` accepts. */
  lemma SizeIsCardinality(c: Ipv4Cidr)
    requires c.Valid()
    ensures |Addresses(c)| == c.Size()
  {
    var till := c.network + c.Size();
    ContainsIsAnInterval(c, c.network);
    forall a: nat ensures a in Addresses(c) <==> a in Interval(c.network, till) {
      if a < U32 {
        ContainsIsAnInterval(c, a);
      }
    }
    assert Addresses(c) == Interval(c.network, till);
    IntervalSize(c.network, till);
  }
}
