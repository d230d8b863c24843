/** Facts about multiples that the block and prefix arithmetic rests on. */
module Multiples {

  lemma Product(k: int, b: int)
    requires b >= 1
    ensures k >= 1 ==> k * b >= b
    ensures k <= 0 ==> k * b <= 0
    ensures k <= -1 ==> k * b <= -b
  {
  }

  lemma Quotient(x: int, b: int)
    requires b >= 1
    ensures x / b * b + x % b == x
  {
  }

  lemma Unique(q: int, r: int, b: int)
    requires b >= 1 && 0 <= r < b
    ensures (q * b + r) / b == q && (q * b + r) % b == r
  {
    var x := q * b + r;
    Quotient(x, b);
    assert (q - x / b) * b == x % b - r;
    Product(q - x / b, b);
  }

  /** Distinct multiples of `b` are at least `b` apart. */
  lemma Apart(x: int, y: int, b: int)
    requires b >= 1 && x % b == 0 && y % b == 0 && x < y
    ensures x + b <= y
  {
    Quotient(x, b);
    Quotient(y, b);
    assert (y / b - x / b) * b == y - x;
    Product(y / b - x / b, b);
  }

  lemma Skip(x: int, k: int, b: int)
    requires b >= 1 && x % b == 0
    ensures (x + k * b) % b == 0
  {
    Quotient(x, b);
    Unique(x / b + k, 0, b);
    assert (x / b + k) * b == x + k * b;
  }

  lemma Ordered(i: int, j: int, b: int)
    requires b >= 1 && i < j
    ensures i * b + b <= j * b
  {
    Product(j - i - 1, b);
    assert (j - i - 1) * b == j * b - i * b - b;
  }

  lemma MultipleOfProduct(x: int, m: int, b: int)
    requires b >= 1 && m >= 1 && m * b >= 1 && x % (m * b) == 0
    ensures x % b == 0
  {
    Quotient(x, m * b);
    var q := x / (m * b);
    assert q * (m * b) == (q * m) * b;
    Unique(q * m, 0, b);
  }

  /** The i-th interval of width `b` ends by `d` exactly when i is below the quotient. */
  lemma EndsBy(i: int, d: int, b: int)
    requires b >= 1
    ensures i * b + b <= d <==> i < d / b
  {
    Quotient(d, b);
    if i < d / b {
      Ordered(i, d / b, b);
    } else if i > d / b {
      Ordered(d / b, i, b);
    }
  }

  /** `d` lies in the i-th interval of width `b` exactly when i is the quotient. */
  lemma LiesIn(i: int, d: int, b: int)
    requires b >= 1
    ensures i * b <= d < i * b + b <==> i == d / b
  {
    EndsBy(i, d, b);
    EndsBy(i - 1, d, b);
    assert (i - 1) * b == i * b - b;
  }

  lemma QuotientBound(d: int, n: int, b: int)
    requires b >= 1 && 0 <= d < n * b
    ensures 0 <= d / b < n
  {
    EndsBy(n - 1, d, b);
    assert (n - 1) * b == n * b - b;
    EndsBy(-1, d, b);
  }

  lemma Wrap(i: int, n: int)
    requires 0 <= i < n
    ensures (i + 1) % n == if i + 1 == n then 0 else i + 1
  {
    if i + 1 == n {
      Unique(1, 0, n);
    } else {
      Unique(0, i + 1, n);
    }
  }

  lemma DifferenceOfMultiples(x: int, y: int, b: int)
    requires b >= 1 && x % b == 0 && y % b == 0
    ensures (x - y) / b * b == x - y
  {
    Quotient(x, b);
    Quotient(y, b);
    var k := x / b - y / b;
    assert k * b == x / b * b - y / b * b;
    Unique(k, 0, b);
  }
}

/** Addresses and networks as values (pkg/ip/cidr.go).

    An address is a family and a number. Inside one pool every address has the family of the pool's
    network, because validation rejects any other, so most of the model works on the bare numbers and
    carries the family only to know where the address space ends. */
module Addresses {

  datatype Option<+T> = None | Some(value: T)

  datatype Family = IPv4 | IPv6

  datatype Address = Address(family: Family, value: nat)

  function Pow2(n: nat): (r: nat)
    ensures r >= 1
  {
    if n == 0 then 1 else 2 * Pow2(n - 1)
  }

  lemma {:induction false} Pow2Adds(m: nat, n: nat)
    ensures Pow2(m + n) == Pow2(m) * Pow2(n)
  {
    if m == 0 {
    } else {
      Pow2Adds(m - 1, n);
    }
  }

  lemma {:induction false} Pow2Monotone(m: nat, n: nat)
    requires m <= n
    ensures Pow2(m) <= Pow2(n)
    decreases n
  {
    if m == n {
    } else {
      Pow2Monotone(m, n - 1);
    }
  }

  function Bits(f: Family): nat {
    if f.IPv4? then 32 else 128
  }

  /** The number of addresses of a family: every address value is below it. */
  function Space(f: Family): (r: nat)
    ensures r >= 1
  {
    Pow2(Bits(f))
  }

  /** The address `offset` above `v`, or None when it leaves the address space or the offset is negative. */
  function NextIPWithOffset(f: Family, v: nat, offset: int): Option<nat> {
    if offset < 0 || v + offset >= Space(f) then None else Some(v + offset)
  }

  function NextIP(f: Family, v: nat): Option<nat> {
    NextIPWithOffset(f, v, 1)
  }

  /** A network: its first address and the number of host bits. */
  datatype Subnet = Subnet(family: Family, base: nat, hostBits: nat) {

    function Size(): (r: nat)
      ensures r >= 1
    {
      Pow2(hostBits)
    }

    /** What parsing a CIDR guarantees: the mask fits the family and no host bit of the base is set. */
    predicate Valid() {
      && hostBits <= Bits(family)
      && base % Size() == 0
      && base + Size() <= Space(family)
    }

    predicate Contains(a: Address) {
      a.family == family && ContainsValue(a.value)
    }

    predicate ContainsValue(v: nat) {
      base <= v < base + Size()
    }

    predicate IsSingleIP() {
      hostBits == 0
    }

    predicate IsPointToPoint() {
      hostBits == 1
    }

    /** IPv4 networks of four or more addresses reserve the last one. */
    predicate HasBroadcast() {
      family.IPv4? && !IsSingleIP() && !IsPointToPoint()
    }

    predicate IsBroadcast(v: nat) {
      HasBroadcast() && v == base + Size() - 1
    }

    /** The first address for hosts: the network address only in the smallest networks. */
    function FirstIP(): nat {
      if IsPointToPoint() || IsSingleIP() then base else base + 1
    }

    /** The last address that is not the broadcast address. */
    function LastIP(): (r: nat)
      ensures base <= r < base + Size()
      ensures r == base + Size() - 1 || (r == base + Size() - 2 && IsBroadcast(r + 1))
    {
      if HasBroadcast() then
        assert Pow2(hostBits) == 2 * Pow2(hostBits - 1);
        assert Pow2(hostBits - 1) == 2 * Pow2(hostBits - 2);
        base + Size() - 2
      else
        base + Size() - 1
    }

    /** The number of addresses validation counts as available to hosts. */
    function PossibleIPCount(): nat {
      if IsSingleIP() then 1
      else if IsPointToPoint() then 2
      else if family.IPv4? then
        assert Pow2(hostBits) == 2 * Pow2(hostBits - 1);
        Size() - 2
      else Size() - 1
    }
  }

  /** The addresses for hosts of a network, counted from its base: networks of four or more addresses leave out the
      first, and those of IPv4 the last. */
  lemma HostAddresses(net: Subnet)
    requires net.Valid()
    ensures net.FirstIP() == if net.hostBits >= 2 then net.base + 1 else net.base
    ensures net.LastIP() == if net.family.IPv4? && net.hostBits >= 2 then net.base + net.Size() - 2 else net.base + net.Size() - 1
    ensures net.FirstIP() <= net.LastIP()
    ensures net.PossibleIPCount() == net.LastIP() - net.FirstIP() + 1
    ensures forall v :: net.IsBroadcast(v) <==> net.family.IPv4? && net.hostBits >= 2 && v == net.base + net.Size() - 1
  {
    assert net.hostBits == 0 ==> net.Size() == 1;
    assert net.hostBits >= 1 ==> net.Size() == 2 * Pow2(net.hostBits - 1);
    assert net.hostBits == 1 ==> net.Size() == 2 * Pow2(0);
    assert net.hostBits >= 2 ==> Pow2(net.hostBits - 1) == 2 * Pow2(net.hostBits - 2);
  }

  /** How long a call may run: `DoneAfter(n)` is cancelled at its n-th poll and ever after. */
  datatype Context = Background | DoneAfter(polls: nat) {
    predicate Done(poll: nat) {
      DoneAfter? && poll >= polls
    }
  }
}
