/** Iteration over the fixed-size prefixes of a network (pkg/ip/cidr.go, SubnetIterator). */
module SubnetIteration {
  import opened Addresses
  import Multiples

  function Count(net: Subnet, hostBits: nat): nat
    requires hostBits <= net.hostBits
  {
    Pow2(net.hostBits - hostBits)
  }

  /** The i-th prefix with `hostBits` host bits. */
  function ChildAt(net: Subnet, hostBits: nat, i: nat): (c: Subnet)
    ensures c.family == net.family && c.hostBits == hostBits
  {
    Subnet(net.family, net.base + i * Pow2(hostBits), hostBits)
  }

  /** A network is as large as its prefixes together. */
  lemma SizeSplits(net: Subnet, hostBits: nat)
    requires hostBits <= net.hostBits
    ensures net.Size() == Count(net, hostBits) * Pow2(hostBits)
  {
    Pow2Adds(net.hostBits - hostBits, hostBits);
  }

  lemma BaseAligned(net: Subnet, hostBits: nat)
    requires net.Valid() && hostBits <= net.hostBits
    ensures net.base % Pow2(hostBits) == 0
  {
    SizeSplits(net, hostBits);
    Multiples.MultipleOfProduct(net.base, Count(net, hostBits), Pow2(hostBits));
  }

  lemma ChildBounds(net: Subnet, hostBits: nat, i: nat)
    requires hostBits <= net.hostBits && i < Count(net, hostBits)
    ensures net.base <= ChildAt(net, hostBits, i).base
    ensures ChildAt(net, hostBits, i).base + Pow2(hostBits) <= net.base + net.Size()
  {
    SizeSplits(net, hostBits);
    Multiples.Ordered(i, Count(net, hostBits), Pow2(hostBits));
  }

  lemma ChildAligned(net: Subnet, hostBits: nat, i: nat)
    requires net.Valid() && hostBits <= net.hostBits
    ensures ChildAt(net, hostBits, i).base % Pow2(hostBits) == 0
  {
    BaseAligned(net, hostBits);
    Multiples.Skip(net.base, i, Pow2(hostBits));
  }

  /** Every prefix generated is a valid network inside the parent. */
  lemma ChildInside(net: Subnet, hostBits: nat, i: nat)
    requires net.Valid() && hostBits <= net.hostBits && i < Count(net, hostBits)
    ensures ChildAt(net, hostBits, i).Valid()
    ensures net.base <= ChildAt(net, hostBits, i).base
    ensures ChildAt(net, hostBits, i).base + Pow2(hostBits) <= net.base + net.Size()
  {
    ChildBounds(net, hostBits, i);
    ChildAligned(net, hostBits, i);
  }

  /** Later prefixes lie wholly behind earlier ones. */
  lemma ChildrenOrdered(net: Subnet, hostBits: nat, i: nat, j: nat)
    requires i < j
    ensures ChildAt(net, hostBits, i).base + Pow2(hostBits) <= ChildAt(net, hostBits, j).base
  {
    Multiples.Ordered(i, j, Pow2(hostBits));
  }

  /** The prefixes partition the network: each address is in exactly one, the one at its index. */
  lemma ChildrenPartition(net: Subnet, hostBits: nat, v: nat, i: nat)
    requires net.Valid() && hostBits <= net.hostBits && net.ContainsValue(v)
    ensures 0 <= (v - net.base) / Pow2(hostBits) < Count(net, hostBits)
    ensures ChildAt(net, hostBits, i).ContainsValue(v) <==> i == (v - net.base) / Pow2(hostBits)
  {
    SizeSplits(net, hostBits);
    Multiples.QuotientBound(v - net.base, Count(net, hostBits), Pow2(hostBits));
    Multiples.LiesIn(i, v - net.base, Pow2(hostBits));
  }

  /** A valid prefix of the right size that starts in the network is one of those generated. */
  lemma ChildIndex(net: Subnet, p: Subnet)
    requires net.Valid() && p.Valid() && p.family == net.family && p.hostBits <= net.hostBits
    requires net.ContainsValue(p.base)
    ensures var i := (p.base - net.base) / p.Size();
            0 <= i < Count(net, p.hostBits) && ChildAt(net, p.hostBits, i) == p
  {
    SizeSplits(net, p.hostBits);
    BaseAligned(net, p.hostBits);
    Multiples.QuotientBound(p.base - net.base, Count(net, p.hostBits), p.Size());
    Multiples.DifferenceOfMultiples(p.base, net.base, p.Size());
  }

  /** Two different prefixes of one size share no address. */
  lemma PrefixesDisjoint(p: Subnet, q: Subnet, v: nat)
    requires p.Valid() && q.Valid() && p.family == q.family && p.hostBits == q.hostBits && p != q
    ensures !(p.ContainsValue(v) && q.ContainsValue(v))
  {
    if p.base < q.base {
      Multiples.Apart(p.base, q.base, p.Size());
    } else {
      Multiples.Apart(q.base, p.base, p.Size());
    }
  }

  /** The i-th prefix lies wholly at or below `end`. */
  predicate EndsBy(net: Subnet, hostBits: nat, i: nat, end: nat) {
    ChildAt(net, hostBits, i).base + Pow2(hostBits) <= end + 1
  }

  /** Moving from index `was` to `now` goes past `end` and no further: every prefix skipped ends by `end`, and
      the next one, if any, does not. */
  ghost predicate Advanced(net: Subnet, hostBits: nat, was: nat, now: nat, end: nat)
    requires hostBits <= net.hostBits
  {
    && was <= now
    && (forall i :: was <= i < now ==> EndsBy(net, hostBits, i, end))
    && (now < Count(net, hostBits) ==> !EndsBy(net, hostBits, now, end))
  }

  /** That is: every address of the i-th prefix is at or below `end`. */
  lemma EndsByExactly(net: Subnet, hostBits: nat, i: nat, end: nat)
    ensures EndsBy(net, hostBits, i, end) <==> forall v: nat :: ChildAt(net, hostBits, i).ContainsValue(v) ==> v <= end
  {
    var child := ChildAt(net, hostBits, i);
    assert child.ContainsValue(child.base + Pow2(hostBits) - 1);
  }

  class SubnetIterator {
    const net: Subnet
    const hostBits: nat
    var nextIndex: nat

    ghost predicate Valid()
      reads this
    {
      net.Valid() && hostBits <= net.hostBits && nextIndex <= Count(net, hostBits)
    }

    constructor (net: Subnet, hostBits: nat)
      requires net.Valid() && hostBits <= net.hostBits
      ensures Valid() && this.net == net && this.hostBits == hostBits && nextIndex == 0
    {
      this.net := net;
      this.hostBits := hostBits;
      nextIndex := 0;
    }

    /** The next prefix; nothing once all have been returned. */
    method Next() returns (r: Option<Subnet>)
      requires Valid()
      modifies this
      ensures Valid()
      ensures old(nextIndex) == Count(net, hostBits) ==> r == None && nextIndex == old(nextIndex)
      ensures old(nextIndex) < Count(net, hostBits) ==>
                r == Some(ChildAt(net, hostBits, old(nextIndex))) && nextIndex == old(nextIndex) + 1
    {
      if nextIndex >= Count(net, hostBits) {
        return None;
      }
      r := Some(Subnet(net.family, net.base + nextIndex * Pow2(hostBits), hostBits));
      nextIndex := nextIndex + 1;
    }

    /** Moves forward past `end`. An address of the other family is refused. */
    method AdvancePastIP(end: Address) returns (ok: bool)
      requires Valid() && end.value < Space(end.family)
      modifies this
      ensures Valid()
      ensures ok <==> end.family == net.family
      ensures !ok ==> nextIndex == old(nextIndex)
      ensures ok ==> Advanced(net, hostBits, old(nextIndex), nextIndex, end.value)
    {
      if end.family != net.family {
        return false;
      }
      var nextIP := NextIP(net.family, end.value);
      if nextIP.None? {
        AllEndBy(net, hostBits, nextIndex, end.value);
        nextIndex := Count(net, hostBits);
        return true;
      }
      var distance := nextIP.value - net.base;
      if distance < 0 {
        NoneEndBy(net, hostBits, nextIndex, end.value);
        return true;
      }
      var target := distance / Pow2(hostBits);
      TargetIndex(net, hostBits, end.value, target, nextIndex);
      if target > nextIndex {
        nextIndex := target;
      }
      if nextIndex > Count(net, hostBits) {
        nextIndex := Count(net, hostBits);
      }
      return true;
    }
  }

  lemma AllEndBy(net: Subnet, hostBits: nat, was: nat, end: nat)
    requires net.Valid() && hostBits <= net.hostBits && end + 1 >= Space(net.family) && was <= Count(net, hostBits)
    ensures Advanced(net, hostBits, was, Count(net, hostBits), end)
  {
    forall i: nat | i < Count(net, hostBits) ensures EndsBy(net, hostBits, i, end) {
      ChildBounds(net, hostBits, i);
    }
  }

  lemma NoneEndBy(net: Subnet, hostBits: nat, was: nat, end: nat)
    requires hostBits <= net.hostBits && end + 1 < net.base
    ensures Advanced(net, hostBits, was, was, end)
  {
    Multiples.Product(was, Pow2(hostBits));
  }

  /** The prefix that contains the address after `end` splits those that end by `end` from the others. */
  lemma TargetIndex(net: Subnet, hostBits: nat, end: nat, target: int, was: nat)
    requires hostBits <= net.hostBits && was <= Count(net, hostBits)
    requires end + 1 >= net.base && target == (end + 1 - net.base) / Pow2(hostBits)
    ensures var further := if target > was then target else was;
            var now := if further > Count(net, hostBits) then Count(net, hostBits) else further;
            Advanced(net, hostBits, was, now, end)
  {
    forall i: nat ensures EndsBy(net, hostBits, i, end) <==> i < target {
      Multiples.EndsBy(i, end + 1 - net.base, Pow2(hostBits));
    }
  }
}
