/** Ranges and range sets of the node allocator (pkg/ipam-node/allocator/range.go, range_set.go). */
module NodeRanges {
  import opened Addresses

  /** A range as configured; a missing or unparsable end is None. */
  datatype RawRange = RawRange(start: Option<Address>, end: Option<Address>, subnet: Subnet, gateway: Option<Address>)

  /** A canonical range: both ends filled in, of the family of the subnet. */
  datatype Range = Range(start: nat, end: nat, subnet: Subnet, gateway: Option<Address>) {

    predicate Contains(a: Address) {
      subnet.Contains(a) && start <= a.value <= end
    }

    function At(v: nat): Address {
      Address(subnet.family, v)
    }

    predicate IsGateway(v: nat) {
      gateway == Some(At(v))
    }

    predicate Overlaps(r: Range) {
      subnet.family == r.subnet.family
      && (Contains(r.At(r.start)) || Contains(r.At(r.end)) || r.Contains(At(start)) || r.Contains(At(end)))
    }

    /** The ends are in order and in the subnet. */
    predicate Ordered() {
      subnet.Valid() && start <= end && subnet.ContainsValue(start) && subnet.ContainsValue(end)
    }
  }

  /** Fills in and checks a range; None is an error. */
  function Canonical(raw: RawRange): Option<Range> {
    var net := raw.subnet;
    if !net.Valid() then None
    else if raw.start.Some? && !(net.Contains(raw.start.value)
                                 && !(raw.end.Some? && raw.end.value.family == net.family
                                      && raw.start.value.value > raw.end.value.value)) then None
    else
      var start := if raw.start.Some? then raw.start.value.value
                   else net.FirstIP();
      if raw.end.Some? && !(net.Contains(raw.end.value) && start <= raw.end.value.value) then None
      else Some(Range(start, if raw.end.Some? then raw.end.value.value else net.LastIP(), net, raw.gateway))
  }

  /** A range is in order once canonical, with one exception: an explicit start on the broadcast address and no
      end, where the filled-in end comes before the start. */
  lemma CanonicalOrdered(raw: RawRange)
    requires Canonical(raw).Some?
    ensures Canonical(raw).value.Ordered()
            <==> !(raw.end.None? && raw.start.Some? && raw.subnet.IsBroadcast(raw.start.value.value))
  {
    var net := raw.subnet;
    assert net.hostBits >= 1 ==> net.Size() == 2 * Pow2(net.hostBits - 1);
    assert net.hostBits >= 2 ==> Pow2(net.hostBits - 1) == 2 * Pow2(net.hostBits - 2);
  }

  /** What canonicalisation makes of a range: ends that are given stay, a missing start is the first address for hosts and
      a missing end the last; it fails exactly when the network is not in order, or a given end is outside the network
      or on the wrong side of the other. */
  lemma CanonicalExactly(raw: RawRange)
    ensures var net := raw.subnet;
            Canonical(raw).Some? <==>
              && net.Valid()
              && (raw.start.Some? ==> net.Contains(raw.start.value))
              && (raw.end.Some? ==> net.Contains(raw.end.value))
              && (raw.start.Some? && raw.end.Some? ==> raw.start.value.value <= raw.end.value.value)
              && (raw.start.None? && raw.end.Some? ==> net.FirstIP() <= raw.end.value.value)
    ensures Canonical(raw).Some? ==>
              var r := Canonical(raw).value;
              && r.subnet == raw.subnet && r.gateway == raw.gateway
              && r.start == (if raw.start.Some? then raw.start.value.value
                             else if raw.subnet.hostBits >= 2 then raw.subnet.base + 1 else raw.subnet.base)
              && r.end == (if raw.end.Some? then raw.end.value.value
                           else raw.subnet.base + raw.subnet.Size() - (if raw.subnet.family.IPv4? && raw.subnet.hostBits >= 2 then 2 else 1))
  {
    if raw.subnet.Valid() {
      HostAddresses(raw.subnet);
    }
  }

  /** The exception: with a start on the broadcast address of four addresses and no end, the range is 7 to 6. */
  lemma BroadcastStart()
    ensures var raw := RawRange(Some(Address(IPv4, 7)), None, Subnet(IPv4, 4, 2), None);
            && raw.subnet.IsBroadcast(7) && Canonical(raw) == Some(Range(7, 6, raw.subnet, None))
            && !Canonical(raw).value.Ordered()
  {
    assert Pow2(2) == 2 * Pow2(1) && Pow2(1) == 2 * Pow2(0);
    Pow2Monotone(3, 32);
    assert Pow2(3) == 2 * Pow2(2);
  }

  /** The end checks find every overlap: ranges in order overlap exactly when they share an address. */
  lemma OverlapsExactly(r: Range, s: Range)
    requires r.Ordered() && s.Ordered()
    ensures r.Overlaps(s) <==> exists a :: r.Contains(a) && s.Contains(a)
  {
    if r.Overlaps(s) {
      var a := if r.Contains(s.At(s.start)) then s.At(s.start)
               else if r.Contains(s.At(s.end)) then s.At(s.end)
               else if s.Contains(r.At(r.start)) then r.At(r.start)
               else r.At(r.end);
      assert r.Contains(a) && s.Contains(a);
    }
    forall a | r.Contains(a) && s.Contains(a) ensures r.Overlaps(s) {
      assert r.start <= s.start ==> r.Contains(s.At(s.start));
      assert s.start <= r.start ==> s.Contains(r.At(r.start));
    }
  }

  /** What a range set must be: not empty, one family, every range canonical, none overlapping another. */
  ghost predicate Acceptable(raws: seq<RawRange>) {
    && |raws| > 0
    && (forall i :: 0 <= i < |raws| ==> Canonical(raws[i]).Some?)
    && (forall i :: 0 <= i < |raws| ==> raws[i].subnet.family == raws[0].subnet.family)
    && (forall i, j :: 0 <= i < j < |raws| ==> !Canonical(raws[i]).value.Overlaps(Canonical(raws[j]).value))
  }

  method CanonicalizeSet(raws: seq<RawRange>) returns (r: Option<seq<Range>>)
    ensures r.Some? <==> Acceptable(raws)
    ensures r.Some? ==> |r.value| == |raws| && forall i :: 0 <= i < |raws| ==> Canonical(raws[i]) == Some(r.value[i])
  {
    if |raws| == 0 {
      return None;
    }
    var each := CanonicalizeEach(raws);
    if each.None? {
      return None;
    }
    var disjoint := NoneOverlap(each.value);
    return if disjoint then each else None;
  }

  method CanonicalizeEach(raws: seq<RawRange>) returns (r: Option<seq<Range>>)
    requires |raws| > 0
    ensures r.Some? <==> forall i :: 0 <= i < |raws| ==> Canonical(raws[i]).Some? && raws[i].subnet.family == raws[0].subnet.family
    ensures r.Some? ==> |r.value| == |raws| && forall i :: 0 <= i < |raws| ==> Canonical(raws[i]) == Some(r.value[i])
  {
    var rs: seq<Range> := [];
    for i := 0 to |raws|
      invariant |rs| == i
      invariant forall k :: 0 <= k < i ==> Canonical(raws[k]) == Some(rs[k]) && raws[k].subnet.family == raws[0].subnet.family
    {
      var c := Canonical(raws[i]);
      if c.None? || c.value.subnet.family != raws[0].subnet.family {
        return None;
      }
      rs := rs + [c.value];
    }
    return Some(rs);
  }

  method NoneOverlap(rs: seq<Range>) returns (b: bool)
    ensures b <==> forall i, j :: 0 <= i < j < |rs| ==> !rs[i].Overlaps(rs[j])
  {
    for i := 0 to |rs|
      invariant forall k, l :: 0 <= k < i && k < l < |rs| ==> !rs[k].Overlaps(rs[l])
    {
      for j := i + 1 to |rs|
        invariant forall l :: i < l < j ==> !rs[i].Overlaps(rs[l])
      {
        if rs[i].Overlaps(rs[j]) {
          return false;
        }
      }
    }
    return true;
  }

  predicate SetContains(rs: seq<Range>, a: Address) {
    exists r :: r in rs && r.Contains(a)
  }

  predicate GoodAt(rs: seq<Range>, i: int) {
    0 <= i < |rs| && rs[i].Ordered() && rs[i].subnet.family == rs[0].subnet.family
  }

  predicate NoneShared(rs: seq<Range>, i: int, j: int) {
    0 <= i < |rs| && 0 <= j < |rs| && (rs[i].end < rs[j].start || rs[j].end < rs[i].start)
  }

  /** A usable range set: what canonicalisation gives when every end is explicit. */
  ghost predicate GoodSet(rs: seq<Range>) {
    && |rs| > 0
    && (forall i :: 0 <= i < |rs| ==> GoodAt(rs, i))
    && (forall i, j :: 0 <= i < j < |rs| ==> NoneShared(rs, i, j))
  }

  lemma NotOverlapping(r: Range, s: Range)
    requires r.Ordered() && s.Ordered() && r.subnet.family == s.subnet.family && !r.Overlaps(s)
    ensures r.end < s.start || s.end < r.start
  {
    if r.start <= s.start {
      assert !r.Contains(s.At(s.start));
    } else {
      assert !s.Contains(r.At(r.start));
    }
  }

  lemma AcceptableIsGood(raws: seq<RawRange>, rs: seq<Range>)
    requires Acceptable(raws) && |rs| == |raws|
    requires forall i :: 0 <= i < |raws| ==> Canonical(raws[i]) == Some(rs[i])
    requires forall i :: 0 <= i < |raws| ==> raws[i].end.Some?
    ensures GoodSet(rs)
  {
    forall i | 0 <= i < |rs| ensures GoodAt(rs, i) {
      CanonicalOrdered(raws[i]);
    }
    forall i, j | 0 <= i < j < |rs| ensures NoneShared(rs, i, j) {
      assert GoodAt(rs, i) && GoodAt(rs, j);
      NotOverlapping(rs[i], rs[j]);
    }
  }
}
