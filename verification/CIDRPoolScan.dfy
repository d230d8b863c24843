/** Finding a free prefix for a node (pkg/ipam-controller/controllers/cidrpool/cidrpool.go).

    All nodes of one reconcile share one iterator, which also jumps over large exclusions. It is proved to
    give each node exactly what a scan of the whole pool from its first prefix would. */
module CIDRPoolScan {
  import opened Addresses
  import opened Exclusions
  import opened SubnetIteration
  import opened CIDRPool

  function PrefixCount(spec: Spec): nat
    requires spec.hostBits <= spec.cidr.hostBits
  {
    Count(spec.cidr, spec.hostBits)
  }

  function PrefixAt(spec: Spec, i: nat): Subnet {
    ChildAt(spec.cidr, spec.hostBits, i)
  }

  /** The i-th prefix may be handed out while the prefixes in `taken` are in use. */
  ghost predicate Usable(spec: Spec, taken: set<Subnet>, i: nat)
    requires spec.hostBits <= spec.cidr.hostBits
  {
    && i < PrefixCount(spec)
    && PrefixAt(spec, i) !in taken
    && !StaticPrefix(spec, PrefixAt(spec, i))
    && !PrefixExcluded(spec, PrefixAt(spec, i))
  }

  ghost predicate NoneBelow(spec: Spec, taken: set<Subnet>, bound: nat)
    requires spec.hostBits <= spec.cidr.hostBits
  {
    forall i: nat :: i < bound ==> !Usable(spec, taken, i)
  }

  ghost predicate NoneUsable(spec: Spec, taken: set<Subnet>)
    requires spec.hostBits <= spec.cidr.hostBits
  {
    forall i: nat :: !Usable(spec, taken, i)
  }

  ghost predicate Lowest(spec: Spec, taken: set<Subnet>, r: Option<nat>)
    requires spec.hostBits <= spec.cidr.hostBits
  {
    match r
    case None => NoneUsable(spec, taken)
    case Some(i) => Usable(spec, taken, i) && NoneBelow(spec, taken, i)
  }

  /** The plain linear scan. */
  ghost function Scan(spec: Spec, taken: set<Subnet>, i: nat): Option<nat>
    requires spec.hostBits <= spec.cidr.hostBits
    decreases PrefixCount(spec) - i
  {
    if i >= PrefixCount(spec) then None
    else if Usable(spec, taken, i) then Some(i)
    else Scan(spec, taken, i + 1)
  }

  ghost function FirstUsable(spec: Spec, taken: set<Subnet>): Option<nat>
    requires spec.hostBits <= spec.cidr.hostBits
  {
    Scan(spec, taken, 0)
  }

  lemma {:induction false} ScanFindsLowest(spec: Spec, taken: set<Subnet>, i: nat)
    requires spec.hostBits <= spec.cidr.hostBits && NoneBelow(spec, taken, i)
    ensures Lowest(spec, taken, Scan(spec, taken, i))
    decreases PrefixCount(spec) - i
  {
    if i < PrefixCount(spec) && !Usable(spec, taken, i) {
      ScanFindsLowest(spec, taken, i + 1);
    }
  }

  lemma LowestIsFirstUsable(spec: Spec, taken: set<Subnet>, r: Option<nat>)
    requires spec.hostBits <= spec.cidr.hostBits
    ensures Lowest(spec, taken, r) <==> r == FirstUsable(spec, taken)
  {
    ScanFindsLowest(spec, taken, 0);
    var f := FirstUsable(spec, taken);
    assert Lowest(spec, taken, f);
    if Lowest(spec, taken, r) && r.Some? && f.Some? {
      assert !(r.value < f.value) && !(f.value < r.value);
    }
  }

  lemma PrefixAtOk(spec: Spec, i: nat)
    requires ValidSpec(spec) && i < PrefixCount(spec)
    ensures NodePrefix(spec, PrefixAt(spec, i))
  {
    ChildInside(spec.cidr, spec.hostBits, i);
  }

  // ----- the early exit -----

  /** The last index of a prefix that counts: all but the broadcast address. */
  function LastUsableIndex(spec: Spec): int {
    var last := Pow2(spec.hostBits) - 1;
    if spec.cidr.family.IPv4? && spec.hostBits > 1 then last - 1 else last
  }

  /** Counting from the base it is the last address of every prefix of the pool. */
  lemma LastUsableIndexIsLastIP(spec: Spec, net: Subnet)
    requires NodePrefix(spec, net)
    ensures net.base + LastUsableIndex(spec) == net.LastIP()
  {
  }

  /** When the per-node exclusions alone cover a prefix, they cover every prefix. */
  lemma EveryPrefixExcluded(spec: Spec, taken: set<Subnet>)
    requires ValidSpec(spec)
    requires forall i :: 0 <= i <= LastUsableIndex(spec) ==> Covers(spec.perNode, i)
    ensures NoneUsable(spec, taken)
  {
    forall i: nat ensures !Usable(spec, taken, i) {
      if i < PrefixCount(spec) {
        var net := PrefixAt(spec, i);
        PrefixAtOk(spec, i);
        LastUsableIndexIsLastIP(spec, net);
        forall a | net.base <= a <= net.LastIP() ensures Excluded(spec.exclusions, spec.perNode, net.base, a) {
          assert Covers(spec.perNode, a - net.base);
        }
        assert PrefixExcluded(spec, net);
      }
    }
  }

  // ----- the exclusion jump -----

  /** The furthest end of an exclusion that meets the prefix. */
  method OverlappingExclusionEnd(net: Subnet, merged: seq<ExcludeRange>) returns (r: Option<nat>)
    requires forall e :: e in merged ==> 0 <= e.start <= e.end
    ensures r.Some? ==> exists e :: e in merged && e.end == r.value && e.start <= net.LastIP() && net.base <= e.end
    ensures Separated(merged) ==> forall e :: e in merged && e.start <= net.LastIP() && net.base <= e.end ==> r.Some? && e.end <= r.value
  {
    r := None;
    for i := 0 to |merged|
      invariant r.Some? ==> exists e :: e in merged && e.end == r.value && e.start <= net.LastIP() && net.base <= e.end
      invariant forall k :: 0 <= k < i && merged[k].start <= net.LastIP() && net.base <= merged[k].end ==>
                  r.Some? && merged[k].end <= r.value
    {
      var e := merged[i];
      assert e in merged;
      if e.end < net.base {
        continue;
      }
      if e.start > net.LastIP() {
        assert Separated(merged) ==> forall k :: i < k < |merged| ==> merged[k].start > e.end + 1;
        break;
      }
      if r.None? || e.end > r.value {
        r := Some(e.end);
      }
    }
  }

  ghost predicate SameCovers(rs: seq<ExcludeRange>, ts: seq<ExcludeRange>) {
    forall a :: Covers(rs, a) <==> Covers(ts, a)
  }

  /** A prefix behind the excluded one that ends by the end of the exclusion lies wholly inside it. */
  lemma JumpIsSafe(spec: Spec, merged: seq<ExcludeRange>, at: nat, i: nat, end: nat)
    requires ValidSpec(spec) && at < i < PrefixCount(spec)
    requires SameCovers(merged, spec.exclusions)
    requires exists e :: e in merged && e.end == end && e.start <= PrefixAt(spec, at).LastIP()
    requires EndsBy(spec.cidr, spec.hostBits, i, end)
    ensures PrefixExcluded(spec, PrefixAt(spec, i))
  {
    var e :| e in merged && e.end == end && e.start <= PrefixAt(spec, at).LastIP();
    var net := PrefixAt(spec, i);
    ChildrenOrdered(spec.cidr, spec.hostBits, at, i);
    forall a | net.base <= a <= net.LastIP() ensures Excluded(spec.exclusions, spec.perNode, net.base, a) {
      assert e.Has(a);
      assert Covers(merged, a);
    }
  }

  datatype Found = At(index: nat) | Exhausted | Canceled

  datatype Verdict = InUse | FullyExcludedPrefix | Free

  method Judge(spec: Spec, taken: set<Subnet>, at: nat, net: Subnet) returns (v: Verdict)
    requires ValidSpec(spec) && at < PrefixCount(spec) && net == PrefixAt(spec, at)
    ensures v == Free <==> Usable(spec, taken, at)
    ensures v == FullyExcludedPrefix ==> PrefixExcluded(spec, net)
  {
    PrefixAtOk(spec, at);
    if net in taken {
      return InUse;
    }
    if exists s :: s in spec.statics && s.prefix == net {
      return InUse;
    }
    var excluded := IsPrefixFullyExcluded(spec, net);
    return if excluded then FullyExcludedPrefix else Free;
  }

  datatype Step = Ended | Skipped | Got(index: nat)

  lemma PassOne(spec: Spec, taken: set<Subnet>, at: nat)
    requires spec.hostBits <= spec.cidr.hostBits && NoneBelow(spec, taken, at) && !Usable(spec, taken, at)
    ensures NoneBelow(spec, taken, at + 1)
  {
  }

  lemma PassAll(spec: Spec, taken: set<Subnet>)
    requires spec.hostBits <= spec.cidr.hostBits && NoneBelow(spec, taken, PrefixCount(spec))
    ensures NoneUsable(spec, taken)
  {
  }

  /** One turn of the search: take the next prefix, and after an excluded one jump. */
  method TryNext(it: SubnetIterator, spec: Spec, taken: set<Subnet>, merged: seq<ExcludeRange>) returns (r: Step)
    requires ValidSpec(spec)
    requires it.Valid() && it.net == spec.cidr && it.hostBits == spec.hostBits
    requires NoneBelow(spec, taken, it.nextIndex)
    requires ValidRanges(spec.cidr.family, merged)
    requires SameCovers(merged, spec.exclusions)
    modifies it
    ensures it.Valid()
    ensures match r
            case Ended => NoneUsable(spec, taken) && it.nextIndex == old(it.nextIndex)
            case Skipped => it.nextIndex > old(it.nextIndex) && NoneBelow(spec, taken, it.nextIndex)
            case Got(i) => Lowest(spec, taken, Some(i)) && it.nextIndex == i + 1
  {
    var at := it.nextIndex;
    var candidate := it.Next();
    if candidate.None? {
      PassAll(spec, taken);
      return Ended;
    }
    var verdict := Judge(spec, taken, at, candidate.value);
    if verdict == Free {
      return Got(at);
    }
    PassOne(spec, taken, at);
    if verdict == FullyExcludedPrefix {
      SkipExclusion(it, spec, taken, merged, at);
    }
    return Skipped;
  }

  /** The search for one node. Nothing before the iterator is usable when it starts, and nothing before it is
      usable when it ends, except the prefix it returns. */
  method GetNewPrefix(ctx: Context, it: SubnetIterator, spec: Spec, taken: set<Subnet>,
                      merged: seq<ExcludeRange>, perNodePrefixFullyExcluded: bool) returns (r: Found)
    requires ValidSpec(spec)
    requires it.Valid() && it.net == spec.cidr && it.hostBits == spec.hostBits
    requires NoneBelow(spec, taken, it.nextIndex)
    requires ValidRanges(spec.cidr.family, merged)
    requires SameCovers(merged, spec.exclusions)
    requires perNodePrefixFullyExcluded <==> forall i :: 0 <= i <= LastUsableIndex(spec) ==> Covers(spec.perNode, i)
    modifies it
    ensures it.Valid()
    ensures match r
            case Canceled => ctx.DoneAfter?
            case Exhausted => Lowest(spec, taken, None) && NoneBelow(spec, taken, it.nextIndex)
            case At(i) => Lowest(spec, taken, Some(i)) && it.nextIndex == i + 1
  {
    var poll := 0;
    if ctx.Done(poll) {
      return Canceled;
    }
    if perNodePrefixFullyExcluded {
      EveryPrefixExcluded(spec, taken);
      return Exhausted;
    }
    while true
      invariant it.Valid()
      invariant NoneBelow(spec, taken, it.nextIndex)
      decreases PrefixCount(spec) - it.nextIndex
    {
      poll := poll + 1;
      if ctx.Done(poll) {
        return Canceled;
      }
      var step := TryNext(it, spec, taken, merged);
      match step
      case Ended => return Exhausted;
      case Skipped =>
      case Got(at) => return At(at);
    }
  }

  /** After a fully excluded prefix, moves past the exclusion that meets it. */
  method SkipExclusion(it: SubnetIterator, spec: Spec, ghost taken: set<Subnet>, merged: seq<ExcludeRange>, at: nat)
    requires ValidSpec(spec)
    requires it.Valid() && it.net == spec.cidr && it.hostBits == spec.hostBits && it.nextIndex == at + 1
    requires NoneBelow(spec, taken, at + 1)
    requires ValidRanges(spec.cidr.family, merged)
    requires SameCovers(merged, spec.exclusions)
    modifies it
    ensures it.Valid() && it.nextIndex >= at + 1
    ensures NoneBelow(spec, taken, it.nextIndex)
  {
    var end := OverlappingExclusionEnd(PrefixAt(spec, at), merged);
    if end.Some? {
      assert end.value < Space(spec.cidr.family);
      var ok := it.AdvancePastIP(Address(spec.cidr.family, end.value));
      forall i: nat | i < it.nextIndex ensures !Usable(spec, taken, i) {
        if i > at {
          assert EndsBy(spec.cidr, spec.hostBits, i, end.value);
          JumpIsSafe(spec, merged, at, i, end.value);
        }
      }
    }
  }
}
