/** Prefixes a node has but cannot use (pkg/ipam-node/controllers/cidrpool/cidrpool.go), and one it uses against the
    spec. */
module PrefixRefusals {
  import opened Addresses
  import opened Exclusions
  import opened Overlaps
  import opened StoreModel
  import opened Handlers
  import opened CIDRPool
  import opened CIDRPoolReconcile
  import opened Sequences
  import opened NodePools

  /** Clipping turns an exclusion around when all it has of the prefix is an address that is not for hosts: it
      ends on the network address, or starts on the broadcast address, and goes on outside. */
  predicate Reversing(net: Subnet, r: ExcludeRange) {
    && net.hostBits >= 2
    && ((r.start < net.base && r.end == net.base)
        || (net.family.IPv4? && r.start == net.base + net.Size() - 1 && r.end >= net.base + net.Size()))
  }

  lemma ReversedExactly(net: Subnet, r: ExcludeRange)
    requires net.Valid() && r.start <= r.end && Touches(net, r)
    ensures Clip(net, r).start > Clip(net, r).end <==> Reversing(net, r)
  {
    FirstBeforeLast(net);
  }

  /** What an exclusion keeps in the prefix: its addresses there, without the network address when it comes in from
      below and without the broadcast address when it goes on above. */
  predicate Keeps(net: Subnet, r: ExcludeRange, v: int) {
    && Touches(net, r) && r.Has(v) && Inside(net, v)
    && (!Inside(net, r.start) ==> net.FirstIP() <= v)
    && (!Inside(net, r.end) ==> v <= net.LastIP())
  }

  lemma KeepsExactly(net: Subnet, r: ExcludeRange, v: int)
    requires net.Valid() && r.start <= r.end
    ensures Keeps(net, r, v) <==> Touches(net, r) && Clip(net, r).Has(v)
  {
    FirstBeforeLast(net);
  }

  ghost predicate KeptBySome(net: Subnet, rs: seq<ExcludeRange>, v: int) {
    exists r :: r in rs && Keeps(net, r, v)
  }

  predicate BothKeep(net: Subnet, r: ExcludeRange, s: ExcludeRange, v: int) {
    Keeps(net, r, v) && Keeps(net, s, v)
  }

  /** No two exclusions share an address they keep in the prefix. */
  ghost predicate KeptOnce(net: Subnet, rs: seq<ExcludeRange>) {
    forall i, j, v {:trigger BothKeep(net, rs[i], rs[j], v)} :: 0 <= i < j < |rs| ==> !BothKeep(net, rs[i], rs[j], v)
  }

  lemma ClipsKeep(net: Subnet, rs: seq<ExcludeRange>, v: int)
    requires net.Valid() && AllInOrder(rs)
    ensures Covers(Clips(net, rs), v) <==> KeptBySome(net, rs, v)
  {
    if Covers(Clips(net, rs), v) {
      var c :| c in Clips(net, rs) && c.Has(v);
      ClipsMembers(net, rs, c);
      var r :| r in rs && Touches(net, r) && c == Clip(net, r);
      KeepsExactly(net, r, v);
    }
    if KeptBySome(net, rs, v) {
      var r :| r in rs && Keeps(net, r, v);
      KeepsExactly(net, r, v);
      ClipsMembers(net, rs, Clip(net, r));
    }
  }

  lemma KeptOnceOneMore(net: Subnet, rs: seq<ExcludeRange>, r: ExcludeRange)
    ensures KeptOnce(net, rs + [r]) <==> KeptOnce(net, rs) && forall v :: !(KeptBySome(net, rs, v) && Keeps(net, r, v))
  {
    var all := rs + [r];
    if KeptOnce(net, all) {
      forall i, j, v | 0 <= i < j < |rs| ensures !BothKeep(net, rs[i], rs[j], v) {
        var _ := BothKeep(net, all[i], all[j], v);
      }
      forall v ensures !(KeptBySome(net, rs, v) && Keeps(net, r, v)) {
        forall q | q in rs ensures !(Keeps(net, q, v) && Keeps(net, r, v)) {
          var i :| 0 <= i < |rs| && rs[i] == q;
          var _ := BothKeep(net, all[i], all[|rs|], v);
        }
      }
    }
    if KeptOnce(net, rs) && forall v :: !(KeptBySome(net, rs, v) && Keeps(net, r, v)) {
      forall i, j, v | 0 <= i < j < |all| ensures !BothKeep(net, all[i], all[j], v) {
        if j < |rs| {
          var _ := BothKeep(net, rs[i], rs[j], v);
        } else {
          assert rs[i] in rs;
        }
      }
    }
  }

  lemma {:induction false} ClipsOnce(net: Subnet, rs: seq<ExcludeRange>)
    requires net.Valid() && AllInOrder(rs)
    ensures NoneTwice(Clips(net, rs)) <==> KeptOnce(net, rs)
  {
    if rs != [] {
      var r, front := rs[|rs| - 1], rs[..|rs| - 1];
      ClipsOnce(net, front);
      assert rs == front + [r] && r in rs;
      KeptOnceOneMore(net, front, r);
      NoneTwiceOneMore(Clips(net, front), Clip(net, r));
      forall v ensures Covers(Clips(net, front), v) <==> KeptBySome(net, front, v) {
        ClipsKeep(net, front, v);
      }
      forall v ensures Keeps(net, r, v) <==> Touches(net, r) && Clip(net, r).Has(v) {
        KeepsExactly(net, r, v);
      }
    }
  }

  /** The clipped list is in order exactly when no exclusion is turned around. */
  lemma ListInOrder(spec: Spec, net: Subnet)
    requires ValidSpec(spec) && NodePrefix(spec, net)
    ensures AllInOrder(ExclusionList(spec, net)) <==> forall r :: r in spec.exclusions ==> !Reversing(net, r)
  {
    SpecRanges(spec);
    PerNodeListCovers(net.family, spec.perNode, net.base, net.LastIP(), 0);
    var list := ExclusionList(spec, net);
    if AllInOrder(list) {
      forall r | r in spec.exclusions ensures !Reversing(net, r) {
        if Touches(net, r) {
          ReversedExactly(net, r);
          ClipsMembers(net, spec.exclusions, Clip(net, r));
          assert Clip(net, r) in list;
        }
      }
    }
    if forall r :: r in spec.exclusions ==> !Reversing(net, r) {
      forall c | c in list ensures c.start <= c.end {
        if c in Clips(net, spec.exclusions) {
          ClipsMembers(net, spec.exclusions, c);
          var r :| r in spec.exclusions && Touches(net, r) && c == Clip(net, r);
          ReversedExactly(net, r);
        }
      }
    }
  }

  /** No address of the prefix is kept by a pool exclusion and indexed by a per-node one. */
  ghost predicate NotBoth(net: Subnet, rs: seq<ExcludeRange>, es: seq<ExcludeIndexRange>) {
    forall v {:trigger KeptBySome(net, rs, v)} :: net.base <= v <= net.LastIP() ==> !(KeptBySome(net, rs, v) && Covers(es, v - net.base))
  }

  /** No address is excluded twice on the node: by two pool exclusions, by two per-node ones, or both ways. */
  ghost predicate ExcludedOnce(net: Subnet, rs: seq<ExcludeRange>, es: seq<ExcludeIndexRange>) {
    KeptOnce(net, rs) && IndexedOnce(es, net.LastIP() - net.base) && NotBoth(net, rs, es)
  }

  lemma CrossOnce(net: Subnet, rs: seq<ExcludeRange>, es: seq<ExcludeIndexRange>, xs: seq<Interval>, ys: seq<Interval>)
    requires net.Valid() && AllInOrder(rs) && ValidIndexes(es, Space(net.family) - 1 - net.base)
    requires xs == Clips(net, rs) && ys == PerNodeList(net.family, es, net.base, net.LastIP())
    ensures (forall v :: !(Covers(xs, v) && Covers(ys, v))) <==> NotBoth(net, rs, es)
  {
    forall v ensures Covers(xs, v) <==> KeptBySome(net, rs, v) {
      ClipsKeep(net, rs, v);
    }
    forall v ensures Covers(ys, v) <==> Covers(es, v - net.base) && net.base <= v <= net.LastIP() {
      PerNodeListCovers(net.family, es, net.base, net.LastIP(), v);
    }
    if NotBoth(net, rs, es) {
      forall v ensures !(Covers(xs, v) && Covers(ys, v)) {
        var _ := KeptBySome(net, rs, v);
      }
    }
  }

  lemma ListOnce(net: Subnet, rs: seq<ExcludeRange>, es: seq<ExcludeIndexRange>)
    requires net.Valid() && AllInOrder(rs) && ValidIndexes(es, Space(net.family) - 1 - net.base)
    ensures NoneTwice(Clips(net, rs) + PerNodeList(net.family, es, net.base, net.LastIP())) <==> ExcludedOnce(net, rs, es)
  {
    var xs, ys := Clips(net, rs), PerNodeList(net.family, es, net.base, net.LastIP());
    NoneTwiceAppend(xs, ys);
    ClipsOnce(net, rs);
    PerNodeOnce(net.family, es, net.base, net.LastIP());
    CrossOnce(net, rs, es, xs, ys);
  }

  /** When can a node use the prefix it was given? Exactly when no exclusion is turned around and no address is
      excluded twice on the node. */
  lemma PrefixServedExactly(spec: Spec, a: Allocation, routesOk: bool, snapshot: string)
    requires ValidSpec(spec) && a.prefix.Cidr? && NodePrefix(spec, a.prefix.net)
    ensures RangesOk(CIDRConfig(spec, a, routesOk, snapshot)) <==>
              && (forall r :: r in spec.exclusions ==> !Reversing(a.prefix.net, r))
              && ExcludedOnce(a.prefix.net, spec.exclusions, spec.perNode)
  {
    var net := a.prefix.net;
    var list := ExclusionList(spec, net);
    CIDRConfigShaped(spec, a, routesOk, snapshot);
    AcceptedExactly(CIDRConfig(spec, a, routesOk, snapshot), net, net.FirstIP(), net.LastIP(), list);
    ListInOrder(spec, net);
    SpecRanges(spec);
    ListOnce(net, spec.exclusions, spec.perNode);
    if AllInOrder(list) {
      ApartExactly(list);
    }
  }

  /** No exclusion of the spec overlaps another, and none shares an address of the prefix with a per-node one. */
  ghost predicate OverlapFree(spec: Spec, net: Subnet) {
    && AllApart(spec.exclusions) && AllApart(spec.perNode)
    && forall v :: Inside(net, v) ==> !(Covers(spec.exclusions, v) && Covers(spec.perNode, v - net.base))
  }

  lemma OverlapFreeOnce(net: Subnet, rs: seq<ExcludeRange>, es: seq<ExcludeIndexRange>)
    requires AllApart(rs) && AllApart(es) && forall v :: Inside(net, v) ==> !(Covers(rs, v) && Covers(es, v - net.base))
    ensures ExcludedOnce(net, rs, es)
  {
    forall i, j, v | 0 <= i < j < |rs| ensures !BothKeep(net, rs[i], rs[j], v) {
      assert Separate(rs[i], rs[j]);
    }
    forall i, j, x | 0 <= i < j < |es| ensures !Share(es[i], es[j], x) {
      assert Separate(es[i], es[j]);
    }
    forall v | net.base <= v <= net.LastIP() ensures !(KeptBySome(net, rs, v) && Covers(es, v - net.base)) {
      if KeptBySome(net, rs, v) {
        var r :| r in rs && Keeps(net, r, v);
        assert Covers(rs, v);
      }
    }
  }

  /** Without overlaps in the spec, exclusions turned around are the only obstacle. */
  lemma ServedWithoutOverlaps(spec: Spec, a: Allocation, routesOk: bool, snapshot: string)
    requires ValidSpec(spec) && a.prefix.Cidr? && NodePrefix(spec, a.prefix.net) && OverlapFree(spec, a.prefix.net)
    ensures RangesOk(CIDRConfig(spec, a, routesOk, snapshot)) <==> forall r :: r in spec.exclusions ==> !Reversing(a.prefix.net, r)
  {
    PrefixServedExactly(spec, a, routesOk, snapshot);
    OverlapFreeOnce(a.prefix.net, spec.exclusions, spec.perNode);
  }

  // ----- concrete pools -----

  /** A pool of sixteen addresses in prefixes of four, all of it excluded, and one prefix given to a node. */
  function StaticExample(): Spec {
    Spec(Subnet(IPv4, 0, 4), 2, None, [Interval(0, 15)], [], [StaticAllocation("n", Subnet(IPv4, 4, 2), NoGateway)])
  }

  lemma SmallNumbers()
    ensures Pow2(2) == 4 && Pow2(4) == 16 && Space(IPv4) >= 16
  {
    assert Pow2(4) == 2 * Pow2(3) && Pow2(3) == 2 * Pow2(2) && Pow2(2) == 2 * Pow2(1) && Pow2(1) == 2 * Pow2(0);
    Pow2Monotone(4, 32);
  }

  /** Static allocations bypass the exclusion check, and the node drops an exclusion that encloses its prefix: here
      it excludes nothing of what the spec excludes. */
  lemma StaticPrefixLosesExclusion()
    ensures var spec, net := StaticExample(), Subnet(IPv4, 4, 2);
            && ValidSpec(spec) && NodePrefix(spec, net)
            && FromStatic(spec, spec.statics[0]) in Reconciled(spec, [], ["n"])
            && ExclusionList(spec, net) == []
            && (forall v :: net.base <= v < net.base + net.Size() ==> Excluded(spec.exclusions, spec.perNode, net.base, v))
            && !Agree(spec, net)
  {
    var spec, net := StaticExample(), Subnet(IPv4, 4, 2);
    SmallNumbers();
    var s := StaticAllocation("n", net, NoGateway);
    assert spec.statics == [s];
    assert s in spec.statics && "n" in ["n"];
    StaticsHonoured(spec, [], ["n"], s);
    assert Encloses(net, Interval(0, 15)) && Interval(0, 15) in spec.exclusions;
    forall v | net.base <= v < net.base + net.Size() ensures Excluded(spec.exclusions, spec.perNode, net.base, v) {
      ExcludedIs(spec, net, v);
    }
    assert Clips(net, [Interval(0, 15)]) == [];
    assert !Covers(ExclusionList(spec, net), 5) && Excluded(spec.exclusions, spec.perNode, net.base, 5);
  }

  /** Sixteen addresses in prefixes of four, with an exclusion across the border of the first two. */
  function BorderExample(): Spec {
    Spec(Subnet(IPv4, 0, 4), 2, None, [Interval(3, 4)], [], [])
  }

  /** A reconcile for one node that already holds a valid prefix keeps it. */
  lemma KeepsOnlyEntry(spec: Spec, a: Allocation)
    requires ValidSpec(spec) && a.node != "" && a.prefix.Cidr?
    requires ValidAllocation(spec, [a], a) && !PrefixExcluded(spec, a.prefix.net)
    ensures a in Reconciled(spec, [a], [a.node])
  {
    var names, nodes := Elements([a.node]), [a.node];
    assert a.node in nodes;
    assert Kept(spec, names, [a], a);
    assert [a][..0] == [] && nodes[..0] == [];
    var st := LoadFrom(spec, names, [a], [a]);
    assert a.node in st.byNode && st.byNode[a.node] == a;
    assert AllocAll(spec, st, []) == st;
    assert AllocAll(spec, st, nodes) == AllocOne(spec, st, a.node);
    assert Entries(st.byNode, nodes) == Entries(st.byNode, []) + [a];
  }

  /** The controller gives out a prefix that is not excluded, and the node refuses every request in it. */
  lemma BorderPrefixUnusable(pool: PoolData, p: Params, routesOk: bool, snapshot: string)
    ensures var spec, a := BorderExample(), Allocation("n", Cidr(Subnet(IPv4, 4, 2)), NoGateway);
            && ValidSpec(spec) && !PrefixExcluded(spec, Subnet(IPv4, 4, 2))
            && a in Reconciled(spec, [a], ["n"])
            && CannotServe(pool, CIDRConfig(spec, a, routesOk, snapshot), p)
  {
    var spec, net := BorderExample(), Subnet(IPv4, 4, 2);
    var a := Allocation("n", Cidr(net), NoGateway);
    SmallNumbers();
    assert !Covers(spec.exclusions, 5);
    assert !Excluded(spec.exclusions, spec.perNode, net.base, 5);
    assert ValidAllocation(spec, [a], a);
    KeepsOnlyEntry(spec, a);
    assert Interval(3, 4) in spec.exclusions && Reversing(net, Interval(3, 4));
    PrefixServedExactly(spec, a, routesOk, snapshot);
  }

  /** Sixteen addresses in prefixes of four, with one address excluded twice. */
  function OverlapExample(): Spec {
    Spec(Subnet(IPv4, 0, 4), 2, None, [Interval(5, 5), Interval(5, 5)], [], [])
  }

  lemma OverlapExampleOk(spec: Spec, a: Allocation)
    requires spec == OverlapExample() && a == Allocation("n", Cidr(Subnet(IPv4, 4, 2)), NoGateway)
    ensures ValidSpec(spec) && !PrefixExcluded(spec, Subnet(IPv4, 4, 2)) && ValidAllocation(spec, [a], a)
  {
    SmallNumbers();
    assert !Covers(spec.exclusions, 6);
    assert !Excluded(spec.exclusions, spec.perNode, 4, 6);
  }

  /** One exclusion twice: its addresses are kept twice where they are for hosts, and nowhere else. */
  lemma OverlapExampleOnce(rs: seq<ExcludeRange>)
    requires rs == [Interval(5, 5), Interval(5, 5)]
    ensures !ExcludedOnce(Subnet(IPv4, 4, 2), rs, []) && ExcludedOnce(Subnet(IPv4, 0, 2), rs, [])
    ensures forall r :: r in rs ==> !Reversing(Subnet(IPv4, 4, 2), r) && !Reversing(Subnet(IPv4, 0, 2), r)
  {
    SmallNumbers();
    assert BothKeep(Subnet(IPv4, 4, 2), rs[0], rs[1], 5);
  }

  /** The node that holds the prefix of that address serves no request, though no exclusion is turned around; the node
      of the prefix before it is not concerned. */
  lemma OverlapUnusable(pool: PoolData, p: Params, routesOk: bool, snapshot: string)
    ensures var spec, net := OverlapExample(), Subnet(IPv4, 4, 2);
            var a, b := Allocation("n", Cidr(net), NoGateway), Allocation("m", Cidr(Subnet(IPv4, 0, 2)), NoGateway);
            && ValidSpec(spec) && !PrefixExcluded(spec, net) && a in Reconciled(spec, [a], ["n"])
            && (forall r :: r in spec.exclusions ==> !Reversing(net, r))
            && CannotServe(pool, CIDRConfig(spec, a, routesOk, snapshot), p)
            && RangesOk(CIDRConfig(spec, b, routesOk, snapshot))
  {
    var spec, net := OverlapExample(), Subnet(IPv4, 4, 2);
    var a, b := Allocation("n", Cidr(net), NoGateway), Allocation("m", Cidr(Subnet(IPv4, 0, 2)), NoGateway);
    OverlapExampleOk(spec, a);
    KeepsOnlyEntry(spec, a);
    OverlapExampleOnce(spec.exclusions);
    SmallNumbers();
    PrefixServedExactly(spec, a, routesOk, snapshot);
    PrefixServedExactly(spec, b, routesOk, snapshot);
  }
}
