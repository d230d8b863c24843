/** Blocks a node has but cannot use (pkg/ipam-node/controllers/ippool/ippool.go). */
module BlockRefusals {
  import opened Addresses
  import opened Exclusions
  import opened Overlaps
  import opened StoreModel
  import opened Handlers
  import opened IPPoolAllocator
  import opened IPPoolReconcile
  import opened Sequences
  import opened NodeIPPools
  import NodePools

  lemma ListOnce(f: Family, pool: seq<ExcludeRange>, perNode: seq<ExcludeIndexRange>, lo: nat, hi: nat)
    requires lo <= hi < Space(f) && ValidIndexes(perNode, hi - lo) && ValidRanges(f, pool)
    ensures var list := pool + NodePools.PerNodeList(f, perNode, lo, hi);
            && AllInOrder(list)
            && (AllApart(list) <==>
                  && AllApart(pool) && AllApart(perNode)
                  && forall v :: lo <= v <= hi ==> !(Covers(pool, v) && Covers(perNode, v - lo)))
  {
    var ys := NodePools.PerNodeList(f, perNode, lo, hi);
    NodePools.PerNodeListCovers(f, perNode, lo, hi, lo);
    ApartExactly(pool + ys);
    ApartExactly(pool);
    NoneTwiceAppend(pool, ys);
    PerNodeOnce(f, perNode, lo, hi);
    IndexesApart(perNode, hi - lo);
    forall v ensures Covers(ys, v) <==> Covers(perNode, v - lo) && lo <= v <= hi {
      NodePools.PerNodeListCovers(f, perNode, lo, hi, v);
    }
  }

  /** When can a node use the block it was given? Exactly when no pool exclusions overlap anywhere, no per-node ones
      do, and no address of the block is excluded both ways. Otherwise it refuses the whole block. */
  lemma BlockServedExactly(c: Config, status: seq<Entry>, nodes: seq<string>, e: Entry, routesOk: bool, snapshot: string)
    requires ValidSpec(c) && Distinct(nodes) && e in Reconciled(c, status, nodes) && e.start.Some? && e.end.Some?
    ensures var lo, hi := e.start.value.value, e.end.value.value;
            RangesOk(IPConfig(c, e, routesOk, snapshot)) <==>
              && AllApart(c.exclusions) && AllApart(c.perNode)
              && forall v :: lo <= v <= hi ==> !(Covers(c.exclusions, v) && Covers(c.perNode, v - lo))
  {
    var lo, hi := e.start.value.value, e.end.value.value;
    ReconciledDisjoint(c, status, nodes, e, e, 0);
    IPConfigShaped(c, e, routesOk, snapshot, lo);
    NodePools.AcceptedExactly(IPConfig(c, e, routesOk, snapshot), c.subnet, lo, hi, ExclusionList(c, e));
    ListOnce(c.subnet.family, c.exclusions, c.perNode, lo, hi);
  }

  // ----- a concrete pool -----

  /** Four addresses, two for hosts, in blocks of one, with the first of them excluded twice. */
  function OverlapExample(): Config {
    Config(Subnet(IPv4, 0, 2), None, 1, [Interval(1, 1), Interval(1, 1)], [])
  }

  lemma FourAddresses()
    ensures Pow2(2) == 4 && Space(IPv4) >= 4
  {
    assert Pow2(2) == 2 * Pow2(1) && Pow2(1) == 2 * Pow2(0);
    Pow2Monotone(2, 32);
  }

  lemma NotExcluded(pool: seq<ExcludeRange>, perNode: seq<ExcludeIndexRange>)
    requires pool == [Interval(1, 1), Interval(1, 1)] && perNode == []
    ensures !Excluded(pool, perNode, 2, 2)
  {
    assert !Covers(pool, 2) && !Covers(perNode, 0);
  }

  lemma ExampleBlock(c: Config, e: Entry)
    requires c == OverlapExample() && e == OneAddress("n", 2)
    ensures ValidSpec(c) && Loadable(c, Address(IPv4, 2), Address(IPv4, 2)) && e.start.Some? && e.end.Some?
  {
    FourAddresses();
    NotExcluded(c.exclusions, c.perNode);
    assert !BlockExcluded(c, 2);
  }

  /** A reconcile for one node that already holds an acceptable block keeps it. */
  lemma KeepsOnlyBlock(c: Config, e: Entry)
    requires c.blockSize >= 1 && e.start.Some? && e.end.Some? && Loadable(c, e.start.value, e.end.value)
    ensures e in Reconciled(c, [e], [e.node])
  {
    var names, nodes := Elements([e.node]), [e.node];
    assert e.node in nodes;
    assert [e][..0] == [] && nodes[..0] == [];
    var st := LoadAll(c, names, [e]);
    assert LoadAll(c, names, []) == State(map[], {});
    assert st == LoadOne(c, names, State(map[], {}), e);
    assert e.node in st.allocations;
    AllocAllSettled(c, st, nodes);
    EntriesMembers(c, st.allocations, nodes, e);
  }

  /** The block of the other address is not excluded and is written for a node, which then refuses every request,
      because of two exclusions that are not even in its block. */
  lemma OverlapUnusable(pool: PoolData, p: Params, routesOk: bool, snapshot: string)
    ensures var c, e := OverlapExample(), OneAddress("n", 2);
            && ValidSpec(c) && !BlockExcluded(c, 2) && e in Reconciled(c, [e], ["n"])
            && CannotServe(pool, IPConfig(c, e, routesOk, snapshot), p)
  {
    var c, e := OverlapExample(), OneAddress("n", 2);
    ExampleBlock(c, e);
    KeepsOnlyBlock(c, e);
    assert !Separate(c.exclusions[0], c.exclusions[1]);
    BlockServedExactly(c, [e], ["n"], e, routesOk, snapshot);
  }
}
