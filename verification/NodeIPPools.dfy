/** From an IPPool to the containers: the configuration a node makes of its block
    (pkg/ipam-node/controllers/ippool/ippool.go) and the addresses it can grant. */
module NodeIPPools {
  import opened Addresses
  import opened Exclusions
  import opened StoreModel
  import opened RoundRobin
  import opened Handlers
  import opened IPPoolAllocator
  import opened IPPoolReconcile
  import opened Sequences
  import NodePools

  /** All pool exclusions as they are, and the per-node ones counted from the start of the block. */
  function ExclusionList(c: Config, e: Entry): seq<ExcludeRange>
    requires e.start.Some? && e.end.Some?
  {
    c.exclusions + NodePools.PerNodeList(c.subnet.family, c.perNode, e.start.value.value, e.end.value.value)
  }

  function IPConfig(c: Config, e: Entry, routesOk: bool, snapshot: string): PoolConfig
    requires e.start.Some? && e.end.Some?
  {
    PoolConfig(e.start, e.end, Some(c.subnet),
               if c.gateway.Some? then Some(Address(c.subnet.family, c.gateway.value)) else None,
               NodePools.Pairs(c.subnet.family, ExclusionList(c, e)), routesOk, snapshot)
  }

  lemma IPConfigShaped(c: Config, e: Entry, routesOk: bool, snapshot: string, v: int)
    requires ValidSpec(c) && e.start.Some? && e.end.Some? && Loadable(c, e.start.value, e.end.value)
    ensures NodePools.Shaped(IPConfig(c, e, routesOk, snapshot), c.subnet, e.start.value.value, e.end.value.value,
                             ExclusionList(c, e))
    ensures e.start.value.value <= v <= e.end.value.value ==>
              (Covers(ExclusionList(c, e), v) <==> Excluded(c.exclusions, c.perNode, e.start.value.value, v))
  {
    var lo, hi := e.start.value.value, e.end.value.value;
    NodePools.PerNodeListCovers(c.subnet.family, c.perNode, lo, hi, v);
    CoversAppend(c.exclusions, NodePools.PerNodeList(c.subnet.family, c.perNode, lo, hi), v);
  }

  /** After a reconcile from any status, what a node grants dynamically, from any data of its pool, lies in its own
      block and is neither the gateway nor excluded by the spec. */
  lemma IPPoolGrants(c: Config, status: seq<Entry>, nodes: seq<string>, d: Entry, routesOk: bool, snapshot: string,
                     before: PoolData, e: Event, after: PoolData, a: Address)
    requires ValidSpec(c) && Distinct(nodes) && d in Reconciled(c, status, nodes) && d.start.Some? && d.end.Some?
    requires RangesOk(IPConfig(c, d, routesOk, snapshot))
    requires NodePools.DynamicallyGranted(IPConfig(c, d, routesOk, snapshot), before, e, after, a)
    ensures c.subnet.Contains(a) && d.start.value.value <= a.value <= d.end.value.value
    ensures c.gateway != Some(a.value)
    ensures !Excluded(c.exclusions, c.perNode, d.start.value.value, a.value)
  {
    ReconciledDisjoint(c, status, nodes, d, d, a.value);
    IPConfigShaped(c, d, routesOk, snapshot, a.value);
    NodePools.GrantWithin(IPConfig(c, d, routesOk, snapshot), c.subnet, d.start.value.value, d.end.value.value,
                          ExclusionList(c, d), before, e, after, a);
  }

  /** Blocks of different nodes have no address in common. */
  lemma BlocksApart(c: Config, status: seq<Entry>, nodes: seq<string>, d: Entry, d': Entry, a: Address, b: Address)
    requires ValidSpec(c) && Distinct(nodes) && d in Reconciled(c, status, nodes) && d' in Reconciled(c, status, nodes)
    requires d.node != d'.node && Holds(d, a.value) && Holds(d', b.value)
    ensures a != b
  {
    ReconciledDisjoint(c, status, nodes, d, d', a.value);
  }

  /** A node whose configuration is accepted can grant exactly the addresses of its block that are not the gateway and
      that the spec does not exclude. */
  lemma IPPoolServesExactly(c: Config, status: seq<Entry>, nodes: seq<string>, e: Entry, routesOk: bool, snapshot: string,
                            name: string, a: Address)
    requires ValidSpec(c) && Distinct(nodes) && e in Reconciled(c, status, nodes) && e.start.Some? && e.end.Some?
    requires RangesOk(IPConfig(c, e, routesOk, snapshot))
    ensures NodePools.CanGrant(IPConfig(c, e, routesOk, snapshot), name, a) <==>
              && a.family == c.subnet.family && e.start.value.value <= a.value <= e.end.value.value
              && c.gateway != Some(a.value) && !Excluded(c.exclusions, c.perNode, e.start.value.value, a.value)
  {
    ReconciledDisjoint(c, status, nodes, e, e, a.value);
    IPConfigShaped(c, e, routesOk, snapshot, a.value);
    NodePools.GrantedExactly(IPConfig(c, e, routesOk, snapshot), c.subnet, e.start.value.value, e.end.value.value,
                             ExclusionList(c, e), name, a);
  }
}
