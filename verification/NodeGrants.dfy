/** Dynamic grants across the nodes of a pool, in terms of the operations that commit them. */
module NodeGrants {
  import opened Addresses
  import opened Exclusions
  import opened StoreModel
  import opened Handlers
  import opened RoundRobin
  import opened OperationRuns
  import opened Sequences
  import NodePools
  import CIDRPool
  import CIDRPoolReconcile
  import NodeIPPools
  import IPPoolAllocator
  import IPPoolReconcile

  /** An operation that sees pool `q` as `cfg` commits, whatever was committed before, and grants `a` dynamically. */
  ghost predicate GrantMade(op: Operation, q: string, cfg: PoolConfig, a: Address) {
    && RangesOk(cfg) && KeepsConfig(op, q, cfg) && GrantsFrom(op, q, cfg, a)
    && exists cooldown, t0, before, t1, after :: Commits(cooldown, t0, before, op, t1, after)
  }

  /** So it is in every run of operations. */
  lemma GrantMadeInRun(cooldown: int, states: seq<Root>, times: seq<int>, ops: seq<Operation>, i: nat, q: string, cfg: PoolConfig,
                       a: Address)
    requires Operations(cooldown, states, times, ops) && i < |ops|
    requires RangesOk(cfg) && KeepsConfig(ops[i], q, cfg) && GrantsFrom(ops[i], q, cfg, a)
    ensures GrantMade(ops[i], q, cfg, a)
  {
    assert Commits(cooldown, times[i], states[i], ops[i], times[i + 1], states[i + 1]);
  }

  /** A grant that is made is an event of the pool. */
  lemma GrantMadeEvent(op: Operation, q: string, cfg: PoolConfig, a: Address)
    returns (before: PoolData, e: Event, after: PoolData)
    requires GrantMade(op, q, cfg, a)
    ensures NodePools.DynamicallyGranted(cfg, before, e, after, a)
  {
    var cooldown, t0, root, t1, root' :| Commits(cooldown, t0, root, op, t1, root');
    e := OperationEvent(cooldown, t0, root, op, t1, root', q, cfg);
    before, after := PoolOf(root, q), PoolOf(root', q);
  }

  /** IPPool: an address granted dynamically on a node lies in the node's block, is neither the gateway nor excluded by
      the spec, and is never one granted dynamically on another node of the same status, whatever the two stores hold
      and whenever the grants are made. */
  lemma IPPoolGrantsApart(c: IPPoolAllocator.Config, status: seq<IPPoolReconcile.Entry>, nodes: seq<string>,
                          d: IPPoolReconcile.Entry, d': IPPoolReconcile.Entry, q: string, op: Operation, op': Operation,
                          routesOk: bool, snapshot: string, routesOk': bool, snapshot': string, a: Address, b: Address)
    requires IPPoolReconcile.ValidSpec(c) && Distinct(nodes)
    requires d in IPPoolReconcile.Reconciled(c, status, nodes) && d' in IPPoolReconcile.Reconciled(c, status, nodes)
    requires d.start.Some? && d.end.Some? && d'.start.Some? && d'.end.Some?
    requires GrantMade(op, q, NodeIPPools.IPConfig(c, d, routesOk, snapshot), a)
    requires GrantMade(op', q, NodeIPPools.IPConfig(c, d', routesOk', snapshot'), b)
    ensures IPPoolReconcile.Holds(d, a.value) && c.gateway != Some(a.value)
    ensures !Excluded(c.exclusions, c.perNode, d.start.value.value, a.value)
    ensures d.node != d'.node ==> a != b
  {
    var cfg, cfg' := NodeIPPools.IPConfig(c, d, routesOk, snapshot), NodeIPPools.IPConfig(c, d', routesOk', snapshot');
    var before, e, after := GrantMadeEvent(op, q, cfg, a);
    NodeIPPools.IPPoolGrants(c, status, nodes, d, routesOk, snapshot, before, e, after, a);
    var before', e', after' := GrantMadeEvent(op', q, cfg', b);
    NodeIPPools.IPPoolGrants(c, status, nodes, d', routesOk', snapshot', before', e', after', b);
    if d.node != d'.node {
      NodeIPPools.BlocksApart(c, status, nodes, d, d', a, b);
    }
  }

  /** CIDRPool: likewise for prefixes; the spec's exclusions bind a node whose prefix is not static. */
  lemma CIDRPoolGrantsApart(spec: CIDRPool.Spec, status: seq<CIDRPool.Allocation>, nodes: seq<string>,
                            d: CIDRPool.Allocation, d': CIDRPool.Allocation, q: string, op: Operation, op': Operation,
                            routesOk: bool, snapshot: string, routesOk': bool, snapshot': string, a: Address, b: Address)
    requires CIDRPool.ValidSpec(spec) && CIDRPoolReconcile.NodeList(nodes) && d.prefix.Cidr? && d'.prefix.Cidr?
    requires d in CIDRPoolReconcile.Reconciled(spec, status, nodes) && d' in CIDRPoolReconcile.Reconciled(spec, status, nodes)
    requires GrantMade(op, q, NodePools.CIDRConfig(spec, d, routesOk, snapshot), a)
    requires GrantMade(op', q, NodePools.CIDRConfig(spec, d', routesOk', snapshot'), b)
    ensures d.prefix.net.Contains(a) && d.prefix.net.FirstIP() <= a.value <= d.prefix.net.LastIP()
    ensures d.gateway != CIDRPool.GatewayIP(a)
    ensures CIDRPool.StaticOf(spec.statics, d.node).None? ==> !Excluded(spec.exclusions, spec.perNode, d.prefix.net.base, a.value)
    ensures d.node != d'.node ==> a != b
  {
    var cfg, cfg' := NodePools.CIDRConfig(spec, d, routesOk, snapshot), NodePools.CIDRConfig(spec, d', routesOk', snapshot');
    var before, e, after := GrantMadeEvent(op, q, cfg, a);
    NodePools.CIDRPoolGrants(spec, status, nodes, d, routesOk, snapshot, before, e, after, a);
    var before', e', after' := GrantMadeEvent(op', q, cfg', b);
    NodePools.CIDRPoolGrants(spec, status, nodes, d', routesOk', snapshot', before', e', after', b);
    if d.node != d'.node {
      NodePools.PrefixesApart(spec, status, nodes, d, d', a, b);
    }
  }
}
