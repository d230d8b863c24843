/** Validation of pool specs (api/v1alpha1/cidrpool_validate.go, api/v1alpha1/ippool_validate.go,
    api/v1alpha1/validate_exclusions.go), as far as allocation is concerned. The original collects errors; here the
    answer is whether there are none. */
module PoolValidation {
  import opened Addresses
  import opened Exclusions
  import opened CIDRPool
  import SubnetIteration
  import IPPoolAllocator
  import IPPoolReconcile

  /** Exclusions have both ends in the network, in order; they may overlap. */
  method ValidateExclusions(net: Subnet, rs: seq<ExcludeRange>) returns (ok: bool)
    ensures ok <==> forall i :: 0 <= i < |rs| ==> net.base <= rs[i].start <= rs[i].end < net.base + net.Size()
  {
    ok := true;
    for i := 0 to |rs|
      invariant ok <==> forall k :: 0 <= k < i ==> net.base <= rs[k].start <= rs[k].end < net.base + net.Size()
    {
      if !(net.base <= rs[i].start < net.base + net.Size()) {
        ok := false;
      }
      if !(net.base <= rs[i].end < net.base + net.Size()) {
        ok := false;
      }
      if rs[i].end < rs[i].start {
        ok := false;
      }
    }
  }

  /** Index ranges are in order and do not go beyond the last index of a node's part, nor beyond the largest 32-bit
      integer. */
  method ValidatePerNodeExclusions(count: int, es: seq<ExcludeIndexRange>) returns (ok: bool)
    ensures ok <==> forall i :: 0 <= i < |es| ==> 0 <= es[i].start <= es[i].end < count && es[i].end <= 0x7fff_ffff
  {
    var maxIndex := if count - 1 < MAX_INT32 then count - 1 else MAX_INT32;
    ok := true;
    for i := 0 to |es|
      invariant ok <==> forall k :: 0 <= k < i ==> 0 <= es[k].start <= es[k].end < count && es[k].end <= 0x7fff_ffff
    {
      if es[i].start < 0 || es[i].end < 0 {
        ok := false;
      }
      if es[i].end < es[i].start {
        ok := false;
      }
      if es[i].start > maxIndex || es[i].end > maxIndex {
        ok := false;
      }
    }
  }

  // ----- static allocations -----

  /** A static allocation is a prefix of the right size in the pool, with its gateway, if it names one, inside. */
  ghost predicate StaticOk(spec: Spec, s: StaticAllocation) {
    && s.prefix.Valid() && s.prefix.family == spec.cidr.family && s.prefix.hostBits == spec.hostBits
    && spec.cidr.base <= s.prefix.base < spec.cidr.base + spec.cidr.Size()
    && (s.gateway != NoGateway ==>
          && s.gateway.GatewayIP? && s.gateway.ip.family == s.prefix.family
          && s.prefix.base <= s.gateway.ip.value < s.prefix.base + s.prefix.Size())
  }

  method ValidateStatic(spec: Spec, s: StaticAllocation) returns (ok: bool)
    ensures ok <==> StaticOk(spec, s)
  {
    if !s.prefix.Valid() {
      return false;
    }
    if !spec.cidr.ContainsValue(s.prefix.base) {
      return false;
    }
    if s.prefix.family != spec.cidr.family {
      return false;
    }
    if s.prefix.hostBits != spec.hostBits {
      return false;
    }
    if s.gateway != NoGateway {
      if !s.gateway.GatewayIP? {
        return false;
      }
      if !s.prefix.Contains(s.gateway.ip) {
        return false;
      }
    }
    return true;
  }

  /** How often a node is named, and a prefix used, in the first `n` static allocations. */
  function NodeUses(ss: seq<StaticAllocation>, node: string): nat {
    if ss == [] then 0 else NodeUses(ss[..|ss| - 1], node) + if ss[|ss| - 1].node == node then 1 else 0
  }

  function PrefixUses(ss: seq<StaticAllocation>, net: Subnet): nat {
    if ss == [] then 0 else PrefixUses(ss[..|ss| - 1], net) + if ss[|ss| - 1].prefix == net then 1 else 0
  }

  lemma {:induction false} NodeUsed(ss: seq<StaticAllocation>, node: string)
    ensures NodeUses(ss, node) > 0 <==> exists i :: 0 <= i < |ss| && ss[i].node == node
  {
    if ss != [] {
      var n := |ss| - 1;
      NodeUsed(ss[..n], node);
      if i :| 0 <= i < n && ss[i].node == node {
        assert ss[..n][i].node == node;
      }
      assert NodeUses(ss[..n], node) > 0 ==> exists i :: 0 <= i < n && ss[..n][i].node == node;
      if NodeUses(ss[..n], node) > 0 {
        var i :| 0 <= i < n && ss[..n][i].node == node;
        assert ss[i].node == node;
      }
    }
  }

  lemma {:induction false} PrefixUsed(ss: seq<StaticAllocation>, net: Subnet)
    ensures PrefixUses(ss, net) > 0 <==> exists i :: 0 <= i < |ss| && ss[i].prefix == net
  {
    if ss != [] {
      var n := |ss| - 1;
      PrefixUsed(ss[..n], net);
      if i :| 0 <= i < n && ss[i].prefix == net {
        assert ss[..n][i].prefix == net;
      }
      if PrefixUses(ss[..n], net) > 0 {
        var i :| 0 <= i < n && ss[..n][i].prefix == net;
        assert ss[i].prefix == net;
      }
    }
  }

  /** Counting finds what occurs twice. */
  lemma {:induction false} NodeTwice(ss: seq<StaticAllocation>, node: string)
    ensures NodeUses(ss, node) > 1 <==> exists i, j :: 0 <= i < j < |ss| && ss[i].node == node && ss[j].node == node
  {
    if ss != [] {
      var n := |ss| - 1;
      NodeTwice(ss[..n], node);
      NodeUsed(ss[..n], node);
      if i, j :| 0 <= i < j < |ss| && ss[i].node == node && ss[j].node == node {
        assert ss[..n][i].node == node;
        assert j < n ==> ss[..n][j].node == node;
      }
      if NodeUses(ss[..n], node) > 1 {
        var i, j :| 0 <= i < j < n && ss[..n][i].node == node && ss[..n][j].node == node;
        assert ss[i].node == node && ss[j].node == node;
      } else if NodeUses(ss[..n], node) > 0 {
        var i :| 0 <= i < n && ss[..n][i].node == node;
        assert ss[i].node == node;
      }
    }
  }

  lemma {:induction false} PrefixTwice(ss: seq<StaticAllocation>, net: Subnet)
    ensures PrefixUses(ss, net) > 1 <==> exists i, j :: 0 <= i < j < |ss| && ss[i].prefix == net && ss[j].prefix == net
  {
    if ss != [] {
      var n := |ss| - 1;
      PrefixTwice(ss[..n], net);
      PrefixUsed(ss[..n], net);
      if i, j :| 0 <= i < j < |ss| && ss[i].prefix == net && ss[j].prefix == net {
        assert ss[..n][i].prefix == net;
        assert j < n ==> ss[..n][j].prefix == net;
      }
      if PrefixUses(ss[..n], net) > 1 {
        var i, j :| 0 <= i < j < n && ss[..n][i].prefix == net && ss[..n][j].prefix == net;
        assert ss[i].prefix == net && ss[j].prefix == net;
      } else if PrefixUses(ss[..n], net) > 0 {
        var i :| 0 <= i < n && ss[..n][i].prefix == net;
        assert ss[i].prefix == net;
      }
    }
  }

  function Uses<K>(counts: map<K, nat>, k: K): nat {
    if k in counts then counts[k] else 0
  }

  /** Counts the named nodes and the prefixes, and checks each entry. */
  method CountStatics(spec: Spec) returns (ok: bool, nodes: map<string, nat>, prefixes: map<Subnet, nat>)
    ensures ok <==> forall i :: 0 <= i < |spec.statics| ==> StaticOk(spec, spec.statics[i])
    ensures forall n :: Uses(nodes, n) == if n == "" then 0 else NodeUses(spec.statics, n)
    ensures forall p :: Uses(prefixes, p) == PrefixUses(spec.statics, p)
  {
    ok, nodes, prefixes := true, map[], map[];
    var ss := spec.statics;
    for i := 0 to |ss|
      invariant ok <==> forall k :: 0 <= k < i ==> StaticOk(spec, ss[k])
      invariant forall n :: Uses(nodes, n) == if n == "" then 0 else NodeUses(ss[..i], n)
      invariant forall p :: Uses(prefixes, p) == PrefixUses(ss[..i], p)
    {
      assert ss[..i + 1][..i] == ss[..i];
      if ss[i].node != "" {
        nodes := nodes[ss[i].node := Uses(nodes, ss[i].node) + 1];
      }
      prefixes := prefixes[ss[i].prefix := Uses(prefixes, ss[i].prefix) + 1];
      var one := ValidateStatic(spec, ss[i]);
      ok := ok && one;
    }
    assert ss[..|ss|] == ss;
  }

  /** No key is counted more than once. */
  method NoneAbove<K>(counts: map<K, nat>) returns (ok: bool)
    ensures ok <==> forall k :: Uses(counts, k) <= 1
  {
    var todo := counts.Keys;
    ok := true;
    while todo != {}
      invariant todo <= counts.Keys
      invariant ok <==> forall k :: k in counts && k !in todo ==> counts[k] <= 1
      decreases todo
    {
      var k :| k in todo;
      if counts[k] > 1 {
        ok := false;
      }
      todo := todo - {k};
    }
    if !ok {
      var k :| k in counts && counts[k] > 1;
      assert Uses(counts, k) > 1;
    }
  }

  /** Static allocations are accepted exactly when each is in order and no named node and no prefix occurs twice. */
  method ValidateStaticAllocations(spec: Spec) returns (ok: bool)
    ensures ok <==>
              && (forall i :: 0 <= i < |spec.statics| ==> StaticOk(spec, spec.statics[i]))
              && (forall i, j :: 0 <= i < j < |spec.statics| ==> spec.statics[i].prefix != spec.statics[j].prefix)
              && (forall i, j :: 0 <= i < j < |spec.statics| && spec.statics[i].node != "" ==> spec.statics[i].node != spec.statics[j].node)
  {
    var each, nodes, prefixes := CountStatics(spec);
    var nodesOk := NoneAbove(nodes);
    var prefixesOk := NoneAbove(prefixes);
    NodesOnce(spec.statics, nodes);
    PrefixesOnce(spec.statics, prefixes);
    ok := each && nodesOk && prefixesOk;
  }

  lemma NodesOnce(ss: seq<StaticAllocation>, nodes: map<string, nat>)
    requires forall n :: Uses(nodes, n) == if n == "" then 0 else NodeUses(ss, n)
    ensures (forall n :: Uses(nodes, n) <= 1)
            <==> forall i, j :: 0 <= i < j < |ss| && ss[i].node != "" ==> ss[i].node != ss[j].node
  {
    forall n ensures NodeUses(ss, n) > 1 <==> exists i, j :: 0 <= i < j < |ss| && ss[i].node == n && ss[j].node == n {
      NodeTwice(ss, n);
    }
    if forall n :: Uses(nodes, n) <= 1 {
      forall i, j | 0 <= i < j < |ss| && ss[i].node != "" ensures ss[i].node != ss[j].node {
        assert Uses(nodes, ss[i].node) <= 1;
      }
    }
    if forall i, j :: 0 <= i < j < |ss| && ss[i].node != "" ==> ss[i].node != ss[j].node {
      forall n ensures Uses(nodes, n) <= 1 {
      }
    }
  }

  lemma PrefixesOnce(ss: seq<StaticAllocation>, prefixes: map<Subnet, nat>)
    requires forall p :: Uses(prefixes, p) == PrefixUses(ss, p)
    ensures (forall p :: Uses(prefixes, p) <= 1) <==> forall i, j :: 0 <= i < j < |ss| ==> ss[i].prefix != ss[j].prefix
  {
    forall p ensures PrefixUses(ss, p) > 1 <==> exists i, j :: 0 <= i < j < |ss| && ss[i].prefix == p && ss[j].prefix == p {
      PrefixTwice(ss, p);
    }
    if forall p :: Uses(prefixes, p) <= 1 {
      forall i, j | 0 <= i < j < |ss| ensures ss[i].prefix != ss[j].prefix {
        assert Uses(prefixes, ss[i].prefix) <= 1;
      }
    }
    if forall i, j :: 0 <= i < j < |ss| ==> ss[i].prefix != ss[j].prefix {
      forall p ensures Uses(prefixes, p) <= 1 {
      }
    }
  }

  // ----- whole specs -----

  /** A CIDRPool is valid exactly when its network is, the prefixes of the nodes are no larger than it and not the whole
      address space, the gateway index leads to an address for hosts of a prefix, and exclusions, per-node exclusions and
      static allocations are in order. */
  method ValidateCIDR(spec: Spec) returns (ok: bool)
    ensures ok == ValidSpec(spec)
  {
    if !spec.cidr.Valid() {
      return false;
    }
    if spec.gatewayIndex.Some? && spec.gatewayIndex.value < 0 {
      return false;
    }
    if spec.hostBits >= Bits(spec.cidr.family) || spec.hostBits > spec.cidr.hostBits {
      return false;
    }
    var gatewayOk := spec.gatewayIndex.None?
                     || GatewayForSubnet(Subnet(spec.cidr.family, spec.cidr.base, spec.hostBits), spec.gatewayIndex.value) != NoGateway;
    var exclusionsOk := ValidateExclusions(spec.cidr, spec.exclusions);
    var perNodeOk := ValidatePerNodeExclusions(Pow2(spec.hostBits), spec.perNode);
    var staticsOk := ValidateStaticAllocations(spec);
    ListedOk(spec);
    ok := gatewayOk && exclusionsOk && perNodeOk && staticsOk;
  }

  lemma ListedOk(spec: Spec)
    ensures (forall e :: e in spec.exclusions ==>
               0 <= e.start <= e.end && spec.cidr.ContainsValue(e.start) && spec.cidr.ContainsValue(e.end))
            <==> forall i :: 0 <= i < |spec.exclusions| ==>
                   spec.cidr.base <= spec.exclusions[i].start <= spec.exclusions[i].end < spec.cidr.base + spec.cidr.Size()
    ensures ValidIndexes(spec.perNode, if Pow2(spec.hostBits) - 1 < MAX_INT32 then Pow2(spec.hostBits) - 1 else MAX_INT32)
            <==> forall i :: 0 <= i < |spec.perNode| ==>
                   0 <= spec.perNode[i].start <= spec.perNode[i].end < Pow2(spec.hostBits) && spec.perNode[i].end <= 0x7fff_ffff
    ensures ValidStatics(spec) <==>
              && (forall i :: 0 <= i < |spec.statics| ==> StaticOk(spec, spec.statics[i]))
              && (forall i, j :: 0 <= i < j < |spec.statics| ==> spec.statics[i].prefix != spec.statics[j].prefix)
              && (forall i, j :: 0 <= i < j < |spec.statics| && spec.statics[i].node != "" ==> spec.statics[i].node != spec.statics[j].node)
  {
    forall s | s in spec.statics ensures exists i :: 0 <= i < |spec.statics| && spec.statics[i] == s {
    }
  }

  /** In plain terms. */
  lemma ValidSpecExactly(spec: Spec)
    ensures ValidSpec(spec) <==>
              && spec.cidr.Valid() && spec.hostBits <= spec.cidr.hostBits && spec.hostBits < Bits(spec.cidr.family)
              && (spec.gatewayIndex.Some? ==>
                    && spec.gatewayIndex.value >= (if spec.hostBits >= 2 then 1 else 0)
                    && spec.gatewayIndex.value <= Pow2(spec.hostBits) - (if spec.cidr.family.IPv4? && spec.hostBits >= 2 then 2 else 1))
              && (forall i :: 0 <= i < |spec.exclusions| ==>
                    spec.cidr.base <= spec.exclusions[i].start <= spec.exclusions[i].end < spec.cidr.base + spec.cidr.Size())
              && (forall i :: 0 <= i < |spec.perNode| ==>
                    0 <= spec.perNode[i].start <= spec.perNode[i].end < Pow2(spec.hostBits) && spec.perNode[i].end <= 0x7fff_ffff)
              && (forall i :: 0 <= i < |spec.statics| ==> StaticOk(spec, spec.statics[i]))
              && (forall i, j :: 0 <= i < j < |spec.statics| ==> spec.statics[i].prefix != spec.statics[j].prefix)
              && (forall i, j :: 0 <= i < j < |spec.statics| && spec.statics[i].node != "" ==> spec.statics[i].node != spec.statics[j].node)
  {
    ListedOk(spec);
    if spec.cidr.Valid() && spec.hostBits <= spec.cidr.hostBits && spec.gatewayIndex.Some? {
      FirstPrefixGateway(spec.cidr, spec.hostBits, spec.gatewayIndex.value);
    }
  }

  lemma FirstPrefixGateway(cidr: Subnet, hostBits: nat, index: int)
    requires cidr.Valid() && hostBits <= cidr.hostBits
    ensures GatewayForSubnet(Subnet(cidr.family, cidr.base, hostBits), index) != NoGateway <==>
              (if hostBits >= 2 then 1 else 0) <= index <= Pow2(hostBits) - (if cidr.family.IPv4? && hostBits >= 2 then 2 else 1)
  {
    var first := Subnet(cidr.family, cidr.base, hostBits);
    SubnetIteration.ChildInside(cidr, hostBits, 0);
    assert SubnetIteration.ChildAt(cidr, hostBits, 0) == first;
    GatewayExactly(first, index);
    HostAddresses(first);
  }

  /** An IPPool is valid exactly when its network is, a block has an address and no more than the network has for hosts,
      and exclusions, per-node exclusions and the gateway are in order. */
  method ValidateIPPool(c: IPPoolAllocator.Config) returns (ok: bool)
    requires c.subnet.Valid()
    ensures ok <==>
              && 1 <= c.blockSize <= c.subnet.LastIP() - c.subnet.FirstIP() + 1
              && (forall i :: 0 <= i < |c.exclusions| ==>
                    c.subnet.base <= c.exclusions[i].start <= c.exclusions[i].end < c.subnet.base + c.subnet.Size())
              && (forall i :: 0 <= i < |c.perNode| ==>
                    0 <= c.perNode[i].start <= c.perNode[i].end < c.blockSize && c.perNode[i].end <= 0x7fff_ffff)
              && (c.gateway.Some? ==> c.subnet.base <= c.gateway.value < c.subnet.base + c.subnet.Size())
    ensures ok == IPPoolReconcile.ValidSpec(c)
  {
    HostAddresses(c.subnet);
    var exclusionsOk := ValidateExclusions(c.subnet, c.exclusions);
    var perNodeOk := ValidatePerNodeExclusions(c.blockSize, c.perNode);
    ok := && c.blockSize >= 1 && c.subnet.PossibleIPCount() >= c.blockSize
          && exclusionsOk && perNodeOk
          && (c.gateway.Some? ==> c.subnet.ContainsValue(c.gateway.value));
  }
}
