/** CIDRPool objects and the validation of their allocations
    (api/v1alpha1/cidrpool_validate.go, api/v1alpha1/helpers.go).

    Prefixes and gateways are text in the API objects and are compared as text. The text is assumed
    canonical, so that equal values and equal text are the same thing. */
module CIDRPool {
  import opened Addresses
  import opened Exclusions
  import opened SubnetIteration
  import Multiples

  datatype GatewayText = NoGateway | GatewayIP(ip: Address) | GatewayJunk(text: string)

  /** A prefix as found in a status: empty, a parsed network (perhaps with host bits set), or junk. */
  datatype PrefixText = NoPrefix | Cidr(net: Subnet) | PrefixJunk(text: string)

  datatype StaticAllocation = StaticAllocation(node: string, prefix: Subnet, gateway: GatewayText)

  datatype Allocation = Allocation(node: string, prefix: PrefixText, gateway: GatewayText)

  /** `hostBits` is the number of host bits of the prefix each node gets. */
  datatype Spec = Spec(
    cidr: Subnet,
    hostBits: nat,
    gatewayIndex: Option<int>,
    exclusions: seq<ExcludeRange>,
    perNode: seq<ExcludeIndexRange>,
    statics: seq<StaticAllocation>)

  // ----- gateways -----

  /** The gateway of a prefix: the address at an index. Index 0 is allowed only in the smallest networks. */
  function GatewayForSubnet(net: Subnet, index: int): GatewayText {
    var count := net.PossibleIPCount();
    var maxIndex := if net.hostBits <= 1 then count - 1 else count;
    if net.hostBits > 1 && index == 0 then NoGateway
    else if maxIndex < index then NoGateway
    else
      match NextIPWithOffset(net.family, net.base, index)
      case None => NoGateway
      case Some(v) => GatewayIP(Address(net.family, v))
  }

  /** A computed gateway lies in its own prefix. */
  lemma GatewayInside(net: Subnet, index: int)
    ensures GatewayForSubnet(net, index).GatewayIP? ==> net.Contains(GatewayForSubnet(net, index).ip)
    ensures !GatewayForSubnet(net, index).GatewayJunk?
  {
    assert net.hostBits == 1 ==> Pow2(1) == 2 * Pow2(0);
    assert net.hostBits >= 1 ==> net.Size() == 2 * Pow2(net.hostBits - 1);
  }

  /** The gateway of a prefix is the address at the index if that is an address for hosts, and none otherwise. */
  lemma GatewayExactly(net: Subnet, index: int)
    requires net.Valid()
    ensures GatewayForSubnet(net, index) ==
              if net.FirstIP() <= net.base + index <= net.LastIP() then GatewayIP(Address(net.family, net.base + index)) else NoGateway
  {
    HostAddresses(net);
  }

  /** Whether there is one depends on the size and family of the prefix only. */
  lemma GatewayEverywhere(net: Subnet, net': Subnet, index: int)
    requires net.Valid() && net'.Valid() && net.family == net'.family && net.hostBits == net'.hostBits
    ensures GatewayForSubnet(net, index) == NoGateway <==> GatewayForSubnet(net', index) == NoGateway
  {
    GatewayExactly(net, index);
    GatewayExactly(net', index);
    HostAddresses(net);
    HostAddresses(net');
  }

  function ComputedGateway(spec: Spec, net: Subnet): GatewayText {
    if spec.gatewayIndex.None? then NoGateway else GatewayForSubnet(net, spec.gatewayIndex.value)
  }

  // ----- the spec -----

  const MAX_INT32: int := 0x7fff_ffff

  /** What pool validation demands of static allocations: right size, inside the pool, gateway inside the
      prefix, and no node and no prefix twice. The node name may be empty. */
  predicate ValidStatics(spec: Spec) {
    && (forall s :: s in spec.statics ==>
          && s.prefix.Valid()
          && s.prefix.family == spec.cidr.family
          && spec.cidr.ContainsValue(s.prefix.base)
          && s.prefix.hostBits == spec.hostBits
          && (s.gateway == NoGateway || (s.gateway.GatewayIP? && s.prefix.Contains(s.gateway.ip))))
    && (forall i, j :: 0 <= i < j < |spec.statics| ==> spec.statics[i].prefix != spec.statics[j].prefix)
    && (forall i, j :: 0 <= i < j < |spec.statics| && spec.statics[i].node != "" ==>
          spec.statics[i].node != spec.statics[j].node)
  }

  /** Pool validation, as far as allocation is concerned. */
  predicate ValidSpec(spec: Spec) {
    && spec.cidr.Valid()
    && spec.hostBits <= spec.cidr.hostBits
    && spec.hostBits < Bits(spec.cidr.family)
    && (spec.gatewayIndex.Some? ==>
          && spec.gatewayIndex.value >= 0
          && GatewayForSubnet(Subnet(spec.cidr.family, spec.cidr.base, spec.hostBits), spec.gatewayIndex.value) != NoGateway)
    && (forall e :: e in spec.exclusions ==>
          0 <= e.start <= e.end && spec.cidr.ContainsValue(e.start) && spec.cidr.ContainsValue(e.end))
    && ValidIndexes(spec.perNode, if Pow2(spec.hostBits) - 1 < MAX_INT32 then Pow2(spec.hostBits) - 1 else MAX_INT32)
    && ValidStatics(spec)
  }

  lemma SpecRanges(spec: Spec)
    requires ValidSpec(spec)
    ensures ValidRanges(spec.cidr.family, spec.exclusions)
    ensures ValidIndexes(spec.perNode, Pow2(spec.hostBits) - 1)
  {
  }

  /** A network that could be handed out: a prefix of the right size inside the pool. */
  predicate NodePrefix(spec: Spec, net: Subnet) {
    && net.Valid()
    && net.family == spec.cidr.family
    && spec.cidr.ContainsValue(net.base)
    && net.hostBits == spec.hostBits
  }

  ghost predicate PrefixExcluded(spec: Spec, net: Subnet) {
    FullyExcluded(spec.exclusions, spec.perNode, net.base, net.LastIP())
  }

  method IsPrefixFullyExcluded(spec: Spec, net: Subnet) returns (b: bool)
    requires ValidSpec(spec) && NodePrefix(spec, net)
    ensures b <==> PrefixExcluded(spec, net)
  {
    SpecRanges(spec);
    b := IsEntireRangeExcluded(spec.cidr.family, spec.exclusions, spec.perNode, net.base, net.LastIP());
  }

  // ----- static allocations -----

  /** The static allocation of a node: the last one listed for it. */
  function StaticOf(statics: seq<StaticAllocation>, node: string): (r: Option<StaticAllocation>)
    ensures r.Some? ==> r.value in statics && r.value.node == node
    ensures r.None? ==> forall s :: s in statics ==> s.node != node
  {
    if statics == [] then None
    else
      var last := statics[|statics| - 1];
      if last.node == node then Some(last) else StaticOf(statics[..|statics| - 1], node)
  }

  ghost predicate StaticPrefix(spec: Spec, net: Subnet) {
    exists s :: s in spec.statics && s.prefix == net
  }

  lemma UniqueStatic(spec: Spec, s: StaticAllocation, t: StaticAllocation)
    requires ValidSpec(spec) && s in spec.statics && t in spec.statics
    requires s.prefix == t.prefix || (s.node == t.node && s.node != "")
    ensures s == t
  {
    var i :| 0 <= i < |spec.statics| && spec.statics[i] == s;
    var j :| 0 <= j < |spec.statics| && spec.statics[j] == t;
    assert i == j;
  }

  /** The allocation a static entry stands for. */
  function FromStatic(spec: Spec, s: StaticAllocation): Allocation {
    Allocation(s.node, Cidr(s.prefix), if s.gateway == NoGateway then ComputedGateway(spec, s.prefix) else s.gateway)
  }

  // ----- validation of one status entry -----

  predicate Conflicts(a: Allocation, e: Allocation) {
    (a.gateway != NoGateway && a.gateway == e.gateway) || a.prefix == e.prefix || a.node == e.node
  }

  /** Besides the entry itself nothing in the status shares its node, prefix or gateway. */
  ghost predicate NoConflict(status: seq<Allocation>, a: Allocation) {
    forall i, j :: 0 <= i < j < |status| ==> !(Conflicts(a, status[i]) && Conflicts(a, status[j]))
  }

  /** A prefix a node may hold without a static allocation for it. */
  ghost predicate DynamicOk(spec: Spec, a: Allocation) {
    && a.prefix.Cidr?
    && NodePrefix(spec, a.prefix.net)
    && !StaticPrefix(spec, a.prefix.net)
    && a.gateway == ComputedGateway(spec, a.prefix.net)
  }

  /** The verdict on a status entry. A node with a static allocation must hold exactly that one. */
  ghost predicate ValidAllocation(spec: Spec, status: seq<Allocation>, a: Allocation) {
    && a.node != ""
    && match StaticOf(spec.statics, a.node)
       case Some(s) => a == FromStatic(spec, s)
       case None => DynamicOk(spec, a) && NoConflict(status, a)
  }

  /** What parsing guarantees of a prefix, before the host bits are looked at. */
  predicate Parsed(p: PrefixText) {
    p.Cidr? ==> p.net.hostBits <= Bits(p.net.family) && p.net.base < Space(p.net.family)
  }

  lemma ParsedValid(net: Subnet)
    requires Parsed(Cidr(net)) && net.base % net.Size() == 0
    ensures net.Valid()
  {
    var rest := Bits(net.family) - net.hostBits;
    Pow2Adds(rest, net.hostBits);
    assert Space(net.family) == Pow2(rest) * net.Size();
    Aligns(net.base, Pow2(rest), net.Size());
  }

  lemma Aligns(x: nat, n: nat, b: nat)
    requires b >= 1 && n >= 1 && x % b == 0 && x < n * b
    ensures x + b <= n * b
  {
    Multiples.Quotient(x, b);
    Multiples.QuotientBound(x, n, b);
    Multiples.Ordered(x / b, n, b);
  }

  method ValidateAllocation(spec: Spec, status: seq<Allocation>, a: Allocation) returns (ok: bool)
    requires ValidSpec(spec) && Parsed(a.prefix)
    ensures ok <==> ValidAllocation(spec, status, a)
  {
    if a.node == "" || a.prefix == NoPrefix {
      return false;
    }
    if !a.prefix.Cidr? {
      return false;
    }
    var net := a.prefix.net;
    if net.base % net.Size() != 0 {
      return false;
    }
    ParsedValid(net);
    var computed := ComputedGateway(spec, net);
    for i := 0 to |spec.statics|
      invariant forall k :: 0 <= k < i ==> spec.statics[k].node != a.node && spec.statics[k].prefix != net
    {
      var s := spec.statics[i];
      assert s in spec.statics;
      if a.node == s.node {
        StaticDecides(spec, a, s);
        if a.prefix != Cidr(s.prefix) {
          return false;
        }
        if s.gateway != NoGateway && a.gateway != s.gateway {
          return false;
        }
        if s.gateway == NoGateway {
          if computed != NoGateway && a.gateway != computed {
            return false;
          }
          if computed == NoGateway && a.gateway != NoGateway {
            return false;
          }
        }
        return true;
      }
      if a.prefix == Cidr(s.prefix) {
        OtherStaticPrefix(spec, a, s);
        return false;
      }
    }
    assert StaticOf(spec.statics, a.node) == None;
    assert !StaticPrefix(spec, net);
    if !spec.cidr.Contains(Address(net.family, net.base)) {
      return false;
    }
    if net.hostBits != spec.hostBits {
      return false;
    }
    if computed != NoGateway && a.gateway != computed {
      return false;
    }
    if computed == NoGateway && a.gateway != NoGateway {
      return false;
    }
    assert DynamicOk(spec, a);
    ok := CheckConflicts(status, a);
  }

  lemma StaticDecides(spec: Spec, a: Allocation, s: StaticAllocation)
    requires ValidSpec(spec) && s in spec.statics && a.node == s.node && a.node != ""
    ensures StaticOf(spec.statics, a.node) == Some(s)
  {
    var r := StaticOf(spec.statics, a.node);
    UniqueStatic(spec, s, r.value);
  }

  /** An entry that holds the static prefix of another node is invalid. */
  lemma OtherStaticPrefix(spec: Spec, a: Allocation, s: StaticAllocation)
    requires ValidSpec(spec) && s in spec.statics && a.node != s.node && a.prefix == Cidr(s.prefix) && a.node != ""
    ensures forall status :: !ValidAllocation(spec, status, a)
  {
    var r := StaticOf(spec.statics, a.node);
    if r.Some? && r.value.prefix == s.prefix {
      UniqueStatic(spec, s, r.value);
    }
    assert StaticPrefix(spec, s.prefix);
  }

  method CheckConflicts(status: seq<Allocation>, a: Allocation) returns (ok: bool)
    ensures ok <==> NoConflict(status, a)
  {
    var alreadyFound := false;
    ghost var at := 0;
    for i := 0 to |status|
      invariant alreadyFound ==> 0 <= at < i && Conflicts(a, status[at])
      invariant forall k :: 0 <= k < i && Conflicts(a, status[k]) ==> alreadyFound && k == at
    {
      if Conflicts(a, status[i]) {
        if alreadyFound {
          return false;
        }
        alreadyFound := true;
        at := i;
      }
    }
    return true;
  }
}
