/** Which prefix and gateway a node gets from a CIDRPool reconcile
    (pkg/ipam-controller/controllers/cidrpool/cidrpool.go), in terms of the spec, the status and the node list alone. */
module CIDRPoolOrder {
  import opened Addresses
  import opened Exclusions
  import opened SubnetIteration
  import opened CIDRPool
  import opened CIDRPoolScan
  import opened CIDRPoolReconcile
  import opened Sequences
  import Multiples

  // ----- prefixes and gateways that are written -----

  /** An entry holds a prefix of the configured length inside the pool. A node with a static allocation has that prefix, with the gateway given there if there is one. Any other gateway is
      the address at the gateway index, counted from the base of the prefix; without an index there is none. */
  lemma WrittenEntry(spec: Spec, status: seq<Allocation>, nodes: seq<string>, e: Allocation)
    requires ValidSpec(spec) && NodeList(nodes) && e in Reconciled(spec, status, nodes)
    ensures e.prefix.Cidr? && e.node in nodes
    ensures var net := e.prefix.net;
            && net.family == spec.cidr.family && net.hostBits == spec.hostBits && net.base % Pow2(spec.hostBits) == 0
            && spec.cidr.base <= net.base && net.base + Pow2(spec.hostBits) <= spec.cidr.base + Pow2(spec.cidr.hostBits)
    ensures forall s :: s in spec.statics && s.node == e.node ==>
              e.prefix == Cidr(s.prefix) && (s.gateway != NoGateway ==> e.gateway == s.gateway)
    ensures (forall s :: s in spec.statics && s.node == e.node ==> s.gateway == NoGateway) ==>
              e.gateway == (if spec.gatewayIndex.None? then NoGateway
                            else GatewayIP(Address(spec.cidr.family, e.prefix.net.base + spec.gatewayIndex.value)))
  {
    var fin := Final(spec, status, nodes);
    FinalRun(spec, status, nodes);
    EntriesMembers(fin.byNode, nodes, e);
    RightHasPrefix(spec, e);
    InsidePool(spec, e.prefix.net);
    forall s | s in spec.statics && s.node == e.node ensures StaticOf(spec.statics, e.node) == Some(s) {
      UniqueStatic(spec, s, StaticOf(spec.statics, e.node).value);
    }
    if spec.gatewayIndex.Some? {
      IndexedGateway(spec, e.prefix.net);
    }
  }

  lemma InsidePool(spec: Spec, net: Subnet)
    requires ValidSpec(spec) && NodePrefix(spec, net)
    ensures spec.cidr.base <= net.base && net.base + Pow2(spec.hostBits) <= spec.cidr.base + Pow2(spec.cidr.hostBits)
  {
    ChildIndex(spec.cidr, net);
    var i := (net.base - spec.cidr.base) / net.Size();
    ChildInside(spec.cidr, spec.hostBits, i);
    ChildBounds(spec.cidr, spec.hostBits, i);
  }

  lemma IndexedGateway(spec: Spec, net: Subnet)
    requires ValidSpec(spec) && NodePrefix(spec, net) && spec.gatewayIndex.Some?
    ensures ComputedGateway(spec, net) == GatewayIP(Address(net.family, net.base + spec.gatewayIndex.value))
  {
    var first := Subnet(spec.cidr.family, spec.cidr.base, spec.hostBits);
    ChildInside(spec.cidr, spec.hostBits, 0);
    assert ChildAt(spec.cidr, spec.hostBits, 0) == first;
    GatewayEverywhere(first, net, spec.gatewayIndex.value);
    GatewayExactly(net, spec.gatewayIndex.value);
  }

  /** The address at the gateway index of a prefix, none without an index. */
  function AtIndex(spec: Spec, net: Subnet): GatewayText
    requires spec.gatewayIndex.Some? ==> spec.gatewayIndex.value >= 0
  {
    if spec.gatewayIndex.None? then NoGateway else GatewayIP(Address(net.family, net.base + spec.gatewayIndex.value))
  }

  /** Which entry of a status is valid, in plain terms. A node with a static allocation must have that prefix and the
      gateway given there, or else the one at the index. Any other node must have a prefix of the pool that is nobody's
      static one, with the gateway at the index, and apart from one entry, its own, none of the status may have its node,
      its prefix or its gateway. */
  lemma ValidAllocationExactly(spec: Spec, status: seq<Allocation>, a: Allocation)
    requires ValidSpec(spec)
    ensures ValidAllocation(spec, status, a) <==>
              && a.node != "" && a.prefix.Cidr?
              && (forall s :: s in spec.statics && s.node == a.node ==>
                    && a.prefix == Cidr(s.prefix)
                    && a.gateway == if s.gateway == NoGateway then AtIndex(spec, s.prefix) else s.gateway)
              && ((forall s :: s in spec.statics ==> s.node != a.node) ==>
                    var net := a.prefix.net;
                    && net.Valid() && net.family == spec.cidr.family && net.hostBits == spec.hostBits
                    && spec.cidr.base <= net.base < spec.cidr.base + spec.cidr.Size()
                    && (forall s :: s in spec.statics ==> s.prefix != net)
                    && a.gateway == AtIndex(spec, net)
                    && forall i, j :: 0 <= i < j < |status| ==>
                         || (status[i].node != a.node && status[i].prefix != a.prefix
                             && (status[i].gateway != a.gateway || a.gateway == NoGateway))
                         || (status[j].node != a.node && status[j].prefix != a.prefix
                             && (status[j].gateway != a.gateway || a.gateway == NoGateway)))
  {
    var fixed := StaticOf(spec.statics, a.node);
    if fixed.Some? {
      StaticEntry(spec, a, fixed.value);
    } else if a.prefix.Cidr? && NodePrefix(spec, a.prefix.net) {
      ComputedAtIndex(spec, a.prefix.net);
    }
  }

  lemma ComputedAtIndex(spec: Spec, net: Subnet)
    requires ValidSpec(spec) && NodePrefix(spec, net)
    ensures ComputedGateway(spec, net) == AtIndex(spec, net)
  {
    if spec.gatewayIndex.Some? {
      IndexedGateway(spec, net);
    }
  }

  lemma StaticEntry(spec: Spec, a: Allocation, s: StaticAllocation)
    requires ValidSpec(spec) && s in spec.statics && s.node == a.node
    ensures a == FromStatic(spec, s) <==>
              a.prefix == Cidr(s.prefix) && a.gateway == if s.gateway == NoGateway then AtIndex(spec, s.prefix) else s.gateway
    ensures a.node != "" ==> forall t :: t in spec.statics && t.node == a.node ==> t == s
  {
    ComputedAtIndex(spec, s.prefix);
    if a.node != "" {
      forall t | t in spec.statics && t.node == a.node ensures t == s {
        UniqueStatic(spec, s, t);
      }
    }
  }

  // ----- the order in which waiting nodes are served -----

  /** A node that neither has a prefix after the reload nor a static allocation. */
  ghost predicate Waits(spec: Spec, st: State, n: string) {
    n !in st.byNode && StaticOf(spec.statics, n).None?
  }

  lemma StillNoneBelow(spec: Spec, taken: set<Subnet>, more: set<Subnet>, bound: nat)
    requires spec.hostBits <= spec.cidr.hostBits && taken <= more && NoneBelow(spec, taken, bound)
    ensures NoneBelow(spec, more, bound)
  {
    forall i: nat | i < bound ensures !Usable(spec, more, i) {
      assert !Usable(spec, taken, i);
    }
  }

  /** What a waiting node gets is usable, and everything below it is out of use. */
  lemma {:induction false} GivenIsLowest(spec: Spec, st: State, nodes: seq<string>, n: string) returns (i: nat)
    requires ValidSpec(spec) && Good(spec, st) && "" !in nodes && n in nodes && Waits(spec, st, n)
    requires n in AllocAll(spec, st, nodes).byNode
    ensures var cur := AllocAll(spec, st, nodes);
            cur.byNode[n] == NewAllocation(spec, n, i) && NoneBelow(spec, cur.byPrefix, i + 1) && PrefixAt(spec, i) in cur.byPrefix
    ensures Usable(spec, st.byPrefix, i)
  {
    var rest, node := nodes[..|nodes| - 1], nodes[|nodes| - 1];
    assert node in nodes;
    var mid, cur := AllocAll(spec, st, rest), AllocAll(spec, st, nodes);
    AllocAllRun(spec, st, rest);
    AllocOneRun(spec, mid, node);
    if n in mid.byNode {
      assert n in rest;
      i := GivenIsLowest(spec, st, rest, n);
      StillNoneBelow(spec, mid.byPrefix, cur.byPrefix, i + 1);
    } else {
      var f := FirstUsable(spec, mid.byPrefix);
      LowestIsFirstUsable(spec, mid.byPrefix, f);
      i := f.value;
      TakenAt(spec, mid.byPrefix, i);
    }
  }

  /** Later nodes leave the prefixes of earlier ones alone. */
  lemma {:induction false} StaysGiven(spec: Spec, st: State, nodes: seq<string>, k: nat, n: string)
    requires ValidSpec(spec) && k <= |nodes| && n in AllocAll(spec, st, nodes[..k]).byNode
    ensures n in AllocAll(spec, st, nodes).byNode
    ensures AllocAll(spec, st, nodes).byNode[n] == AllocAll(spec, st, nodes[..k]).byNode[n]
  {
    if k == |nodes| {
      assert nodes[..k] == nodes;
    } else {
      var rest, node := nodes[..|nodes| - 1], nodes[|nodes| - 1];
      assert rest[..k] == nodes[..k];
      StaysGiven(spec, st, rest, k, n);
      StaysOne(spec, AllocAll(spec, st, rest), node, n);
    }
  }

  lemma StaysOne(spec: Spec, st: State, node: string, n: string)
    requires spec.hostBits <= spec.cidr.hostBits && n in st.byNode
    ensures n in AllocOne(spec, st, node).byNode && AllocOne(spec, st, node).byNode[n] == st.byNode[n]
  {
    if node !in st.byNode {
      var fixed := StaticOf(spec.statics, node);
    }
  }

  /** A node is served in its turn or not at all. */
  lemma {:induction false} ServedInTurn(spec: Spec, st: State, nodes: seq<string>, j: nat)
    requires ValidSpec(spec) && Distinct(nodes) && j < |nodes| && nodes[j] !in st.byNode
    requires nodes[j] in AllocAll(spec, st, nodes).byNode
    ensures nodes[j] in AllocAll(spec, st, nodes[..j + 1]).byNode
    decreases |nodes|
  {
    if j + 1 == |nodes| {
      assert nodes[..j + 1] == nodes;
    } else {
      var rest := nodes[..|nodes| - 1];
      assert rest[..j + 1] == nodes[..j + 1] && rest[j] == nodes[j];
      assert nodes[j] != nodes[|nodes| - 1];
      ServedInTurn(spec, st, rest, j);
    }
  }

  /** The prefix a node was given is the i-th. */
  ghost predicate GivenAt(spec: Spec, st: State, n: string, i: nat) {
    n in st.byNode && st.byNode[n] == NewAllocation(spec, n, i)
  }

  lemma ServedInOrder(spec: Spec, st: State, nodes: seq<string>, a: nat, b: nat) returns (i: nat, j: nat)
    requires ValidSpec(spec) && Good(spec, st) && NodeList(nodes) && a < b < |nodes|
    requires Waits(spec, st, nodes[a]) && Waits(spec, st, nodes[b]) && nodes[b] in AllocAll(spec, st, nodes).byNode
    ensures i < j && GivenAt(spec, AllocAll(spec, st, nodes), nodes[a], i) && GivenAt(spec, AllocAll(spec, st, nodes), nodes[b], j)
  {
    var front := nodes[..b];
    ServedInTurn(spec, st, nodes, b);
    assert nodes[..b + 1] == front + [nodes[b]] && nodes[a] == front[a];
    i, j := NextServed(spec, st, front, nodes[a], nodes[b]);
    StaysGiven(spec, st, nodes, b, nodes[a]);
    StaysGiven(spec, st, nodes, b + 1, nodes[b]);
  }

  /** A waiting node that is served right after `front` gets a higher prefix than a waiting node of `front`. */
  lemma NextServed(spec: Spec, st: State, front: seq<string>, m: string, n: string) returns (i: nat, j: nat)
    requires ValidSpec(spec) && Good(spec, st) && "" !in front && m in front && n !in front
    requires Waits(spec, st, m) && Waits(spec, st, n) && n in AllocAll(spec, st, front + [n]).byNode
    ensures i < j && GivenAt(spec, AllocAll(spec, st, front), m, i) && GivenAt(spec, AllocAll(spec, st, front + [n]), n, j)
  {
    var mid := AllocAll(spec, st, front);
    assert (front + [n])[..|front|] == front;
    AllocAllRun(spec, st, front);
    assert m in Elements(front) && n !in Elements(front);
    var f := FirstUsable(spec, mid.byPrefix);
    LowestIsFirstUsable(spec, mid.byPrefix, f);
    j := f.value;
    i := GivenIsLowest(spec, st, front, m);
  }

  lemma BasesInOrder(spec: Spec, i: nat, j: nat)
    requires ValidSpec(spec) && i < j
    ensures PrefixAt(spec, i).base < PrefixAt(spec, j).base
  {
    Multiples.Ordered(i, j, Pow2(spec.hostBits));
  }

  /** A node of the list that the reload leaves without a prefix and that has no static allocation. */
  ghost predicate New(spec: Spec, status: seq<Allocation>, nodes: seq<string>, n: string) {
    n !in LoadFrom(spec, Elements(nodes), status, status).byNode && forall s :: s in spec.statics ==> s.node != n
  }

  lemma NewWaits(spec: Spec, status: seq<Allocation>, nodes: seq<string>, n: string)
    requires New(spec, status, nodes, n)
    ensures Waits(spec, LoadFrom(spec, Elements(nodes), status, status), n)
  {
    var r := StaticOf(spec.statics, n);
  }

  /** New nodes are served in the order of the list, each with a higher prefix than the one before; when one is served,
      so are those before it. */
  lemma NewNodesInOrder(spec: Spec, status: seq<Allocation>, nodes: seq<string>, a: nat, b: nat, e: Allocation)
    requires ValidSpec(spec) && NodeList(nodes) && a < b < |nodes|
    requires New(spec, status, nodes, nodes[a]) && New(spec, status, nodes, nodes[b])
    requires e in Reconciled(spec, status, nodes) && e.node == nodes[b]
    ensures exists d :: d in Reconciled(spec, status, nodes) && d.node == nodes[a]
              && d.prefix.Cidr? && e.prefix.Cidr? && d.prefix.net.base < e.prefix.net.base
  {
    var st, fin := LoadFrom(spec, Elements(nodes), status, status), Final(spec, status, nodes);
    FinalRun(spec, status, nodes);
    LoadIsGood(spec, status, nodes);
    EntriesMembers(fin.byNode, nodes, e);
    NewWaits(spec, status, nodes, nodes[a]);
    NewWaits(spec, status, nodes, nodes[b]);
    var i, j := ServedInOrder(spec, st, nodes, a, b);
    BasesInOrder(spec, i, j);
    var d := fin.byNode[nodes[a]];
    EntriesMembers(fin.byNode, nodes, d);
  }

  lemma LoadIsGood(spec: Spec, status: seq<Allocation>, nodes: seq<string>)
    requires ValidSpec(spec)
    ensures Good(spec, LoadFrom(spec, Elements(nodes), status, status))
  {
    LoadGood(spec, Elements(nodes), status, |status|);
    assert status[..|status|] == status;
  }

  /** What a new node gets was free after the reload, and every lower prefix of the pool is written for some node, static
      or fully excluded. */
  lemma NewPrefixesLowest(spec: Spec, status: seq<Allocation>, nodes: seq<string>, e: Allocation, net: Subnet)
    requires ValidSpec(spec) && NodeList(nodes) && e in Reconciled(spec, status, nodes) && New(spec, status, nodes, e.node)
    requires NodePrefix(spec, net)
    ensures e.prefix.Cidr? && e.prefix.net !in LoadFrom(spec, Elements(nodes), status, status).byPrefix
    ensures net.base < e.prefix.net.base ==>
              || (exists d :: d in Reconciled(spec, status, nodes) && d.prefix == Cidr(net))
              || StaticPrefix(spec, net) || PrefixExcluded(spec, net)
  {
    var st, fin := LoadFrom(spec, Elements(nodes), status, status), Final(spec, status, nodes);
    FinalRun(spec, status, nodes);
    LoadIsGood(spec, status, nodes);
    EntriesMembers(fin.byNode, nodes, e);
    NewWaits(spec, status, nodes, e.node);
    var i := GivenIsLowest(spec, st, nodes, e.node);
    if net.base < e.prefix.net.base {
      var k := IndexBelow(spec, net, i);
      assert !Usable(spec, fin.byPrefix, k);
      if net in fin.byPrefix {
        var m :| m in fin.byNode && fin.byNode[m].prefix.Cidr? && fin.byNode[m].prefix.net == net;
        EntriesMembers(fin.byNode, nodes, fin.byNode[m]);
      }
    }
  }

  lemma IndexBelow(spec: Spec, net: Subnet, i: nat) returns (k: nat)
    requires ValidSpec(spec) && NodePrefix(spec, net) && net.base < PrefixAt(spec, i).base
    ensures k < i && k < PrefixCount(spec) && PrefixAt(spec, k) == net
  {
    ChildIndex(spec.cidr, net);
    k := (net.base - spec.cidr.base) / net.Size();
    if k > i {
      BasesInOrder(spec, i, k);
    }
  }

  // ----- what is kept of the status -----

  /** An entry of a listed node that is valid against the status and not fully excluded is written again. */
  lemma ValidIsKept(spec: Spec, status: seq<Allocation>, nodes: seq<string>, i: nat)
    requires ValidSpec(spec) && NodeList(nodes) && i < |status| && status[i].node in nodes
    requires ValidAllocation(spec, status, status[i]) && status[i].prefix.Cidr? && !PrefixExcluded(spec, status[i].prefix.net)
    ensures status[i] in Reconciled(spec, status, nodes)
  {
    var names, st := Elements(nodes), LoadFrom(spec, Elements(nodes), status, status);
    LoadedKeeps(spec, names, status, i, |status|);
    assert status[..|status|] == status;
    LoadIsGood(spec, status, nodes);
    AllocAllRun(spec, st, nodes);
    EntriesMembers(Final(spec, status, nodes).byNode, nodes, status[i]);
  }

  lemma {:induction false} LoadedKeeps(spec: Spec, names: set<string>, status: seq<Allocation>, i: nat, k: nat)
    requires ValidSpec(spec) && i < k <= |status| && Kept(spec, names, status, status[i])
    ensures var st := LoadFrom(spec, names, status, status[..k]); status[i].node in st.byNode && st.byNode[status[i].node] == status[i]
    decreases k
  {
    var a := status[k - 1];
    assert status[..k][..k - 1] == status[..k - 1];
    if i < k - 1 {
      LoadedKeeps(spec, names, status, i, k - 1);
      if Kept(spec, names, status, a) && a.node == status[i].node {
        ValidApart(spec, status, i, k - 1);
      }
    }
  }

  // ----- the order of the status -----

  lemma {:induction false} EntriesInOrder(byNode: map<string, Allocation>, nodes: seq<string>, i: nat, j: nat)
    returns (m: nat, n: nat)
    requires i < j < |Entries(byNode, nodes)| && forall x :: x in byNode ==> byNode[x].node == x
    ensures m < n < |nodes| && Entries(byNode, nodes)[i].node == nodes[m] && Entries(byNode, nodes)[j].node == nodes[n]
  {
    var rest, es := nodes[..|nodes| - 1], Entries(byNode, nodes[..|nodes| - 1]);
    if j < |es| {
      m, n := EntriesInOrder(byNode, rest, i, j);
    } else {
      n := |nodes| - 1;
      EntriesMembers(byNode, rest, es[i]);
      m :| 0 <= m < |rest| && rest[m] == es[i].node;
    }
  }

  /** Entries are written in the order of the node list. */
  lemma WrittenInOrder(spec: Spec, status: seq<Allocation>, nodes: seq<string>, i: nat, j: nat) returns (m: nat, n: nat)
    requires ValidSpec(spec) && NodeList(nodes) && i < j < |Reconciled(spec, status, nodes)|
    ensures m < n < |nodes|
    ensures Reconciled(spec, status, nodes)[i].node == nodes[m] && Reconciled(spec, status, nodes)[j].node == nodes[n]
  {
    FinalRun(spec, status, nodes);
    m, n := EntriesInOrder(Final(spec, status, nodes).byNode, nodes, i, j);
  }
}
