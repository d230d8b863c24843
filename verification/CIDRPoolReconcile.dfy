/** The controller's CIDRPool reconcile (pkg/ipam-controller/controllers/cidrpool/cidrpool.go): keep the valid
    allocations of an untrusted status, serve static allocations, give the other nodes a free prefix.

    Node names come from the API server, so the list has no repetitions and no empty name. The status is
    written in node order, which is what sorting the allocations by node name amounts to. */
module CIDRPoolReconcile {
  import opened Addresses
  import opened Exclusions
  import opened SubnetIteration
  import opened CIDRPool
  import opened CIDRPoolScan
  import opened Sequences

  datatype State = State(byNode: map<string, Allocation>, byPrefix: set<Subnet>)

  predicate NodeList(nodes: seq<string>) {
    "" !in nodes && Distinct(nodes)
  }

  // ----- reconcile as a function of spec, status and nodes -----

  /** A status entry that stays: a listed node, a valid allocation, not fully excluded. */
  ghost predicate Kept(spec: Spec, names: set<string>, status: seq<Allocation>, a: Allocation) {
    a.node in names && ValidAllocation(spec, status, a) && a.prefix.Cidr? && !PrefixExcluded(spec, a.prefix.net)
  }

  function Put(st: State, a: Allocation): State
    requires a.prefix.Cidr?
  {
    State(st.byNode[a.node := a], st.byPrefix + {a.prefix.net})
  }

  /** The entries of `todo` that stay; each is judged against the whole status. */
  ghost function LoadFrom(spec: Spec, names: set<string>, status: seq<Allocation>, todo: seq<Allocation>): State {
    if todo == [] then State(map[], {})
    else
      var st, a := LoadFrom(spec, names, status, todo[..|todo| - 1]), todo[|todo| - 1];
      if Kept(spec, names, status, a) then Put(st, a) else st
  }

  function NewAllocation(spec: Spec, node: string, i: nat): Allocation {
    Allocation(node, Cidr(PrefixAt(spec, i)), ComputedGateway(spec, PrefixAt(spec, i)))
  }

  ghost function AllocOne(spec: Spec, st: State, node: string): State
    requires spec.hostBits <= spec.cidr.hostBits
  {
    if node in st.byNode then st
    else
      match StaticOf(spec.statics, node)
      case Some(s) => Put(st, FromStatic(spec, s))
      case None =>
        match FirstUsable(spec, st.byPrefix)
        case None => st
        case Some(i) => Put(st, NewAllocation(spec, node, i))
  }

  ghost function AllocAll(spec: Spec, st: State, nodes: seq<string>): State
    requires spec.hostBits <= spec.cidr.hostBits
  {
    if nodes == [] then st
    else AllocOne(spec, AllocAll(spec, st, nodes[..|nodes| - 1]), nodes[|nodes| - 1])
  }

  function Entries(byNode: map<string, Allocation>, nodes: seq<string>): seq<Allocation> {
    if nodes == [] then []
    else
      var n, before := nodes[|nodes| - 1], Entries(byNode, nodes[..|nodes| - 1]);
      if n in byNode then before + [byNode[n]] else before
  }

  ghost function Final(spec: Spec, status: seq<Allocation>, nodes: seq<string>): State
    requires spec.hostBits <= spec.cidr.hostBits
  {
    AllocAll(spec, LoadFrom(spec, Elements(nodes), status, status), nodes)
  }

  /** The status written for a valid pool. */
  ghost function Reconciled(spec: Spec, status: seq<Allocation>, nodes: seq<string>): seq<Allocation>
    requires spec.hostBits <= spec.cidr.hostBits
  {
    Entries(Final(spec, status, nodes).byNode, nodes)
  }

  // ----- the reconcile loop -----

  method GetValidExistingAllocations(spec: Spec, status: seq<Allocation>, names: set<string>)
    returns (byNode: map<string, Allocation>, byPrefix: set<Subnet>)
    requires ValidSpec(spec) && forall a :: a in status ==> Parsed(a.prefix)
    ensures State(byNode, byPrefix) == LoadFrom(spec, names, status, status)
  {
    byNode, byPrefix := map[], {};
    for i := 0 to |status|
      invariant State(byNode, byPrefix) == LoadFrom(spec, names, status, status[..i])
    {
      var a := status[i];
      assert status[..i + 1][..i] == status[..i];
      if a.node !in names {
        continue;
      }
      var ok := ValidateAllocation(spec, status, a);
      if !ok {
        continue;
      }
      ValidHasPrefix(spec, status, a);
      var excluded := IsPrefixFullyExcluded(spec, a.prefix.net);
      if excluded {
        continue;
      }
      byNode := byNode[a.node := a];
      byPrefix := byPrefix + {a.prefix.net};
    }
    assert status[..|status|] == status;
  }

  datatype Outcome = Written(status: seq<Allocation>) | Failed

  method Reconcile(ctx: Context, spec: Spec, status: seq<Allocation>, nodes: seq<string>) returns (r: Outcome)
    requires NodeList(nodes) && forall a :: a in status ==> Parsed(a.prefix)
    ensures !ValidSpec(spec) ==> r == Written([])
    ensures ValidSpec(spec) ==> r == Written(Reconciled(spec, status, nodes)) || (r == Failed && ctx.DoneAfter?)
  {
    if !ValidSpec(spec) {
      return Written([]);
    }
    var byNode, byPrefix := GetValidExistingAllocations(spec, status, set n | n in nodes);
    ghost var st := LoadFrom(spec, Elements(nodes), status, status);
    var it := new SubnetIterator(spec.cidr, spec.hostBits);
    SpecRanges(spec);
    var merged := MergeExcludeRanges(spec.cidr.family, spec.exclusions);
    var fullyExcluded := ExcludeIndexRangesCover(spec.perNode, LastUsableIndex(spec));
    assert fullyExcluded <==> forall i :: 0 <= i <= LastUsableIndex(spec) ==> Covers(spec.perNode, i) by {
      LastIndexNat(spec);
    }
    for k := 0 to |nodes|
      invariant State(byNode, byPrefix) == AllocAll(spec, st, nodes[..k])
      invariant it.Valid() && it.net == spec.cidr && it.hostBits == spec.hostBits && fresh(it)
      invariant NoneBelow(spec, byPrefix, it.nextIndex)
    {
      var node := nodes[k];
      assert nodes[..k + 1][..k] == nodes[..k];
      if node in byNode {
        continue;
      }
      var given := AllocateNode(ctx, it, spec, byNode, byPrefix, merged, fullyExcluded, node);
      match given
      case Aborted => return Failed;
      case NoFreePrefixes =>
      case Given(a) =>
        byNode := byNode[a.node := a];
        byPrefix := byPrefix + {a.prefix.net};
    }
    assert nodes[..|nodes|] == nodes;
    return Written(Entries(byNode, nodes));
  }

  datatype NodeResult = Given(a: Allocation) | NoFreePrefixes | Aborted

  /** One node without an allocation: its static one, or the lowest free prefix. */
  method AllocateNode(ctx: Context, it: SubnetIterator, spec: Spec, ghost byNode: map<string, Allocation>,
                      byPrefix: set<Subnet>, merged: seq<ExcludeRange>, fullyExcluded: bool, node: string)
    returns (r: NodeResult)
    requires ValidSpec(spec) && node !in byNode
    requires it.Valid() && it.net == spec.cidr && it.hostBits == spec.hostBits
    requires NoneBelow(spec, byPrefix, it.nextIndex)
    requires ValidRanges(spec.cidr.family, merged)
    requires SameCovers(merged, spec.exclusions)
    requires fullyExcluded <==> forall i :: 0 <= i <= LastUsableIndex(spec) ==> Covers(spec.perNode, i)
    modifies it
    ensures it.Valid()
    ensures match r
            case Aborted => ctx.DoneAfter?
            case NoFreePrefixes =>
              AllocOne(spec, State(byNode, byPrefix), node) == State(byNode, byPrefix) && NoneBelow(spec, byPrefix, it.nextIndex)
            case Given(a) =>
              && a.prefix.Cidr?
              && AllocOne(spec, State(byNode, byPrefix), node) == Put(State(byNode, byPrefix), a)
              && NoneBelow(spec, byPrefix + {a.prefix.net}, it.nextIndex)
  {
    var fixed := StaticOf(spec.statics, node);
    if fixed.Some? {
      var a := FromStatic(spec, fixed.value);
      TakenGrows(spec, byPrefix, a.prefix.net, it.nextIndex);
      return Given(a);
    }
    var found := GetNewPrefix(ctx, it, spec, byPrefix, merged, fullyExcluded);
    match found
    case Canceled => return Aborted;
    case Exhausted =>
      LowestIsFirstUsable(spec, byPrefix, None);
      return NoFreePrefixes;
    case At(i) =>
      LowestIsFirstUsable(spec, byPrefix, Some(i));
      TakenAt(spec, byPrefix, i);
      return Given(NewAllocation(spec, node, i));
  }

  lemma LastIndexNat(spec: Spec)
    ensures LastUsableIndex(spec) >= 0
  {
    assert spec.hostBits > 1 ==> Pow2(spec.hostBits) == 2 * Pow2(spec.hostBits - 1);
  }

  /** Once the lowest usable prefix is taken, nothing up to it is usable. */
  lemma TakenAt(spec: Spec, taken: set<Subnet>, i: nat)
    requires spec.hostBits <= spec.cidr.hostBits && Lowest(spec, taken, Some(i))
    ensures NoneBelow(spec, taken + {PrefixAt(spec, i)}, i + 1)
  {
    TakenGrows(spec, taken, PrefixAt(spec, i), i);
  }

  /** A prefix that was usable before the iterator and is now taken leaves nothing usable before it. */
  lemma TakenGrows(spec: Spec, taken: set<Subnet>, net: Subnet, bound: nat)
    requires spec.hostBits <= spec.cidr.hostBits
    requires forall i: nat :: i < bound && PrefixAt(spec, i) != net ==> !Usable(spec, taken, i)
    ensures NoneBelow(spec, taken + {net}, bound)
  {
  }

  // ----- which states are good -----

  /** What an allocation in the status must look like for its node. */
  ghost predicate Right(spec: Spec, a: Allocation) {
    && a.node != ""
    && match StaticOf(spec.statics, a.node)
       case Some(s) => a == FromStatic(spec, s)
       case None => DynamicOk(spec, a) && !PrefixExcluded(spec, a.prefix.net)
  }

  ghost predicate GoodMap(spec: Spec, byNode: map<string, Allocation>) {
    && (forall n :: n in byNode ==> byNode[n].node == n && Right(spec, byNode[n]))
    && (forall m, n :: m in byNode && n in byNode && m != n ==> byNode[m].prefix != byNode[n].prefix)
  }

  ghost function Nets(byNode: map<string, Allocation>): set<Subnet> {
    set n | n in byNode && byNode[n].prefix.Cidr? :: byNode[n].prefix.net
  }

  ghost predicate Good(spec: Spec, st: State) {
    GoodMap(spec, st.byNode) && st.byPrefix == Nets(st.byNode)
  }

  lemma ValidHasPrefix(spec: Spec, status: seq<Allocation>, a: Allocation)
    requires ValidSpec(spec) && ValidAllocation(spec, status, a)
    ensures a.prefix.Cidr? && NodePrefix(spec, a.prefix.net)
  {
  }

  lemma RightHasPrefix(spec: Spec, a: Allocation)
    requires ValidSpec(spec) && Right(spec, a)
    ensures a.prefix.Cidr? && NodePrefix(spec, a.prefix.net)
    ensures a.gateway == NoGateway || (a.gateway.GatewayIP? && a.prefix.net.Contains(a.gateway.ip))
  {
    if spec.gatewayIndex.Some? {
      GatewayInside(a.prefix.net, spec.gatewayIndex.value);
    }
  }

  /** An allocation of the static prefix of `s` belongs to the node `s` names. */
  lemma StaticHolder(spec: Spec, a: Allocation, s: StaticAllocation)
    requires ValidSpec(spec) && Right(spec, a) && s in spec.statics && a.prefix == Cidr(s.prefix)
    ensures a.node == s.node
  {
    var t := StaticOf(spec.statics, a.node);
    assert StaticPrefix(spec, s.prefix);
    UniqueStatic(spec, s, t.value);
  }

  lemma NetsUpdate(byNode: map<string, Allocation>, a: Allocation)
    requires a.prefix.Cidr? && (a.node in byNode ==> byNode[a.node] == a)
    ensures Nets(byNode[a.node := a]) == Nets(byNode) + {a.prefix.net}
  {
    var after := byNode[a.node := a];
    forall p | p in Nets(byNode) + {a.prefix.net} ensures p in Nets(after) {
      if p in Nets(byNode) {
        var n :| n in byNode && byNode[n].prefix.Cidr? && byNode[n].prefix.net == p;
        assert n in after && after[n].prefix == byNode[n].prefix;
      } else {
        assert after[a.node].prefix.net == p;
      }
    }
  }

  /** Adding a right allocation with a prefix nobody has, or one already there, keeps the state good. */
  lemma PutGood(spec: Spec, st: State, a: Allocation)
    requires ValidSpec(spec) && Good(spec, st) && Right(spec, a)
    requires a.node in st.byNode ==> st.byNode[a.node] == a
    requires forall n :: n in st.byNode && n != a.node ==> st.byNode[n].prefix != a.prefix
    ensures a.prefix.Cidr? && Good(spec, Put(st, a))
  {
    RightHasPrefix(spec, a);
    NetsUpdate(st.byNode, a);
  }

  // ----- loading -----

  /** Two valid entries of one status hold different prefixes, unless they are the same entry twice. */
  lemma ValidApart(spec: Spec, status: seq<Allocation>, i: nat, j: nat)
    requires ValidSpec(spec) && i < |status| && j < |status|
    requires ValidAllocation(spec, status, status[i]) && ValidAllocation(spec, status, status[j])
    ensures status[i].node == status[j].node || status[i].prefix == status[j].prefix ==> status[i] == status[j]
  {
    var a, b := status[i], status[j];
    var s, t := StaticOf(spec.statics, a.node), StaticOf(spec.statics, b.node);
    if a.prefix == b.prefix {
      if s.Some? {
        assert StaticPrefix(spec, s.value.prefix);
        if t.Some? {
          UniqueStatic(spec, s.value, t.value);
        }
      }
      if t.Some? {
        assert StaticPrefix(spec, t.value.prefix);
      }
    }
    if s.None? && i != j {
      NoConflictTwice(status, a, i, j);
    }
  }

  lemma NoConflictTwice(status: seq<Allocation>, a: Allocation, i: nat, j: nat)
    requires i < |status| && j < |status| && i != j
    requires NoConflict(status, a) && Conflicts(a, status[i])
    ensures !Conflicts(a, status[j])
  {
    var low, high := if i < j then i else j, if i < j then j else i;
    assert !(Conflicts(a, status[low]) && Conflicts(a, status[high]));
  }

  lemma {:induction false} LoadGood(spec: Spec, names: set<string>, status: seq<Allocation>, k: nat)
    requires ValidSpec(spec) && k <= |status|
    ensures var st := LoadFrom(spec, names, status, status[..k]);
            && Good(spec, st)
            && st.byNode.Keys <= names
            && AllKept(spec, names, status, k, st.byNode)
  {
    if k == 0 {
    } else {
      LoadGood(spec, names, status, k - 1);
      assert status[..k][..k - 1] == status[..k - 1];
      var st, a := LoadFrom(spec, names, status, status[..k - 1]), status[k - 1];
      if Kept(spec, names, status, a) {
        LoadOneMore(spec, names, status, k, st);
      }
      assert forall n :: KeptBefore(spec, names, status, k - 1, n) ==> KeptBefore(spec, names, status, k, n);
    }
  }

  /** The entry is one of the first `k` of the status, and stays. */
  ghost predicate KeptBefore(spec: Spec, names: set<string>, status: seq<Allocation>, k: nat, a: Allocation) {
    exists i :: 0 <= i < k <= |status| && status[i] == a && Kept(spec, names, status, status[i])
  }

  ghost predicate AllKept(spec: Spec, names: set<string>, status: seq<Allocation>, k: nat, byNode: map<string, Allocation>) {
    forall n :: n in byNode ==> KeptBefore(spec, names, status, k, byNode[n])
  }

  lemma LoadOneMore(spec: Spec, names: set<string>, status: seq<Allocation>, k: nat, st: State)
    requires ValidSpec(spec) && 0 < k <= |status| && Good(spec, st) && AllKept(spec, names, status, k - 1, st.byNode)
    requires Kept(spec, names, status, status[k - 1])
    ensures Good(spec, Put(st, status[k - 1])) && KeptBefore(spec, names, status, k, status[k - 1])
  {
    var a := status[k - 1];
    forall n | n in st.byNode
      ensures st.byNode[n].node == a.node || st.byNode[n].prefix == a.prefix ==> st.byNode[n] == a
    {
      assert KeptBefore(spec, names, status, k - 1, st.byNode[n]);
      var i :| 0 <= i < k - 1 && status[i] == st.byNode[n] && Kept(spec, names, status, status[i]);
      ValidApart(spec, status, i, k - 1);
    }
    PutGood(spec, st, a);
  }

  // ----- allocating -----

  /** What allocating for `names` does: the state stays good, nobody loses a prefix, and one of `names` is left
      without only when it has no static allocation and no prefix is usable at the end either. */
  ghost predicate RunOf(spec: Spec, st: State, fin: State, names: set<string>)
    requires spec.hostBits <= spec.cidr.hostBits
  {
    && Good(spec, fin)
    && st.byPrefix <= fin.byPrefix
    && (forall n :: n in st.byNode ==> n in fin.byNode && fin.byNode[n] == st.byNode[n])
    && fin.byNode.Keys <= st.byNode.Keys + names
    && (forall n :: n in names && n !in fin.byNode ==>
          StaticOf(spec.statics, n) == None && NoneUsable(spec, fin.byPrefix))
  }

  lemma UsableAntitone(spec: Spec, taken: set<Subnet>, more: set<Subnet>)
    requires spec.hostBits <= spec.cidr.hostBits && taken <= more
    ensures NoneUsable(spec, taken) ==> NoneUsable(spec, more)
  {
    if NoneUsable(spec, taken) {
      forall i: nat ensures !Usable(spec, more, i) {
        assert !Usable(spec, taken, i);
      }
    }
  }

  lemma RunCompose(spec: Spec, st: State, mid: State, fin: State, first: set<string>, second: set<string>)
    requires spec.hostBits <= spec.cidr.hostBits
    requires RunOf(spec, st, mid, first) && RunOf(spec, mid, fin, second)
    ensures RunOf(spec, st, fin, first + second)
  {
    UsableAntitone(spec, mid.byPrefix, fin.byPrefix);
    forall n | n in first + second && n !in fin.byNode
      ensures StaticOf(spec.statics, n) == None && NoneUsable(spec, fin.byPrefix)
    {
      if n in first {
        assert n !in mid.byNode;
      }
    }
  }

  lemma StaticIsRight(spec: Spec, node: string)
    requires ValidSpec(spec) && node != "" && StaticOf(spec.statics, node).Some?
    ensures Right(spec, FromStatic(spec, StaticOf(spec.statics, node).value))
    ensures FromStatic(spec, StaticOf(spec.statics, node).value).node == node
  {
  }

  lemma NewIsRight(spec: Spec, taken: set<Subnet>, node: string, i: nat)
    requires ValidSpec(spec) && node != "" && StaticOf(spec.statics, node).None?
    requires Usable(spec, taken, i)
    ensures Right(spec, NewAllocation(spec, node, i))
  {
    PrefixAtOk(spec, i);
  }

  lemma AllocOneRun(spec: Spec, st: State, node: string)
    requires ValidSpec(spec) && Good(spec, st) && node != ""
    ensures RunOf(spec, st, AllocOne(spec, st, node), {node})
  {
    if node !in st.byNode {
      var fixed := StaticOf(spec.statics, node);
      if fixed.Some? {
        var a := FromStatic(spec, fixed.value);
        StaticIsRight(spec, node);
        forall n | n in st.byNode ensures st.byNode[n].prefix != a.prefix {
          if st.byNode[n].prefix == a.prefix {
            StaticHolder(spec, st.byNode[n], fixed.value);
          }
        }
        PutGood(spec, st, a);
      } else {
        var f := FirstUsable(spec, st.byPrefix);
        LowestIsFirstUsable(spec, st.byPrefix, f);
        if f.Some? {
          NewIsRight(spec, st.byPrefix, node, f.value);
          PutNew(spec, st, NewAllocation(spec, node, f.value));
        }
      }
    }
  }

  lemma PutNew(spec: Spec, st: State, a: Allocation)
    requires ValidSpec(spec) && Good(spec, st) && Right(spec, a) && a.node !in st.byNode
    requires a.prefix.Cidr? && a.prefix.net !in st.byPrefix
    ensures Good(spec, Put(st, a))
  {
    forall n | n in st.byNode ensures st.byNode[n].prefix != a.prefix {
      RightHasPrefix(spec, st.byNode[n]);
      assert st.byNode[n].prefix.net in Nets(st.byNode);
    }
    PutGood(spec, st, a);
  }

  lemma {:induction false} AllocAllRun(spec: Spec, st: State, nodes: seq<string>)
    requires ValidSpec(spec) && Good(spec, st) && "" !in nodes
    ensures RunOf(spec, st, AllocAll(spec, st, nodes), Elements(nodes))
  {
    if nodes == [] {
    } else {
      var rest, node := nodes[..|nodes| - 1], nodes[|nodes| - 1];
      assert node in nodes;
      AllocAllRun(spec, st, rest);
      var mid := AllocAll(spec, st, rest);
      AllocOneRun(spec, mid, node);
      RunCompose(spec, st, mid, AllocAll(spec, st, nodes), Elements(rest), {node});
      assert nodes == rest + [node];
      assert Elements(nodes) == Elements(rest) + {node};
    }
  }

  lemma FinalRun(spec: Spec, status: seq<Allocation>, nodes: seq<string>)
    requires ValidSpec(spec) && NodeList(nodes)
    ensures var fin := Final(spec, status, nodes);
            && Good(spec, fin)
            && fin.byNode.Keys <= Elements(nodes)
            && forall n :: n in nodes && n !in fin.byNode ==>
                 StaticOf(spec.statics, n) == None && NoneUsable(spec, fin.byPrefix)
  {
    LoadGood(spec, Elements(nodes), status, |status|);
    assert status[..|status|] == status;
    AllocAllRun(spec, LoadFrom(spec, Elements(nodes), status, status), nodes);
  }

  lemma {:induction false} EntriesMembers(byNode: map<string, Allocation>, nodes: seq<string>, e: Allocation)
    requires forall n :: n in byNode ==> byNode[n].node == n
    ensures e in Entries(byNode, nodes) <==> e.node in nodes && e.node in byNode && e == byNode[e.node]
  {
    if nodes == [] {
    } else {
      var rest, node := nodes[..|nodes| - 1], nodes[|nodes| - 1];
      EntriesMembers(byNode, rest, e);
      assert nodes == rest + [node];
    }
  }

  // ----- main results: what a reconcile writes -----

  /** From any status, however inconsistent: an entry names a listed node, no node has two, and the prefix is
      one of the configured size inside the pool; entries of different nodes share no address. */
  lemma ReconciledDisjoint(spec: Spec, status: seq<Allocation>, nodes: seq<string>, d: Allocation, e: Allocation, v: nat)
    requires ValidSpec(spec) && NodeList(nodes)
    requires d in Reconciled(spec, status, nodes) && e in Reconciled(spec, status, nodes)
    ensures d.node in nodes && d.prefix.Cidr? && NodePrefix(spec, d.prefix.net) && e.prefix.Cidr?
    ensures d.node == e.node ==> d == e
    ensures d.node != e.node ==> !(d.prefix.net.ContainsValue(v) && e.prefix.net.ContainsValue(v))
    ensures var out := Reconciled(spec, status, nodes);
            forall i, j :: 0 <= i < j < |out| ==> out[i].node != out[j].node
  {
    var fin := Final(spec, status, nodes);
    FinalRun(spec, status, nodes);
    EntriesDistinct(fin.byNode, nodes);
    EntriesMembers(fin.byNode, nodes, d);
    EntriesMembers(fin.byNode, nodes, e);
    RightHasPrefix(spec, d);
    RightHasPrefix(spec, e);
    if d.node != e.node {
      PrefixesDisjoint(d.prefix.net, e.prefix.net, v);
    }
  }

  /** A static prefix is held by nobody but the node it names, so one without a name by nobody at all; a listed
      node with a static allocation holds that one. */
  lemma StaticsHonoured(spec: Spec, status: seq<Allocation>, nodes: seq<string>, s: StaticAllocation)
    requires ValidSpec(spec) && NodeList(nodes) && s in spec.statics
    ensures forall e :: e in Reconciled(spec, status, nodes) && e.prefix == Cidr(s.prefix) ==> e.node == s.node != ""
    ensures s.node in nodes ==> FromStatic(spec, s) in Reconciled(spec, status, nodes)
  {
    var fin := Final(spec, status, nodes);
    FinalRun(spec, status, nodes);
    forall e | e in Reconciled(spec, status, nodes) && e.prefix == Cidr(s.prefix) ensures e.node == s.node != "" {
      EntriesMembers(fin.byNode, nodes, e);
      StaticHolder(spec, e, s);
    }
    if s.node in nodes {
      var t := StaticOf(spec.statics, s.node);
      assert s.node in fin.byNode;
      UniqueStatic(spec, s, t.value);
      EntriesMembers(fin.byNode, nodes, FromStatic(spec, s));
    }
  }

  /** A listed node goes without a prefix only when every prefix of the pool is in the status, statically
      reserved or fully excluded. */
  lemma NodeWithoutPrefix(spec: Spec, status: seq<Allocation>, nodes: seq<string>, n: string, i: nat)
    requires ValidSpec(spec) && NodeList(nodes) && n in nodes && i < PrefixCount(spec)
    requires forall e :: e in Reconciled(spec, status, nodes) ==> e.node != n
    ensures (exists e :: e in Reconciled(spec, status, nodes) && e.prefix == Cidr(PrefixAt(spec, i)))
            || StaticPrefix(spec, PrefixAt(spec, i)) || PrefixExcluded(spec, PrefixAt(spec, i))
  {
    var fin := Final(spec, status, nodes);
    FinalRun(spec, status, nodes);
    if n in fin.byNode {
      EntriesMembers(fin.byNode, nodes, fin.byNode[n]);
    }
    assert !Usable(spec, fin.byPrefix, i);
    if PrefixAt(spec, i) in fin.byPrefix {
      var m :| m in fin.byNode && fin.byNode[m].prefix.Cidr? && fin.byNode[m].prefix.net == PrefixAt(spec, i);
      EntriesMembers(fin.byNode, nodes, fin.byNode[m]);
    }
  }

  // ----- main results: a second run -----

  ghost function Surviving(spec: Spec, byNode: map<string, Allocation>, names: set<string>): map<string, Allocation> {
    map n | n in byNode && n in names && byNode[n].prefix.Cidr? && !PrefixExcluded(spec, byNode[n].prefix.net) :: byNode[n]
  }

  /** Right allocations of different nodes do not conflict: their gateways lie in disjoint prefixes. */
  lemma RightsDoNotConflict(spec: Spec, a: Allocation, e: Allocation)
    requires ValidSpec(spec) && Right(spec, a) && Right(spec, e) && a.node != e.node && a.prefix != e.prefix
    ensures !Conflicts(a, e)
  {
    RightHasPrefix(spec, a);
    RightHasPrefix(spec, e);
    if a.gateway != NoGateway && a.gateway == e.gateway {
      PrefixesDisjoint(a.prefix.net, e.prefix.net, a.gateway.ip.value);
    }
  }

  lemma {:induction false} EntriesDistinct(byNode: map<string, Allocation>, nodes: seq<string>)
    requires NodeList(nodes) && forall n :: n in byNode ==> byNode[n].node == n
    ensures var es := Entries(byNode, nodes);
            forall i, j :: 0 <= i < j < |es| ==> es[i].node != es[j].node
  {
    if nodes == [] {
    } else {
      var rest, node := nodes[..|nodes| - 1], nodes[|nodes| - 1];
      EntriesDistinct(byNode, rest);
      var es := Entries(byNode, rest);
      forall i | 0 <= i < |es| ensures es[i].node in rest {
        EntriesMembers(byNode, rest, es[i]);
      }
    }
  }

  /** Every entry a reconcile writes passes validation against what was written. */
  lemma WrittenIsValid(spec: Spec, byNode: map<string, Allocation>, nodes: seq<string>, a: Allocation)
    requires ValidSpec(spec) && NodeList(nodes) && GoodMap(spec, byNode) && a in Entries(byNode, nodes)
    ensures ValidAllocation(spec, Entries(byNode, nodes), a)
  {
    var es := Entries(byNode, nodes);
    EntriesMembers(byNode, nodes, a);
    EntriesDistinct(byNode, nodes);
    if StaticOf(spec.statics, a.node).None? {
      forall i, j | 0 <= i < j < |es| ensures !(Conflicts(a, es[i]) && Conflicts(a, es[j])) {
        assert es[i].node != es[j].node;
        EntriesMembers(byNode, nodes, es[i]);
        EntriesMembers(byNode, nodes, es[j]);
        if es[i].node != a.node {
          RightsDoNotConflict(spec, a, es[i]);
        } else {
          RightsDoNotConflict(spec, a, es[j]);
        }
      }
    }
  }

  /** What was written loads back, but for static prefixes that are fully excluded. */
  lemma {:induction false} LoadWritten(spec: Spec, byNode: map<string, Allocation>, status: seq<Allocation>,
                                       nodes: seq<string>, names: set<string>)
    requires ValidSpec(spec) && NodeList(nodes) && GoodMap(spec, byNode)
    requires forall a :: a in Entries(byNode, nodes) ==> ValidAllocation(spec, status, a)
    ensures var kept := Surviving(spec, byNode, Elements(nodes) * names);
            LoadFrom(spec, names, status, Entries(byNode, nodes)) == State(kept, Nets(kept))
  {
    if nodes == [] {
    } else {
      var rest, node := nodes[..|nodes| - 1], nodes[|nodes| - 1];
      assert nodes == rest + [node];
      LoadWritten(spec, byNode, status, rest, names);
      var before := Surviving(spec, byNode, Elements(rest) * names);
      var after := Surviving(spec, byNode, Elements(nodes) * names);
      SurvivingExtend(spec, byNode, rest, node, names);
      if node in byNode {
        var a := byNode[node];
        RightHasPrefix(spec, a);
        assert Entries(byNode, nodes)[..|Entries(byNode, rest)|] == Entries(byNode, rest);
        assert a in Entries(byNode, nodes);
        if Kept(spec, names, status, a) {
          NetsUpdate(before, a);
        }
      }
    }
  }

  lemma SurvivingExtend(spec: Spec, byNode: map<string, Allocation>, rest: seq<string>, node: string, names: set<string>)
    ensures var before := Surviving(spec, byNode, Elements(rest) * names);
            Surviving(spec, byNode, Elements(rest + [node]) * names)
            == if node in byNode && node in names && byNode[node].prefix.Cidr? && !PrefixExcluded(spec, byNode[node].prefix.net)
               then before[node := byNode[node]] else before
  {
    assert Elements(rest + [node]) == Elements(rest) + {node};
  }

  ghost function Held(byNode: map<string, Allocation>, names: set<string>): map<string, Allocation> {
    map n | n in byNode && n in names :: byNode[n]
  }

  /** In a good state an excluded prefix is a static one. */
  lemma DroppedIsStatic(spec: Spec, byNode: map<string, Allocation>, n: string)
    requires ValidSpec(spec) && GoodMap(spec, byNode) && n in byNode
    requires byNode[n].prefix.Cidr? && PrefixExcluded(spec, byNode[n].prefix.net)
    ensures StaticOf(spec.statics, n).Some? && byNode[n] == FromStatic(spec, StaticOf(spec.statics, n).value)
    ensures StaticPrefix(spec, byNode[n].prefix.net)
  {
  }

  /** Dropping the excluded static prefixes frees nothing: they stay reserved. */
  lemma NothingFreed(spec: Spec, byNode: map<string, Allocation>, some: map<string, Allocation>)
    requires ValidSpec(spec) && GoodMap(spec, byNode) && NoneUsable(spec, Nets(byNode))
    requires forall n :: n in byNode && n !in some ==>
               byNode[n].prefix.Cidr? && PrefixExcluded(spec, byNode[n].prefix.net)
    requires forall n :: n in some ==> n in byNode && some[n] == byNode[n]
    ensures NoneUsable(spec, Nets(some))
  {
    forall i: nat ensures !Usable(spec, Nets(some), i) {
      assert !Usable(spec, Nets(byNode), i);
      var p := PrefixAt(spec, i);
      if p in Nets(byNode) {
        var n :| n in byNode && byNode[n].prefix.Cidr? && byNode[n].prefix.net == p;
        if n in some {
          assert some[n].prefix.net in Nets(some);
        } else {
          DroppedIsStatic(spec, byNode, n);
        }
      }
    }
  }

  /** What is there after running over `nodes`, starting from what survived. */
  ghost function Back(spec: Spec, byNode: map<string, Allocation>, nodes: seq<string>): map<string, Allocation> {
    Surviving(spec, byNode, byNode.Keys) + Held(byNode, Elements(nodes))
  }

  lemma BackExtend(spec: Spec, byNode: map<string, Allocation>, rest: seq<string>, node: string)
    ensures var was := Back(spec, byNode, rest);
            Back(spec, byNode, rest + [node]) == if node in byNode then was[node := byNode[node]] else was
  {
    assert Elements(rest + [node]) == Elements(rest) + {node};
  }

  lemma BackMissing(spec: Spec, byNode: map<string, Allocation>, nodes: seq<string>)
    requires ValidSpec(spec) && GoodMap(spec, byNode)
    ensures var was := Back(spec, byNode, nodes);
            && (forall n :: n in was ==> n in byNode && was[n] == byNode[n])
            && (forall n :: n in byNode && n !in was ==>
                  byNode[n].prefix.Cidr? && PrefixExcluded(spec, byNode[n].prefix.net))
  {
    forall n | n in byNode ensures byNode[n].prefix.Cidr? {
      RightHasPrefix(spec, byNode[n]);
    }
  }

  /** Running over what survived puts back exactly what was written. */
  lemma {:induction false} Refill(spec: Spec, byNode: map<string, Allocation>, nodes: seq<string>)
    requires ValidSpec(spec) && GoodMap(spec, byNode)
    requires forall n :: n in nodes && n !in byNode ==>
               StaticOf(spec.statics, n) == None && NoneUsable(spec, Nets(byNode))
    ensures var kept, back := Surviving(spec, byNode, byNode.Keys), Back(spec, byNode, nodes);
            AllocAll(spec, State(kept, Nets(kept)), nodes) == State(back, Nets(back))
  {
    var kept := Surviving(spec, byNode, byNode.Keys);
    if nodes == [] {
      assert Back(spec, byNode, nodes) == kept;
    } else {
      var rest, node := nodes[..|nodes| - 1], nodes[|nodes| - 1];
      assert nodes == rest + [node];
      Refill(spec, byNode, rest);
      BackExtend(spec, byNode, rest, node);
      BackMissing(spec, byNode, rest);
      RefillOne(spec, byNode, Back(spec, byNode, rest), Back(spec, byNode, nodes), node);
    }
  }

  lemma RefillOne(spec: Spec, byNode: map<string, Allocation>, was: map<string, Allocation>,
                  back: map<string, Allocation>, node: string)
    requires ValidSpec(spec) && GoodMap(spec, byNode)
    requires forall n :: n in was ==> n in byNode && was[n] == byNode[n]
    requires forall n :: n in byNode && n !in was ==> byNode[n].prefix.Cidr? && PrefixExcluded(spec, byNode[n].prefix.net)
    requires back == if node in byNode then was[node := byNode[node]] else was
    requires node !in byNode ==> StaticOf(spec.statics, node) == None && NoneUsable(spec, Nets(byNode))
    ensures AllocOne(spec, State(was, Nets(was)), node) == State(back, Nets(back))
  {
    if node in was {
      assert back == was;
    } else if node in byNode {
      DroppedIsStatic(spec, byNode, node);
      NetsUpdate(was, byNode[node]);
    } else {
      NothingFreed(spec, byNode, was);
      LowestIsFirstUsable(spec, Nets(was), None);
    }
  }

  /** The second run starts from what was written, less the excluded static prefixes. */
  lemma SecondLoad(spec: Spec, status: seq<Allocation>, was: seq<string>, names: set<string>)
    requires ValidSpec(spec) && NodeList(was)
    ensures var fin, out := Final(spec, status, was), Reconciled(spec, status, was);
            var kept := Surviving(spec, fin.byNode, Elements(was) * names);
            LoadFrom(spec, names, out, out) == State(kept, Nets(kept))
  {
    var fin, out := Final(spec, status, was), Reconciled(spec, status, was);
    FinalRun(spec, status, was);
    forall a | a in out ensures ValidAllocation(spec, out, a) {
      WrittenIsValid(spec, fin.byNode, was, a);
    }
    LoadWritten(spec, fin.byNode, out, was, names);
  }

  /** Idempotent from any status: a second run with the same spec and nodes writes the same status. */
  lemma ReconcileIdempotent(spec: Spec, status: seq<Allocation>, nodes: seq<string>)
    requires ValidSpec(spec) && NodeList(nodes)
    ensures Reconciled(spec, Reconciled(spec, status, nodes), nodes) == Reconciled(spec, status, nodes)
  {
    var fin := Final(spec, status, nodes);
    FinalRun(spec, status, nodes);
    SecondLoad(spec, status, nodes, Elements(nodes));
    assert Elements(nodes) * Elements(nodes) == Elements(nodes);
    SurvivingAll(spec, fin.byNode, Elements(nodes));
    Refill(spec, fin.byNode, nodes);
    BackIsAll(spec, fin.byNode, nodes);
  }

  lemma SurvivingAll(spec: Spec, byNode: map<string, Allocation>, names: set<string>)
    requires byNode.Keys <= names
    ensures Surviving(spec, byNode, names) == Surviving(spec, byNode, byNode.Keys)
  {
  }

  lemma BackIsAll(spec: Spec, byNode: map<string, Allocation>, nodes: seq<string>)
    requires byNode.Keys <= Elements(nodes)
    ensures Back(spec, byNode, nodes) == byNode
  {
  }

  /** Sticky: when nodes come and go, a node that had a prefix and is still listed keeps it. */
  lemma ReconcileSticky(spec: Spec, status: seq<Allocation>, was: seq<string>, now: seq<string>, e: Allocation)
    requires ValidSpec(spec) && NodeList(was) && NodeList(now)
    requires e in Reconciled(spec, status, was) && e.node in now
    ensures e in Reconciled(spec, Reconciled(spec, status, was), now)
  {
    var first := Final(spec, status, was).byNode;
    var out := Reconciled(spec, status, was);
    FinalRun(spec, status, was);
    EntriesMembers(first, was, e);
    SecondLoad(spec, status, was, Elements(now));
    var st := LoadFrom(spec, Elements(now), out, out);
    LoadGood(spec, Elements(now), out, |out|);
    assert out[..|out|] == out;
    AllocAllRun(spec, st, now);
    var fin := AllocAll(spec, st, now).byNode;
    RightHasPrefix(spec, e);
    if PrefixExcluded(spec, e.prefix.net) {
      DroppedIsStatic(spec, first, e.node);
      assert e.node in fin && Right(spec, fin[e.node]);
    } else {
      assert e.node in st.byNode && st.byNode[e.node] == e;
    }
    assert fin[e.node] == e;
    EntriesMembers(fin, now, e);
  }
}
