/** The node's view of a pool: the configuration the daemon builds from a pool object and its status
    (pkg/ipam-node/controllers/cidrpool/cidrpool.go, pkg/ipam-node/controllers/ippool/ippool.go), and what it means
    for the addresses the node hands out. */
module NodePools {
  import opened Addresses
  import opened Exclusions
  import opened Overlaps
  import opened StoreModel
  import opened NodeRanges
  import opened RangeIteration
  import opened NodeAllocator
  import opened Handlers
  import opened RoundRobin
  import opened CIDRPool
  import opened CIDRPoolReconcile
  import opened Sequences

  // ----- pool exclusions, cut down to a prefix -----

  predicate Inside(net: Subnet, x: int) {
    net.base <= x < net.base + net.Size()
  }

  /** An exclusion is looked at when one of its ends is in the prefix. */
  predicate Touches(net: Subnet, r: ExcludeRange) {
    Inside(net, r.start) || Inside(net, r.end)
  }

  predicate Encloses(net: Subnet, r: ExcludeRange) {
    r.start < net.base && net.base + net.Size() <= r.end
  }

  function Clip(net: Subnet, r: ExcludeRange): ExcludeRange {
    Interval(if Inside(net, r.start) then r.start else net.FirstIP(), if Inside(net, r.end) then r.end else net.LastIP())
  }

  function Clips(net: Subnet, rs: seq<ExcludeRange>): seq<ExcludeRange> {
    if rs == [] then []
    else
      var r, before := rs[|rs| - 1], Clips(net, rs[..|rs| - 1]);
      if Touches(net, r) then before + [Clip(net, r)] else before
  }

  method BuildExclusions(net: Subnet, rs: seq<ExcludeRange>, firstIP: nat, lastIP: nat) returns (out: seq<ExcludeRange>)
    requires firstIP == net.FirstIP() && lastIP == net.LastIP()
    ensures out == Clips(net, rs)
  {
    out := [];
    for i := 0 to |rs|
      invariant out == Clips(net, rs[..i])
    {
      assert rs[..i + 1][..i] == rs[..i];
      var r := rs[i];
      var containsStart, containsEnd := Inside(net, r.start), Inside(net, r.end);
      if !containsStart && !containsEnd {
        continue;
      }
      if !containsStart {
        r := r.(start := firstIP);
      }
      if !containsEnd {
        r := r.(end := lastIP);
      }
      out := out + [r];
    }
    assert rs[..|rs|] == rs;
  }

  lemma {:induction false} ClipsMembers(net: Subnet, rs: seq<ExcludeRange>, c: ExcludeRange)
    ensures c in Clips(net, rs) <==> exists r :: r in rs && Touches(net, r) && c == Clip(net, r)
  {
    if rs != [] {
      var r, front := rs[|rs| - 1], rs[..|rs| - 1];
      ClipsMembers(net, front, c);
      assert rs == front + [r];
    }
  }

  /** An address excluded by an exclusion that touches the prefix. */
  ghost predicate TouchingCovers(net: Subnet, rs: seq<ExcludeRange>, v: int) {
    exists r :: r in rs && Touches(net, r) && r.Has(v)
  }

  /** On the addresses for hosts, clipping keeps what every touching exclusion says. */
  lemma ClipsCover(net: Subnet, rs: seq<ExcludeRange>, v: int)
    requires net.Valid() && net.FirstIP() <= v <= net.LastIP()
    requires forall r :: r in rs ==> r.start <= r.end
    ensures Covers(Clips(net, rs), v) <==> TouchingCovers(net, rs, v)
  {
    if Covers(Clips(net, rs), v) {
      var c :| c in Clips(net, rs) && c.Has(v);
      ClipsMembers(net, rs, c);
      var r :| r in rs && Touches(net, r) && c == Clip(net, r);
      assert r.Has(v);
    }
    if TouchingCovers(net, rs, v) {
      var r :| r in rs && Touches(net, r) && r.Has(v);
      ClipsMembers(net, rs, Clip(net, r));
      assert Clip(net, r).Has(v);
    }
  }

  // ----- what the node excludes in a CIDRPool prefix -----

  /** Index ranges as the node sees them in a block `lo..hi`. */
  function PerNodeList(f: Family, es: seq<ExcludeIndexRange>, lo: nat, hi: nat): seq<ExcludeRange> {
    Clamped(Converted(f, es, lo), lo, hi)
  }

  method BuildPerNodeExclusions(f: Family, es: seq<ExcludeIndexRange>, lo: nat, hi: nat) returns (out: seq<ExcludeRange>)
    requires lo <= hi && forall e :: e in es ==> e.start <= e.end
    ensures out == PerNodeList(f, es, lo, hi)
  {
    if |es| == 0 {
      return [];
    }
    out := ExcludeIndexRangeToExcludeRange(f, es, lo);
    out := ClampExcludeRanges(out, lo, hi);
  }

  lemma PerNodeListCovers(f: Family, es: seq<ExcludeIndexRange>, lo: nat, hi: nat, v: int)
    requires lo <= hi && lo < Space(f) && ValidIndexes(es, Space(f) - 1 - lo)
    ensures Covers(PerNodeList(f, es, lo, hi), v) <==> Covers(es, v - lo) && lo <= v <= hi
    ensures forall r :: r in PerNodeList(f, es, lo, hi) ==> lo <= r.start <= r.end <= hi
  {
    ConvertedOk(f, es, lo, v);
    AllConvertible(f, es, lo, v);
    ClampedCovers(Converted(f, es, lo), lo, hi, v);
  }

  // ----- configurations -----

  function AddressOf(f: Family, x: int): Option<Address> {
    if x >= 0 then Some(Address(f, x)) else None
  }

  function Pairs(f: Family, rs: seq<ExcludeRange>): seq<(Option<Address>, Option<Address>)> {
    seq(|rs|, i requires 0 <= i < |rs| => (AddressOf(f, rs[i].start), AddressOf(f, rs[i].end)))
  }

  ghost predicate InNet(net: Subnet, list: seq<ExcludeRange>) {
    forall r :: r in list ==> Inside(net, r.start) && Inside(net, r.end)
  }

  /** A configuration for the addresses `lo..hi` of a network, with the exclusions listed. */
  ghost predicate Shaped(cfg: PoolConfig, net: Subnet, lo: nat, hi: nat, list: seq<ExcludeRange>) {
    && net.Valid() && net.base <= lo <= hi < net.base + net.Size()
    && cfg.start == Some(Address(net.family, lo)) && cfg.end == Some(Address(net.family, hi))
    && cfg.subnet == Some(net)
    && InNet(net, list) && cfg.exclusions == Pairs(net.family, list)
  }

  lemma CanonicalExclusion(net: Subnet, r: ExcludeRange)
    requires net.Valid() && Inside(net, r.start) && Inside(net, r.end)
    ensures var raw := RawRange(AddressOf(net.family, r.start), AddressOf(net.family, r.end), net, None);
            Canonical(raw) == if r.start <= r.end then Some(Range(r.start, r.end, net, None)) else None
  {
  }

  lemma OverlapIs(net: Subnet, r: ExcludeRange, s: ExcludeRange)
    requires net.Valid() && Inside(net, r.start) && Inside(net, r.end) && Inside(net, s.start) && Inside(net, s.end)
    requires r.start <= r.end && s.start <= s.end
    ensures Range(r.start, r.end, net, None).Overlaps(Range(s.start, s.end, net, None)) <==> !Separate(r, s)
  {
    var x, y := Range(r.start, r.end, net, None), Range(s.start, s.end, net, None);
    if !x.Overlaps(y) {
      NotOverlapping(x, y);
    }
  }

  /** The node accepts such a configuration exactly when its exclusions are in order and do not overlap. */
  lemma AcceptedExactly(cfg: PoolConfig, net: Subnet, lo: nat, hi: nat, list: seq<ExcludeRange>)
    requires Shaped(cfg, net, lo, hi, list)
    ensures RangesOk(cfg) <==> AllInOrder(list) && AllApart(list)
  {
    assert Canonical(RawRanges(cfg)[0]) == Some(Range(lo, hi, net, cfg.gateway));
    if |list| > 0 {
      AcceptableList(net, list, RawExclusions(cfg));
    }
  }

  lemma AcceptableList(net: Subnet, list: seq<ExcludeRange>, raws: seq<RawRange>)
    requires net.Valid() && InNet(net, list) && |raws| == |list| > 0
    requires forall i :: 0 <= i < |list| ==>
               raws[i] == RawRange(AddressOf(net.family, list[i].start), AddressOf(net.family, list[i].end), net, None)
    ensures Acceptable(raws) <==> AllInOrder(list) && AllApart(list)
  {
    forall i | 0 <= i < |list|
      ensures Canonical(raws[i]) == if list[i].start <= list[i].end then Some(Range(list[i].start, list[i].end, net, None)) else None
    {
      assert list[i] in list;
      CanonicalExclusion(net, list[i]);
    }
    if AllInOrder(list) {
      forall i, j | 0 <= i < j < |list|
        ensures Canonical(raws[i]).value.Overlaps(Canonical(raws[j]).value) <==> !Separate(list[i], list[j])
      {
        assert list[i] in list && list[j] in list;
        OverlapIs(net, list[i], list[j]);
      }
    }
  }

  ghost predicate RangeFrom(net: Subnet, r: ExcludeRange, x: Range) {
    0 <= r.start <= r.end && x == Range(r.start, r.end, net, None)
  }

  lemma SameCover(net: Subnet, list: seq<ExcludeRange>, xs: seq<Range>, v: nat)
    requires |xs| == |list| && InNet(net, list) && forall i :: 0 <= i < |list| ==> RangeFrom(net, list[i], xs[i])
    ensures SetContains(xs, Address(net.family, v)) <==> Covers(list, v)
  {
    forall i | 0 <= i < |list| ensures xs[i].Contains(Address(net.family, v)) <==> list[i].Has(v) {
      assert list[i] in list && RangeFrom(net, list[i], xs[i]);
    }
    if Covers(list, v) {
      var i :| 0 <= i < |list| && list[i].Has(v);
      assert xs[i] in xs;
    }
    if SetContains(xs, Address(net.family, v)) {
      var i :| 0 <= i < |xs| && xs[i].Contains(Address(net.family, v));
      assert list[i] in list;
    }
  }

  lemma CanonicalList(cfg: PoolConfig, net: Subnet, lo: nat, hi: nat, list: seq<ExcludeRange>, xs: seq<Range>)
    requires Shaped(cfg, net, lo, hi, list) && RangesOk(cfg) && xs == ExclusionsOf(cfg)
    ensures |xs| == |list| && forall i :: 0 <= i < |list| ==> RangeFrom(net, list[i], xs[i])
  {
    forall i | 0 <= i < |list| ensures RangeFrom(net, list[i], xs[i]) {
      assert list[i] in list;
      CanonicalExclusion(net, list[i]);
      assert Canonical(RawExclusions(cfg)[i]) == Some(xs[i]);
    }
  }

  /** What the accepted configuration means: the range is `lo..hi`, the exclusions cover what is listed. */
  lemma ShapedCanonical(cfg: PoolConfig, net: Subnet, lo: nat, hi: nat, list: seq<ExcludeRange>,
                        v: nat)
    requires Shaped(cfg, net, lo, hi, list) && RangesOk(cfg)
    ensures RangesOf(cfg) == [Range(lo, hi, net, cfg.gateway)]
    ensures SetContains(ExclusionsOf(cfg), Address(net.family, v)) <==> Covers(list, v)
  {
    CanonicalList(cfg, net, lo, hi, list, ExclusionsOf(cfg));
    SameCover(net, list, ExclusionsOf(cfg), v);
  }

  /** A dynamic grant of `a` under this configuration, from any data of the pool. */
  ghost predicate DynamicallyGranted(cfg: PoolConfig, before: PoolData, e: Event, after: PoolData, a: Address)
    requires RangesOk(cfg)
  {
    && Happens(RangesOf(cfg), ExclusionsOf(cfg), before, e, after) && e.DynamicGrant?
    && RangesOf(cfg)[e.range].At(e.value) == a
  }

  /** It lies in the configured range and is neither excluded nor the gateway. */
  lemma GrantWithin(cfg: PoolConfig, net: Subnet, lo: nat, hi: nat, list: seq<ExcludeRange>,
                    before: PoolData, e: Event, after: PoolData, a: Address)
    requires Shaped(cfg, net, lo, hi, list) && RangesOk(cfg) && DynamicallyGranted(cfg, before, e, after, a)
    ensures a.family == net.family && lo <= a.value <= hi && !Covers(list, a.value) && cfg.gateway != Some(a)
  {
    ShapedCanonical(cfg, net, lo, hi, list, a.value);
  }

  function NewPool(name: string): PoolData {
    PoolData(name, map[], "", None)
  }

  /** In some run of grants and releases that begins with a pool of this name that was never used, the last event is a
      dynamic grant of `a`. */
  ghost predicate CanGrant(cfg: PoolConfig, name: string, a: Address)
    requires RangesOk(cfg)
  {
    exists states, events :: states != [] && states[0] == NewPool(name) && GrantsLast(cfg, states, events, a)
  }

  ghost predicate GrantsLast(cfg: PoolConfig, states: seq<PoolData>, events: seq<Event>, a: Address)
    requires RangesOk(cfg)
  {
    && |events| > 0 && PoolRun(RangesOf(cfg), ExclusionsOf(cfg), states, events)
    && DynamicallyGranted(cfg, states[|events| - 1], events[|events| - 1], states[|events|], a)
  }

  // ----- every allocatable address comes round -----

  /** No allocatable address lies between the cursor, or the start of the range, and `v`. */
  ghost predicate NoneBetween(rs: seq<Range>, exclusions: seq<Range>, from: Option<nat>, v: nat) {
    forall w: nat {:trigger Allocatable(rs, exclusions, 0, w)} ::
      w < v && (from.Some? ==> from.value < w) ==> !Allocatable(rs, exclusions, 0, w)
  }

  lemma NextInTurn(rs: seq<Range>, exclusions: seq<Range>, from: Option<nat>, v: nat)
    requires |rs| == 1 && rs[0].Ordered() && Allocatable(rs, exclusions, 0, v) && NoneBetween(rs, exclusions, from, v)
    requires from.Some? ==> Slot(rs, 0, from.value) && from.value < v
    ensures FirstFree(rs, exclusions, map[], if from.Some? then Some(rs[0].At(from.value)) else None, 0, v)
  {
    assert GoodAt(rs, 0) && GoodSet(rs);
    GoodIsLaid(rs);
    PosBounds(rs, 0, v);
    var last := if from.Some? then Some(rs[0].At(from.value)) else None;
    if from.Some? {
      RangeOfIs(rs, rs[0].At(from.value), 0);
    }
    assert FirstPosition(rs, last) == if from.Some? then from.value + 1 - rs[0].start else 0;
    forall j: int, w: nat | Slot(rs, j, w) && StepsTo(FirstPosition(rs, last), Pos(rs, j, w), Total(rs))
                                              < StepsTo(FirstPosition(rs, last), Pos(rs, 0, v), Total(rs))
      ensures Blocked(rs, exclusions, map[], j, w)
    {
      assert j == 0 && w < v && (from.Some? ==> from.value < w);
      assert !Allocatable(rs, exclusions, 0, w);
    }
  }

  /** A run that ends with the grant of `v`: grant the allocatable addresses one after the other, releasing each. */
  lemma {:induction false} RunUpTo(rs: seq<Range>, exclusions: seq<Range>, name: string, v: nat)
    returns (states: seq<PoolData>, events: seq<Event>)
    requires |rs| == 1 && rs[0].Ordered() && Allocatable(rs, exclusions, 0, v)
    ensures PoolRun(rs, exclusions, states, events) && states[0] == NewPool(name)
    ensures |events| > 0 && Grants(events[|events| - 1], 0, v)
    decreases v
  {
    var meta := Metadata("", "", "", "");
    var grant := DynamicGrant("c", "i", meta, 0, v);
    if exists u: nat :: u < v && Allocatable(rs, exclusions, 0, u) {
      var u := LastBefore(rs, exclusions, v);
      states, events := RunUpTo(rs, exclusions, name, u);
      states, events := NextGrant(rs, exclusions, states, events, u, grant);
    } else {
      NextInTurn(rs, exclusions, None, v);
      states, events := [NewPool(name), ReservedIn(NewPool(name), "c", "i", meta, rs[0].At(v))], [grant];
    }
  }

  /** After a grant of `u`, releasing everything and granting the next allocatable address. */
  lemma NextGrant(rs: seq<Range>, exclusions: seq<Range>, states: seq<PoolData>, events: seq<Event>, u: nat, grant: Event)
    returns (states': seq<PoolData>, events': seq<Event>)
    requires |rs| == 1 && rs[0].Ordered() && PoolRun(rs, exclusions, states, events)
    requires |events| > 0 && Grants(events[|events| - 1], 0, u) && grant.DynamicGrant? && grant.range == 0
    requires Slot(rs, 0, u) && u < grant.value
    requires Allocatable(rs, exclusions, 0, grant.value) && NoneBetween(rs, exclusions, Some(u), grant.value)
    ensures PoolRun(rs, exclusions, states', events') && states'[0] == states[0]
    ensures events' == events + [Losses, grant]
  {
    var n := |events|;
    OnlyDynamicMoves(rs, exclusions, states[n - 1], events[n - 1], states[n]);
    NextInTurn(rs, exclusions, Some(u), grant.value);
    var empty := states[n].(entries := map[]);
    states', events' := ExtendRun(rs, exclusions, states, events, Losses, empty);
    var after := ReservedIn(empty, grant.id, grant.ifName, grant.meta, rs[0].At(grant.value));
    states', events' := ExtendRun(rs, exclusions, states', events', grant, after);
  }

  lemma ExtendRun(rs: seq<Range>, exclusions: seq<Range>, states: seq<PoolData>, events: seq<Event>, e: Event, after: PoolData)
    returns (states': seq<PoolData>, events': seq<Event>)
    requires PoolRun(rs, exclusions, states, events) && Happens(rs, exclusions, states[|events|], e, after)
    ensures states' == states + [after] && events' == events + [e] && PoolRun(rs, exclusions, states', events')
  {
    states', events' := states + [after], events + [e];
    forall k | 0 <= k < |events'| ensures Happens(rs, exclusions, states'[k], events'[k], states'[k + 1]) {
      assert k < |events| ==> Happens(rs, exclusions, states[k], events[k], states[k + 1]);
    }
  }

  lemma LastBefore(rs: seq<Range>, exclusions: seq<Range>, v: nat) returns (u: nat)
    requires exists w: nat :: w < v && Allocatable(rs, exclusions, 0, w)
    ensures u < v && Allocatable(rs, exclusions, 0, u) && NoneBetween(rs, exclusions, Some(u), v)
  {
    u := v - 1;
    while !Allocatable(rs, exclusions, 0, u)
      invariant u < v && forall w: nat {:trigger Allocatable(rs, exclusions, 0, w)} :: u < w < v ==> !Allocatable(rs, exclusions, 0, w)
      decreases u
    {
      assert u > 0;
      u := u - 1;
    }
  }

  /** And everything else in the range can be granted. */
  lemma GrantPossible(cfg: PoolConfig, net: Subnet, lo: nat, hi: nat, list: seq<ExcludeRange>, name: string, a: Address)
    requires Shaped(cfg, net, lo, hi, list) && RangesOk(cfg)
    requires a.family == net.family && lo <= a.value <= hi && !Covers(list, a.value) && cfg.gateway != Some(a)
    ensures CanGrant(cfg, name, a)
  {
    ShapedCanonical(cfg, net, lo, hi, list, a.value);
    var states, events := RunUpTo(RangesOf(cfg), ExclusionsOf(cfg), name, a.value);
    var n := |events| - 1;
    assert Happens(RangesOf(cfg), ExclusionsOf(cfg), states[n], events[n], states[n + 1]);
    assert GrantsLast(cfg, states, events, a);
  }

  /** What a node can grant dynamically under an accepted configuration is exactly the addresses of its range that
      are neither its gateway nor listed as excluded. */
  lemma GrantedExactly(cfg: PoolConfig, net: Subnet, lo: nat, hi: nat, list: seq<ExcludeRange>, name: string, a: Address)
    requires Shaped(cfg, net, lo, hi, list) && RangesOk(cfg)
    ensures CanGrant(cfg, name, a) <==>
              a.family == net.family && lo <= a.value <= hi && !Covers(list, a.value) && cfg.gateway != Some(a)
  {
    if CanGrant(cfg, name, a) {
      var states, events :| states != [] && states[0] == NewPool(name) && GrantsLast(cfg, states, events, a);
      var n := |events| - 1;
      GrantWithin(cfg, net, lo, hi, list, states[n], events[n], states[n + 1], a);
    } else if a.family == net.family && lo <= a.value <= hi && !Covers(list, a.value) && cfg.gateway != Some(a) {
      GrantPossible(cfg, net, lo, hi, list, name, a);
    }
  }

  // ----- CIDRPool: the node's prefix -----

  function ExclusionList(spec: Spec, net: Subnet): seq<ExcludeRange> {
    Clips(net, spec.exclusions) + PerNodeList(net.family, spec.perNode, net.base, net.LastIP())
  }

  function CIDRConfig(spec: Spec, a: Allocation, routesOk: bool, snapshot: string): PoolConfig
    requires a.prefix.Cidr?
  {
    var net := a.prefix.net;
    PoolConfig(Some(Address(net.family, net.FirstIP())), Some(Address(net.family, net.LastIP())), Some(net),
               if a.gateway.GatewayIP? then Some(a.gateway.ip) else None,
               Pairs(net.family, ExclusionList(spec, net)), routesOk, snapshot)
  }

  /** The entry the node goes by: the first that names it. */
  function EntryOf(status: seq<Allocation>, node: string): (r: Option<Allocation>)
    ensures r.Some? ==> exists i :: 0 <= i < |status| && status[i] == r.value && FirstOf(status, node, i)
    ensures r.None? <==> forall a :: a in status ==> a.node != node
  {
    if status == [] then None
    else if status[0].node == node then
      assert FirstOf(status, node, 0);
      Some(status[0])
    else
      var r := EntryOf(status[1..], node);
      assert r.Some? ==> exists i :: 0 <= i < |status| && status[i] == r.value && FirstOf(status, node, i) by {
        if r.Some? {
          var i :| 0 <= i < |status[1..]| && status[1..][i] == r.value && FirstOf(status[1..], node, i);
          forall j | 0 <= j < i + 1 ensures status[j].node != node {
            if j > 0 {
              assert status[j] == status[1..][j - 1];
            }
          }
          assert FirstOf(status, node, i + 1);
        }
      }
      r
  }

  /** The i-th entry names the node, and none before it does. */
  predicate FirstOf(status: seq<Allocation>, node: string, i: int) {
    0 <= i < |status| && status[i].node == node && forall j :: 0 <= j < i ==> status[j].node != node
  }

  /** The node's reconcile of a CIDRPool: the configuration for its entry, or none. */
  method ReconcileCIDRPool(spec: Spec, status: seq<Allocation>, node: string, routesOk: bool, snapshot: string)
    returns (r: Option<PoolConfig>)
    requires forall a :: a in status ==> Parsed(a.prefix)
    ensures r.Some? <==>
              ValidSpec(spec) && EntryOf(status, node).Some? && ValidAllocation(spec, status, EntryOf(status, node).value)
    ensures r.Some? ==>
              var a := EntryOf(status, node).value; a.prefix.Cidr? && r.value == CIDRConfig(spec, a, routesOk, snapshot)
  {
    if !ValidSpec(spec) {
      return None;
    }
    for i := 0 to |status|
      invariant EntryOf(status, node) == EntryOf(status[i..], node)
    {
      var a := status[i];
      if a.node == node {
        var ok := ValidateAllocation(spec, status, a);
        if !ok {
          return None;
        }
        ValidHasPrefix(spec, status, a);
        var net := a.prefix.net;
        SpecRanges(spec);
        var exclusions := BuildExclusions(net, spec.exclusions, net.FirstIP(), net.LastIP());
        var perNode := BuildPerNodeExclusions(net.family, spec.perNode, net.base, net.LastIP());
        return Some(PoolConfig(Some(Address(net.family, net.FirstIP())), Some(Address(net.family, net.LastIP())), Some(net),
                               if a.gateway.GatewayIP? then Some(a.gateway.ip) else None,
                               Pairs(net.family, exclusions + perNode), routesOk, snapshot));
      }
      assert status[i..][1..] == status[i + 1..];
    }
    return None;
  }

  lemma FirstBeforeLast(net: Subnet)
    requires net.Valid()
    ensures net.base <= net.FirstIP() <= net.LastIP() < net.base + net.Size()
  {
    assert net.hostBits >= 1 ==> net.Size() == 2 * Pow2(net.hostBits - 1);
    assert net.hostBits >= 2 ==> Pow2(net.hostBits - 1) == 2 * Pow2(net.hostBits - 2);
  }

  lemma CIDRConfigShaped(spec: Spec, a: Allocation, routesOk: bool, snapshot: string)
    requires ValidSpec(spec) && a.prefix.Cidr? && NodePrefix(spec, a.prefix.net)
    ensures var net := a.prefix.net;
            Shaped(CIDRConfig(spec, a, routesOk, snapshot), net, net.FirstIP(), net.LastIP(), ExclusionList(spec, net))
  {
    var net := a.prefix.net;
    FirstBeforeLast(net);
    SpecRanges(spec);
    PerNodeListCovers(net.family, spec.perNode, net.base, net.LastIP(), 0);
    forall r | r in ExclusionList(spec, net) ensures Inside(net, r.start) && Inside(net, r.end) {
      ClipsMembers(net, spec.exclusions, r);
    }
  }

  /** What the node excludes among the addresses for hosts. */
  lemma ExclusionListCovers(spec: Spec, net: Subnet, v: int)
    requires ValidSpec(spec) && NodePrefix(spec, net) && net.FirstIP() <= v <= net.LastIP()
    ensures Covers(ExclusionList(spec, net), v) <==> TouchingCovers(net, spec.exclusions, v) || Covers(spec.perNode, v - net.base)
  {
    SpecRanges(spec);
    CoversAppend(Clips(net, spec.exclusions), PerNodeList(net.family, spec.perNode, net.base, net.LastIP()), v);
    ClipsCover(net, spec.exclusions, v);
    PerNodeListCovers(net.family, spec.perNode, net.base, net.LastIP(), v);
  }

  /** Node and spec exclude the same of the addresses for hosts. */
  ghost predicate Agree(spec: Spec, net: Subnet) {
    forall v :: net.FirstIP() <= v <= net.LastIP() ==>
      (Covers(ExclusionList(spec, net), v) <==> Excluded(spec.exclusions, spec.perNode, net.base, v))
  }

  /** A pool exclusion that covers the prefix and reaches beyond both of its ends. */
  ghost predicate Enclosed(spec: Spec, net: Subnet) {
    exists r :: r in spec.exclusions && Encloses(net, r)
  }

  /** Node and spec agree exactly when no exclusion encloses the prefix, or the other exclusions cover all of its
      addresses for hosts anyway. */
  lemma AgreeExactly(spec: Spec, net: Subnet)
    requires ValidSpec(spec) && NodePrefix(spec, net)
    ensures Agree(spec, net) <==>
              || !Enclosed(spec, net)
              || forall v :: net.FirstIP() <= v <= net.LastIP() ==>
                   TouchingCovers(net, spec.exclusions, v) || Covers(spec.perNode, v - net.base)
  {
    FirstBeforeLast(net);
    forall v | net.FirstIP() <= v <= net.LastIP()
      ensures Covers(ExclusionList(spec, net), v) <==> TouchingCovers(net, spec.exclusions, v) || Covers(spec.perNode, v - net.base)
      ensures Excluded(spec.exclusions, spec.perNode, net.base, v) <==>
                Enclosed(spec, net) || TouchingCovers(net, spec.exclusions, v) || Covers(spec.perNode, v - net.base)
    {
      ExclusionListCovers(spec, net, v);
      ExcludedIs(spec, net, v);
    }
  }

  lemma ExcludedIs(spec: Spec, net: Subnet, v: int)
    requires ValidSpec(spec) && NodePrefix(spec, net) && net.base <= v < net.base + net.Size()
    ensures Covers(spec.exclusions, v) <==> Enclosed(spec, net) || TouchingCovers(net, spec.exclusions, v)
  {
    if Covers(spec.exclusions, v) {
      var r :| r in spec.exclusions && r.Has(v);
      assert Touches(net, r) || Encloses(net, r);
    }
    if Enclosed(spec, net) {
      var r :| r in spec.exclusions && Encloses(net, r);
      assert r.Has(v);
    }
  }

  /** The controller never gives such a prefix to a node that has no static allocation. */
  lemma EnclosedIsExcluded(spec: Spec, net: Subnet)
    requires ValidSpec(spec) && NodePrefix(spec, net) && Enclosed(spec, net)
    ensures PrefixExcluded(spec, net)
  {
    forall a | net.base <= a <= net.LastIP() ensures Excluded(spec.exclusions, spec.perNode, net.base, a) {
      ExcludedIs(spec, net, a);
    }
  }

  /** The status a controller writes is one its nodes accept: each finds its own entry, and it is valid. For a
      node without a static allocation, node and spec then agree on what is excluded. */
  lemma WrittenForNodes(spec: Spec, status: seq<Allocation>, nodes: seq<string>, e: Allocation)
    requires ValidSpec(spec) && NodeList(nodes) && e in Reconciled(spec, status, nodes)
    ensures var out := Reconciled(spec, status, nodes);
            && EntryOf(out, e.node) == Some(e) && ValidAllocation(spec, out, e)
            && e.prefix.Cidr? && NodePrefix(spec, e.prefix.net)
    ensures StaticOf(spec.statics, e.node).None? ==> Agree(spec, e.prefix.net)
  {
    var out, fin := Reconciled(spec, status, nodes), Final(spec, status, nodes);
    FinalRun(spec, status, nodes);
    WrittenIsValid(spec, fin.byNode, nodes, e);
    ReconciledDisjoint(spec, status, nodes, e, EntryOf(out, e.node).value, 0);
    EntriesMembers(fin.byNode, nodes, e);
    if StaticOf(spec.statics, e.node).None? {
      AgreeExactly(spec, e.prefix.net);
      if Enclosed(spec, e.prefix.net) {
        EnclosedIsExcluded(spec, e.prefix.net);
      }
    }
  }

  /** From the spec to the containers: what a node grants dynamically, from any data of its pool, is an address for
      hosts of its own prefix and not its gateway; and unless the prefix is static, not excluded by the spec. */
  lemma CIDRPoolGrants(spec: Spec, status: seq<Allocation>, nodes: seq<string>, d: Allocation, routesOk: bool, snapshot: string,
                       before: PoolData, e: Event, after: PoolData, a: Address)
    requires ValidSpec(spec) && NodeList(nodes) && d in Reconciled(spec, status, nodes) && d.prefix.Cidr?
    requires RangesOk(CIDRConfig(spec, d, routesOk, snapshot))
    requires DynamicallyGranted(CIDRConfig(spec, d, routesOk, snapshot), before, e, after, a)
    ensures d.prefix.net.Contains(a) && d.prefix.net.FirstIP() <= a.value <= d.prefix.net.LastIP()
    ensures d.gateway != GatewayIP(a)
    ensures StaticOf(spec.statics, d.node).None? ==> !Excluded(spec.exclusions, spec.perNode, d.prefix.net.base, a.value)
  {
    WrittenForNodes(spec, status, nodes, d);
    var net := d.prefix.net;
    FirstBeforeLast(net);
    CIDRConfigShaped(spec, d, routesOk, snapshot);
    GrantWithin(CIDRConfig(spec, d, routesOk, snapshot), net, net.FirstIP(), net.LastIP(), ExclusionList(spec, net),
                before, e, after, a);
  }

  /** Prefixes of different nodes have no address in common that both could grant. */
  lemma PrefixesApart(spec: Spec, status: seq<Allocation>, nodes: seq<string>, d: Allocation, d': Allocation, a: Address, b: Address)
    requires ValidSpec(spec) && NodeList(nodes) && d in Reconciled(spec, status, nodes) && d' in Reconciled(spec, status, nodes)
    requires d.node != d'.node && d.prefix.Cidr? && d'.prefix.Cidr? && d.prefix.net.Contains(a) && d'.prefix.net.Contains(b)
    ensures a != b
  {
    ReconciledDisjoint(spec, status, nodes, d, d', a.value);
  }

  /** A node without a static allocation, whose configuration is accepted, can grant exactly the addresses for hosts
      of its prefix that are not its gateway and that the spec does not exclude. */
  lemma CIDRPoolServesExactly(spec: Spec, status: seq<Allocation>, nodes: seq<string>, e: Allocation,
                              routesOk: bool, snapshot: string, name: string, a: Address)
    requires ValidSpec(spec) && NodeList(nodes) && e in Reconciled(spec, status, nodes) && e.prefix.Cidr?
    requires StaticOf(spec.statics, e.node).None? && RangesOk(CIDRConfig(spec, e, routesOk, snapshot))
    ensures var net := e.prefix.net;
            CanGrant(CIDRConfig(spec, e, routesOk, snapshot), name, a) <==>
              && a.family == net.family && net.FirstIP() <= a.value <= net.LastIP() && e.gateway != GatewayIP(a)
              && !Excluded(spec.exclusions, spec.perNode, net.base, a.value)
  {
    var net := e.prefix.net;
    WrittenForNodes(spec, status, nodes, e);
    CIDRConfigShaped(spec, e, routesOk, snapshot);
    GrantedExactly(CIDRConfig(spec, e, routesOk, snapshot), net, net.FirstIP(), net.LastIP(), ExclusionList(spec, net), name, a);
  }
}
