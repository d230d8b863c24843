/** The daemon's Allocate and Deallocate handlers (pkg/ipam-node/handlers): a request names one or two pools, and
    either every pool gets its reservation or nothing is committed.

    Pools are named by their store keys. Pool configurations and the outcome of the file write are inputs. */
module Handlers {
  import opened Addresses
  import opened StoreModel
  import opened Store
  import opened NodeRanges
  import opened RangeIteration
  import opened NodeAllocator

  /** A pool as configured on the node; addresses that do not parse are None. `routesOk` says whether the route
      destinations parse, which is only looked at after the address has been reserved. */
  datatype PoolConfig = PoolConfig(
    start: Option<Address>,
    end: Option<Address>,
    subnet: Option<Subnet>,
    gateway: Option<Address>,
    exclusions: seq<(Option<Address>, Option<Address>)>,
    routesOk: bool,
    snapshot: string)

  datatype Params = Params(
    pools: seq<string>,
    id: string,
    ifName: string,
    meta: Metadata,
    requestedIPs: seq<Address>,
    defaultGateway: bool,
    ipIndex: Option<int>)

  predicate ValidRequest(p: Params) {
    && 1 <= |p.pools| <= 2
    && (forall k :: 0 <= k < |p.pools| ==> p.pools[k] != "")
    && p.id != "" && p.ifName != ""
    && p.meta.podName != "" && p.meta.podNamespace != ""
    && !(p.defaultGateway && |p.requestedIPs| > 0)
  }

  /** The validation of a request. */
  method ValidateRequest(p: Params) returns (ok: bool)
    ensures ok <==>
              && (|p.pools| == 1 || |p.pools| == 2) && "" !in p.pools
              && p.id != "" && p.ifName != "" && p.meta.podName != "" && p.meta.podNamespace != ""
              && (p.defaultGateway ==> p.requestedIPs == [])
    ensures ok == ValidRequest(p)
  {
    if |p.pools| == 0 || |p.pools| > 2 {
      return false;
    }
    for i := 0 to |p.pools|
      invariant forall k :: 0 <= k < i ==> p.pools[k] != ""
    {
      if p.pools[i] == "" {
        return false;
      }
    }
    if p.id == "" || p.ifName == "" || p.meta.podName == "" || p.meta.podNamespace == "" {
      return false;
    }
    return !(p.defaultGateway && |p.requestedIPs| > 0);
  }

  // ----- one pool -----

  /** Exactly one entry was added, under the caller's key, active, with address `a` and this metadata; no other entry
      and no other pool changed. */
  ghost predicate AddedOne(before: Root, after: Root, poolKey: string, id: string, ifName: string, meta: Metadata,
                           a: Address) {
    && AddedTo(PoolOf(before, poolKey), PoolOf(after, poolKey), id, ifName, meta, a)
    && poolKey in after
    && Elsewhere(before, after, {poolKey})
  }

  ghost predicate AddedTo(before: PoolData, after: PoolData, id: string, ifName: string, meta: Metadata, a: Address) {
    var old', new', key := before.entries, after.entries, Key(id, ifName);
    && key !in old' && !HasAddress(old', a) && key in new'
    && new'[key].containerID == id && new'[key].interfaceName == ifName
    && new'[key].address == a && new'[key].releasedAt == None && new'[key].metadata == meta
    && new' - {key} == old'
    && after.name == before.name && after.lastPoolConfig == meta.poolConfigSnapshot
  }

  /** Pools outside `touched` are as they were. */
  ghost predicate Elsewhere(before: Root, after: Root, touched: set<string>) {
    forall q {:trigger SamePool(before, after, q)} :: q !in touched ==> SamePool(before, after, q)
  }

  ghost predicate SamePool(before: Root, after: Root, q: string) {
    (q in before <==> q in after) && (q in before ==> before[q] == after[q])
  }

  lemma ReservedAddsOne(before: Root, poolKey: string, id: string, ifName: string, meta: Metadata, a: Address, last: Option<Address>)
    requires ReserveVerdict(before, poolKey, id, ifName, a) == NoError
    ensures AddedOne(before, Reserved(before, poolKey, id, ifName, meta, a), poolKey, id, ifName, meta, a)
    ensures AddedOne(before, WithLast(Reserved(before, poolKey, id, ifName, meta, a), poolKey, last), poolKey, id, ifName, meta, a)
  {
    var entries, key := PoolOf(before, poolKey).entries, Key(id, ifName);
    var r := Reservation(id, ifName, a, meta, None);
    assert entries[key := r] - {key} == entries;
  }

  datatype Selection = Dynamic | Static(ip: Address) | Refused

  /** Which address the request asks of this pool: the first requested one in the subnet, unless a feature
      picks the gateway or an index. */
  function Select(p: Params, subnet: Subnet, rangeStart: Address, gateway: Option<Address>, rs: seq<Range>): (s: Selection)
    ensures s.Static? && p.ipIndex.Some? ==>
              && p.ipIndex.value >= 0 && s.ip == Address(rangeStart.family, rangeStart.value + p.ipIndex.value)
              && SetContains(rs, s.ip) && gateway != Some(s.ip)
    ensures s.Static? && p.ipIndex.None? && p.defaultGateway ==> gateway == Some(s.ip)
    ensures s.Static? && p.ipIndex.None? && !p.defaultGateway ==>
              exists k :: 0 <= k < |p.requestedIPs| && p.requestedIPs[k] == s.ip && FirstInside(p.requestedIPs, subnet, k)
    ensures s == Dynamic <==>
              !p.defaultGateway && p.ipIndex.None? && forall ip :: ip in p.requestedIPs ==> !subnet.Contains(ip)
    ensures s == Refused <==>
              || (p.defaultGateway && gateway.None?)
              || (p.ipIndex.Some?
                  && !(0 <= p.ipIndex.value < Space(rangeStart.family) - rangeStart.value
                       && gateway != Some(Address(rangeStart.family, rangeStart.value + p.ipIndex.value))
                       && SetContains(rs, Address(rangeStart.family, rangeStart.value + p.ipIndex.value))))
  {
    if p.defaultGateway && gateway.None? then Refused
    else if p.ipIndex.Some? then
      match NextIPWithOffset(rangeStart.family, rangeStart.value, p.ipIndex.value)
      case None => Refused
      case Some(v) =>
        var ip := Address(rangeStart.family, v);
        if gateway == Some(ip) || !SetContains(rs, ip) then Refused else Static(ip)
    else if p.defaultGateway then Static(gateway.value)
    else FirstIn(p.requestedIPs, subnet)
  }

  /** The k-th address is in the subnet, and none before it is. */
  predicate FirstInside(ips: seq<Address>, subnet: Subnet, k: int) {
    0 <= k < |ips| && subnet.Contains(ips[k]) && forall j :: 0 <= j < k ==> !subnet.Contains(ips[j])
  }

  function FirstIn(ips: seq<Address>, subnet: Subnet): (s: Selection)
    ensures s.Static? ==> exists k :: 0 <= k < |ips| && ips[k] == s.ip && FirstInside(ips, subnet, k)
    ensures s == Dynamic <==> forall ip :: ip in ips ==> !subnet.Contains(ip)
    ensures s != Refused
  {
    if ips == [] then Dynamic
    else if subnet.Contains(ips[0]) then
      assert FirstInside(ips, subnet, 0);
      Static(ips[0])
    else
      var s := FirstIn(ips[1..], subnet);
      assert s.Static? ==> exists k :: 0 <= k < |ips| && ips[k] == s.ip && FirstInside(ips, subnet, k) by {
        if s.Static? {
          var k :| 0 <= k < |ips[1..]| && ips[1..][k] == s.ip && FirstInside(ips[1..], subnet, k);
          forall j | 0 <= j < k + 1 ensures !subnet.Contains(ips[j]) {
            if j > 0 {
              assert ips[j] == ips[1..][j - 1];
            }
          }
          assert FirstInside(ips, subnet, k + 1);
        }
      }
      s
  }

  /** The metadata stored with a reservation: what the request says of its Pod, and the pool's configuration. */
  function MetadataFor(p: Params, cfg: PoolConfig): (m: Metadata)
    ensures m.podName == p.meta.podName && m.podNamespace == p.meta.podNamespace && m.podUUID == p.meta.podUUID
    ensures m.poolConfigSnapshot == cfg.snapshot
  {
    p.meta.(poolConfigSnapshot := cfg.snapshot)
  }

  datatype PoolResult = Ok(address: Address) | Err

  /** The configured ranges, as they are handed to canonicalisation. */
  function RawRanges(cfg: PoolConfig): seq<RawRange>
    requires cfg.subnet.Some?
  {
    [RawRange(cfg.start, cfg.end, cfg.subnet.value, cfg.gateway)]
  }

  function RawExclusions(cfg: PoolConfig): seq<RawRange>
    requires cfg.subnet.Some?
  {
    seq(|cfg.exclusions|, i requires 0 <= i < |cfg.exclusions| =>
      RawRange(cfg.exclusions[i].0, cfg.exclusions[i].1, cfg.subnet.value, None))
  }

  /** The configuration is usable: addresses parse, and ranges and exclusions are accepted. */
  ghost predicate RangesOk(cfg: PoolConfig) {
    && cfg.start.Some? && cfg.end.Some? && cfg.subnet.Some?
    && Acceptable(RawRanges(cfg))
    && (|cfg.exclusions| > 0 ==> Acceptable(RawExclusions(cfg)))
  }

  /** The ranges of a usable configuration, canonical. */
  ghost function RangesOf(cfg: PoolConfig): seq<Range>
    requires RangesOk(cfg)
  {
    [Canonical(RawRanges(cfg)[0]).value]
  }

  ghost function ExclusionsOf(cfg: PoolConfig): seq<Range>
    requires RangesOk(cfg)
  {
    var raws := RawExclusions(cfg);
    seq(|raws|, i requires 0 <= i < |raws| && Canonical(raws[i]).Some? => Canonical(raws[i]).value)
  }

  lemma RangesGood(cfg: PoolConfig)
    requires RangesOk(cfg)
    ensures GoodSet(RangesOf(cfg)) && RangesOf(cfg)[0].subnet == cfg.subnet.value
  {
    AcceptableIsGood(RawRanges(cfg), RangesOf(cfg));
  }

  method BuildRanges(cfg: PoolConfig) returns (ok: bool, rs: seq<Range>, exclusions: seq<Range>)
    ensures ok <==> RangesOk(cfg)
    ensures ok ==> GoodSet(rs) && rs == RangesOf(cfg) && exclusions == ExclusionsOf(cfg)
  {
    if cfg.start.None? || cfg.end.None? || cfg.subnet.None? {
      return false, [], [];
    }
    var ranges := CanonicalizeSet(RawRanges(cfg));
    if ranges.None? {
      return false, [], [];
    }
    AcceptableIsGood(RawRanges(cfg), ranges.value);
    if |cfg.exclusions| == 0 {
      return true, ranges.value, [];
    }
    var excl := CanonicalizeSet(RawExclusions(cfg));
    if excl.None? {
      return false, [], [];
    }
    return true, ranges.value, excl.value;
  }

  predicate RoutesFail(cfg: PoolConfig, p: Params) {
    cfg.gateway.Some? && !p.defaultGateway && !cfg.routesOk
  }

  /** A request for a given address cannot be served: outside the subnet, or owner or address already there. */
  ghost predicate StaticBlocked(pool: PoolData, p: Params, rs: seq<Range>, ip: Address) {
    || !(exists x :: x in rs && x.subnet.Contains(ip))
    || Key(p.id, p.ifName) in pool.entries || HasAddress(pool.entries, ip)
  }

  ghost predicate DynamicBlocked(pool: PoolData, p: Params, rs: seq<Range>, exclusions: seq<Range>) {
    Key(p.id, p.ifName) in pool.entries || AllBlocked(rs, exclusions, pool.entries)
  }

  /** Exactly when a pool cannot serve the request. */
  ghost predicate CannotServe(pool: PoolData, cfg: PoolConfig, p: Params) {
    !RangesOk(cfg)
    || RoutesFail(cfg, p)
    || Unserved(pool, cfg, p, RangesOf(cfg), ExclusionsOf(cfg))
  }

  ghost predicate Unserved(pool: PoolData, cfg: PoolConfig, p: Params, rs: seq<Range>, exclusions: seq<Range>)
    requires RangesOk(cfg)
  {
    match Select(p, cfg.subnet.value, cfg.start.value, cfg.gateway, rs)
    case Refused => true
    case Static(ip) => StaticBlocked(pool, p, rs, ip)
    case Dynamic => DynamicBlocked(pool, p, rs, exclusions)
  }

  /** A usable configuration has one range, the configured one. */
  lemma RangesAre(cfg: PoolConfig)
    requires RangesOk(cfg)
    ensures RangesOf(cfg) == [Range(cfg.start.value.value, cfg.end.value.value, cfg.subnet.value, cfg.gateway)]
  {
    assert Canonical(RawRanges(cfg)[0]).Some?;
  }

  /** An address is taken for a dynamic request: the gateway, excluded, or held by somebody. */
  ghost predicate TakenFor(pool: PoolData, cfg: PoolConfig, a: Address)
    requires RangesOk(cfg)
  {
    cfg.gateway == Some(a) || SetContains(ExclusionsOf(cfg), a) || exists k :: k in pool.entries && pool.entries[k].address == a
  }

  /** When a pool cannot serve a request, in plain terms: its configuration is not usable; it has a gateway to route to,
      and the routes do not parse; the caller has a reservation there, be it a released one; the request is refused; the
      selected address is outside the subnet or held; or, for a dynamic request, every address of the range is taken. */
  lemma CannotServeExactly(pool: PoolData, cfg: PoolConfig, p: Params)
    ensures CannotServe(pool, cfg, p) <==>
              || !RangesOk(cfg)
              || (cfg.gateway.Some? && !p.defaultGateway && !cfg.routesOk)
              || Key(p.id, p.ifName) in pool.entries
              || Selected(cfg, p) == Refused
              || (Selected(cfg, p).Static?
                  && (!cfg.subnet.value.Contains(Selected(cfg, p).ip)
                      || exists k :: k in pool.entries && pool.entries[k].address == Selected(cfg, p).ip))
              || (Selected(cfg, p) == Dynamic
                  && forall v: nat :: cfg.start.value.value <= v <= cfg.end.value.value ==>
                       TakenFor(pool, cfg, Address(cfg.subnet.value.family, v)))
  {
    if RangesOk(cfg) {
      RangesAre(cfg);
      AllTaken(pool, cfg);
      if Selected(cfg, p).Static? {
        OneRangeStatic(pool, p, RangesOf(cfg)[0], Selected(cfg, p).ip);
      }
    }
  }

  lemma OneRangeStatic(pool: PoolData, p: Params, r: Range, ip: Address)
    ensures StaticBlocked(pool, p, [r], ip) <==>
              || !r.subnet.Contains(ip) || Key(p.id, p.ifName) in pool.entries
              || exists k :: k in pool.entries && pool.entries[k].address == ip
  {
    assert r in [r];
  }

  lemma AllTaken(pool: PoolData, cfg: PoolConfig)
    requires RangesOk(cfg)
    ensures AllBlocked(RangesOf(cfg), ExclusionsOf(cfg), pool.entries) <==>
              forall v: nat :: cfg.start.value.value <= v <= cfg.end.value.value ==>
                TakenFor(pool, cfg, Address(cfg.subnet.value.family, v))
  {
    RangesAre(cfg);
    var rs, exclusions := RangesOf(cfg), ExclusionsOf(cfg);
    forall v: nat ensures Blocked(rs, exclusions, pool.entries, 0, v) <==> TakenFor(pool, cfg, Address(cfg.subnet.value.family, v)) {
    }
    if AllBlocked(rs, exclusions, pool.entries) {
      forall v: nat | cfg.start.value.value <= v <= cfg.end.value.value
        ensures TakenFor(pool, cfg, Address(cfg.subnet.value.family, v))
      {
        assert Slot(rs, 0, v);
      }
    }
  }

  /** The address the request gets, and all that changes in the data: the selected static address with the cursor
      left alone, or the first free address of the walk. */
  ghost predicate Picked(before: Root, after: Root, poolKey: string, cfg: PoolConfig, p: Params, rs: seq<Range>,
                         exclusions: seq<Range>, a: Address)
    requires cfg.start.Some? && cfg.subnet.Some?
  {
    var pool, meta := PoolOf(before, poolKey), MetadataFor(p, cfg);
    match Select(p, cfg.subnet.value, cfg.start.value, cfg.gateway, rs)
    case Refused => false
    case Static(ip) =>
      a == ip && after == WithLast(Reserved(before, poolKey, p.id, p.ifName, meta, a), poolKey, pool.lastReservedIP)
    case Dynamic => exists range :: DynamicOutcome(before, after, poolKey, p.id, p.ifName, meta, rs, exclusions, Granted(range, a))
  }

  /** What the request asks of a usable pool. */
  ghost function Selected(cfg: PoolConfig, p: Params): Selection
    requires RangesOk(cfg)
  {
    Select(p, cfg.subnet.value, cfg.start.value, cfg.gateway, RangesOf(cfg))
  }

  /** `a` is the first free address of the walk that starts at the pool's cursor. */
  ghost predicate FirstInTurn(pool: PoolData, rs: seq<Range>, exclusions: seq<Range>, a: Address) {
    exists i, v :: Slot(rs, i, v) && a == rs[i].At(v) && FirstFree(rs, exclusions, pool.entries, pool.lastReservedIP, i, v)
  }

  /** The same for the data of the pool alone. */
  ghost predicate PickedIn(pool: PoolData, pool': PoolData, cfg: PoolConfig, p: Params, a: Address)
    requires RangesOk(cfg)
  {
    var granted := ReservedIn(pool, p.id, p.ifName, MetadataFor(p, cfg), a);
    match Selected(cfg, p)
    case Refused => false
    case Static(ip) => a == ip && pool' == granted.(lastReservedIP := pool.lastReservedIP)
    case Dynamic => pool' == granted && FirstInTurn(pool, RangesOf(cfg), ExclusionsOf(cfg), a)
  }

  lemma PickedInPool(before: Root, after: Root, q: string, cfg: PoolConfig, p: Params, a: Address)
    requires RangesOk(cfg) && Picked(before, after, q, cfg, p, RangesOf(cfg), ExclusionsOf(cfg), a)
    ensures PickedIn(PoolOf(before, q), PoolOf(after, q), cfg, p, a)
  {
  }

  /** Allocates in one pool of the session. Success adds exactly one entry; it fails exactly when the pool cannot
      serve the request. A failure may come after the reservation, so the caller must then not commit. */
  method AllocateInPool(session: Session, cfg: PoolConfig, p: Params, poolKey: string) returns (r: PoolResult)
    requires session.Valid() && !session.isClosed
    modifies session, session.repr
    ensures session.Valid() && !session.isClosed
    ensures forall o :: o in session.repr ==> o in old(session.repr) || fresh(o)
    ensures r.Ok? ==> AddedOne(old(session.data), session.data, poolKey, p.id, p.ifName, MetadataFor(p, cfg), r.address) && session.isModified
    ensures r.Err? <==> CannotServe(PoolOf(old(session.data), poolKey), cfg, p)
    ensures r.Ok? ==>
              RangesOk(cfg) && Picked(old(session.data), session.data, poolKey, cfg, p, RangesOf(cfg), ExclusionsOf(cfg), r.address)
  {
    var ok, rs, exclusions := BuildRanges(cfg);
    if !ok {
      return Err;
    }
    r := AllocateIn(session, cfg, p, poolKey, rs, exclusions);
    if RoutesFail(cfg, p) {
      return Err;
    }
  }

  method AllocateIn(session: Session, cfg: PoolConfig, p: Params, poolKey: string, rs: seq<Range>, exclusions: seq<Range>)
    returns (r: PoolResult)
    requires session.Valid() && !session.isClosed && RangesOk(cfg) && GoodSet(rs)
    modifies session, session.repr
    ensures session.Valid() && !session.isClosed
    ensures forall o :: o in session.repr ==> o in old(session.repr) || fresh(o)
    ensures r.Ok? ==> AddedOne(old(session.data), session.data, poolKey, p.id, p.ifName, MetadataFor(p, cfg), r.address) && session.isModified
    ensures r.Err? <==> Unserved(PoolOf(old(session.data), poolKey), cfg, p, rs, exclusions)
    ensures r.Ok? ==> Picked(old(session.data), session.data, poolKey, cfg, p, rs, exclusions, r.address)
  {
    var meta := MetadataFor(p, cfg);
    var selection := Select(p, cfg.subnet.value, cfg.start.value, cfg.gateway, rs);
    match selection
    case Refused => return Err;
    case Static(ip) => r := StaticInPool(session, poolKey, p, meta, rs, ip);
    case Dynamic => r := DynamicInPool(session, poolKey, p, meta, rs, exclusions);
  }

  method StaticInPool(session: Session, poolKey: string, p: Params, meta: Metadata, rs: seq<Range>, ip: Address)
    returns (r: PoolResult)
    requires session.Valid() && !session.isClosed
    modifies session, session.repr
    ensures session.Valid() && !session.isClosed
    ensures forall o :: o in session.repr ==> o in old(session.repr) || fresh(o)
    ensures r.Ok? ==> AddedOne(old(session.data), session.data, poolKey, p.id, p.ifName, meta, r.address) && session.isModified
    ensures r.Err? <==> StaticBlocked(PoolOf(old(session.data), poolKey), p, rs, ip)
    ensures r.Ok? ==>
              && r.address == ip
              && session.data == WithLast(Reserved(old(session.data), poolKey, p.id, p.ifName, meta, ip), poolKey,
                                          PoolOf(old(session.data), poolKey).lastReservedIP)
  {
    ghost var before := session.data;
    var a := AllocateStaticIP(session, poolKey, p.id, p.ifName, meta, rs, ip);
    if !a.Granted? {
      return Err;
    }
    ReservedAddsOne(before, poolKey, p.id, p.ifName, meta, ip, PoolOf(before, poolKey).lastReservedIP);
    return Ok(ip);
  }

  method DynamicInPool(session: Session, poolKey: string, p: Params, meta: Metadata, rs: seq<Range>, exclusions: seq<Range>)
    returns (r: PoolResult)
    requires session.Valid() && !session.isClosed && GoodSet(rs)
    modifies session, session.repr
    ensures session.Valid() && !session.isClosed
    ensures forall o :: o in session.repr ==> o in old(session.repr) || fresh(o)
    ensures r.Ok? ==> AddedOne(old(session.data), session.data, poolKey, p.id, p.ifName, meta, r.address) && session.isModified
    ensures r.Err? <==> DynamicBlocked(PoolOf(old(session.data), poolKey), p, rs, exclusions)
    ensures r.Ok? ==> exists range :: DynamicOutcome(old(session.data), session.data, poolKey, p.id, p.ifName, meta, rs,
                                                     exclusions, Granted(range, r.address))
  {
    ghost var before := session.data;
    GoodIsLaid(rs);
    var a := Allocate(session, poolKey, p.id, p.ifName, meta, rs, exclusions);
    if !a.Granted? {
      return Err;
    }
    GrantIsFree(before, session.data, poolKey, p.id, p.ifName, meta, rs, exclusions, a);
    ReservedAddsOne(before, poolKey, p.id, p.ifName, meta, a.address, None);
    assert a == Granted(a.range, a.address);
    return Ok(a.address);
  }

  lemma GrantIsFree(before: Root, after: Root, poolKey: string, id: string, ifName: string, meta: Metadata,
                    rs: seq<Range>, exclusions: seq<Range>, r: AllocResult)
    requires DynamicOutcome(before, after, poolKey, id, ifName, meta, rs, exclusions, r) && r.Granted?
    ensures ReserveVerdict(before, poolKey, id, ifName, r.address) == NoError
  {
  }

  // ----- all pools -----

  /** One reservation per pool, at the addresses listed, each as its pool picks it, and nothing else changed. */
  ghost predicate Batch(before: Root, after: Root, configs: map<string, PoolConfig>, p: Params, pools: seq<string>,
                        addrs: seq<Address>) {
    && |pools| == |addrs|
    && NoRepeats(pools)
    && (forall i {:trigger InBatch(before, after, configs, p, pools[i], addrs[i])} :: 0 <= i < |pools| ==>
          InBatch(before, after, configs, p, pools[i], addrs[i]))
    && Elsewhere(before, after, set q | q in pools)
  }

  ghost predicate NoRepeats(pools: seq<string>) {
    forall i, j :: 0 <= i < j < |pools| ==> Differ(pools, i, j)
  }

  ghost predicate Differ(pools: seq<string>, i: int, j: int) {
    0 <= i < |pools| && 0 <= j < |pools| && pools[i] != pools[j]
  }

  ghost predicate InBatch(before: Root, after: Root, configs: map<string, PoolConfig>, p: Params, q: string, a: Address) {
    && q in after && q in configs && RangesOk(configs[q])
    && AddedTo(PoolOf(before, q), PoolOf(after, q), p.id, p.ifName, MetadataFor(p, configs[q]), a)
    && PickedIn(PoolOf(before, q), PoolOf(after, q), configs[q], p, a)
  }

  lemma BatchExtend(before: Root, mid: Root, after: Root, configs: map<string, PoolConfig>, p: Params, pools: seq<string>,
                    addrs: seq<Address>, q: string, a: Address)
    requires Batch(before, mid, configs, p, pools, addrs)
    requires q in configs && AddedOne(mid, after, q, p.id, p.ifName, MetadataFor(p, configs[q]), a) && RangesOk(configs[q]) && PickedIn(PoolOf(mid, q), PoolOf(after, q), configs[q], p, a)
    ensures Batch(before, after, configs, p, pools + [q], addrs + [a])
  {
    forall i | 0 <= i < |pools| ensures pools[i] != q {
      assert InBatch(before, mid, configs, p, pools[i], addrs[i]);
    }
    assert q !in pools;
    assert SamePool(before, mid, q);
    var all := pools + [q];
    forall i, j | 0 <= i < j < |all| ensures Differ(all, i, j) {
      assert j < |pools| ==> Differ(pools, i, j);
    }
    forall i | 0 <= i < |pools| ensures InBatch(before, after, configs, p, pools[i], addrs[i]) {
      assert InBatch(before, mid, configs, p, pools[i], addrs[i]);
      assert SamePool(mid, after, pools[i]);
    }
    assert InBatch(before, after, configs, p, q, a);
    forall x | x !in (set y | y in all) ensures SamePool(before, after, x) {
      assert x !in (set y | y in pools) && x !in {q};
      assert SamePool(before, mid, x) && SamePool(mid, after, x);
    }
  }

  /** Some pool of the request selects this very address. */
  ghost predicate Matched(configs: map<string, PoolConfig>, p: Params, ip: Address) {
    exists k :: 0 <= k < |p.pools| && SelectsAt(configs, p, p.pools[k], ip)
  }

  ghost predicate SelectsAt(configs: map<string, PoolConfig>, p: Params, q: string, ip: Address) {
    q in configs && RangesOk(configs[q]) && Selected(configs[q], p) == Static(ip)
  }

  /** A requested address that no pool of the request selects. */
  ghost predicate SomeUnmatched(configs: map<string, PoolConfig>, p: Params) {
    exists ip :: ip in p.requestedIPs && !Matched(configs, p, ip)
  }

  /** A requested address is among the results exactly when a pool selects it: a pool that grants dynamically has no
      requested address in its subnet. */
  lemma RequestedExactly(before: Root, after: Root, configs: map<string, PoolConfig>, p: Params, addrs: seq<Address>, ip: Address)
    requires Batch(before, after, configs, p, p.pools, addrs) && ip in p.requestedIPs
    ensures ip in addrs <==> Matched(configs, p, ip)
  {
    forall k | 0 <= k < |addrs| ensures addrs[k] == ip <==> SelectsAt(configs, p, p.pools[k], ip) {
      assert InBatch(before, after, configs, p, p.pools[k], addrs[k]);
      var cfg := configs[p.pools[k]];
      RangesGood(cfg);
      assert GoodAt(RangesOf(cfg), 0);
    }
  }

  datatype Response = Allocated(addrs: seq<Address>) | Failed

  method AllocateAll(session: Session, p: Params, configs: map<string, PoolConfig>) returns (r: Response)
    requires session.Valid() && !session.isClosed
    modifies session, session.repr
    ensures session.Valid() && !session.isClosed
    ensures forall o :: o in session.repr ==> o in old(session.repr) || fresh(o)
    ensures r.Allocated? ==>
              && Batch(old(session.data), session.data, configs, p, p.pools, r.addrs)
              && (forall ip :: ip in p.requestedIPs ==> ip in r.addrs)
              && (|p.pools| > 0 ==> session.isModified)
    ensures r.Failed? <==> SomePoolFails(old(session.data), configs, p) || SomeUnmatched(configs, p)
  {
    r := AllocatePools(session, p, configs);
    if r.Failed? {
      return;
    }
    var all := HasRequested(p.requestedIPs, r.addrs);
    forall ip | ip in p.requestedIPs ensures ip in r.addrs <==> Matched(configs, p, ip) {
      RequestedExactly(old(session.data), session.data, configs, p, r.addrs, ip);
    }
    if !all {
      return Failed;
    }
  }

  method HasRequested(ips: seq<Address>, addrs: seq<Address>) returns (b: bool)
    ensures b <==> forall ip :: ip in ips ==> ip in addrs
  {
    for i := 0 to |ips|
      invariant forall k :: 0 <= k < i ==> ips[k] in addrs
    {
      if ips[i] !in addrs {
        return false;
      }
    }
    return true;
  }

  method AllocatePools(session: Session, p: Params, configs: map<string, PoolConfig>) returns (r: Response)
    requires session.Valid() && !session.isClosed
    modifies session, session.repr
    ensures session.Valid() && !session.isClosed
    ensures forall o :: o in session.repr ==> o in old(session.repr) || fresh(o)
    ensures r.Allocated? ==> Batch(old(session.data), session.data, configs, p, p.pools, r.addrs)
    ensures r.Allocated? && |p.pools| > 0 ==> session.isModified
    ensures r.Failed? <==> SomePoolFails(old(session.data), configs, p)
  {
    var addrs: seq<Address> := [];
    ghost var before := session.data;
    for i := 0 to |p.pools|
      invariant session.Valid() && !session.isClosed
      invariant forall o :: o in session.repr ==> o in old(session.repr) || fresh(o)
      invariant Batch(before, session.data, configs, p, p.pools[..i], addrs)
      invariant i > 0 ==> session.isModified
      invariant NoneFailsBefore(before, configs, p, i)
    {
      ghost var earlier := p.pools[..i];
      var one := NextPool(session, p, configs, p.pools[i], before, earlier, addrs);
      NextFails(before, configs, p, i);
      if one.Err? {
        return Failed;
      }
      FrontGrows(p.pools, i);
      addrs := addrs + [one.address];
    }
    FrontGrows(p.pools, |p.pools|);
    return Allocated(addrs);
  }

  lemma FrontGrows(pools: seq<string>, i: nat)
    requires i <= |pools|
    ensures if i < |pools| then pools[..i + 1] == pools[..i] + [pools[i]] else pools[..i] == pools
  {
  }

  ghost predicate NoneFailsBefore(before: Root, configs: map<string, PoolConfig>, p: Params, n: nat) {
    forall k :: 0 <= k < n ==> !PoolFailsAt(before, configs, p, k)
  }

  lemma NextFails(before: Root, configs: map<string, PoolConfig>, p: Params, n: nat)
    requires n < |p.pools| && NoneFailsBefore(before, configs, p, n)
    ensures PoolFails(before, configs, p, p.pools[..n], p.pools[n]) ==> SomePoolFails(before, configs, p)
    ensures !PoolFails(before, configs, p, p.pools[..n], p.pools[n]) ==> NoneFailsBefore(before, configs, p, n + 1)
  {
    var _ := PoolFailsAt(before, configs, p, n);
  }

  ghost predicate SomePoolFails(before: Root, configs: map<string, PoolConfig>, p: Params) {
    exists k :: PoolFailsAt(before, configs, p, k)
  }

  ghost predicate PoolFailsAt(before: Root, configs: map<string, PoolConfig>, p: Params, k: int) {
    0 <= k < |p.pools| && PoolFails(before, configs, p, p.pools[..k], p.pools[k])
  }

  method NextPool(session: Session, p: Params, configs: map<string, PoolConfig>, q: string,
                  ghost before: Root, ghost pools: seq<string>, ghost addrs: seq<Address>) returns (one: PoolResult)
    requires session.Valid() && !session.isClosed && Batch(before, session.data, configs, p, pools, addrs)
    modifies session, session.repr
    ensures session.Valid() && !session.isClosed
    ensures forall o :: o in session.repr ==> o in old(session.repr) || fresh(o)
    ensures one.Ok? ==> Batch(before, session.data, configs, p, pools + [q], addrs + [one.address]) && session.isModified
    ensures one.Err? <==> PoolFails(before, configs, p, pools, q)
  {
    if q !in configs {
      return Err;
    }
    ghost var mid := session.data;
    one := AllocateInPool(session, configs[q], p, q);
    if one.Ok? {
      PickedInPool(mid, session.data, q, configs[q], p, one.address);
      BatchExtend(before, mid, session.data, configs, p, pools, addrs, q, one.address);
    }
    SeenOrSame(before, mid, configs, p, pools, addrs, q);
  }

  /** Why a pool of a request fails: it was named before, it is unknown, or it cannot serve the request. */
  ghost predicate PoolFails(before: Root, configs: map<string, PoolConfig>, p: Params, earlier: seq<string>, q: string) {
    q in earlier || q !in configs || CannotServe(PoolOf(before, q), configs[q], p)
  }

  /** Earlier pools of a request do not influence later ones, except when a pool is named twice. */
  lemma SeenOrSame(before: Root, mid: Root, configs: map<string, PoolConfig>, p: Params, pools: seq<string>, addrs: seq<Address>,
                   q: string)
    requires Batch(before, mid, configs, p, pools, addrs) && q in configs
    ensures q in pools ==> CannotServe(PoolOf(mid, q), configs[q], p)
    ensures q !in pools ==> PoolOf(mid, q) == PoolOf(before, q)
  {
    if q in pools {
      var i :| 0 <= i < |pools| && pools[i] == q;
      assert InBatch(before, mid, configs, p, pools[i], addrs[i]);
    } else {
      assert SamePool(before, mid, q);
    }
  }

  /** Ends a session: commit when there was no error, cancel otherwise. */
  method CloseSession(session: Session, failed: bool, writeOk: bool) returns (ok: bool)
    requires session.Valid() && !session.isClosed
    modifies session`isClosed, session.store, session.store.persisted
    ensures session.store.Valid() && !session.store.locked && session.isClosed
    ensures forall o :: o in session.store.repr ==> o in old(session.store.repr) || o in session.repr
    ensures ok <==> !failed && (!session.isModified || writeOk)
    ensures session.store.committed == if ok then old(session.data) else old(session.store.committed)
  {
    if failed {
      session.Cancel();
      return false;
    }
    ok := session.Commit(writeOk);
  }

  /** The Allocate handler. It succeeds exactly when the request is valid, every pool can serve it, every requested
      address is selected by a pool, and the write succeeds. Then one active reservation per requested pool is
      committed under the caller's key, at the address and with the cursor that pool's turn gives, every requested
      address among them, and nothing else changes. A failure leaves what is committed exactly as it was. What is on
      disk is what is committed, always. */
  method AllocateHandler(store: FileStore, p: Params, configs: map<string, PoolConfig>, canceled: bool, writeOk: bool)
    returns (r: Response)
    requires store.Valid() && !store.locked
    modifies store, store.persisted
    ensures store.Valid() && !store.locked
    ensures forall o :: o in store.repr ==> o in old(store.repr) || fresh(o)
    ensures r.Allocated? <==>
              && ValidRequest(p) && !canceled && writeOk
              && !SomePoolFails(old(store.committed), configs, p) && !SomeUnmatched(configs, p)
    ensures r.Allocated? ==>
              && Batch(old(store.committed), store.committed, configs, p, p.pools, r.addrs)
              && (forall ip :: ip in p.requestedIPs ==> ip in r.addrs)
    ensures r.Failed? ==> store.committed == old(store.committed)
  {
    var valid := ValidateRequest(p);
    if !valid {
      return Failed;
    }
    if canceled {
      OpenAndCancel(store);
      return Failed;
    }
    var session := store.Open();
    r := AllocateAndClose(session, p, configs, writeOk);
  }

  /** A request that is found cancelled once its session is open. */
  method OpenAndCancel(store: FileStore)
    requires store.Valid() && !store.locked
    modifies store, store.persisted
    ensures store.Valid() && !store.locked && store.committed == old(store.committed)
    ensures forall o :: o in store.repr ==> o in old(store.repr) || fresh(o)
  {
    var session := store.Open();
    var _ := CloseSession(session, true, true);
  }

  method AllocateAndClose(session: Session, p: Params, configs: map<string, PoolConfig>, writeOk: bool) returns (r: Response)
    requires session.Valid() && !session.isClosed && !session.isModified && ValidRequest(p)
    modifies session, session.repr, session.store, session.store.persisted
    ensures session.store.Valid() && !session.store.locked
    ensures forall o :: o in session.store.repr ==> o in old(session.store.repr) || o in old(session.repr) || fresh(o)
    ensures AllocatedAs(old(session.data), session.store.committed, configs, p, r, writeOk)
  {
    ghost var before := session.data;
    r := AllocateAll(session, p, configs);
    ghost var done, work := r, session.data;
    assert session.store.repr == old(session.store.repr) && session.store.committed == before;
    var ok := CloseSession(session, r.Failed?, writeOk);
    if !ok {
      r := Failed;
    }
    AllocationEnds(before, work, session.store.committed, configs, p, done, r, writeOk);
  }

  /** How an allocation ends. */
  ghost predicate AllocatedAs(before: Root, after: Root, configs: map<string, PoolConfig>, p: Params, r: Response, writeOk: bool) {
    && (r.Allocated? <==> writeOk && !SomePoolFails(before, configs, p) && !SomeUnmatched(configs, p))
    && (r.Allocated? ==> Batch(before, after, configs, p, p.pools, r.addrs) && forall ip :: ip in p.requestedIPs ==> ip in r.addrs)
    && (r.Failed? ==> after == before)
  }

  lemma AllocationEnds(before: Root, work: Root, after: Root, configs: map<string, PoolConfig>, p: Params, done: Response,
                       r: Response, writeOk: bool)
    requires done.Failed? <==> SomePoolFails(before, configs, p) || SomeUnmatched(configs, p)
    requires done.Allocated? ==> Batch(before, work, configs, p, p.pools, done.addrs) && forall ip :: ip in p.requestedIPs ==> ip in done.addrs
    requires r == if done.Allocated? && writeOk then done else Failed
    requires after == if done.Allocated? && writeOk then work else before
    ensures AllocatedAs(before, after, configs, p, r, writeOk)
  {
  }

  // ----- deallocate -----

  ghost function ReleasedAll(root: Root, pools: seq<string>, id: string, ifName: string, cooldown: int, times: seq<int>): Root
    requires |times| == |pools|
  {
    if pools == [] then root
    else
      var n := |pools| - 1;
      Released(ReleasedAll(root, pools[..n], id, ifName, cooldown, times[..n]), pools[n], id, ifName, cooldown, times[n])
  }

  /** With no pool named twice, each pool named gets its release, as if it were the only one, and no other pool changes. */
  lemma {:induction false} ReleasedAllExactly(root: Root, pools: seq<string>, id: string, ifName: string, cooldown: int,
                                              times: seq<int>, q: string, k: nat)
    requires |times| == |pools| && NoRepeats(pools)
    ensures var root' := ReleasedAll(root, pools, id, ifName, cooldown, times);
            && (q !in pools ==> SamePool(root, root', q))
            && (k < |pools| && pools[k] == q ==> PoolOf(root', q) == PoolOf(Released(root, q, id, ifName, cooldown, times[k]), q))
  {
    if pools != [] {
      var n := |pools| - 1;
      var front, mid := pools[..n], ReleasedAll(root, pools[..n], id, ifName, cooldown, times[..n]);
      FrontNoRepeats(pools);
      ReleasedAllExactly(root, front, id, ifName, cooldown, times[..n], q, k);
      ReleasedAllExactly(root, front, id, ifName, cooldown, times[..n], pools[n], n);
      ReleasedSame(root, mid, pools[n], id, ifName, cooldown, times[n], q);
    }
  }

  lemma FrontNoRepeats(pools: seq<string>)
    requires pools != [] && NoRepeats(pools)
    ensures var n := |pools| - 1; NoRepeats(pools[..n]) && pools[n] !in pools[..n] && pools == pools[..n] + [pools[n]]
  {
    var n := |pools| - 1;
    forall i, j | 0 <= i < j < n ensures Differ(pools[..n], i, j) {
      assert Differ(pools, i, j);
    }
    forall i | 0 <= i < n ensures pools[i] != pools[n] {
      assert Differ(pools, i, n);
    }
  }

  /** A release depends on its pool only, and changes no other. */
  lemma ReleasedSame(root: Root, mid: Root, p: string, id: string, ifName: string, cooldown: int, now: int, q: string)
    ensures q != p ==> SamePool(mid, Released(mid, p, id, ifName, cooldown, now), q)
    ensures SamePool(root, mid, p) ==>
              PoolOf(Released(mid, p, id, ifName, cooldown, now), p) == PoolOf(Released(root, p, id, ifName, cooldown, now), p)
  {
  }

  /** The release in the k-th pool does something. */
  predicate ReleasesAt(root: Root, p: Params, cooldown: int, times: seq<int>, k: int)
    requires |times| == |p.pools|
  {
    0 <= k < |times| && ReleaseVerdict(root, p.pools[k], p.id, p.ifName, cooldown, times[k]) != Nothing
  }

  ghost predicate SomeRelease(root: Root, p: Params, cooldown: int, times: seq<int>)
    requires |times| == |p.pools|
  {
    SomeReleaseBefore(root, p, cooldown, times, |times|)
  }

  ghost predicate SomeReleaseBefore(root: Root, p: Params, cooldown: int, times: seq<int>, n: nat)
    requires |times| == |p.pools|
  {
    exists k :: k < n && ReleasesAt(root, p, cooldown, times, k)
  }

  lemma OneMoreRelease(root: Root, p: Params, cooldown: int, times: seq<int>, n: nat)
    requires n < |times| == |p.pools|
    ensures SomeReleaseBefore(root, p, cooldown, times, n + 1)
            <==> SomeReleaseBefore(root, p, cooldown, times, n) || ReleasesAt(root, p, cooldown, times, n)
  {
    if SomeReleaseBefore(root, p, cooldown, times, n) {
      var k :| k < n && ReleasesAt(root, p, cooldown, times, k);
      assert k < n + 1;
    }
    assert n < n + 1;
  }

  /** The Deallocate handler: releases the caller's entry in each pool, with the clock read once per pool. */
  method DeallocateHandler(store: FileStore, p: Params, cooldown: int, times: seq<int>, canceled: bool, writeOk: bool)
    returns (ok: bool)
    requires store.Valid() && !store.locked && |times| == |p.pools|
    modifies store, store.persisted
    ensures store.Valid() && !store.locked
    ensures forall o :: o in store.repr ==> o in old(store.repr) || fresh(o)
    ensures ok <==>
              && ValidRequest(p) && !canceled
              && (writeOk || !SomeRelease(old(store.committed), p, cooldown, times))
    ensures ok ==> store.committed == ReleasedAll(old(store.committed), p.pools, p.id, p.ifName, cooldown, times)
    ensures !ok ==> store.committed == old(store.committed)
  {
    var valid := ValidateRequest(p);
    if !valid {
      return false;
    }
    if canceled {
      OpenAndCancel(store);
      return false;
    }
    var session := store.Open();
    ok := ReleaseAndClose(session, p, cooldown, times, writeOk);
  }

  method ReleaseAndClose(session: Session, p: Params, cooldown: int, times: seq<int>, writeOk: bool) returns (ok: bool)
    requires session.Valid() && !session.isClosed && !session.isModified && |times| == |p.pools|
    modifies session, session.repr, session.store, session.store.persisted
    ensures session.store.Valid() && !session.store.locked
    ensures forall o :: o in session.store.repr ==> o in old(session.store.repr) || o in old(session.repr) || fresh(o)
    ensures DeallocatedAs(old(session.data), session.store.committed, p, cooldown, times, ok, writeOk)
  {
    ReleaseAll(session, p, cooldown, times);
    ghost var work, modified := session.data, session.isModified;
    assert session.store.repr == old(session.store.repr) && session.store.committed == old(session.data);
    ok := CloseSession(session, false, writeOk);
    DeallocationEnds(old(session.data), work, session.store.committed, p, cooldown, times, modified, ok, writeOk);
  }

  /** How a deallocation ends: it fails only with a write that is needed, and commits the releases or nothing. */
  ghost predicate DeallocatedAs(before: Root, after: Root, p: Params, cooldown: int, times: seq<int>, ok: bool, writeOk: bool)
    requires |times| == |p.pools|
  {
    && (ok <==> writeOk || !SomeRelease(before, p, cooldown, times))
    && after == if ok then ReleasedAll(before, p.pools, p.id, p.ifName, cooldown, times) else before
  }

  /** The releases of a session, and whether they did anything. */
  ghost predicate ReleasedIn(before: Root, work: Root, p: Params, cooldown: int, times: seq<int>, modified: bool)
    requires |times| == |p.pools|
  {
    && work == ReleasedAll(before, p.pools, p.id, p.ifName, cooldown, times)
    && (modified <==> SomeRelease(before, p, cooldown, times))
  }

  lemma DeallocationEnds(before: Root, work: Root, after: Root, p: Params, cooldown: int, times: seq<int>, modified: bool,
                         ok: bool, writeOk: bool)
    requires |times| == |p.pools| && ReleasedIn(before, work, p, cooldown, times, modified)
    requires (ok <==> !modified || writeOk) && after == if ok then work else before
    ensures DeallocatedAs(before, after, p, cooldown, times, ok, writeOk)
  {
  }

  method ReleaseAll(session: Session, p: Params, cooldown: int, times: seq<int>)
    requires session.Valid() && !session.isClosed && !session.isModified && |times| == |p.pools|
    modifies session, session.repr
    ensures session.Valid() && !session.isClosed
    ensures forall o :: o in session.repr ==> o in old(session.repr) || fresh(o)
    ensures ReleasedIn(old(session.data), session.data, p, cooldown, times, session.isModified)
  {
    ghost var before := session.data;
    for i := 0 to |p.pools|
      invariant session.Valid() && !session.isClosed
      invariant forall o :: o in session.repr ==> o in old(session.repr) || fresh(o)
      invariant ReleasedUpTo(before, session.data, p, cooldown, times, i, session.isModified)
    {
      ReleasedOneMore(before, session.data, p, cooldown, times, i, session.isModified);
      var _ := session.ReleaseReservationByID(p.pools[i], p.id, p.ifName, cooldown, times[i]);
    }
    AllReleased(before, session.data, p, cooldown, times, session.isModified);
  }

  lemma AllReleased(before: Root, work: Root, p: Params, cooldown: int, times: seq<int>, modified: bool)
    requires |times| == |p.pools| && ReleasedUpTo(before, work, p, cooldown, times, |times|, modified)
    ensures ReleasedIn(before, work, p, cooldown, times, modified)
  {
    assert p.pools[..|p.pools|] == p.pools && times[..|times|] == times;
  }

  /** The same for the first `n` pools. */
  ghost predicate ReleasedUpTo(before: Root, work: Root, p: Params, cooldown: int, times: seq<int>, n: nat, modified: bool)
    requires n <= |times| == |p.pools|
  {
    && work == ReleasedAll(before, p.pools[..n], p.id, p.ifName, cooldown, times[..n])
    && (modified <==> SomeReleaseBefore(before, p, cooldown, times, n))
    && (!modified ==> work == before)
  }

  lemma ReleasedOneMore(before: Root, work: Root, p: Params, cooldown: int, times: seq<int>, n: nat, modified: bool)
    requires n < |times| == |p.pools| && ReleasedUpTo(before, work, p, cooldown, times, n, modified)
    ensures ReleasedUpTo(before, Released(work, p.pools[n], p.id, p.ifName, cooldown, times[n]), p, cooldown, times, n + 1,
                         modified || ReleaseVerdict(work, p.pools[n], p.id, p.ifName, cooldown, times[n]) != Nothing)
  {
    OneMoreRelease(before, p, cooldown, times, n);
    assert p.pools[..n + 1][..n] == p.pools[..n] && times[..n + 1][..n] == times[..n];
  }
}
