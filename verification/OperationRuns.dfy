/** Runs of whole operations on one store. NodeRuns interleaves single session steps; here a run is made of what
    AllocateHandler, DeallocateHandler and a cleaner pass leave committed; Daemon.Serve proves that any sequence of
    them, with restarts, commits such a run. */
module OperationRuns {
  import opened Addresses
  import opened StoreModel
  import opened NodeRuns
  import opened NodeRanges
  import opened RangeIteration
  import opened NodeAllocator
  import opened RoundRobin
  import opened Handlers
  import opened StaleCleaner

  datatype Operation =
    | Allocated(p: Params, configs: map<string, PoolConfig>, addrs: seq<Address>)
    | Deallocated(p: Params, times: seq<int>)
    | Cleaned(u: Setup, stale: map<string, nat>, configured: set<string>)
    | NothingCommitted

  /** `times` are readings of the clock from `t0` to `t1`. */
  predicate Readings(t0: int, times: seq<int>, t1: int) {
    t0 <= t1 && (forall i :: 0 <= i < |times| ==> t0 <= times[i] <= t1)
    && forall i, j :: 0 <= i < j < |times| ==> times[i] <= times[j]
  }

  /** What an operation between `t0` and `t1` commits. */
  ghost predicate Commits(cooldown: int, t0: int, before: Root, op: Operation, t1: int, after: Root) {
    t0 <= t1
    && match op
       case Allocated(p, configs, addrs) => Batch(before, after, configs, p, p.pools, addrs)
       case Deallocated(p, times) =>
         |times| == |p.pools| && Readings(t0, times, t1)
         && after == ReleasedAll(before, p.pools, p.id, p.ifName, cooldown, times)
       case Cleaned(u, stale, configured) =>
         u.d == before && u.cooldown == cooldown && u.t0 == t0 && PassDone(u, after, stale, configured, t1)
       case NothingCommitted => after == before
  }

  ghost predicate Operations(cooldown: int, states: seq<Root>, times: seq<int>, ops: seq<Operation>) {
    && |states| == |times| == |ops| + 1
    && forall i :: 0 <= i < |ops| ==> Commits(cooldown, times[i], states[i], ops[i], times[i + 1], states[i + 1])
  }

  // ----- no double-held address -----

  lemma BatchConsistent(before: Root, after: Root, configs: map<string, PoolConfig>, p: Params, addrs: seq<Address>)
    requires Consistent(before) && Batch(before, after, configs, p, p.pools, addrs)
    ensures Consistent(after)
  {
    forall q | q in after ensures ConsistentPool(after[q].entries) {
      if q in p.pools {
        var i :| 0 <= i < |p.pools| && p.pools[i] == q;
        assert InBatch(before, after, configs, p, p.pools[i], addrs[i]);
        AddedConsistent(PoolOf(before, q).entries, after[q].entries, Key(p.id, p.ifName), addrs[i]);
      } else {
        assert SamePool(before, after, q);
      }
    }
  }

  lemma AddedConsistent(old': map<string, Reservation>, new': map<string, Reservation>, key: string, a: Address)
    requires ConsistentPool(old') && !HasAddress(old', a) && key in new' && new' - {key} == old'
    requires new'[key].address == a && key == Key(new'[key].containerID, new'[key].interfaceName)
    ensures ConsistentPool(new')
  {
    forall k | k in new' ensures k != key ==> k in old' && old'[k] == new'[k] {
      assert k != key ==> k in new' - {key};
    }
  }

  lemma {:induction false} ReleasedAllConsistent(root: Root, pools: seq<string>, id: string, ifName: string,
                                                  cooldown: int, times: seq<int>)
    requires Consistent(root) && |times| == |pools|
    ensures Consistent(ReleasedAll(root, pools, id, ifName, cooldown, times))
  {
    if pools != [] {
      var n := |pools| - 1;
      ReleasedAllConsistent(root, pools[..n], id, ifName, cooldown, times[..n]);
      ReleaseConsistent(ReleasedAll(root, pools[..n], id, ifName, cooldown, times[..n]), pools[n], id, ifName, cooldown, times[n]);
    }
  }

  lemma PassConsistent(u: Setup, after: Root, stale: map<string, nat>, configured: set<string>, t1: int)
    requires Consistent(u.d) && PassDone(u, after, stale, configured, t1)
    ensures Consistent(after)
  {
    forall p | p in after ensures ConsistentPool(after[p].entries) {
      assert ConsistentPool(u.d[p].entries);
      forall k | k in after[p].entries
        ensures k in u.d[p].entries && after[p].entries[k].(releasedAt := None) == u.d[p].entries[k].(releasedAt := None)
      {
        assert ReservationAt(after, p, k).Some?;
        assert Final(u, after, stale, t1, p, k);
      }
    }
  }

  lemma CommitConsistent(cooldown: int, t0: int, before: Root, op: Operation, t1: int, after: Root)
    requires Commits(cooldown, t0, before, op, t1, after) && Consistent(before)
    ensures Consistent(after)
  {
    match op
    case Allocated(p, configs, addrs) => BatchConsistent(before, after, configs, p, addrs);
    case Deallocated(p, ts) => ReleasedAllConsistent(before, p.pools, p.id, p.ifName, cooldown, ts);
    case Cleaned(u, stale, configured) => PassConsistent(u, after, stale, configured, t1);
    case NothingCommitted =>
  }

  /** In every committed state of every run of operations no address is held twice in a pool, and every entry is
      under its owner's key. */
  lemma {:induction false} OperationsConsistent(cooldown: int, states: seq<Root>, times: seq<int>, ops: seq<Operation>, i: nat)
    requires Operations(cooldown, states, times, ops) && Consistent(states[0]) && i < |states|
    ensures Consistent(states[i])
  {
    if i > 0 {
      OperationsConsistent(cooldown, states, times, ops, i - 1);
      CommitConsistent(cooldown, times[i - 1], states[i - 1], ops[i - 1], times[i], states[i]);
    }
  }

  // ----- the cooldown floor -----

  lemma WaitKeeps(cooldown: int, t0: int, a: Root, t1: int)
    requires t0 <= t1
    ensures Floor(cooldown, t0, a, t1, a)
  {
  }

  lemma BatchFloor(cooldown: int, t0: int, before: Root, t1: int, after: Root, configs: map<string, PoolConfig>, p: Params,
                   addrs: seq<Address>)
    requires t0 <= t1 && Batch(before, after, configs, p, p.pools, addrs)
    ensures Floor(cooldown, t0, before, t1, after)
  {
    forall q, k | q in before && k in before[q].entries ensures KeptIn(before[q].entries[k], q, k, t0, after) {
      if q in p.pools {
        var i :| 0 <= i < |p.pools| && p.pools[i] == q;
        assert InBatch(before, after, configs, p, p.pools[i], addrs[i]);
        assert k in after[q].entries - {Key(p.id, p.ifName)};
      } else {
        assert SamePool(before, after, q);
      }
    }
  }

  lemma {:induction false} ReleasedAllFloor(cooldown: int, t0: int, root: Root, t1: int, pools: seq<string>,
                                             id: string, ifName: string, times: seq<int>)
    requires cooldown > 0 && |times| == |pools| && Readings(t0, times, t1)
    ensures Floor(cooldown, t0, root, t1, ReleasedAll(root, pools, id, ifName, cooldown, times))
    decreases |pools|
  {
    if pools == [] {
      WaitKeeps(cooldown, t0, root, t1);
    } else {
      var n := |pools| - 1;
      var mid := ReleasedAll(root, pools[..n], id, ifName, cooldown, times[..n]);
      ReleasedAllFloor(cooldown, t0, root, times[n], pools[..n], id, ifName, times[..n]);
      var end := Released(mid, pools[n], id, ifName, cooldown, times[n]);
      forall p, k | p in mid && k in mid[p].entries && t1 < Since(mid[p].entries[k], times[n]) + cooldown
        ensures KeptIn(mid[p].entries[k], p, k, times[n], end)
      {
        ReleaseKeeps(mid, pools[n], id, ifName, cooldown, times[n], p, k);
      }
      FloorTransitive(cooldown, t0, root, times[n], mid, t1, end);
    }
  }

  /** A cleaner pass drops no reservation that is active or still cooling down. */
  lemma PassFloor(u: Setup, after: Root, stale: map<string, nat>, configured: set<string>, t1: int)
    requires u.cooldown > 0 && PassDone(u, after, stale, configured, t1)
    ensures Floor(u.cooldown, u.t0, u.d, t1, after)
  {
    forall p, k | p in u.d && k in u.d[p].entries && t1 < Since(u.d[p].entries[k], u.t0) + u.cooldown
      ensures KeptIn(u.d[p].entries[k], p, k, u.t0, after)
    {
      var _ := ReservationAt(after, p, k);
      assert Final(u, after, stale, t1, p, k);
    }
  }

  /** Over every run of operations with a cooldown: an entry committed at any point stays, with its address and its
      release time once that is set, until the cooldown has passed since its release. */
  lemma {:induction false} OperationsFloor(cooldown: int, states: seq<Root>, times: seq<int>, ops: seq<Operation>, i: nat, j: nat)
    requires cooldown > 0 && Operations(cooldown, states, times, ops) && i <= j < |states|
    ensures times[i] <= times[j] && Floor(cooldown, times[i], states[i], times[j], states[j])
    decreases j
  {
    if i == j {
      FloorReflexive(cooldown, times[i], states[i]);
    } else {
      OperationsFloor(cooldown, states, times, ops, i, j - 1);
      var t0, t1, a, b := times[j - 1], times[j], states[j - 1], states[j];
      assert Commits(cooldown, t0, a, ops[j - 1], t1, b);
      match ops[j - 1] {
        case Allocated(p, configs, addrs) => BatchFloor(cooldown, t0, a, t1, b, configs, p, addrs);
        case Deallocated(p, ts) => ReleasedAllFloor(cooldown, t0, a, t1, p.pools, p.id, p.ifName, ts);
        case Cleaned(u, stale, configured) => PassFloor(u, b, stale, configured, t1);
        case NothingCommitted => WaitKeeps(cooldown, t0, a, t1);
      }
      FloorTransitive(cooldown, times[i], states[i], t0, a, t1, b);
    }
  }

  // ----- fairness -----

  /** The operation sees pool `q` with this configuration. */
  predicate KeepsConfig(op: Operation, q: string, cfg: PoolConfig) {
    match op
    case Allocated(p, configs, addrs) => q in configs && configs[q] == cfg
    case Cleaned(u, stale, configured) => q in configured
    case _ => true
  }

  /** The operation grants address `a` of pool `q` dynamically. */
  ghost predicate GrantsFrom(op: Operation, q: string, cfg: PoolConfig, a: Address)
    requires RangesOk(cfg)
  {
    op.Allocated? && Selected(cfg, op.p) == Dynamic
    && exists i :: 0 <= i < |op.p.pools| && i < |op.addrs| && op.p.pools[i] == q && op.addrs[i] == a
  }

  lemma {:induction false} ReleasedAllShrinks(root: Root, pools: seq<string>, id: string, ifName: string, cooldown: int,
                                              times: seq<int>, q: string)
    requires |times| == |pools|
    ensures Shrinks(PoolOf(root, q), PoolOf(ReleasedAll(root, pools, id, ifName, cooldown, times), q))
  {
    if pools != [] {
      var n := |pools| - 1;
      ReleasedAllShrinks(root, pools[..n], id, ifName, cooldown, times[..n], q);
    }
  }

  lemma PassShrinks(u: Setup, after: Root, stale: map<string, nat>, configured: set<string>, t1: int, q: string)
    requires PassDone(u, after, stale, configured, t1) && q in configured
    ensures Shrinks(PoolOf(u.d, q), PoolOf(after, q))
  {
    if q in u.d {
      assert q in after && Framed(u.d, after);
      var _ := SameFrame(u.d, after, q);
      forall k | k in after[q].entries ensures k in u.d[q].entries && after[q].entries[k].address == u.d[q].entries[k].address {
        assert ReservationAt(after, q, k).Some?;
        assert Final(u, after, stale, t1, q, k);
      }
    }
  }

  lemma BatchEvent(before: Root, after: Root, configs: map<string, PoolConfig>, p: Params, addrs: seq<Address>, q: string, i: nat)
    returns (e: Event)
    requires Batch(before, after, configs, p, p.pools, addrs) && i < |p.pools| && p.pools[i] == q
    ensures InBatch(before, after, configs, p, q, addrs[i])
    ensures Happens(RangesOf(configs[q]), ExclusionsOf(configs[q]), PoolOf(before, q), e, PoolOf(after, q))
    ensures e.DynamicGrant? <==> Selected(configs[q], p) == Dynamic
    ensures e.DynamicGrant? ==> RangesOf(configs[q])[e.range].At(e.value) == addrs[i]
  {
    assert InBatch(before, after, configs, p, p.pools[i], addrs[i]);
    var rs, exclusions, pool := RangesOf(configs[q]), ExclusionsOf(configs[q]), PoolOf(before, q);
    var meta := p.meta.(poolConfigSnapshot := configs[q].snapshot);
    if Selected(configs[q], p) == Dynamic {
      var j, v :| Slot(rs, j, v) && addrs[i] == rs[j].At(v) && FirstFree(rs, exclusions, pool.entries, pool.lastReservedIP, j, v);
      e := DynamicGrant(p.id, p.ifName, meta, j, v);
    } else {
      e := StaticGrant(p.id, p.ifName, meta, addrs[i]);
    }
  }

  /** What an operation commits is one event of each configured pool, a dynamic grant exactly when it grants an
      address of that pool dynamically. */
  lemma OperationEvent(cooldown: int, t0: int, before: Root, op: Operation, t1: int, after: Root, q: string, cfg: PoolConfig)
    returns (e: Event)
    requires RangesOk(cfg) && Commits(cooldown, t0, before, op, t1, after) && KeepsConfig(op, q, cfg)
    ensures Happens(RangesOf(cfg), ExclusionsOf(cfg), PoolOf(before, q), e, PoolOf(after, q))
    ensures e.DynamicGrant? ==> GrantsFrom(op, q, cfg, RangesOf(cfg)[e.range].At(e.value))
    ensures forall a :: GrantsFrom(op, q, cfg, a) ==> e.DynamicGrant? && RangesOf(cfg)[e.range].At(e.value) == a
  {
    match op
    case Allocated(p, configs, addrs) =>
      if q in p.pools {
        var i :| 0 <= i < |p.pools| && p.pools[i] == q;
        e := BatchEvent(before, after, configs, p, addrs, q, i);
        forall j | 0 <= j < |p.pools| && p.pools[j] == q ensures j == i {
          assert Differ(p.pools, i, j) || Differ(p.pools, j, i) || i == j;
        }
      } else {
        assert SamePool(before, after, q);
        e := Losses;
      }
    case Deallocated(p, times) =>
      ReleasedAllShrinks(before, p.pools, p.id, p.ifName, cooldown, times, q);
      e := Losses;
    case Cleaned(u, stale, configured) =>
      PassShrinks(u, after, stale, configured, t1, q);
      e := Losses;
    case NothingCommitted =>
      e := Losses;
  }

  ghost predicate EventOf(cfg: PoolConfig, q: string, before: Root, op: Operation, after: Root, e: Event)
    requires RangesOk(cfg)
  {
    && Happens(RangesOf(cfg), ExclusionsOf(cfg), PoolOf(before, q), e, PoolOf(after, q))
    && (e.DynamicGrant? ==> GrantsFrom(op, q, cfg, RangesOf(cfg)[e.range].At(e.value)))
    && (forall a :: GrantsFrom(op, q, cfg, a) ==> e.DynamicGrant? && RangesOf(cfg)[e.range].At(e.value) == a)
  }

  /** A run of operations is a run of events of the pool. */
  lemma EventsOf(cooldown: int, states: seq<Root>, times: seq<int>, ops: seq<Operation>, q: string, cfg: PoolConfig)
    returns (pools: seq<PoolData>, events: seq<Event>)
    requires RangesOk(cfg) && Operations(cooldown, states, times, ops)
    requires forall i :: 0 <= i < |ops| ==> KeepsConfig(ops[i], q, cfg)
    ensures |pools| == |states| && forall i :: 0 <= i < |states| ==> pools[i] == PoolOf(states[i], q)
    ensures PoolRun(RangesOf(cfg), ExclusionsOf(cfg), pools, events)
    ensures |events| == |ops| && forall i :: 0 <= i < |ops| ==> EventOf(cfg, q, states[i], ops[i], states[i + 1], events[i])
  {
    pools := seq(|states|, i requires 0 <= i < |states| => PoolOf(states[i], q));
    events := [];
    for k := 0 to |ops|
      invariant |events| == k
      invariant forall i :: 0 <= i < k ==> EventOf(cfg, q, states[i], ops[i], states[i + 1], events[i])
    {
      var e := OperationEvent(cooldown, times[k], states[k], ops[k], times[k + 1], states[k + 1], q, cfg);
      events := events + [e];
    }
    forall k | 0 <= k < |events| ensures Happens(RangesOf(cfg), ExclusionsOf(cfg), pools[k], events[k], pools[k + 1]) {
      assert EventOf(cfg, q, states[k], ops[k], states[k + 1], events[k]);
    }
  }

  /** An address of the configured range that a dynamic request may get. */
  ghost predicate AllocatableIn(cfg: PoolConfig, a: Address)
    requires RangesOk(cfg)
  {
    a == RangesOf(cfg)[0].At(a.value) && Allocatable(RangesOf(cfg), ExclusionsOf(cfg), 0, a.value)
  }

  /** The walk that starts after address `from` comes to `a` no later than to `to`. */
  ghost predicate ComesBy(cfg: PoolConfig, from: Address, a: Address, to: Address)
    requires RangesOk(cfg)
  {
    var rs := RangesOf(cfg);
    && Slot(rs, 0, from.value) && Slot(rs, 0, a.value) && Slot(rs, 0, to.value)
    && Reaches(Pos(rs, 0, from.value), Pos(rs, 0, a.value), Pos(rs, 0, to.value), Total(rs))
  }

  /** Operation `k` makes a dynamic grant on a walk from the cursor, left by an earlier dynamic grant, that comes by
      `y`; and `y` is what it grants, or somebody held `y` then. */
  ghost predicate HadItsTurn(states: seq<Root>, ops: seq<Operation>, q: string, cfg: PoolConfig, a: nat, k: nat, y: Address)
    requires RangesOk(cfg) && a < k < |ops| < |states|
  {
    exists m, from, to ::
      && a <= m < k && GrantsFrom(ops[m], q, cfg, from) && GrantsFrom(ops[k], q, cfg, to)
      && PoolOf(states[k], q).lastReservedIP == Some(from) && ComesBy(cfg, from, y, to)
      && (to == y || HasAddress(PoolOf(states[k], q).entries, y))
  }

  /** Round-robin over runs of operations: between two requests that are granted the same address of a pool
      dynamically, every allocatable address of the pool had its turn. */
  lemma OperationsFair(cooldown: int, states: seq<Root>, times: seq<int>, ops: seq<Operation>, q: string, cfg: PoolConfig,
                       a: nat, b: nat, x: Address, y: Address) returns (k: nat)
    requires RangesOk(cfg) && Operations(cooldown, states, times, ops)
    requires forall i :: 0 <= i < |ops| ==> KeepsConfig(ops[i], q, cfg)
    requires a < b < |ops| && GrantsFrom(ops[a], q, cfg, x) && GrantsFrom(ops[b], q, cfg, x) && AllocatableIn(cfg, y)
    ensures a < k <= b && HadItsTurn(states, ops, q, cfg, a, k, y)
  {
    RangesGood(cfg);
    var pools, events := EventsOf(cooldown, states, times, ops, q, cfg);
    var _, _ := EventOf(cfg, q, states[a], ops[a], states[a + 1], events[a]), EventOf(cfg, q, states[b], ops[b], states[b + 1], events[b]);
    assert OneRange(cfg, events[a]) && OneRange(cfg, events[b]);
    k := RoundRobinFair(RangesOf(cfg), ExclusionsOf(cfg), pools, events, a, b, 0, y.value);
    var m :| a <= m < k && WalkPasses(RangesOf(cfg), pools[k], events[m], events[k], Pos(RangesOf(cfg), 0, y.value));
    TurnTaken(states, ops, q, cfg, a, m, k, events[m], events[k], y);
  }

  /** A pool has one range, so a dynamic grant names range 0. */
  ghost predicate OneRange(cfg: PoolConfig, e: Event)
    requires RangesOk(cfg)
  {
    e.DynamicGrant? && Slot(RangesOf(cfg), e.range, e.value) && e.range == 0
  }

  lemma TurnTaken(states: seq<Root>, ops: seq<Operation>, q: string, cfg: PoolConfig, a: nat, m: nat, k: nat,
                  from: Event, to: Event, y: Address)
    requires RangesOk(cfg) && a <= m < k < |ops| < |states| && AllocatableIn(cfg, y)
    requires EventOf(cfg, q, states[m], ops[m], states[m + 1], from) && EventOf(cfg, q, states[k], ops[k], states[k + 1], to)
    requires to.DynamicGrant? && WalkPasses(RangesOf(cfg), PoolOf(states[k], q), from, to, Pos(RangesOf(cfg), 0, y.value))
    requires Grants(to, 0, y.value) || HasAddress(PoolOf(states[k], q).entries, y)
    ensures HadItsTurn(states, ops, q, cfg, a, k, y)
  {
    var rs := RangesOf(cfg);
    assert from.range == 0 && to.range == 0;
    var x, z := rs[0].At(from.value), rs[0].At(to.value);
    assert GrantsFrom(ops[m], q, cfg, x) && GrantsFrom(ops[k], q, cfg, z) && ComesBy(cfg, x, y, z);
  }

  // ----- the Pod of a reservation -----

  /** What a valid Allocate request commits names its Pod, so the cleaner looks the Pod up and can free the address. */
  lemma CommittedIsLookedUp(before: Root, after: Root, configs: map<string, PoolConfig>, p: Params, addrs: seq<Address>, i: nat)
    requires Batch(before, after, configs, p, p.pools, addrs) && ValidRequest(p) && i < |p.pools|
    ensures var r := ReservationAt(after, p.pools[i], Key(p.id, p.ifName));
            && r.Some? && LookedUp(r.value) && r.value.address == addrs[i]
            && r.value.metadata.podName == p.meta.podName && r.value.metadata.podNamespace == p.meta.podNamespace
            && r.value.metadata.podUUID == p.meta.podUUID
  {
    assert InBatch(before, after, configs, p, p.pools[i], addrs[i]);
  }

  // ----- keys that decode -----

  /** A request without a bar in its container id and pool keys. */
  predicate PlainRequest(op: Operation) {
    op.Allocated? ==> '|' !in op.p.id && forall i :: 0 <= i < |op.p.pools| ==> '|' !in op.p.pools[i]
  }

  lemma {:induction false} ReleasedAllNoBars(root: Root, pools: seq<string>, id: string, ifName: string, cooldown: int, times: seq<int>)
    requires |times| == |pools| && NoBars(root)
    ensures NoBars(ReleasedAll(root, pools, id, ifName, cooldown, times))
  {
    if pools != [] {
      var n := |pools| - 1;
      ReleasedAllNoBars(root, pools[..n], id, ifName, cooldown, times[..n]);
      var mid := ReleasedAll(root, pools[..n], id, ifName, cooldown, times[..n]);
      var end := Released(mid, pools[n], id, ifName, cooldown, times[n]);
      forall p, k | ReservationAt(end, p, k).Some?
        ensures '|' !in p && '|' !in ReservationAt(end, p, k).value.containerID
      {
        assert ReservationAt(mid, p, k).Some?;
      }
    }
  }

  lemma StepNoBars(cooldown: int, t0: int, before: Root, op: Operation, t1: int, after: Root)
    requires Commits(cooldown, t0, before, op, t1, after) && NoBars(before) && PlainRequest(op)
    ensures NoBars(after)
  {
    match op
    case Allocated(p, configs, addrs) =>
      forall q, k | ReservationAt(after, q, k).Some?
        ensures '|' !in q && '|' !in ReservationAt(after, q, k).value.containerID
      {
        if q in p.pools {
          var i :| 0 <= i < |p.pools| && p.pools[i] == q;
          assert InBatch(before, after, configs, p, p.pools[i], addrs[i]);
          assert k != Key(p.id, p.ifName) ==> k in after[q].entries - {Key(p.id, p.ifName)};
          assert k != Key(p.id, p.ifName) ==> ReservationAt(before, q, k) == ReservationAt(after, q, k);
        } else {
          assert SamePool(before, after, q);
          assert ReservationAt(before, q, k) == ReservationAt(after, q, k);
        }
      }
    case Deallocated(p, times) => ReleasedAllNoBars(before, p.pools, p.id, p.ifName, cooldown, times);
    case Cleaned(u, stale, configured) =>
      forall q, k | ReservationAt(after, q, k).Some?
        ensures '|' !in q && '|' !in ReservationAt(after, q, k).value.containerID
      {
        assert Final(u, after, stale, t1, q, k);
        assert ReservationAt(before, q, k).Some?;
      }
    case NothingCommitted =>
  }

  /** So in every committed state of such a run the cleaner's keys decode, as a pass demands. */
  lemma {:induction false} OperationsDecodable(cooldown: int, states: seq<Root>, times: seq<int>, ops: seq<Operation>, i: nat)
    requires Operations(cooldown, states, times, ops) && Consistent(states[0]) && NoBars(states[0]) && i < |states|
    requires forall j :: 0 <= j < |ops| ==> PlainRequest(ops[j])
    ensures NoBars(states[i]) && Decodable(states[i])
  {
    if i > 0 {
      OperationsDecodable(cooldown, states, times, ops, i - 1);
      StepNoBars(cooldown, times[i - 1], states[i - 1], ops[i - 1], times[i], states[i]);
    }
    OperationsConsistent(cooldown, states, times, ops, i);
    ConsistentDecodable(states[i]);
  }
}
