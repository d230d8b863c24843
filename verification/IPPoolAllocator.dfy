/** The controller's block allocator for an IPPool (pkg/ipam-controller/allocator/allocator.go).

    Each node gets one block of `blockSize` addresses; blocks are laid end to end from the first address of
    the subnet. The allocator keeps a cursor and jumps over merged exclusions, and is proved to hand out
    exactly what a block-by-block scan of the whole subnet would. */
module IPPoolAllocator {
  import opened Addresses
  import opened Exclusions
  import Multiples

  datatype Config = Config(
    subnet: Subnet,
    gateway: Option<nat>,
    blockSize: int,
    exclusions: seq<ExcludeRange>,
    perNode: seq<ExcludeIndexRange>)
  {
    /** What pool validation guarantees about the ranges. The block size is checked by the allocator. */
    predicate WellFormed() {
      && subnet.Valid()
      && ValidRanges(subnet.family, exclusions)
      && (blockSize >= 1 ==> ValidIndexes(perNode, blockSize - 1))
    }

    /** The first address a block may start at: the network address only in the smallest subnets. */
    function First(): nat {
      subnet.FirstIP()
    }
  }

  datatype AllocatedRange = AllocatedRange(start: nat, end: nat)

  // ----- what a block is and when it may be handed out -----

  /** `s` starts a block. */
  predicate Aligned(c: Config, s: int)
    requires c.blockSize >= 1
  {
    s >= c.First() && (s - c.First()) % c.blockSize == 0
  }

  function BlockAt(c: Config, s: nat): AllocatedRange
    requires c.blockSize >= 1
  {
    AllocatedRange(s, s + c.blockSize - 1)
  }

  /** The block starting at `s` ends in the subnet and not on its broadcast address. */
  predicate Fits(c: Config, s: nat)
    requires c.blockSize >= 1
  {
    var end := s + c.blockSize - 1;
    c.subnet.ContainsValue(end) && !c.subnet.IsBroadcast(end)
  }

  predicate SingleGateway(c: Config, s: nat) {
    c.blockSize == 1 && c.gateway == Some(s)
  }

  ghost predicate BlockExcluded(c: Config, s: nat)
    requires c.blockSize >= 1
  {
    FullyExcluded(c.exclusions, c.perNode, s, s + c.blockSize - 1)
  }

  /** The block starting at `s` may be given to a node when the blocks starting in `taken` are in use. */
  ghost predicate Usable(c: Config, taken: set<nat>, s: nat)
    requires c.blockSize >= 1
  {
    && Aligned(c, s)
    && Fits(c, s)
    && s !in taken
    && !SingleGateway(c, s)
    && !BlockExcluded(c, s)
  }

  /** The naive scan: look at one block after the other until one is usable or the subnet ends. */
  ghost function Scan(c: Config, taken: set<nat>, s: nat): Option<nat>
    requires c.blockSize >= 1 && Aligned(c, s)
    decreases c.subnet.base + c.subnet.Size() - s
  {
    if !Fits(c, s) then None
    else if Usable(c, taken, s) then Some(s)
    else
      NextAligned(c, s);
      Scan(c, taken, s + c.blockSize)
  }

  /** The block the naive scan of the whole subnet picks. */
  ghost function FirstUsable(c: Config, taken: set<nat>): Option<nat>
    requires c.blockSize >= 1
  {
    Scan(c, taken, c.First())
  }

  ghost predicate NoneBelow(c: Config, taken: set<nat>, bound: int)
    requires c.blockSize >= 1
  {
    forall s: nat :: s < bound ==> !Usable(c, taken, s)
  }

  ghost predicate NoneUsable(c: Config, taken: set<nat>)
    requires c.blockSize >= 1
  {
    forall s: nat :: !Usable(c, taken, s)
  }

  /** `r` is the lowest usable block, or None when no block is usable. */
  ghost predicate Lowest(c: Config, taken: set<nat>, r: Option<nat>)
    requires c.blockSize >= 1
  {
    match r
    case None => NoneUsable(c, taken)
    case Some(s) => Usable(c, taken, s) && NoneBelow(c, taken, s)
  }

  // ----- block arithmetic -----

  lemma NextAligned(c: Config, s: nat)
    requires c.blockSize >= 1 && Aligned(c, s)
    ensures Aligned(c, s + c.blockSize)
  {
    Multiples.Skip(s - c.First(), 1, c.blockSize);
  }

  /** Block starts are at least a block apart. */
  lemma AlignedApart(c: Config, s: int, t: int)
    requires c.blockSize >= 1 && Aligned(c, s) && Aligned(c, t) && s < t
    ensures s + c.blockSize <= t
  {
    Multiples.Apart(s - c.First(), t - c.First(), c.blockSize);
  }

  /** Skipping whole blocks stays aligned. */
  lemma AlignedSkip(c: Config, s: nat, k: nat)
    requires c.blockSize >= 1 && Aligned(c, s)
    ensures k * c.blockSize >= 0
    ensures Aligned(c, s + k * c.blockSize)
  {
    Multiples.Skip(s - c.First(), k, c.blockSize);
    Multiples.Product(k, c.blockSize);
    assert s - c.First() + k * c.blockSize == s + k * c.blockSize - c.First();
  }

  /** Two blocks that start at different addresses share no address. */
  lemma BlocksDisjoint(c: Config, s: nat, t: nat, a: int)
    requires c.blockSize >= 1 && Aligned(c, s) && Aligned(c, t) && s != t
    ensures !(BlockAt(c, s).start <= a <= BlockAt(c, s).end && BlockAt(c, t).start <= a <= BlockAt(c, t).end)
  {
    if s < t {
      AlignedApart(c, s, t);
    } else {
      AlignedApart(c, t, s);
    }
  }

  lemma FitsBelow(c: Config, s: nat, t: nat)
    requires c.blockSize >= 1 && s <= t && Fits(c, t) && Aligned(c, s)
    ensures Fits(c, s)
  {
  }

  /** Moving on by one block loses nothing but the block left behind. */
  lemma StepOver(c: Config, taken: set<nat>, s: nat)
    requires c.blockSize >= 1 && Aligned(c, s)
    requires NoneBelow(c, taken, s) && !Usable(c, taken, s)
    ensures Aligned(c, s + c.blockSize) && NoneBelow(c, taken, s + c.blockSize)
  {
    NextAligned(c, s);
    forall t: nat | t < s + c.blockSize ensures !Usable(c, taken, t) {
      if s < t && Aligned(c, t) {
        AlignedApart(c, s, t);
      }
    }
  }

  /** Past the first block that does not fit there is nothing. */
  lemma NothingFurther(c: Config, taken: set<nat>, s: nat)
    requires c.blockSize >= 1 && Aligned(c, s)
    requires NoneBelow(c, taken, s) && !Fits(c, s)
    ensures NoneUsable(c, taken)
  {
    forall t: nat ensures !Usable(c, taken, t) {
      if s <= t && Fits(c, t) {
        FitsBelow(c, s, t);
      }
    }
  }

  /** The scan finds the lowest usable block, and finds none exactly when there is none. */
  lemma {:induction false} ScanFindsLowest(c: Config, taken: set<nat>, s: nat)
    requires c.blockSize >= 1 && Aligned(c, s) && NoneBelow(c, taken, s)
    ensures Lowest(c, taken, Scan(c, taken, s))
    decreases c.subnet.base + c.subnet.Size() - s
  {
    if !Fits(c, s) {
      NothingFurther(c, taken, s);
    } else if !Usable(c, taken, s) {
      StepOver(c, taken, s);
      ScanFindsLowest(c, taken, s + c.blockSize);
    }
  }

  /** The lowest usable block and the block the naive scan picks are the same thing. */
  lemma LowestIsFirstUsable(c: Config, taken: set<nat>, r: Option<nat>)
    requires c.blockSize >= 1
    ensures Lowest(c, taken, r) <==> r == FirstUsable(c, taken)
  {
    assert Aligned(c, c.First());
    ScanFindsLowest(c, taken, c.First());
    var f := FirstUsable(c, taken);
    assert Lowest(c, taken, f);
    if Lowest(c, taken, r) && r.Some? && f.Some? {
      assert !(r.value < f.value) && !(f.value < r.value);
    }
  }

  /** Taking more blocks never frees one. */
  lemma UsableAntitone(c: Config, taken: set<nat>, more: set<nat>)
    requires c.blockSize >= 1 && taken <= more
    ensures forall s: nat :: Usable(c, more, s) ==> Usable(c, taken, s)
  {
  }

  // ----- loading a stored allocation -----

  /** What the allocator accepts from a status entry: a whole aligned block of this pool, not fully
      excluded. The end may be the broadcast address: only new allocations avoid it. */
  ghost predicate Loadable(c: Config, start: Address, end: Address) {
    && c.blockSize >= 1
    && c.subnet.Contains(start)
    && c.subnet.Contains(end)
    && Aligned(c, start.value)
    && end.value == start.value + c.blockSize - 1
    && !SingleGateway(c, start.value)
    && !BlockExcluded(c, start.value)
  }

  /** Where blocks are, in plain terms: the k-th begins k blocks after the first address, or after the one behind it
      when the subnet has four or more. What is accepted is such a block inside the subnet, unless it is the gateway
      alone or every address of it is excluded. */
  lemma LoadableExactly(c: Config, start: Address, end: Address)
    requires c.subnet.Valid() && c.blockSize >= 1
    ensures Loadable(c, start, end) <==>
              && start.family == c.subnet.family && end.family == c.subnet.family
              && (exists k: nat :: start.value == c.subnet.base + (if c.subnet.hostBits >= 2 then 1 else 0) + k * c.blockSize)
              && end.value == start.value + c.blockSize - 1 < c.subnet.base + c.subnet.Size()
              && !(c.blockSize == 1 && c.gateway == Some(start.value))
              && (exists a :: start.value <= a <= end.value && !Covers(c.exclusions, a) && !Covers(c.perNode, a - start.value))
  {
    HostAddresses(c.subnet);
    AlignedExactly(c, start.value);
    if Loadable(c, start, end) {
      var a :| start.value <= a <= start.value + c.blockSize - 1 && !Excluded(c.exclusions, c.perNode, start.value, a);
      assert !Covers(c.exclusions, a) && !Covers(c.perNode, a - start.value);
    }
    if a :| start.value <= a <= end.value && !Covers(c.exclusions, a) && !Covers(c.perNode, a - start.value) {
      assert !Excluded(c.exclusions, c.perNode, start.value, a);
    }
  }

  lemma AlignedExactly(c: Config, s: int)
    requires c.subnet.Valid() && c.blockSize >= 1
    ensures Aligned(c, s) <==> exists k: nat :: s == c.subnet.base + (if c.subnet.hostBits >= 2 then 1 else 0) + k * c.blockSize
  {
    HostAddresses(c.subnet);
    var first := c.subnet.base + (if c.subnet.hostBits >= 2 then 1 else 0);
    if Aligned(c, s) {
      var k := (s - first) / c.blockSize;
      Multiples.Quotient(s - first, c.blockSize);
      Multiples.EndsBy(-1, s - first, c.blockSize);
      assert k >= 0 && s == first + k * c.blockSize;
    }
    if k: nat :| s == first + k * c.blockSize {
      Multiples.Unique(k, 0, c.blockSize);
      Multiples.Product(k, c.blockSize);
    }
  }

  /** What is handed out anew is one of these that nobody has and that does not end on the broadcast address. */
  lemma UsableExactly(c: Config, taken: set<nat>, s: nat)
    requires c.subnet.Valid() && c.blockSize >= 1
    ensures Usable(c, taken, s) <==>
              && Loadable(c, Address(c.subnet.family, s), Address(c.subnet.family, s + c.blockSize - 1))
              && s !in taken
              && !(c.subnet.family.IPv4? && c.subnet.hostBits >= 2 && s + c.blockSize == c.subnet.base + c.subnet.Size())
  {
    HostAddresses(c.subnet);
  }

  /** A pool that is not used yet, without exclusions and without a gateway, begins with its first address for hosts. */
  lemma FirstBlock(c: Config)
    requires c.subnet.Valid() && c.blockSize >= 1 && c.exclusions == [] && c.perNode == [] && c.gateway == None
    requires c.blockSize <= c.subnet.PossibleIPCount()
    ensures FirstUsable(c, {}) == Some(if c.subnet.hostBits >= 2 then c.subnet.base + 1 else c.subnet.base)
  {
    HostAddresses(c.subnet);
    var s := if c.subnet.hostBits >= 2 then c.subnet.base + 1 else c.subnet.base;
    assert !Covers([], s) && !Covers([], 0);
    assert !Excluded(c.exclusions, c.perNode, s, s);
    assert !BlockExcluded(c, s);
    LowestIsFirstUsable(c, {}, Some(s));
  }

  method CheckAllocation(c: Config, start: Address, end: Address) returns (ok: bool)
    requires c.WellFormed()
    ensures ok <==> Loadable(c, start, end)
  {
    if c.blockSize <= 0 {
      return false;
    }
    if !c.subnet.Contains(start) || !c.subnet.Contains(end) {
      return false;
    }
    if end.value < start.value {
      return false;
    }
    var offset := start.value - c.subnet.base;
    if c.subnet.IsPointToPoint() || c.subnet.IsSingleIP() {
      if offset % c.blockSize != 0 {
        return false;
      }
    } else {
      if offset < 1 {
        return false;
      }
      if (offset - 1) % c.blockSize != 0 {
        return false;
      }
    }
    if end.value - start.value != c.blockSize - 1 {
      return false;
    }
    if SingleGateway(c, start.value) {
      return false;
    }
    var excluded := IsEntireRangeExcluded(c.subnet.family, c.exclusions, c.perNode, start.value, end.value);
    return !excluded;
  }

  // ----- the allocator -----

  datatype AllocResult =
    | Allocated(range: AllocatedRange)
    | ErrNoFreeRanges
    | ErrBlockSize
    | ErrCanceled

  datatype Found = At(start: nat) | Exhausted | Canceled

  /** Accepted allocations are blocks of the pool, and different nodes hold different ones. */
  ghost predicate AllocationsValid(c: Config, allocations: map<string, AllocatedRange>, startIps: set<nat>) {
    && (forall n :: n in allocations ==> allocations[n].start in startIps)
    && (forall n :: n in allocations ==>
          Loadable(c, Address(c.subnet.family, allocations[n].start), Address(c.subnet.family, allocations[n].end)))
    && (forall m, n :: m in allocations && n in allocations && m != n ==>
          allocations[m].start != allocations[n].start)
  }

  /** Recording an accepted block that nobody has keeps the allocations valid. */
  lemma RecordKeepsValid(c: Config, allocations: map<string, AllocatedRange>, startIps: set<nat>,
                         node: string, r: AllocatedRange)
    requires AllocationsValid(c, allocations, startIps)
    requires Loadable(c, Address(c.subnet.family, r.start), Address(c.subnet.family, r.end))
    requires r.start !in startIps
    ensures AllocationsValid(c, allocations[node := r], startIps + {r.start})
  {
  }

  /** A usable block is one that a later load accepts. */
  lemma UsableIsLoadable(c: Config, taken: set<nat>, s: nat)
    requires c.blockSize >= 1 && Usable(c, taken, s)
    ensures Loadable(c, Address(c.subnet.family, s), Address(c.subnet.family, s + c.blockSize - 1))
  {
  }

  /** Once the lowest usable block is taken, nothing at or below it is usable. */
  lemma CursorAfter(c: Config, taken: set<nat>, s: nat)
    requires c.blockSize >= 1 && NoneBelow(c, taken, s)
    ensures NoneBelow(c, taken + {s}, s + 1)
  {
    UsableAntitone(c, taken, taken + {s});
  }

  class PoolAllocator {
    const cfg: Config
    var allocations: map<string, AllocatedRange>
    var startIps: set<nat>
    var lastAllocatedStartIP: Option<nat>

    /** Nothing at or below the cursor is usable: that is why a search may start after it. */
    ghost predicate Valid()
      reads this
    {
      && cfg.WellFormed()
      && AllocationsValid(cfg, allocations, startIps)
      && (lastAllocatedStartIP.Some? ==>
            && cfg.blockSize >= 1
            && Aligned(cfg, lastAllocatedStartIP.value)
            && NoneBelow(cfg, startIps, lastAllocatedStartIP.value + 1))
    }

    constructor (cfg: Config)
      requires cfg.WellFormed()
      ensures Valid() && fresh(this)
      ensures this.cfg == cfg && allocations == map[] && startIps == {} && lastAllocatedStartIP == None
    {
      this.cfg := cfg;
      allocations := map[];
      startIps := {};
      lastAllocatedStartIP := None;
    }

    method Load(node: string, start: Address, end: Address) returns (ok: bool)
      requires Valid()
      modifies this
      ensures Valid()
      ensures ok <==> Loadable(cfg, start, end) && start.value !in old(startIps)
      ensures ok ==>
                && allocations == old(allocations)[node := AllocatedRange(start.value, end.value)]
                && startIps == old(startIps) + {start.value}
      ensures !ok ==> allocations == old(allocations) && startIps == old(startIps)
      ensures lastAllocatedStartIP == old(lastAllocatedStartIP)
    {
      ok := CheckAllocation(cfg, start, end);
      if !ok {
        return;
      }
      if start.value in startIps {
        return false;
      }
      if lastAllocatedStartIP.Some? {
        UsableAntitone(cfg, startIps, startIps + {start.value});
      }
      assert start == Address(cfg.subnet.family, start.value) && end == Address(cfg.subnet.family, end.value);
      RecordKeepsValid(cfg, allocations, startIps, node, AllocatedRange(start.value, end.value));
      allocations := allocations[node := AllocatedRange(start.value, end.value)];
      startIps := startIps + {start.value};
    }

    /** Allocates a block to a node, or returns the one it has. For a new node the result is the block the
        naive scan of the whole subnet picks, and "no free ranges" means that scan finds none. */
    method AllocateFromPool(ctx: Context, node: string) returns (r: AllocResult)
      requires Valid()
      modifies this
      ensures Valid()
      ensures node in old(allocations) ==> r == Allocated(old(allocations)[node])
      ensures node !in old(allocations) && cfg.blockSize < 1 ==> r == ErrBlockSize
      ensures node !in old(allocations) && cfg.blockSize >= 1 && r != ErrCanceled ==>
                || (r == ErrNoFreeRanges && Lowest(cfg, old(startIps), None))
                || (r.Allocated? && Lowest(cfg, old(startIps), Some(r.range.start)))
      ensures node !in old(allocations) && r.Allocated? ==>
                && cfg.blockSize >= 1
                && r.range == BlockAt(cfg, r.range.start)
                && allocations == old(allocations)[node := r.range]
                && startIps == old(startIps) + {r.range.start}
                && lastAllocatedStartIP == Some(r.range.start)
      ensures node in old(allocations) || !r.Allocated? ==> unchanged(this)
      ensures r == ErrCanceled ==> ctx.DoneAfter?
    {
      if node in allocations {
        return Allocated(allocations[node]);
      }
      if cfg.blockSize <= 0 {
        return ErrBlockSize;
      }
      var found := Search(ctx);
      match found
      case Canceled => return ErrCanceled;
      case Exhausted => return ErrNoFreeRanges;
      case At(start) =>
        var a := AllocatedRange(start, start + cfg.blockSize - 1);
        UsableIsLoadable(cfg, startIps, start);
        RecordKeepsValid(cfg, allocations, startIps, node, a);
        CursorAfter(cfg, startIps, start);
        allocations := allocations[node := a];
        startIps := startIps + {start};
        lastAllocatedStartIP := Some(start);
        return Allocated(a);
    }

    /** The search loop: from the cursor on, over taken, excluded and gateway blocks. */
    method Search(ctx: Context) returns (found: Found)
      requires Valid() && cfg.blockSize >= 1
      ensures match found
              case Canceled => ctx.DoneAfter?
              case Exhausted => Lowest(cfg, startIps, None)
              case At(s) => Lowest(cfg, startIps, Some(s))
    {
      var lastBlockIndex := cfg.blockSize - 1;
      var covered := ExcludeIndexRangesCover(cfg.perNode, lastBlockIndex);
      if covered {
        AllBlocksExcluded(cfg, startIps);
        return Exhausted;
      }
      var start, end := FirstCandidate();
      var poll := 0;
      while AllocationValid(start, end)
        invariant Candidate(cfg, startIps, start, end)
        decreases if start.Some? then cfg.subnet.base + cfg.subnet.Size() - start.value else -1
      {
        if ctx.Done(poll) {
          return Canceled;
        }
        poll := poll + 1;
        if start.value in startIps {
          start, end := FollowingBlock(start.value, end.value);
          continue;
        }
        var excluded :=
          IsEntireRangeExcluded(cfg.subnet.family, cfg.exclusions, cfg.perNode, start.value, end.value);
        if excluded {
          start, end := GetNextNonExcludedCandidates(start.value, end.value);
          continue;
        }
        if cfg.blockSize == 1 && cfg.gateway == Some(start.value) {
          start, end := FollowingBlock(start.value, end.value);
          continue;
        }
        return At(start.value);
      }
      if start.Some? {
        NothingFurther(cfg, startIps, start.value);
      }
      return Exhausted;
    }

    /** The candidate a search starts from: the first block, or the one after the cursor. */
    method FirstCandidate() returns (start: Option<nat>, end: Option<nat>)
      requires Valid() && cfg.blockSize >= 1
      ensures Candidate(cfg, startIps, start, end)
    {
      var f := cfg.subnet.family;
      if lastAllocatedStartIP.None? {
        FirstInSpace(cfg);
        start := Some(cfg.First());
      } else {
        StepOver(cfg, startIps, lastAllocatedStartIP.value);
        start := NextIPWithOffset(f, lastAllocatedStartIP.value, cfg.blockSize);
        if start.None? {
          NothingFurther(cfg, startIps, lastAllocatedStartIP.value + cfg.blockSize);
        }
      }
      end := if start.Some? then NextIPWithOffset(f, start.value, cfg.blockSize - 1) else None;
    }

    predicate AllocationValid(start: Option<nat>, end: Option<nat>) {
      start.Some? && end.Some? && cfg.subnet.ContainsValue(end.value) && !cfg.subnet.IsBroadcast(end.value)
    }

    /** The block right after one that turned out unusable. */
    method FollowingBlock(start: nat, end: nat) returns (nextStart: Option<nat>, nextEnd: Option<nat>)
      requires Valid() && cfg.blockSize >= 1
      requires Candidate(cfg, startIps, Some(start), Some(end)) && !Usable(cfg, startIps, start)
      ensures Candidate(cfg, startIps, nextStart, nextEnd)
      ensures nextStart.Some? ==> nextStart.value > start
    {
      var f := cfg.subnet.family;
      StepOver(cfg, startIps, start);
      nextStart := NextIP(f, end);
      if nextStart.None? {
        NothingFurther(cfg, startIps, start + cfg.blockSize);
      }
      nextEnd := if nextStart.Some? then NextIPWithOffset(f, nextStart.value, cfg.blockSize - 1) else None;
    }

    /** After a fully excluded block, jumps over the blocks that lie inside one merged exclusion. */
    method GetNextNonExcludedCandidates(start: nat, end: nat)
      returns (nextStart: Option<nat>, nextEnd: Option<nat>)
      requires Valid() && cfg.blockSize >= 1
      requires Candidate(cfg, startIps, Some(start), Some(end)) && !Usable(cfg, startIps, start)
      ensures Candidate(cfg, startIps, nextStart, nextEnd)
      ensures nextStart.Some? ==> nextStart.value > start
    {
      var f, b := cfg.subnet.family, cfg.blockSize;
      nextStart, nextEnd := FollowingBlock(start, end);
      if nextStart.None? || nextEnd.None? {
        if nextStart.Some? {
          NothingFurther(cfg, startIps, nextStart.value);
        }
        return None, None;
      }
      var merged := MergeExcludeRanges(f, cfg.exclusions);
      for i := 0 to |merged| {
        var e := merged[i];
        if e.Has(nextStart.value) && e.Has(nextEnd.value) {
          assert e in merged;
          nextStart, nextEnd := JumpPast(nextStart.value, e);
          return;
        }
      }
    }

    /** The first block that reaches beyond exclusion `e`, from a block start inside `e`. */
    method JumpPast(s: nat, e: ExcludeRange) returns (nextStart: Option<nat>, nextEnd: Option<nat>)
      requires Valid() && cfg.blockSize >= 1
      requires Aligned(cfg, s) && NoneBelow(cfg, startIps, s)
      requires e.start <= s <= e.end < Space(cfg.subnet.family)
      requires forall a :: e.Has(a) ==> Covers(cfg.exclusions, a)
      ensures Candidate(cfg, startIps, nextStart, nextEnd)
      ensures nextStart.Some? ==> nextStart.value >= s
    {
      var f := cfg.subnet.family;
      var nextFree := NextIP(f, e.end);
      if nextFree.None? {
        ExclusionToTheTop(cfg, startIps, s, e);
        return None, None;
      }
      var blocksToSkip := (nextFree.value - s) / cfg.blockSize;
      var ipsToSkip := blocksToSkip * cfg.blockSize;
      JumpIsSafe(cfg, startIps, s, e, blocksToSkip);
      nextStart := NextIPWithOffset(f, s, ipsToSkip);
      nextEnd := NextIPWithOffset(f, nextStart.value, cfg.blockSize - 1);
    }
  }

  /** A search position: nothing before it is usable, and no position means nothing is usable at all. */
  ghost predicate Candidate(c: Config, taken: set<nat>, start: Option<nat>, end: Option<nat>)
    requires c.blockSize >= 1
  {
    match start
    case None => NoneUsable(c, taken) && end == None
    case Some(s) =>
      && Aligned(c, s)
      && NoneBelow(c, taken, s)
      && end == NextIPWithOffset(c.subnet.family, s, c.blockSize - 1)
  }

  lemma FirstInSpace(c: Config)
    requires c.blockSize >= 1
    ensures Aligned(c, c.First()) && forall taken :: NoneBelow(c, taken, c.First())
  {
  }

  /** Per-node exclusions that cover a whole block leave no usable block anywhere. */
  lemma AllBlocksExcluded(c: Config, taken: set<nat>)
    requires c.WellFormed() && c.blockSize >= 1
    requires forall i :: 0 <= i <= c.blockSize - 1 ==> Covers(c.perNode, i)
    ensures NoneUsable(c, taken)
  {
    forall s: nat ensures BlockExcluded(c, s) {
      forall a | s <= a <= s + c.blockSize - 1 ensures Excluded(c.exclusions, c.perNode, s, a) {
        assert Covers(c.perNode, a - s);
      }
    }
  }

  /** A block inside one pool exclusion is fully excluded. */
  lemma InsideExclusion(c: Config, s: nat, e: ExcludeRange)
    requires c.blockSize >= 1
    requires forall a :: e.Has(a) ==> Covers(c.exclusions, a)
    requires e.start <= s && s + c.blockSize - 1 <= e.end
    ensures BlockExcluded(c, s)
  {
    forall a | s <= a <= s + c.blockSize - 1 ensures Excluded(c.exclusions, c.perNode, s, a) {
      assert e.Has(a);
    }
  }

  /** The jump rounds down to a whole number of blocks, so every block it passes ends inside the exclusion. */
  lemma JumpIsSafe(c: Config, taken: set<nat>, s: nat, e: ExcludeRange, blocks: int)
    requires c.blockSize >= 1 && Aligned(c, s) && NoneBelow(c, taken, s)
    requires forall a :: e.Has(a) ==> Covers(c.exclusions, a)
    requires e.start <= s <= e.end
    requires blocks == (e.end + 1 - s) / c.blockSize
    ensures 0 <= blocks * c.blockSize <= e.end + 1 - s
    ensures Aligned(c, s + blocks * c.blockSize)
    ensures NoneBelow(c, taken, s + blocks * c.blockSize)
  {
    Multiples.Quotient(e.end + 1 - s, c.blockSize);
    AlignedSkip(c, s, blocks);
    var target := s + blocks * c.blockSize;
    forall t: nat | t < target ensures !Usable(c, taken, t) {
      if s <= t && Aligned(c, t) {
        AlignedApart(c, t, target);
        InsideExclusion(c, t, e);
      }
    }
  }

  /** An exclusion that ends at the last address of the family swallows every further block. */
  lemma ExclusionToTheTop(c: Config, taken: set<nat>, s: nat, e: ExcludeRange)
    requires c.WellFormed() && c.blockSize >= 1 && NoneBelow(c, taken, s)
    requires forall a :: e.Has(a) ==> Covers(c.exclusions, a)
    requires e.start <= s && e.end + 1 >= Space(c.subnet.family)
    ensures NoneUsable(c, taken)
  {
    forall t: nat ensures !Usable(c, taken, t) {
      if s <= t && Fits(c, t) {
        InsideExclusion(c, t, e);
      }
    }
  }
}
