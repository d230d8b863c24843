/** The node's address allocator (pkg/ipam-node/allocator/allocator.go): dynamic allocation in round-robin
    order, and static allocation, on top of a store session. */
module NodeAllocator {
  import opened Addresses
  import opened StoreModel
  import opened Store
  import opened NodeRanges
  import opened RangeIteration

  datatype AllocResult =
    | Granted(range: Range, address: Address)
    | ErrNoFreeAddresses
    | ErrAlreadyExist
    | ErrAlreadyReserved
    | ErrNoRange

  // ----- which address a dynamic request gets -----

  /** The address cannot be granted: gateway of its range, excluded, or held, if only by a cooling-down entry. */
  ghost predicate Blocked(rs: seq<Range>, exclusions: seq<Range>, entries: map<string, Reservation>, i: nat, v: nat)
    requires i < |rs|
  {
    rs[i].IsGateway(v) || SetContains(exclusions, rs[i].At(v)) || HasAddress(entries, rs[i].At(v))
  }

  /** How many steps after the first position of the walk a position comes. */
  function StepsTo(first: int, p: int, total: int): int {
    if p >= first then p - first else p - first + total
  }

  /** The grant of a walk: the first address after the last reserved one, in cyclic order, that is not blocked. */
  ghost predicate FirstFree(rs: seq<Range>, exclusions: seq<Range>, entries: map<string, Reservation>,
                            last: Option<Address>, i: nat, v: nat)
    requires Slot(rs, i, v)
  {
    var first, total := FirstPosition(rs, last), Total(rs);
    && !Blocked(rs, exclusions, entries, i, v)
    && forall j, w :: Slot(rs, j, w) && StepsTo(first, Pos(rs, j, w), total) < StepsTo(first, Pos(rs, i, v), total) ==>
         Blocked(rs, exclusions, entries, j, w)
  }

  ghost predicate AllBlocked(rs: seq<Range>, exclusions: seq<Range>, entries: map<string, Reservation>) {
    forall i, v :: Slot(rs, i, v) ==> Blocked(rs, exclusions, entries, i, v)
  }

  // ----- the loop -----

  ghost predicate BlockedAt(rs: seq<Range>, exclusions: seq<Range>, entries: map<string, Reservation>, p: int) {
    forall i, v :: Slot(rs, i, v) && Pos(rs, i, v) == p ==> Blocked(rs, exclusions, entries, i, v)
  }

  /** The first `n` positions of the walk are blocked. */
  ghost predicate Passed(rs: seq<Range>, exclusions: seq<Range>, entries: map<string, Reservation>, first: int, n: int) {
    forall k :: 0 <= k < n ==> BlockedAt(rs, exclusions, entries, Turn(first, k, Total(rs)))
  }

  lemma PassGateways(rs: seq<Range>, exclusions: seq<Range>, entries: map<string, Reservation>, first: int, n: int, m: int)
    requires Passed(rs, exclusions, entries, first, n) && GatewaysBetween(rs, first, n, m)
    ensures Passed(rs, exclusions, entries, first, m)
  {
    forall k | 0 <= k < m ensures BlockedAt(rs, exclusions, entries, Turn(first, k, Total(rs))) {
      if k >= n {
        assert GatewayAt(rs, Turn(first, k, Total(rs)));
      }
    }
  }

  lemma PassOne(rs: seq<Range>, exclusions: seq<Range>, entries: map<string, Reservation>, first: int, n: int, i: nat, v: nat)
    requires InOrder(rs) && Slot(rs, i, v) && Blocked(rs, exclusions, entries, i, v)
    requires Passed(rs, exclusions, entries, first, n) && Pos(rs, i, v) == Turn(first, n, Total(rs))
    ensures Passed(rs, exclusions, entries, first, n + 1)
  {
    forall j: int, w: nat | Slot(rs, j, w) && Pos(rs, j, w) == Pos(rs, i, v)
      ensures Blocked(rs, exclusions, entries, j, w)
    {
      PosInjective(rs, i, v, j, w);
    }
  }

  /** What the walk has passed, in terms of addresses. */
  lemma PassedSlots(rs: seq<Range>, exclusions: seq<Range>, entries: map<string, Reservation>, first: int, n: int)
    requires InOrder(rs) && 0 <= first < Total(rs) && Passed(rs, exclusions, entries, first, n)
    ensures forall j, w :: Slot(rs, j, w) && StepsTo(first, Pos(rs, j, w), Total(rs)) < n ==>
              Blocked(rs, exclusions, entries, j, w)
    ensures n >= Total(rs) ==> AllBlocked(rs, exclusions, entries)
  {
    forall j: int, w: nat | Slot(rs, j, w) && StepsTo(first, Pos(rs, j, w), Total(rs)) < n
      ensures Blocked(rs, exclusions, entries, j, w)
    {
      PosBounds(rs, j, w);
      var k := StepsTo(first, Pos(rs, j, w), Total(rs));
      assert BlockedAt(rs, exclusions, entries, Turn(first, k, Total(rs)));
    }
    if n >= Total(rs) {
      forall j: int, w: nat | Slot(rs, j, w) ensures Blocked(rs, exclusions, entries, j, w) {
        PosBounds(rs, j, w);
      }
    }
  }

  /** What a dynamic request does, in terms of the data before and after: an owner without an entry gets the
      first free address after the last reserved one; "no free addresses" means every address is blocked;
      errors change nothing. */
  ghost predicate DynamicOutcome(before: Root, after: Root, poolKey: string, id: string, ifName: string, meta: Metadata,
                                 rs: seq<Range>, exclusions: seq<Range>, r: AllocResult) {
    var pool := PoolOf(before, poolKey);
    match r
    case Granted(range, a) =>
      && Key(id, ifName) !in pool.entries
      && after == Reserved(before, poolKey, id, ifName, meta, a)
      && exists i, v :: Slot(rs, i, v) && range == rs[i] && a == rs[i].At(v)
           && FirstFree(rs, exclusions, pool.entries, pool.lastReservedIP, i, v)
    case ErrNoFreeAddresses => after == before && AllBlocked(rs, exclusions, pool.entries)
    case ErrAlreadyExist => after == before && Key(id, ifName) in pool.entries
    case _ => false
  }

  method Allocate(session: Session, poolKey: string, id: string, ifName: string, meta: Metadata,
                  rs: seq<Range>, exclusions: seq<Range>) returns (r: AllocResult)
    requires session.Valid() && !session.isClosed && Laid(rs)
    modifies session, session.repr
    ensures session.Valid() && !session.isClosed && (forall o :: o in session.repr ==> o in old(session.repr) || fresh(o))
    ensures DynamicOutcome(old(session.data), session.data, poolKey, id, ifName, meta, rs, exclusions, r)
    ensures session.isModified == (old(session.isModified) || r.Granted?)
  {
    var last := session.GetLastReservedIP(poolKey);
    var it := new RangeIter(rs, last);
    while true
      invariant it.Valid() && it.rangeSet == rs && fresh(it) && it.first == FirstPosition(rs, last)
      invariant session.Valid() && !session.isClosed && session.data == old(session.data)
      invariant session.isModified == old(session.isModified) && session.repr == old(session.repr)
      invariant Passed(rs, exclusions, PoolOf(session.data, poolKey).entries, it.first, it.count)
      decreases Total(rs) - it.count
    {
      var done;
      done, r := Attempt(session, it, poolKey, id, ifName, meta, exclusions);
      if done {
        return;
      }
    }
  }

  /** One turn of the loop: the next candidate, and an attempt to reserve it. */
  method Attempt(session: Session, it: RangeIter, poolKey: string, id: string, ifName: string, meta: Metadata,
                 exclusions: seq<Range>) returns (done: bool, r: AllocResult)
    requires session.Valid() && !session.isClosed
    requires it.Valid() && it !in session.repr && it !in session.store.repr
    requires it.first == FirstPosition(it.rangeSet, PoolOf(session.data, poolKey).lastReservedIP)
    requires Passed(it.rangeSet, exclusions, PoolOf(session.data, poolKey).entries, it.first, it.count)
    modifies it, session, session.repr
    ensures session.Valid() && !session.isClosed && (forall o :: o in session.repr ==> o in old(session.repr) || fresh(o))
    ensures !done ==>
              && session.data == old(session.data) && session.repr == old(session.repr)
              && session.isModified == old(session.isModified)
              && it.Valid() && it.count > old(it.count)
              && Passed(it.rangeSet, exclusions, PoolOf(session.data, poolKey).entries, it.first, it.count)
    ensures done ==>
              && DynamicOutcome(old(session.data), session.data, poolKey, id, ifName, meta, it.rangeSet, exclusions, r)
              && session.isModified == (old(session.isModified) || r.Granted?)
  {
    var c := NextCandidate(it, exclusions, PoolOf(session.data, poolKey).entries);
    if c.None? {
      return true, ErrNoFreeAddresses;
    }
    r := TryCandidate(session, poolKey, id, ifName, meta, it.rangeSet, exclusions, c.value,
                      PoolOf(session.data, poolKey).lastReservedIP, it.first, it.count - 1);
    if r != ErrAlreadyReserved {
      return true, r;
    }
    PassOne(it.rangeSet, exclusions, PoolOf(session.data, poolKey).entries, it.first, it.count - 1, c.value.range, c.value.value);
    return false, r;
  }

  /** The next candidate of the walk, and the fact that everything it left behind is blocked. */
  method NextCandidate(it: RangeIter, ghost exclusions: seq<Range>, ghost entries: map<string, Reservation>)
    returns (c: Option<Candidate>)
    requires it.Valid() && Passed(it.rangeSet, exclusions, entries, it.first, it.count)
    modifies it
    ensures c.None? ==> AllBlocked(it.rangeSet, exclusions, entries)
    ensures c.Some? ==>
              && it.Valid() && it.count > old(it.count)
              && Slot(it.rangeSet, c.value.range, c.value.value)
              && Pos(it.rangeSet, c.value.range, c.value.value) == Turn(it.first, it.count - 1, Total(it.rangeSet))
              && !it.rangeSet[c.value.range].IsGateway(c.value.value)
              && Passed(it.rangeSet, exclusions, entries, it.first, it.count - 1)
  {
    ghost var n := it.count;
    c := it.Next();
    if c.None? {
      PassGateways(it.rangeSet, exclusions, entries, it.first, n, Total(it.rangeSet));
      PassedSlots(it.rangeSet, exclusions, entries, it.first, Total(it.rangeSet));
    } else {
      PassGateways(it.rangeSet, exclusions, entries, it.first, n, it.count - 1);
    }
  }

  /** Reserves a candidate unless it is excluded; "already reserved" means: go on. */
  method TryCandidate(session: Session, poolKey: string, id: string, ifName: string, meta: Metadata,
                      rs: seq<Range>, exclusions: seq<Range>, c: Candidate,
                      ghost last: Option<Address>, ghost first: int, ghost n: int) returns (r: AllocResult)
    requires session.Valid() && !session.isClosed && InOrder(rs)
    requires last == PoolOf(session.data, poolKey).lastReservedIP && first == FirstPosition(rs, last)
    requires Slot(rs, c.range, c.value) && !rs[c.range].IsGateway(c.value)
    requires 0 <= first < Total(rs) && 0 <= n < Total(rs) && Pos(rs, c.range, c.value) == Turn(first, n, Total(rs))
    requires Passed(rs, exclusions, PoolOf(session.data, poolKey).entries, first, n)
    modifies session, session.repr
    ensures session.Valid() && !session.isClosed && (forall o :: o in session.repr ==> o in old(session.repr) || fresh(o))
    ensures r == ErrAlreadyReserved ==>
              && session.data == old(session.data) && session.repr == old(session.repr)
              && Blocked(rs, exclusions, PoolOf(old(session.data), poolKey).entries, c.range, c.value)
    ensures r != ErrAlreadyReserved ==>
              DynamicOutcome(old(session.data), session.data, poolKey, id, ifName, meta, rs, exclusions, r)
    ensures session.isModified == (old(session.isModified) || r.Granted?)
  {
    var a := rs[c.range].At(c.value);
    if SetContains(exclusions, a) {
      return ErrAlreadyReserved;
    }
    ghost var entries := PoolOf(session.data, poolKey).entries;
    var err := session.Reserve(poolKey, id, ifName, meta, a);
    match err
    case NoError =>
      PassedSlots(rs, exclusions, entries, first, n);
      assert FirstFree(rs, exclusions, entries, last, c.range, c.value);
      return Granted(rs[c.range], a);
    case ErrIPAlreadyReserved => return ErrAlreadyReserved;
    case ErrReservationAlreadyExist => return ErrAlreadyExist;
  }

  /** Static allocation takes the address as it is, if the subnet of some range contains it, and leaves the
      round-robin cursor where it was. */
  method AllocateStaticIP(session: Session, poolKey: string, id: string, ifName: string, meta: Metadata,
                          rs: seq<Range>, ip: Address) returns (r: AllocResult)
    requires session.Valid() && !session.isClosed
    modifies session, session.repr
    ensures session.Valid() && !session.isClosed && (forall o :: o in session.repr ==> o in old(session.repr) || fresh(o))
    ensures r.Granted? <==>
              && (exists x :: x in rs && x.subnet.Contains(ip))
              && ReserveVerdict(old(session.data), poolKey, id, ifName, ip) == NoError
    ensures r.Granted? ==>
              && r.address == ip && r.range in rs && r.range.subnet.Contains(ip)
              && session.data == WithLast(Reserved(old(session.data), poolKey, id, ifName, meta, ip), poolKey,
                                          PoolOf(old(session.data), poolKey).lastReservedIP)
    ensures !r.Granted? ==> session.data == old(session.data)
    ensures session.isModified == (old(session.isModified) || r.Granted?)
  {
    for k := 0 to |rs|
      invariant forall j :: 0 <= j < k ==> !rs[j].subnet.Contains(ip)
    {
      if !rs[k].subnet.Contains(ip) {
        continue;
      }
      assert rs[k] in rs;
      var err := ReserveKeepingCursor(session, poolKey, id, ifName, meta, ip);
      match err
      case NoError => return Granted(rs[k], ip);
      case ErrReservationAlreadyExist => return ErrAlreadyExist;
      case ErrIPAlreadyReserved => return ErrAlreadyReserved;
    }
    return ErrNoRange;
  }

  method ReserveKeepingCursor(session: Session, poolKey: string, id: string, ifName: string, meta: Metadata, ip: Address)
    returns (err: ReserveError)
    requires session.Valid() && !session.isClosed
    modifies session, session.repr
    ensures session.Valid() && !session.isClosed && (forall o :: o in session.repr ==> o in old(session.repr) || fresh(o))
    ensures err == ReserveVerdict(old(session.data), poolKey, id, ifName, ip)
    ensures err == NoError ==>
              session.data == WithLast(Reserved(old(session.data), poolKey, id, ifName, meta, ip), poolKey,
                                       PoolOf(old(session.data), poolKey).lastReservedIP)
    ensures err != NoError ==> session.data == old(session.data)
    ensures session.isModified == (old(session.isModified) || err == NoError)
  {
    var last := session.GetLastReservedIP(poolKey);
    err := session.Reserve(poolKey, id, ifName, meta, ip);
    if err == NoError {
      session.SetLastReservedIP(poolKey, last);
    }
  }
}
