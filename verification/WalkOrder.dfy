/** The address a dynamic request gets, in plain terms: a pool of the daemon has one range
    (pkg/ipam-node/handlers/allocate.go), and the walk of pkg/ipam-node/allocator/allocator.go over one range goes up from
    the last reserved address and round to its start. */
module WalkOrder {
  import opened Addresses
  import opened StoreModel
  import opened NodeRanges
  import opened RangeIteration
  import opened NodeAllocator
  import opened Handlers

  /** The last reserved address, if it is in the range. */
  function CursorIn(r: Range, last: Option<Address>): Option<nat> {
    if last.Some? && last.value.family == r.subnet.family && r.start <= last.value.value <= r.end then Some(last.value.value) else None
  }

  /** Going up from the cursor and round, `w` comes before `v`. */
  predicate ComesBefore(cursor: Option<nat>, w: int, v: int) {
    if cursor.None? then w < v
    else if v > cursor.value then cursor.value < w < v
    else w > cursor.value || w < v
  }

  /** An address that is neither the gateway nor excluded nor held by anybody, be it a released entry. */
  ghost predicate Free(r: Range, exclusions: seq<Range>, pool: PoolData, v: nat) {
    && r.gateway != Some(Address(r.subnet.family, v))
    && (forall x :: x in exclusions ==> !x.Contains(Address(r.subnet.family, v)))
    && (forall k :: k in pool.entries ==> pool.entries[k].address != Address(r.subnet.family, v))
  }

  lemma FreeExactly(r: Range, exclusions: seq<Range>, pool: PoolData, v: nat)
    ensures Free(r, exclusions, pool, v) <==> !Blocked([r], exclusions, pool.entries, 0, v)
  {
  }

  lemma StepsOrder(r: Range, last: Option<Address>, w: nat, v: nat)
    requires r.Ordered() && Slot([r], 0, w) && Slot([r], 0, v)
    ensures var first, total := FirstPosition([r], last), Total([r]);
            StepsTo(first, Pos([r], 0, w), total) < StepsTo(first, Pos([r], 0, v), total) <==> ComesBefore(CursorIn(r, last), w, v)
  {
    var rs := [r];
    assert GoodAt(rs, 0) && GoodSet(rs);
    GoodIsLaid(rs);
    if CursorIn(r, last).Some? {
      RangeOfIs(rs, last.value, 0);
      assert Pos(rs, 0, last.value.value) == last.value.value - r.start;
    }
  }

  /** The first free address in turn: in the range, free, and nothing free comes before it. */
  lemma InTurnExactly(pool: PoolData, r: Range, exclusions: seq<Range>, a: Address)
    requires r.Ordered()
    ensures FirstInTurn(pool, [r], exclusions, a) <==>
              && a.family == r.subnet.family && r.start <= a.value <= r.end && Free(r, exclusions, pool, a.value)
              && forall w: nat {:trigger Free(r, exclusions, pool, w)} ::
                   r.start <= w <= r.end && ComesBefore(CursorIn(r, pool.lastReservedIP), w, a.value) ==> !Free(r, exclusions, pool, w)
  {
    var rs := [r];
    if a.family == r.subnet.family && Slot(rs, 0, a.value) {
      FreeExactly(r, exclusions, pool, a.value);
      forall w: nat | Slot(rs, 0, w)
        ensures Free(r, exclusions, pool, w) <==> !Blocked(rs, exclusions, pool.entries, 0, w)
        ensures StepsTo(FirstPosition(rs, pool.lastReservedIP), Pos(rs, 0, w), Total(rs))
                < StepsTo(FirstPosition(rs, pool.lastReservedIP), Pos(rs, 0, a.value), Total(rs))
                <==> ComesBefore(CursorIn(r, pool.lastReservedIP), w, a.value)
      {
        FreeExactly(r, exclusions, pool, w);
        StepsOrder(r, pool.lastReservedIP, w, a.value);
      }
      assert a == rs[0].At(a.value);
      TurnOf(pool, r, exclusions, a);
    }
  }

  lemma TurnOf(pool: PoolData, r: Range, exclusions: seq<Range>, a: Address)
    requires a == r.At(a.value) && Slot([r], 0, a.value)
    ensures FirstInTurn(pool, [r], exclusions, a) <==> FirstFree([r], exclusions, pool.entries, pool.lastReservedIP, 0, a.value)
  {
    var rs := [r];
    if FirstInTurn(pool, rs, exclusions, a) {
      var i, v :| Slot(rs, i, v) && a == rs[i].At(v) && FirstFree(rs, exclusions, pool.entries, pool.lastReservedIP, i, v);
      assert i == 0 && v == a.value;
    }
  }
}
