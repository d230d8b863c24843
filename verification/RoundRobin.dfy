/** Fairness of the node allocator (pkg/ipam-node/allocator/allocator.go) over whole runs: an address that was
    granted dynamically comes round again only after every other address had its turn.

    A run is the sequence of changes to the data of one pool while its range set stays the same. Sessions that are
    cancelled, or work on other pools, change nothing in it; releases and the cleaner take entries away and do not
    remove a pool that is still configured. */
module RoundRobin {
  import opened Addresses
  import opened StoreModel
  import opened NodeRanges
  import opened RangeIteration
  import opened NodeAllocator

  datatype Event =
    | DynamicGrant(id: string, ifName: string, meta: Metadata, range: nat, value: nat)
    | StaticGrant(id: string, ifName: string, meta: Metadata, address: Address)
    | Losses

  /** Entries are marked or gone, no address is new, and the rest of the pool is as it was. */
  ghost predicate Shrinks(before: PoolData, after: PoolData) {
    && after.(entries := map[]) == before.(entries := map[])
    && forall k :: k in after.entries ==> k in before.entries && after.entries[k].address == before.entries[k].address
  }

  ghost predicate Happens(rs: seq<Range>, exclusions: seq<Range>, before: PoolData, e: Event, after: PoolData) {
    match e
    case DynamicGrant(id, ifName, meta, i, v) =>
      && Slot(rs, i, v) && Key(id, ifName) !in before.entries
      && FirstFree(rs, exclusions, before.entries, before.lastReservedIP, i, v)
      && after == ReservedIn(before, id, ifName, meta, rs[i].At(v))
    case StaticGrant(id, ifName, meta, a) =>
      && Key(id, ifName) !in before.entries && !HasAddress(before.entries, a)
      && after == ReservedIn(before, id, ifName, meta, a).(lastReservedIP := before.lastReservedIP)
    case Losses => Shrinks(before, after)
  }

  ghost predicate PoolRun(rs: seq<Range>, exclusions: seq<Range>, states: seq<PoolData>, events: seq<Event>) {
    && |states| == |events| + 1
    && forall k :: 0 <= k < |events| ==> Happens(rs, exclusions, states[k], events[k], states[k + 1])
  }

  /** A dynamic grant leaves the cursor on the granted address; nothing else moves it. */
  lemma OnlyDynamicMoves(rs: seq<Range>, exclusions: seq<Range>, before: PoolData, e: Event, after: PoolData)
    requires Happens(rs, exclusions, before, e, after)
    ensures after.lastReservedIP == if e.DynamicGrant? then Some(rs[e.range].At(e.value)) else before.lastReservedIP
  {
    assert e.Losses? ==> after.(entries := map[]).lastReservedIP == before.(entries := map[]).lastReservedIP;
  }

  /** The walk that starts after `from` comes to `q` no later than to `to`. */
  predicate Reaches(from: int, q: int, to: int, total: int) {
    StepsTo(Turn(from, 1, total), q, total) <= StepsTo(Turn(from, 1, total), to, total)
  }

  /** Walking without reaching `q` only gets closer to it. */
  lemma GetsCloser(from: int, q: int, to: int, total: int)
    requires 0 <= from < total && 0 <= q < total && 0 <= to < total && !Reaches(from, q, to, total)
    ensures StepsTo(Turn(to, 1, total), q, total) < StepsTo(Turn(from, 1, total), q, total)
  {
  }

  lemma WalkStartsAfter(rs: seq<Range>, i: nat, v: nat)
    requires GoodSet(rs) && Slot(rs, i, v)
    ensures FirstPosition(rs, Some(rs[i].At(v))) == Turn(Pos(rs, i, v), 1, Total(rs))
  {
    GoodIsLaid(rs);
    assert GoodAt(rs, i);
    RangeOfIs(rs, rs[i].At(v), i);
  }

  predicate Allocatable(rs: seq<Range>, exclusions: seq<Range>, j: nat, w: nat) {
    Slot(rs, j, w) && !rs[j].IsGateway(w) && !SetContains(exclusions, rs[j].At(w))
  }

  predicate Grants(e: Event, j: nat, w: nat) {
    e.DynamicGrant? && e.range == j && e.value == w
  }

  /** The grant `e` is reached by a walk that starts after the earlier grant `from`, where the cursor still is, and
      comes by position `q`. */
  ghost predicate WalkPasses(rs: seq<Range>, before: PoolData, from: Event, e: Event, q: int) {
    && from.DynamicGrant? && Slot(rs, from.range, from.value)
    && before.lastReservedIP == Some(rs[from.range].At(from.value))
    && Reaches(Place(rs, from), q, Place(rs, e), Total(rs))
  }

  function Place(rs: seq<Range>, e: Event): int {
    if e.DynamicGrant? && Slot(rs, e.range, e.value) then Pos(rs, e.range, e.value) else -1
  }

  /** Positions, -1 where nothing moves. Going from a position back to itself, some move comes by `q`. */
  lemma Circle(ps: seq<int>, total: int, a: nat, b: nat, q: int) returns (m: nat, k: nat)
    requires forall i :: 0 <= i < |ps| ==> -1 <= ps[i] < total
    requires a < b < |ps| && ps[a] == ps[b] >= 0 && 0 <= q < total
    ensures a <= m < k <= b && ps[m] >= 0 && ps[k] >= 0 && Reaches(ps[m], q, ps[k], total)
    ensures forall i :: m < i < k ==> ps[i] == -1
  {
    m, k := a, a + 1;
    while k <= b && !(ps[k] >= 0 && Reaches(ps[m], q, ps[k], total))
      invariant a <= m < k <= b + 1 && ps[m] >= 0
      invariant forall i :: m < i < k ==> ps[i] == -1
      invariant k == b + 1 ==> m == b
      invariant m > a ==> StepsTo(Turn(ps[m], 1, total), q, total) < StepsTo(Turn(ps[a], 1, total), q, total)
    {
      if ps[k] >= 0 {
        GetsCloser(ps[m], q, ps[k], total);
        m := k;
      }
      k := k + 1;
    }
  }

  /** The cursor stays on the last dynamic grant. */
  lemma {:induction false} CursorStays(rs: seq<Range>, exclusions: seq<Range>, states: seq<PoolData>, events: seq<Event>, m: nat, k: nat)
    requires PoolRun(rs, exclusions, states, events) && m < k <= |events| && events[m].DynamicGrant?
    requires forall i :: m < i < k ==> !events[i].DynamicGrant?
    ensures Slot(rs, events[m].range, events[m].value)
    ensures states[k].lastReservedIP == Some(rs[events[m].range].At(events[m].value))
    decreases k
  {
    OnlyDynamicMoves(rs, exclusions, states[k - 1], events[k - 1], states[k]);
    if m < k - 1 {
      CursorStays(rs, exclusions, states, events, m, k - 1);
    }
  }

  lemma Places(rs: seq<Range>, exclusions: seq<Range>, states: seq<PoolData>, events: seq<Event>) returns (ps: seq<int>)
    requires InOrder(rs) && PoolRun(rs, exclusions, states, events)
    ensures |ps| == |events| && forall i :: 0 <= i < |ps| ==> ps[i] == Place(rs, events[i]) && -1 <= ps[i] < Total(rs)
    ensures forall i :: 0 <= i < |ps| ==> (ps[i] >= 0 <==> events[i].DynamicGrant?)
  {
    ps := seq(|events|, i requires 0 <= i < |events| => Place(rs, events[i]));
    forall i | 0 <= i < |events| ensures -1 <= ps[i] < Total(rs) && (ps[i] >= 0 <==> events[i].DynamicGrant?) {
      assert Happens(rs, exclusions, states[i], events[i], states[i + 1]);
      if events[i].DynamicGrant? {
        PosBounds(rs, events[i].range, events[i].value);
      } else {
        assert 0 <= Total(rs) by {
          OffsetMonotone(rs, 0, |rs|);
        }
      }
    }
  }

  /** Between two dynamic grants of the same address, every allocatable address had its turn: some dynamic grant was
      made on a walk from the cursor, left by an earlier one, that came by the address; and the address is what it
      granted, or somebody held it then. */
  lemma RoundRobinFair(rs: seq<Range>, exclusions: seq<Range>, states: seq<PoolData>, events: seq<Event>,
                       a: nat, b: nat, j: nat, w: nat) returns (k: nat)
    requires GoodSet(rs) && PoolRun(rs, exclusions, states, events)
    requires a < b < |events| && events[a].DynamicGrant? && Grants(events[b], events[a].range, events[a].value)
    requires Allocatable(rs, exclusions, j, w)
    ensures a < k <= b && events[k].DynamicGrant?
    ensures Grants(events[k], j, w) || HasAddress(states[k].entries, rs[j].At(w))
    ensures exists m :: a <= m < k && WalkPasses(rs, states[k], events[m], events[k], Pos(rs, j, w))
  {
    GoodIsLaid(rs);
    PosBounds(rs, j, w);
    var ps := Places(rs, exclusions, states, events);
    var m;
    m, k := Circle(ps, Total(rs), a, b, Pos(rs, j, w));
    CursorStays(rs, exclusions, states, events, m, k);
    assert WalkPasses(rs, states[k], events[m], events[k], Pos(rs, j, w));
    GrantedOrHeld(rs, exclusions, states[k], events[k], states[k + 1], events[m].range, events[m].value, j, w);
  }

  /** An allocatable address that a walk reaches is the one granted, or it was held. */
  lemma GrantedOrHeld(rs: seq<Range>, exclusions: seq<Range>, before: PoolData, e: Event, after: PoolData,
                      i: nat, v: nat, j: nat, w: nat)
    requires GoodSet(rs) && Slot(rs, i, v) && before.lastReservedIP == Some(rs[i].At(v))
    requires e.DynamicGrant? && Happens(rs, exclusions, before, e, after)
    requires Allocatable(rs, exclusions, j, w) && Reaches(Pos(rs, i, v), Pos(rs, j, w), Place(rs, e), Total(rs))
    ensures Grants(e, j, w) || HasAddress(before.entries, rs[j].At(w))
  {
    GoodIsLaid(rs);
    WalkStartsAfter(rs, i, v);
    var entries := before.entries;
    PosBounds(rs, j, w);
    PosBounds(rs, e.range, e.value);
    PosBounds(rs, i, v);
    var first, total := Turn(Pos(rs, i, v), 1, Total(rs)), Total(rs);
    if StepsTo(first, Pos(rs, j, w), total) < StepsTo(first, Place(rs, e), total) {
      assert Blocked(rs, exclusions, entries, j, w);
    } else {
      PosInjective(rs, j, w, e.range, e.value);
    }
  }
}
