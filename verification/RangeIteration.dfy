/** The round-robin iterator over a range set (pkg/ipam-node/allocator/allocator.go, RangeIter).

    The addresses of a range set are numbered 0 to Total - 1, range after range. The iterator walks these
    positions cyclically, once around, leaving out gateways. */
module RangeIteration {
  import opened Addresses
  import opened NodeRanges
  import Multiples

  ghost predicate InOrder(rs: seq<Range>) {
    |rs| > 0 && forall i :: 0 <= i < |rs| ==> rs[i].start <= rs[i].end
  }

  ghost predicate Disjoint(rs: seq<Range>) {
    forall i, j :: 0 <= i < j < |rs| ==> NoneShared(rs, i, j)
  }

  predicate EndInSpace(rs: seq<Range>, i: int) {
    0 <= i < |rs| && rs[i].end < Space(rs[i].subnet.family)
  }

  ghost predicate InSpace(rs: seq<Range>) {
    forall i :: 0 <= i < |rs| ==> EndInSpace(rs, i)
  }

  /** All the iterator relies on: ranges in order, disjoint, inside the address space. */
  ghost predicate Laid(rs: seq<Range>) {
    InOrder(rs) && Disjoint(rs) && InSpace(rs)
  }

  lemma GoodIsLaid(rs: seq<Range>)
    requires GoodSet(rs)
    ensures Laid(rs)
  {
    forall i | 0 <= i < |rs| ensures rs[i].start <= rs[i].end && EndInSpace(rs, i) {
      assert GoodAt(rs, i);
    }
  }

  // ----- positions -----

  /** `v` is an address of the i-th range. */
  predicate Slot(rs: seq<Range>, i: int, v: nat) {
    0 <= i < |rs| && rs[i].start <= v <= rs[i].end
  }

  /** The number of addresses in the first `i` ranges. */
  function Offset(rs: seq<Range>, i: nat): int
    requires i <= |rs|
  {
    if i == 0 then 0 else Offset(rs, i - 1) + rs[i - 1].end - rs[i - 1].start + 1
  }

  function Total(rs: seq<Range>): int {
    Offset(rs, |rs|)
  }

  function Pos(rs: seq<Range>, i: nat, v: nat): int
    requires Slot(rs, i, v)
  {
    Offset(rs, i) + v - rs[i].start
  }

  /** `k` positions further around the circle, for at most one turn. */
  function Turn(p: int, k: int, total: int): int {
    if p + k < total then p + k else p + k - total
  }

  lemma {:induction false} OffsetMonotone(rs: seq<Range>, i: nat, j: nat)
    requires InOrder(rs) && i < j <= |rs|
    ensures Offset(rs, i) + rs[i].end - rs[i].start + 1 <= Offset(rs, j)
    decreases j
  {
    if i + 1 < j {
      OffsetMonotone(rs, i, j - 1);
    }
  }

  lemma PosBounds(rs: seq<Range>, i: nat, v: nat)
    requires InOrder(rs) && Slot(rs, i, v)
    ensures 0 <= Pos(rs, i, v) < Total(rs)
  {
    OffsetMonotone(rs, i, |rs|);
    if i > 0 {
      OffsetMonotone(rs, 0, i);
    }
  }

  /** A position has one address. */
  lemma PosInjective(rs: seq<Range>, i: nat, v: nat, j: nat, w: nat)
    requires InOrder(rs) && Slot(rs, i, v) && Slot(rs, j, w) && Pos(rs, i, v) == Pos(rs, j, w)
    ensures i == j && v == w
  {
    if i < j {
      OffsetMonotone(rs, i, j);
    } else if j < i {
      OffsetMonotone(rs, j, i);
    }
  }

  /** An address has one position, because the ranges are disjoint. */
  lemma SlotUnique(rs: seq<Range>, i: nat, j: nat, v: nat)
    requires Disjoint(rs) && Slot(rs, i, v) && Slot(rs, j, v)
    ensures i == j
  {
    var _, _ := NoneShared(rs, i, j), NoneShared(rs, j, i);
  }

  /** The slot after a slot. */
  function Following(rs: seq<Range>, i: nat, v: nat): (nat, nat)
    requires Slot(rs, i, v)
  {
    if v == rs[i].end then
      var j := if i + 1 == |rs| then 0 else i + 1;
      (j, rs[j].start)
    else (i, v + 1)
  }

  lemma FollowingPos(rs: seq<Range>, i: nat, v: nat)
    requires InOrder(rs) && Slot(rs, i, v)
    ensures var (j, w) := Following(rs, i, v);
            Slot(rs, j, w) && Pos(rs, j, w) == Turn(Pos(rs, i, v), 1, Total(rs))
  {
    PosBounds(rs, i, v);
    var (j, w) := Following(rs, i, v);
    PosBounds(rs, j, w);
    if v == rs[i].end && i + 1 < |rs| {
      assert Offset(rs, i + 1) == Offset(rs, i) + rs[i].end - rs[i].start + 1;
    }
  }

  /** The address at this position is the gateway of its range. */
  ghost predicate GatewayAt(rs: seq<Range>, p: int) {
    forall i, v :: Slot(rs, i, v) && Pos(rs, i, v) == p ==> rs[i].IsGateway(v)
  }

  lemma GatewaySlot(rs: seq<Range>, i: nat, v: nat)
    requires InOrder(rs) && Slot(rs, i, v) && rs[i].IsGateway(v)
    ensures GatewayAt(rs, Pos(rs, i, v))
  {
    forall j: int, w: nat | Slot(rs, j, w) && Pos(rs, j, w) == Pos(rs, i, v) ensures rs[j].IsGateway(w) {
      PosInjective(rs, i, v, j, w);
    }
  }

  /** Positions `lo` to `hi - 1`, counted from `first`, are all gateways. */
  ghost predicate GatewaysBetween(rs: seq<Range>, first: int, lo: int, hi: int) {
    forall j :: lo <= j < hi ==> GatewayAt(rs, Turn(first, j, Total(rs)))
  }

  lemma GatewaysExtend(rs: seq<Range>, first: int, lo: int, hi: int)
    requires GatewayAt(rs, Turn(first, lo, Total(rs))) && GatewaysBetween(rs, first, lo + 1, hi)
    ensures GatewaysBetween(rs, first, lo, hi)
  {
  }

  ghost predicate StartsAt(rs: seq<Range>, v: nat, first: int) {
    exists i :: Slot(rs, i, v) && Pos(rs, i, v) == first
  }

  /** The state of a walk that began at position `first` and has visited `count` positions. */
  ghost predicate Walk(rs: seq<Range>, idx: nat, cur: Option<nat>, startIP: Option<nat>, first: int, count: int) {
    && 0 <= first < Total(rs) && 0 <= count <= Total(rs)
    && idx < |rs|
    && (cur.None? ==> count == 0 && first == 0 && idx == 0)
    && (cur.Some? ==> Slot(rs, idx, cur.value))
    && (cur.Some? && count == 0 ==> startIP.None? && first == Turn(Pos(rs, idx, cur.value), 1, Total(rs)))
    && (count > 0 ==>
          && cur.Some?
          && Pos(rs, idx, cur.value) == Turn(first, count - 1, Total(rs))
          && startIP.Some?
          && StartsAt(rs, startIP.value, first))
  }

  lemma WalkBegins(rs: seq<Range>, startIP: Option<nat>)
    requires InOrder(rs) && Walk(rs, 0, None, startIP, 0, 0)
    ensures Walk(rs, 0, Some(rs[0].start), Some(rs[0].start), 0, 1)
  {
    assert Slot(rs, 0, rs[0].start);
  }

  /** One step of the walk: it goes on to the following slot, and is back at its start exactly when every
      position has been visited. */
  lemma WalkGoesOn(rs: seq<Range>, idx: nat, cur: nat, startIP: Option<nat>, first: int, count: int)
    requires InOrder(rs) && Disjoint(rs) && Walk(rs, idx, Some(cur), startIP, first, count)
    ensures var (j, w) := Following(rs, idx, cur);
            && (startIP.None? ==> count == 0 && Walk(rs, j, Some(w), Some(w), first, 1))
            && (startIP.Some? ==> (w == startIP.value <==> count == Total(rs)))
            && (startIP.Some? && count < Total(rs) ==> Walk(rs, j, Some(w), startIP, first, count + 1))
  {
    var (j, w) := Following(rs, idx, cur);
    FollowingPos(rs, idx, cur);
    assert Slot(rs, j, w);
    if startIP.Some? {
      var s :| Slot(rs, s, startIP.value) && Pos(rs, s, startIP.value) == first;
      if w == startIP.value {
        SlotUnique(rs, j, s, w);
      }
      if Pos(rs, j, w) == first {
        PosInjective(rs, j, w, s, startIP.value);
      }
    }
  }

  /** The range that holds the last reserved address, if there is one. */
  method FindRange(rs: seq<Range>, last: Option<Address>) returns (at: Option<nat>)
    requires Disjoint(rs)
    ensures at == RangeOf(rs, last)
  {
    at := None;
    if last.Some? {
      for i := 0 to |rs|
        invariant forall k :: 0 <= k < i ==> !rs[k].Contains(last.value)
      {
        if rs[i].Contains(last.value) {
          RangeOfIs(rs, last.value, i);
          return Some(i);
        }
      }
    }
  }

  ghost function RangeOf(rs: seq<Range>, last: Option<Address>): (r: Option<nat>)
    ensures r.Some? ==> last.Some? && r.value < |rs| && rs[r.value].Contains(last.value)
    ensures r.None? && last.Some? ==> forall i :: 0 <= i < |rs| ==> !rs[i].Contains(last.value)
  {
    if last.Some? && exists i :: 0 <= i < |rs| && rs[i].Contains(last.value) then
      var i :| 0 <= i < |rs| && rs[i].Contains(last.value);
      Some(i)
    else None
  }

  lemma RangeOfIs(rs: seq<Range>, a: Address, i: nat)
    requires Disjoint(rs) && i < |rs| && rs[i].Contains(a)
    ensures RangeOf(rs, Some(a)) == Some(i)
  {
    SlotUnique(rs, i, RangeOf(rs, Some(a)).value, a.value);
  }

  /** Where a walk begins: right after the last reserved address, or at the beginning of the set. */
  ghost function FirstPosition(rs: seq<Range>, last: Option<Address>): int {
    match RangeOf(rs, last)
    case Some(i) => Turn(Pos(rs, i, last.value.value), 1, Total(rs))
    case None => 0
  }

  method Advance(rs: seq<Range>, i: nat, v: nat) returns (j: nat, w: nat)
    requires Slot(rs, i, v) && InSpace(rs)
    ensures (j, w) == Following(rs, i, v)
  {
    assert EndInSpace(rs, i);
    var nextIP := NextIP(rs[i].subnet.family, v);
    if v == rs[i].end || nextIP.None? {
      Multiples.Wrap(i, |rs|);
      j := (i + 1) % |rs|;
      w := rs[j].start;
    } else {
      j, w := i, nextIP.value;
    }
  }

  datatype Candidate = Candidate(range: nat, value: nat)

  class RangeIter {
    const rangeSet: seq<Range>
    var rangeIdx: nat
    var cur: Option<nat>
    var startIP: Option<nat>
    /** The first position and how many positions have been visited. */
    ghost const first: int
    ghost var count: int

    ghost predicate Valid()
      reads this
    {
      Laid(rangeSet) && Walk(rangeSet, rangeIdx, cur, startIP, first, count)
    }

    /** Starts at the first address of the set, or right after the last reserved address if that is in it. */
    constructor (rangeSet: seq<Range>, last: Option<Address>)
      requires Laid(rangeSet)
      ensures Valid() && this.rangeSet == rangeSet && count == 0
      ensures first == FirstPosition(rangeSet, last)
    {
      this.rangeSet := rangeSet;
      var at := FindRange(rangeSet, last);
      PosBounds(rangeSet, 0, rangeSet[0].start);
      if at.Some? {
        rangeIdx := at.value;
        cur := Some(last.value.value);
        startIP := None;
        PosBounds(rangeSet, at.value, last.value.value);
        first := Turn(Pos(rangeSet, at.value, last.value.value), 1, Total(rangeSet));
      } else {
        rangeIdx := 0;
        cur := None;
        startIP := Some(rangeSet[0].start);
        first := 0;
      }
      count := 0;
    }

    /** The next address that is not a gateway, in cyclic order; None when the walk has come full circle. */
    method Next() returns (r: Option<Candidate>)
      requires Valid()
      modifies this
      ensures r.Some? ==>
                && Valid() && count > old(count)
                && Slot(rangeSet, r.value.range, r.value.value)
                && Pos(rangeSet, r.value.range, r.value.value) == Turn(first, count - 1, Total(rangeSet))
                && !rangeSet[r.value.range].IsGateway(r.value.value)
                && GatewaysBetween(rangeSet, first, old(count), count - 1)
      ensures r.None? ==> GatewaysBetween(rangeSet, first, old(count), Total(rangeSet))
      decreases Total(rangeSet) - count
    {
      var more := Move();
      if !more {
        return None;
      }
      var v := cur.value;
      if rangeSet[rangeIdx].IsGateway(v) {
        GatewaySlot(rangeSet, rangeIdx, v);
        ghost var here := count - 1;
        r := Next();
        GatewaysExtend(rangeSet, first, here, if r.Some? then count - 1 else Total(rangeSet));
        return;
      }
      return Some(Candidate(rangeIdx, v));
    }

    /** Moves the cursor one position, unless that ends the circle. */
    method Move() returns (more: bool)
      requires Valid()
      modifies this
      ensures more <==> old(count) < Total(rangeSet)
      ensures more ==> Valid() && count == old(count) + 1
    {
      if cur.None? {
        WalkBegins(rangeSet, startIP);
        cur := Some(rangeSet[rangeIdx].start);
        startIP := cur;
        count := 1;
        return true;
      }
      WalkGoesOn(rangeSet, rangeIdx, cur.value, startIP, first, count);
      var j, w := Advance(rangeSet, rangeIdx, cur.value);
      rangeIdx, cur := j, Some(w);
      if startIP.None? {
        startIP := cur;
        count := 1;
        return true;
      }
      if cur == startIP {
        return false;
      }
      count := count + 1;
      return true;
    }
  }
}
