/** The exclusion interval algebra (api/v1alpha1/helpers.go).

    Every operation is proved against plain membership: which addresses, or which indexes, lie in some
    interval of a list. */
module Exclusions {
  import opened Addresses

  /** An inclusive interval, of addresses of one family or of indexes. */
  datatype Interval = Interval(start: int, end: int) {
    predicate Has(a: int) {
      start <= a <= end
    }
  }

  type ExcludeRange = Interval
  type ExcludeIndexRange = Interval

  /** `a` lies in some interval of the list. */
  ghost predicate Covers(rs: seq<Interval>, a: int) {
    exists r :: r in rs && r.Has(a)
  }

  /** What pool validation demands of address ranges: ordered ends inside the address space. */
  predicate ValidRanges(f: Family, rs: seq<ExcludeRange>) {
    forall r :: r in rs ==> 0 <= r.start <= r.end < Space(f)
  }

  /** What pool validation demands of index ranges, `last` being the last index of a block. */
  predicate ValidIndexes(rs: seq<ExcludeIndexRange>, last: int) {
    forall r :: r in rs ==> 0 <= r.start <= r.end <= last
  }

  ghost predicate SortedByStart(rs: seq<Interval>) {
    forall i, j :: 0 <= i < j < |rs| ==> rs[i].start <= rs[j].start
  }

  /** Sorted, disjoint, and with at least one uncovered value between neighbours. */
  ghost predicate Separated(rs: seq<Interval>) {
    forall i, j :: 0 <= i < j < |rs| ==> rs[i].end + 1 < rs[j].start
  }

  /** A block `lo..hi` is used up when each address is in a pool exclusion or its index in a per-node one. */
  ghost predicate FullyExcluded(pool: seq<ExcludeRange>, perNode: seq<ExcludeIndexRange>, lo: int, hi: int) {
    forall a :: lo <= a <= hi ==> Excluded(pool, perNode, lo, a)
  }

  ghost predicate Excluded(pool: seq<ExcludeRange>, perNode: seq<ExcludeIndexRange>, lo: int, a: int) {
    Covers(pool, a) || Covers(perNode, a - lo)
  }

  lemma CoversAppend(rs: seq<Interval>, ts: seq<Interval>, a: int)
    ensures Covers(rs + ts, a) <==> Covers(rs, a) || Covers(ts, a)
  {
    if Covers(rs, a) {
      var r :| r in rs && r.Has(a);
      assert r in rs + ts;
    }
    if Covers(ts, a) {
      var r :| r in ts && r.Has(a);
      assert r in rs + ts;
    }
  }

  lemma CoversOne(r: Interval, a: int)
    ensures Covers([r], a) <==> r.Has(a)
  {
    assert r in [r];
  }

  // ----- sorting -----

  method InsertByStart(s: seq<Interval>, x: Interval) returns (out: seq<Interval>)
    requires SortedByStart(s)
    ensures SortedByStart(out)
    ensures multiset(out) == multiset(s) + multiset{x}
  {
    var k := 0;
    while k < |s| && s[k].start <= x.start
      invariant k <= |s|
      invariant forall j :: 0 <= j < k ==> s[j].start <= x.start
    {
      k := k + 1;
    }
    assert s == s[..k] + s[k..];
    out := s[..k] + [x] + s[k..];
  }

  /** Sorts by start. Callers learn only that the result is an ordered rearrangement, so what they prove
      holds for every such sort, whatever it does with equal starts. */
  method SortByStart(rs: seq<Interval>) returns (out: seq<Interval>)
    ensures SortedByStart(out)
    ensures multiset(out) == multiset(rs)
    ensures forall r :: r in out <==> r in rs
  {
    out := [];
    for i := 0 to |rs|
      invariant SortedByStart(out)
      invariant multiset(out) == multiset(rs[..i])
    {
      assert rs[..i + 1] == rs[..i] + [rs[i]];
      out := InsertByStart(out, rs[i]);
    }
    assert rs[..|rs|] == rs;
    assert forall r :: r in out <==> r in multiset(out);
    assert forall r :: r in rs <==> r in multiset(rs);
  }

  // ----- merge -----

  /** Merges overlapping and adjacent ranges: the same addresses, in separated ranges. */
  method MergeExcludeRanges(f: Family, rs: seq<ExcludeRange>) returns (out: seq<ExcludeRange>)
    requires ValidRanges(f, rs)
    ensures forall a :: Covers(out, a) <==> Covers(rs, a)
    ensures Separated(out)
    ensures ValidRanges(f, out)
  {
    if |rs| == 0 {
      return [];
    }
    var s := SortByStart(rs);
    assert s[0] in s;
    assert rs[0] in s;
    var current := s[0];
    out := [];
    forall a ensures Covers(out + [current], a) <==> Covers(s[..1], a) {
      assert out + [current] == s[..1];
    }
    for i := 1 to |s|
      invariant Separated(out + [current])
      invariant ValidRanges(f, out + [current])
      invariant forall j :: i <= j < |s| ==> current.start <= s[j].start
      invariant forall a :: Covers(out + [current], a) <==> Covers(s[..i], a)
    {
      var next := s[i];
      assert next in s;
      assert current in out + [current];
      assert s[..i + 1] == s[..i] + [next];
      if current.end >= next.start || NextIP(f, current.end) == Some(next.start) {
        var merged := if current.end < next.end then current.(end := next.end) else current;
        MergeJoin(out, current, next, merged, s[..i]);
        current := merged;
      } else {
        MergeClose(out, current, next, s[..i]);
        out := out + [current];
        current := next;
      }
    }
    out := out + [current];
    assert s[..|s|] == s;
    forall a ensures Covers(s, a) <==> Covers(rs, a) {
    }
  }

  /** Joining `next` to a current range it touches. */
  lemma MergeJoin(out: seq<Interval>, current: Interval, next: Interval, merged: Interval, done: seq<Interval>)
    requires current.start <= next.start <= current.end + 1
    requires current.start <= current.end && next.start <= next.end
    requires merged == Interval(current.start, if current.end < next.end then next.end else current.end)
    requires Separated(out + [current])
    requires forall a :: Covers(out + [current], a) <==> Covers(done, a)
    ensures Separated(out + [merged])
    ensures forall a :: Covers(out + [merged], a) <==> Covers(done + [next], a)
  {
    forall a ensures Covers(out + [merged], a) <==> Covers(done + [next], a) {
      CoversAppend(out, [merged], a);
      CoversAppend(out, [current], a);
      CoversAppend(done, [next], a);
      CoversOne(merged, a);
      CoversOne(current, a);
      CoversOne(next, a);
    }
    var was, now := out + [current], out + [merged];
    forall i, j | 0 <= i < j < |now| ensures now[i].end + 1 < now[j].start {
      assert was[i].end + 1 < was[j].start;
    }
  }

  /** Starting a new current range after a gap. */
  lemma MergeClose(out: seq<Interval>, current: Interval, next: Interval, done: seq<Interval>)
    requires current.start <= current.end && current.end + 1 < next.start
    requires Separated(out + [current])
    requires forall a :: Covers(out + [current], a) <==> Covers(done, a)
    ensures Separated(out + [current] + [next])
    ensures forall a :: Covers(out + [current] + [next], a) <==> Covers(done + [next], a)
  {
    forall a ensures Covers(out + [current] + [next], a) <==> Covers(done + [next], a) {
      CoversAppend(out + [current], [next], a);
      CoversAppend(done, [next], a);
    }
    var was, now := out + [current], out + [current] + [next];
    forall i, j | 0 <= i < j < |now| ensures now[i].end + 1 < now[j].start {
      if j < |was| {
        assert was[i].end + 1 < was[j].start;
      } else if i < |out| {
        assert was[i].end + 1 < was[|out|].start;
      }
    }
  }

  // ----- clamp -----

  predicate Meets(r: Interval, lo: int, hi: int) {
    !(r.start > hi || r.end < lo)
  }

  function Clamp(r: Interval, lo: int, hi: int): Interval {
    Interval(if r.start < lo then lo else r.start, if r.end > hi then hi else r.end)
  }

  function Clamped(rs: seq<ExcludeRange>, lo: int, hi: int): seq<ExcludeRange> {
    if rs == [] then []
    else
      var r, before := rs[|rs| - 1], Clamped(rs[..|rs| - 1], lo, hi);
      if Meets(r, lo, hi) then before + [Clamp(r, lo, hi)] else before
  }

  /** An address survives clamping exactly when it lies in a range and in the window. */
  lemma {:induction false} ClampedCovers(rs: seq<ExcludeRange>, lo: int, hi: int, a: int)
    requires lo <= hi && forall r :: r in rs ==> r.start <= r.end
    ensures Covers(Clamped(rs, lo, hi), a) <==> Covers(rs, a) && lo <= a <= hi
    ensures forall r :: r in Clamped(rs, lo, hi) ==> lo <= r.start <= r.end <= hi
  {
    if rs != [] {
      var r, front := rs[|rs| - 1], rs[..|rs| - 1];
      ClampedCovers(front, lo, hi, a);
      assert rs == front + [r];
      CoversAppend(front, [r], a);
      CoversOne(r, a);
      CoversAppend(Clamped(front, lo, hi), [Clamp(r, lo, hi)], a);
      CoversOne(Clamp(r, lo, hi), a);
    }
  }

  /** Cuts ranges down to `lo..hi`, dropping those outside. */
  method ClampExcludeRanges(rs: seq<ExcludeRange>, lo: int, hi: int) returns (out: seq<ExcludeRange>)
    requires forall r :: r in rs ==> r.start <= r.end
    requires lo <= hi
    ensures forall a :: Covers(out, a) <==> Covers(rs, a) && lo <= a <= hi
    ensures forall r :: r in out ==> lo <= r.start <= r.end <= hi
    ensures out == Clamped(rs, lo, hi)
  {
    out := [];
    for i := 0 to |rs|
      invariant out == Clamped(rs[..i], lo, hi)
    {
      assert rs[..i + 1][..i] == rs[..i];
      var r := rs[i];
      if r.start > hi || r.end < lo {
        continue;
      }
      out := out + [Interval(if r.start < lo then lo else r.start, if r.end > hi then hi else r.end)];
    }
    assert rs[..|rs|] == rs;
    ClampedCovers(rs, lo, hi, lo);
    forall a ensures Covers(out, a) <==> Covers(rs, a) && lo <= a <= hi {
      ClampedCovers(rs, lo, hi, a);
    }
  }

  // ----- index ranges to address ranges -----

  /** An index range is kept when both of its ends are addresses. */
  predicate Convertible(f: Family, e: ExcludeIndexRange, start: nat) {
    NextIPWithOffset(f, start, e.start).Some? && NextIPWithOffset(f, start, e.end).Some?
  }

  function Shift(e: ExcludeIndexRange, start: int): ExcludeRange {
    Interval(start + e.start, start + e.end)
  }

  /** Index ranges counted from `start`, as addresses; a range with an end outside the address space is dropped
      whole. */
  function Converted(f: Family, es: seq<ExcludeIndexRange>, start: nat): seq<ExcludeRange> {
    if es == [] then []
    else
      var e, before := es[|es| - 1], Converted(f, es[..|es| - 1], start);
      if Convertible(f, e, start) then before + [Shift(e, start)] else before
  }

  lemma {:induction false} ConvertedOk(f: Family, es: seq<ExcludeIndexRange>, start: nat, a: int)
    ensures Covers(Converted(f, es, start), a) <==> ConvertedCovers(f, es, start, a)
    ensures forall r :: r in Converted(f, es, start) ==> 0 <= r.start < Space(f) && 0 <= r.end < Space(f)
    ensures forall r :: r in Converted(f, es, start) ==> exists e :: e in es && r == Shift(e, start)
  {
    if es != [] {
      var e, front := es[|es| - 1], es[..|es| - 1];
      ConvertedOk(f, front, start, a);
      assert es == front + [e];
      ConvertedAppend(f, front, e, start, a);
      CoversAppend(Converted(f, front, start), [Shift(e, start)], a);
      CoversOne(Shift(e, start), a);
    }
  }

  /** Converts index ranges counted from `start`. */
  method ExcludeIndexRangeToExcludeRange(f: Family, es: seq<ExcludeIndexRange>, start: nat)
    returns (out: seq<ExcludeRange>)
    ensures forall a :: Covers(out, a) <==> ConvertedCovers(f, es, start, a)
    ensures forall r :: r in out ==> 0 <= r.start < Space(f) && 0 <= r.end < Space(f)
    ensures (forall e :: e in es ==> e.start <= e.end) ==> forall r :: r in out ==> r.start <= r.end
    ensures out == Converted(f, es, start)
  {
    out := [];
    for i := 0 to |es|
      invariant out == Converted(f, es[..i], start)
    {
      assert es[..i + 1][..i] == es[..i];
      var s, t := NextIPWithOffset(f, start, es[i].start), NextIPWithOffset(f, start, es[i].end);
      if s.None? || t.None? {
        continue;
      }
      out := out + [Interval(s.value, t.value)];
    }
    assert es[..|es|] == es;
    ConvertedOk(f, es, start, 0);
    forall a ensures Covers(out, a) <==> ConvertedCovers(f, es, start, a) {
      ConvertedOk(f, es, start, a);
    }
  }

  ghost predicate ConvertedCovers(f: Family, es: seq<ExcludeIndexRange>, start: nat, a: int) {
    exists e :: e in es && Convertible(f, e, start) && e.Has(a - start)
  }

  lemma ConvertedAppend(f: Family, es: seq<ExcludeIndexRange>, e: ExcludeIndexRange, start: nat, a: int)
    ensures ConvertedCovers(f, es + [e], start, a)
            <==> ConvertedCovers(f, es, start, a) || (Convertible(f, e, start) && e.Has(a - start))
  {
    if ConvertedCovers(f, es, start, a) {
      var x :| x in es && Convertible(f, x, start) && x.Has(a - start);
      assert x in es + [e];
    }
    assert e in es + [e];
  }

  // ----- sweep cover -----

  /** Whether the index ranges cover every index from 0 to `last`. A "yes" is right for any input; for
      validated ranges the answer is exact. */
  method ExcludeIndexRangesCover(es: seq<ExcludeIndexRange>, last: int) returns (b: bool)
    ensures b ==> last >= 0 && forall i :: 0 <= i <= last ==> Covers(es, i)
    ensures (forall e :: e in es ==> 0 <= e.start <= e.end) && last >= 0 ==>
              (b <==> forall i :: 0 <= i <= last ==> Covers(es, i))
  {
    if last < 0 || |es| == 0 {
      assert !Covers(es, 0) || last < 0;
      return false;
    }
    var s := SortByStart(es);
    var through := -1;
    for k := 0 to |s|
      invariant -1 <= through < last
      invariant forall i :: 0 <= i <= through ==> Covers(es, i)
      invariant forall j :: 0 <= j < k ==> s[j].end <= through
    {
      var e := s[k];
      assert e in es;
      if e.start < 0 || e.end < e.start {
        return false;
      }
      if e.start > through + 1 {
        UncoveredGap(s, k, through + 1);
        assert !Covers(es, through + 1);
        return false;
      }
      forall i | 0 <= i <= e.end ensures Covers(es, i) {
        if i > through {
          assert e.Has(i);
        }
      }
      if e.end > through {
        through := e.end;
      }
      if through >= last {
        return true;
      }
    }
    UncoveredGap(s, |s|, through + 1);
    assert !Covers(es, through + 1);
    return false;
  }

  /** The sweep stops at the first gap: ranges seen end before it and the rest start after it. */
  lemma UncoveredGap(s: seq<Interval>, k: nat, gap: int)
    requires k <= |s| && SortedByStart(s)
    requires forall j :: 0 <= j < k ==> s[j].end < gap
    requires k < |s| ==> s[k].start > gap
    ensures !Covers(s, gap)
  {
    forall r | r in s ensures !r.Has(gap) {
      var j :| 0 <= j < |s| && s[j] == r;
      if j > k {
        assert s[k].start <= s[j].start;
      }
    }
  }

  // ----- fully excluded -----

  /** Right after a separated range comes an uncovered value. */
  lemma GapAfter(rs: seq<Interval>, i: nat)
    requires i < |rs| && Separated(rs)
    requires forall r :: r in rs ==> r.start <= r.end
    ensures !Covers(rs, rs[i].end + 1)
  {
    forall r | r in rs ensures !r.Has(rs[i].end + 1) {
      var j :| 0 <= j < |rs| && rs[j] == r;
      assert rs[i] in rs;
      assert j < i ==> rs[j].end + 1 < rs[i].start;
      assert i < j ==> rs[i].end + 1 < rs[j].start;
    }
  }

  /** Separated ranges inside `lo..hi` cover it exactly when they are the one range `lo..hi`. */
  lemma SingleCover(rs: seq<Interval>, lo: int, hi: int)
    requires lo <= hi
    requires Separated(rs)
    requires forall r :: r in rs ==> lo <= r.start <= r.end <= hi
    ensures (forall a :: lo <= a <= hi ==> Covers(rs, a)) <==> rs == [Interval(lo, hi)]
  {
    if rs == [Interval(lo, hi)] {
      assert Interval(lo, hi) in rs;
    }
    if forall a :: lo <= a <= hi ==> Covers(rs, a) {
      assert Covers(rs, lo);
      GapAfter(rs, 0);
      assert rs[0] in rs;
      assert rs[0].end == hi;
      NothingBehind(rs, hi);
      assert rs == [rs[0]];
    }
  }

  lemma NothingBehind(rs: seq<Interval>, hi: int)
    requires |rs| > 0 && Separated(rs) && forall r :: r in rs ==> r.start <= r.end <= hi
    ensures |rs| > 1 ==> rs[0].end < hi
  {
    if |rs| > 1 {
      assert rs[1] in rs && rs[0].end + 1 < rs[1].start;
    }
  }

  /** "Is this block fully excluded": convert, clamp, merge and compare ends
      (pkg/ipam-controller/allocator/allocator.go and pkg/ipam-controller/controllers/cidrpool/cidrpool.go
      both do it this way). */
  method IsEntireRangeExcluded(f: Family, pool: seq<ExcludeRange>, perNode: seq<ExcludeIndexRange>,
                               lo: nat, hi: nat) returns (b: bool)
    requires lo <= hi < Space(f)
    requires ValidRanges(f, pool)
    requires ValidIndexes(perNode, Space(f) - 1 - lo)
    ensures b <==> FullyExcluded(pool, perNode, lo, hi)
  {
    var converted := ExcludeIndexRangeToExcludeRange(f, perNode, lo);
    var all := pool + converted;
    forall a ensures Covers(all, a) <==> Excluded(pool, perNode, lo, a) {
      CoversAppend(pool, converted, a);
      AllConvertible(f, perNode, lo, a);
    }
    all := ClampExcludeRanges(all, lo, hi);
    var merged := MergeExcludeRanges(f, all);
    EndsFromCover(merged, all, lo, hi);
    SingleCover(merged, lo, hi);
    b := |merged| == 1 && merged[0].start <= lo && merged[0].end >= hi;
    if b {
      assert merged[0] in merged;
      assert merged == [Interval(lo, hi)];
    }
    assert FullyExcluded(pool, perNode, lo, hi) <==> forall a :: lo <= a <= hi ==> Covers(merged, a);
  }

  lemma AllConvertible(f: Family, es: seq<ExcludeIndexRange>, lo: nat, a: int)
    requires lo < Space(f)
    requires ValidIndexes(es, Space(f) - 1 - lo)
    ensures ConvertedCovers(f, es, lo, a) <==> Covers(es, a - lo)
  {
    if Covers(es, a - lo) {
      var e :| e in es && e.Has(a - lo);
      assert Convertible(f, e, lo);
    }
  }

  /** Merging cannot widen the ends beyond the window the ranges were clamped to. */
  lemma EndsFromCover(merged: seq<Interval>, all: seq<Interval>, lo: int, hi: int)
    requires forall r :: r in merged ==> r.start <= r.end
    requires forall r :: r in all ==> lo <= r.start <= r.end <= hi
    requires forall a :: Covers(merged, a) <==> Covers(all, a)
    ensures forall r :: r in merged ==> lo <= r.start <= r.end <= hi
  {
    forall r | r in merged ensures lo <= r.start <= r.end <= hi {
      assert r.Has(r.start) && r.Has(r.end);
      assert Covers(all, r.start) && Covers(all, r.end);
    }
  }
}
