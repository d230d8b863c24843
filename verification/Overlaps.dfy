/** Lists of exclusions without overlaps, which is what a node demands of them
    (pkg/ipam-node/allocator/range_set.go). */
module Overlaps {
  import opened Addresses
  import opened Exclusions

  predicate Separate(r: Interval, s: Interval) {
    r.end < s.start || s.end < r.start
  }

  ghost predicate AllApart(list: seq<Interval>) {
    forall i, j :: 0 <= i < j < |list| ==> Separate(list[i], list[j])
  }

  ghost predicate AllInOrder(list: seq<Interval>) {
    forall r :: r in list ==> r.start <= r.end
  }

  predicate Share(r: Interval, s: Interval, v: int) {
    r.Has(v) && s.Has(v)
  }

  /** No value lies in two intervals of the list. */
  ghost predicate NoneTwice(list: seq<Interval>) {
    forall i, j, v {:trigger Share(list[i], list[j], v)} :: 0 <= i < j < |list| ==> !Share(list[i], list[j], v)
  }

  /** For intervals in order that is being apart. */
  lemma ApartExactly(list: seq<Interval>)
    requires AllInOrder(list)
    ensures AllApart(list) <==> NoneTwice(list)
  {
    forall i, j | 0 <= i < j < |list| ensures Separate(list[i], list[j]) <==> forall v :: !Share(list[i], list[j], v) {
      var x, y := list[i], list[j];
      assert x in list && y in list;
      var v := if x.start < y.start then y.start else x.start;
      assert !Separate(x, y) ==> Share(x, y, v);
    }
  }

  /** A list in two parts. */
  lemma NoneTwiceAppend(xs: seq<Interval>, ys: seq<Interval>)
    ensures NoneTwice(xs + ys) <==> NoneTwice(xs) && NoneTwice(ys) && forall v :: !(Covers(xs, v) && Covers(ys, v))
  {
    var zs := xs + ys;
    if NoneTwice(zs) {
      forall i, j, v | 0 <= i < j < |xs| ensures !Share(xs[i], xs[j], v) {
        var _ := Share(zs[i], zs[j], v);
      }
      forall i, j, v | 0 <= i < j < |ys| ensures !Share(ys[i], ys[j], v) {
        var _ := Share(zs[|xs| + i], zs[|xs| + j], v);
      }
      forall v ensures !(Covers(xs, v) && Covers(ys, v)) {
        forall x, y | x in xs && y in ys ensures !(x.Has(v) && y.Has(v)) {
          var i :| 0 <= i < |xs| && xs[i] == x;
          var j :| 0 <= j < |ys| && ys[j] == y;
          var _ := Share(zs[i], zs[|xs| + j], v);
        }
      }
    }
    if NoneTwice(xs) && NoneTwice(ys) && forall v :: !(Covers(xs, v) && Covers(ys, v)) {
      forall i, j, v | 0 <= i < j < |zs| ensures !Share(zs[i], zs[j], v) {
        PartsShareNot(xs, ys, i, j, v);
      }
    }
  }

  lemma PartsShareNot(xs: seq<Interval>, ys: seq<Interval>, i: nat, j: nat, v: int)
    requires NoneTwice(xs) && NoneTwice(ys) && !(Covers(xs, v) && Covers(ys, v)) && i < j < |xs| + |ys|
    ensures !Share((xs + ys)[i], (xs + ys)[j], v)
  {
    if j < |xs| {
      var _ := Share(xs[i], xs[j], v);
    } else if i >= |xs| {
      var _ := Share(ys[i - |xs|], ys[j - |xs|], v);
    } else {
      assert xs[i] in xs && ys[j - |xs|] in ys;
    }
  }

  lemma NoneTwiceOneMore(xs: seq<Interval>, y: Interval)
    ensures NoneTwice(xs + [y]) <==> NoneTwice(xs) && forall v :: !(Covers(xs, v) && y.Has(v))
  {
    NoneTwiceAppend(xs, [y]);
    forall v ensures Covers([y], v) <==> y.Has(v) {
      CoversOne(y, v);
    }
  }

  // ----- index ranges -----

  /** No index up to `last` lies in two ranges. */
  ghost predicate IndexedOnce(es: seq<ExcludeIndexRange>, last: int) {
    forall i, j, x {:trigger Share(es[i], es[j], x)} :: 0 <= i < j < |es| && 0 <= x <= last ==> !Share(es[i], es[j], x)
  }

  /** `ys` are the index ranges `es`, counted from `lo`. */
  ghost predicate IsShifted(es: seq<ExcludeIndexRange>, ys: seq<ExcludeRange>, lo: int) {
    |ys| == |es| && forall i :: 0 <= i < |es| ==> ys[i] == Shift(es[i], lo)
  }

  lemma {:induction false} ConvertedWhole(f: Family, es: seq<ExcludeIndexRange>, lo: nat)
    requires forall e :: e in es ==> Convertible(f, e, lo)
    ensures IsShifted(es, Converted(f, es, lo), lo)
  {
    if es != [] {
      var e, front := es[|es| - 1], es[..|es| - 1];
      ConvertedWhole(f, front, lo);
      assert e in es;
    }
  }

  /** No value of the window lies in two intervals. */
  ghost predicate OnceWithin(rs: seq<Interval>, lo: int, hi: int) {
    forall i, j, v {:trigger Share(rs[i], rs[j], v)} :: 0 <= i < j < |rs| && lo <= v <= hi ==> !Share(rs[i], rs[j], v)
  }

  lemma OnceWithinOneMore(xs: seq<Interval>, y: Interval, lo: int, hi: int)
    ensures OnceWithin(xs + [y], lo, hi) <==> OnceWithin(xs, lo, hi) && forall v :: lo <= v <= hi ==> !(Covers(xs, v) && y.Has(v))
  {
    var zs := xs + [y];
    if OnceWithin(zs, lo, hi) {
      forall i, j, v | 0 <= i < j < |xs| && lo <= v <= hi ensures !Share(xs[i], xs[j], v) {
        var _ := Share(zs[i], zs[j], v);
      }
      forall v | lo <= v <= hi ensures !(Covers(xs, v) && y.Has(v)) {
        forall x | x in xs ensures !(x.Has(v) && y.Has(v)) {
          var i :| 0 <= i < |xs| && xs[i] == x;
          var _ := Share(zs[i], zs[|xs|], v);
        }
      }
    }
    if OnceWithin(xs, lo, hi) && forall v :: lo <= v <= hi ==> !(Covers(xs, v) && y.Has(v)) {
      forall i, j, v | 0 <= i < j < |zs| && lo <= v <= hi ensures !Share(zs[i], zs[j], v) {
        if j < |xs| {
          var _ := Share(xs[i], xs[j], v);
        } else {
          assert xs[i] in xs;
        }
      }
    }
  }

  lemma {:induction false} ClampedOnce(rs: seq<ExcludeRange>, lo: int, hi: int)
    requires lo <= hi && AllInOrder(rs)
    ensures NoneTwice(Clamped(rs, lo, hi)) <==> OnceWithin(rs, lo, hi)
  {
    if rs != [] {
      var r, front := rs[|rs| - 1], rs[..|rs| - 1];
      ClampedOnce(front, lo, hi);
      assert rs == front + [r] && r in rs;
      OnceWithinOneMore(front, r, lo, hi);
      NoneTwiceOneMore(Clamped(front, lo, hi), Clamp(r, lo, hi));
      forall v ensures Covers(Clamped(front, lo, hi), v) <==> Covers(front, v) && lo <= v <= hi {
        ClampedCovers(front, lo, hi, v);
      }
    }
  }

  /** Converted and clamped to a block, index ranges are without overlaps exactly when no index of the block lies in
      two of them. */
  lemma PerNodeOnce(f: Family, es: seq<ExcludeIndexRange>, lo: nat, hi: nat)
    requires lo <= hi < Space(f) && ValidIndexes(es, Space(f) - 1 - lo)
    ensures NoneTwice(Clamped(Converted(f, es, lo), lo, hi)) <==> IndexedOnce(es, hi - lo)
  {
    var ys := Converted(f, es, lo);
    ConvertedWhole(f, es, lo);
    forall r | r in ys ensures r.start <= r.end {
      var i :| 0 <= i < |ys| && ys[i] == r;
      assert es[i] in es;
    }
    ClampedOnce(ys, lo, hi);
    ShiftedOnce(es, ys, lo, hi);
  }

  lemma ShiftedOnce(es: seq<ExcludeIndexRange>, ys: seq<ExcludeRange>, lo: int, hi: int)
    requires IsShifted(es, ys, lo)
    ensures OnceWithin(ys, lo, hi) <==> IndexedOnce(es, hi - lo)
  {
    forall i, j, x | 0 <= i < j < |es| ensures Share(es[i], es[j], x) <==> Share(ys[i], ys[j], x + lo) {
    }
    if OnceWithin(ys, lo, hi) {
      forall i, j, x | 0 <= i < j < |es| && 0 <= x <= hi - lo ensures !Share(es[i], es[j], x) {
        var _ := Share(ys[i], ys[j], x + lo);
      }
    }
    if IndexedOnce(es, hi - lo) {
      forall i, j, v | 0 <= i < j < |ys| && lo <= v <= hi ensures !Share(ys[i], ys[j], v) {
        assert Share(es[i], es[j], v - lo) <==> Share(ys[i], ys[j], v);
      }
    }
  }

  /** Index ranges that lie in the block: no index of it twice is no index twice. */
  lemma IndexesApart(es: seq<ExcludeIndexRange>, last: int)
    requires ValidIndexes(es, last)
    ensures IndexedOnce(es, last) <==> AllApart(es)
  {
    ApartExactly(es);
    forall i, j, x | 0 <= i < j < |es| && Share(es[i], es[j], x) ensures 0 <= x <= last {
      assert es[i] in es;
    }
    if IndexedOnce(es, last) {
      forall i, j, x | 0 <= i < j < |es| ensures !Share(es[i], es[j], x) {
      }
    }
  }
}
