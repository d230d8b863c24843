/** The stale-reservation cleaner (pkg/ipam-node/cleaner/cleaner.go): one pass over the store.

    Counters of failed Pod lookups survive from pass to pass. The answers of a pass's Pod lookups, in the cache and
    in the API, are given by functions of the counter key, so each reservation may get an answer of its own; the
    clock is read anew at every use and never goes back. */
module StaleCleaner {
  import opened Addresses
  import opened Text
  import opened StoreModel
  import opened Store

  // ----- the composite key of a counter -----

  function StaleKey(poolKey: string, id: string, ifName: string): string {
    Join(poolKey, '|', Join(id, '|', ifName))
  }

  /** Splits a key into at most three parts. */
  function SplitKey(s: string): Option<(string, string, string)> {
    match Cut(s, '|')
    case None => None
    case Some(p) =>
      match Cut(p.1, '|')
      case None => None
      case Some(q) => Some((p.0, q.0, q.1))
  }

  /** Splitting gives back what was joined exactly when neither pool key nor container id has a bar in it; the
      interface name may. */
  lemma SplitStaleKey(poolKey: string, id: string, ifName: string)
    ensures SplitKey(StaleKey(poolKey, id, ifName)) == Some((poolKey, id, ifName)) <==> '|' !in poolKey && '|' !in id
  {
    CutJoin(poolKey, '|', Join(id, '|', ifName));
    CutJoin(id, '|', ifName);
  }

  // ----- counters over passes -----

  datatype Check = PodFound | PodNotFound | LookupFailed

  /** What a pass observes of a key. `Skipped` is a reservation without the Pod's name, `Absent` a key without a
      reservation, `Unreached` one that a pass did not come to before it was given up. */
  datatype Observation = Missing | Present | CoolingDown | Skipped | Absent | Unreached

  function Next(count: nat, o: Observation): nat {
    match o
    case Missing => count + 1
    case Skipped => count
    case Unreached => count
    case _ => 0
  }

  /** The counter of a key after a history of passes. */
  function Fold(os: seq<Observation>): nat {
    if os == [] then 0 else Next(Fold(os[..|os| - 1]), os[|os| - 1])
  }

  function CountMissing(os: seq<Observation>): nat {
    if os == [] then 0 else CountMissing(os[..|os| - 1]) + if os[|os| - 1] == Missing then 1 else 0
  }

  /** The observations that leave a streak unbroken. */
  predicate Unbroken(o: Observation) {
    o == Missing || o == Skipped || o == Unreached
  }

  /** A counter is the length of the current streak: since some pass on, the Pod was missing exactly that many
      times, first in that pass, and never anything else but skipped or not reached. So a counter above the limit means more than that many
      consecutive "not found" observations. */
  lemma {:induction false} CounterIsStreak(os: seq<Observation>) returns (since: nat)
    ensures since <= |os|
    ensures forall j :: since <= j < |os| ==> Unbroken(os[j])
    ensures CountMissing(os[since..]) == Fold(os)
    ensures Fold(os) > 0 ==> since < |os| && os[since] == Missing
  {
    since := |os|;
    if Fold(os) > 0 {
      var n := |os| - 1;
      if Fold(os[..n]) > 0 {
        since := CounterIsStreak(os[..n]);
        assert os[since..][..n - since] == os[..n][since..];
      } else {
        since := n;
        assert os[n..] == [Missing] && [Missing][..0] == [];
      }
    }
  }

  function Counter(stale: map<string, nat>, k: string): nat {
    if k in stale then stale[k] else 0
  }

  // ----- one pass, in terms of data -----

  function ReservationAt(root: Root, p: string, k: string): Option<Reservation> {
    if p in root && k in root[p].entries then Some(root[p].entries[k]) else None
  }

  function KeyOf(p: string, r: Reservation): string {
    StaleKey(p, r.containerID, r.interfaceName)
  }

  type Lookup = string -> Check

  /** The lookup in the cache, and when it does not find the Pod, in the API. */
  function Lookup2(x: string, cached: Lookup, direct: Lookup): Check {
    if cached(x) == PodNotFound then direct(x) else cached(x)
  }

  /** An active reservation that names its Pod is looked up. */
  predicate LookedUp(r: Reservation) {
    !r.IsReleased() && r.metadata.podName != "" && r.metadata.podNamespace != ""
  }

  /** What a lookup that does not fail observes of a reservation. */
  function Observed(p: string, r: Reservation, cached: Lookup, direct: Lookup): Observation {
    if r.IsReleased() then CoolingDown
    else if !LookedUp(r) then Skipped
    else if Lookup2(KeyOf(p, r), cached, direct) == PodNotFound then Missing
    else Present
  }

  /** "Not found" is: asked for, and found neither in the cache nor in the API. A Pod found in either is present; one
      that the cache finds is not asked for in the API. */
  lemma ObservedExactly(p: string, r: Reservation, cached: Lookup, direct: Lookup)
    ensures var x, o := KeyOf(p, r), Observed(p, r, cached, direct);
            && (o == CoolingDown <==> r.releasedAt.Some?)
            && (o == Skipped <==> r.releasedAt.None? && (r.metadata.podName == "" || r.metadata.podNamespace == ""))
            && (r.releasedAt.None? && r.metadata.podName != "" && r.metadata.podNamespace != "" ==>
                  && (o == Missing <==> cached(x) == PodNotFound && direct(x) == PodNotFound)
                  && (cached(x) == PodFound || (cached(x) == PodNotFound && direct(x) == PodFound) ==> o == Present))
            && o != Absent && o != Unreached
  {
  }

  /** What the first part of a pass does to an entry: an expired one goes, everything else stays. */
  ghost predicate Swept(r: Reservation, now: Option<Reservation>, cooldown: int, t0: int, t1: int) {
    if r.IsReleased() then
      || (now == None && t1 - r.releasedAt.value >= cooldown)
      || (now == Some(r) && t0 - r.releasedAt.value < cooldown)
    else now == Some(r)
  }

  /** What a whole pass does to an entry. An active one is released exactly when its counter, this pass included,
      is above the limit. */
  ghost predicate Fate(r: Reservation, now: Option<Reservation>, count: nat, limit: int, cooldown: int, t0: int, t1: int) {
    if r.IsReleased() then Swept(r, now, cooldown, t0, t1)
    else if count > 0 && count > limit then
      if cooldown <= 0 then now == None
      else now.Some? && now.value.IsReleased() && t0 <= now.value.releasedAt.value <= t1
           && now.value == r.(releasedAt := now.value.releasedAt)
    else now == Some(r)
  }

  /** Which entries have been looked at: those of `pools`, and in pool `cur` those of `seen`. */
  datatype Done = Done(pools: set<string>, cur: string, seen: set<string>) {
    predicate Has(p: string, k: string) {
      p in pools || (p == cur && k in seen)
    }
  }

  datatype Setup = Setup(d: Root, stale: map<string, nat>, cooldown: int, limit: int, t0: int,
                         cached: Lookup, direct: Lookup)

  /** The lookup of the entry at (p, k) fails. */
  ghost predicate FailsAt(u: Setup, p: string, k: string) {
    match ReservationAt(u.d, p, k)
    case None => false
    case Some(r) => LookedUp(r) && Lookup2(KeyOf(p, r), u.cached, u.direct) == LookupFailed
  }

  /** That is: an active reservation with a Pod to ask for, where the cache cannot say, or does not find the Pod and the
      API cannot say. */
  lemma FailsExactly(u: Setup, p: string, k: string)
    ensures FailsAt(u, p, k) <==>
              && p in u.d && k in u.d[p].entries
              && var r := u.d[p].entries[k];
                 var x := StaleKey(p, r.containerID, r.interfaceName);
                 && r.releasedAt.None? && r.metadata.podName != "" && r.metadata.podNamespace != ""
                 && (u.cached(x) == LookupFailed || (u.cached(x) == PodNotFound && u.direct(x) == LookupFailed))
  {
  }

  ghost predicate SomeLookupFails(u: Setup) {
    exists p, k :: FailsAt(u, p, k)
  }

  /** No lookup failed so far. */
  ghost predicate NoneFailed(u: Setup, done: Done) {
    forall p, k {:trigger FailsAt(u, p, k)} :: done.Has(p, k) ==> !FailsAt(u, p, k)
  }

  /** A lookup not counted as done has failed. */
  ghost predicate StoppedAt(u: Setup, done: Done) {
    exists p, k :: FailsAt(u, p, k) && !done.Has(p, k)
  }

  /** Pools of `s` are pools of `d`, with the same name, cursor and snapshot. */
  ghost predicate Framed(d: Root, s: Root) {
    forall p {:trigger SameFrame(d, s, p)} :: p in s ==> SameFrame(d, s, p)
  }

  ghost predicate SameFrame(d: Root, s: Root, p: string) {
    p in d && p in s && s[p].(entries := map[]) == d[p].(entries := map[])
  }

  lemma FramedOn(d: Root, s: Root, s': Root)
    requires Framed(d, s) && Framed(s, s')
    ensures Framed(d, s')
  {
    forall p | p in s' ensures SameFrame(d, s', p) {
      assert SameFrame(s, s', p) && SameFrame(d, s, p);
    }
  }

  /** The entry at (p, k) has been looked at, or not yet. */
  ghost predicate Item(u: Setup, s: Root, stale: map<string, nat>, done: Done, t: int, p: string, k: string) {
    match ReservationAt(u.d, p, k)
    case None => ReservationAt(s, p, k) == None
    case Some(r) =>
      if done.Has(p, k) then
        && Swept(r, ReservationAt(s, p, k), u.cooldown, u.t0, t)
        && Counter(stale, KeyOf(p, r)) == Next(Counter(u.stale, KeyOf(p, r)), Observed(p, r, u.cached, u.direct))
      else
        && ReservationAt(s, p, k) == Some(r)
        && Counter(stale, KeyOf(p, r)) == Counter(u.stale, KeyOf(p, r))
  }

  ghost predicate Known(d: Root, key: string) {
    exists p, k :: ReservationAt(d, p, k).Some? && KeyOf(p, ReservationAt(d, p, k).value) == key
  }

  /** How far the first part of a pass has come. */
  ghost predicate Progress(u: Setup, s: Root, stale: map<string, nat>, done: Done, t: int) {
    && s.Keys == u.d.Keys && u.t0 <= t
    && (forall p, k {:trigger Item(u, s, stale, done, t, p, k)} :: Item(u, s, stale, done, t, p, k))
    && OthersKept(u, stale) && NoneFailed(u, done) && Framed(u.d, s)
  }

  /** The first part of a pass leaves the counters of other keys alone. */
  ghost predicate OthersKept(u: Setup, stale: map<string, nat>) {
    forall x {:trigger OtherKept(u, stale, x)} :: OtherKept(u, stale, x)
  }

  ghost predicate OtherKept(u: Setup, stale: map<string, nat>, x: string) {
    Known(u.d, x) || Counter(stale, x) == Counter(u.stale, x)
  }

  /** Every entry is under its owner's key, and its counter key decodes. */
  ghost predicate Decodable(d: Root) {
    forall p, k {:trigger DecodableAt(d, p, k)} :: DecodableAt(d, p, k)
  }

  ghost predicate DecodableAt(d: Root, p: string, k: string) {
    match ReservationAt(d, p, k)
    case None => true
    case Some(r) => k == Key(r.containerID, r.interfaceName) && '|' !in p && '|' !in r.containerID
  }

  /** No pool key and no container id of a reservation has a bar in it. */
  ghost predicate NoBars(d: Root) {
    forall p, k {:trigger ReservationAt(d, p, k)} ::
      ReservationAt(d, p, k).Some? ==> '|' !in p && '|' !in ReservationAt(d, p, k).value.containerID
  }

  /** Keys decode when the data is consistent and there are no bars. */
  lemma ConsistentDecodable(d: Root)
    requires Consistent(d) && NoBars(d)
    ensures Decodable(d)
  {
    forall p, k ensures DecodableAt(d, p, k) {
      if ReservationAt(d, p, k).Some? {
        assert ConsistentPool(d[p].entries);
      }
    }
  }

  lemma OwnKey(d: Root, p: string, k: string)
    requires Decodable(d) && ReservationAt(d, p, k).Some?
    ensures k == Key(ReservationAt(d, p, k).value.containerID, ReservationAt(d, p, k).value.interfaceName)
    ensures SplitKey(KeyOf(p, ReservationAt(d, p, k).value)) == Some((p, ReservationAt(d, p, k).value.containerID, ReservationAt(d, p, k).value.interfaceName))
  {
    var r := ReservationAt(d, p, k).value;
    assert DecodableAt(d, p, k);
    SplitStaleKey(p, r.containerID, r.interfaceName);
  }

  /** Different entries have different counters. */
  lemma KeysDiffer(d: Root, p: string, k: string, q: string, l: string)
    requires Decodable(d) && ReservationAt(d, p, k).Some? && ReservationAt(d, q, l).Some?
    requires KeyOf(p, ReservationAt(d, p, k).value) == KeyOf(q, ReservationAt(d, q, l).value)
    ensures p == q && k == l
  {
    OwnKey(d, p, k);
    OwnKey(d, q, l);
  }

  lemma ReleaseEffect(s: Root, p: string, id: string, ifName: string, cooldown: int, now: int, q: string, l: string)
    requires ReservationAt(s, p, Key(id, ifName)).Some?
    ensures Released(s, p, id, ifName, cooldown, now).Keys == s.Keys && Framed(s, Released(s, p, id, ifName, cooldown, now))
    ensures (q, l) != (p, Key(id, ifName)) ==> ReservationAt(Released(s, p, id, ifName, cooldown, now), q, l) == ReservationAt(s, q, l)
    ensures ReservationAt(Released(s, p, id, ifName, cooldown, now), p, Key(id, ifName)) ==
              match ReleaseVerdict(s, p, id, ifName, cooldown, now)
              case Nothing => ReservationAt(s, p, Key(id, ifName))
              case Remove => None
              case MarkReleased => Some(ReservationAt(s, p, Key(id, ifName)).value.(releasedAt := Some(now)))
  {
  }

  /** Looking at one more entry. */
  lemma ProgressStep(u: Setup, s: Root, stale: map<string, nat>, done: Done, t: int,
                     p: string, k: string, s': Root, stale': map<string, nat>, t': int)
    requires Decodable(u.d) && Progress(u, s, stale, done, t) && t <= t'
    requires ReservationAt(u.d, p, k).Some? && !done.Has(p, k) && p == done.cur
    requires s'.Keys == s.Keys && Framed(s, s') && !FailsAt(u, p, k)
    requires forall q, l {:trigger ReservationAt(s', q, l)} :: (q, l) != (p, k) ==> ReservationAt(s', q, l) == ReservationAt(s, q, l)
    requires Swept(ReservationAt(u.d, p, k).value, ReservationAt(s', p, k), u.cooldown, u.t0, t')
    requires var key := KeyOf(p, ReservationAt(u.d, p, k).value);
             && (forall x {:trigger Counter(stale', x)} :: x != key ==> Counter(stale', x) == Counter(stale, x))
             && Counter(stale', key) == Next(Counter(stale, key), Observed(p, ReservationAt(u.d, p, k).value, u.cached, u.direct))
    ensures Progress(u, s', stale', done.(seen := done.seen + {k}), t')
  {
    forall q, l ensures Item(u, s', stale', done.(seen := done.seen + {k}), t', q, l) {
      assert Item(u, s, stale, done, t, q, l);
      if (q, l) == (p, k) {
      } else {
        assert ReservationAt(s', q, l) == ReservationAt(s, q, l);
        if ReservationAt(u.d, q, l).Some? {
          if KeyOf(q, ReservationAt(u.d, q, l).value) == KeyOf(p, ReservationAt(u.d, p, k).value) {
            KeysDiffer(u.d, p, k, q, l);
          }
        }
      }
    }
    forall x ensures OtherKept(u, stale', x) {
      assert OtherKept(u, stale, x);
      assert Known(u.d, KeyOf(p, ReservationAt(u.d, p, k).value));
    }
    FramedOn(u.d, s, s');
  }

  // ----- first part: look at every reservation -----

  lemma PoolStarts(u: Setup, s: Root, stale: map<string, nat>, pools: set<string>, cur: string, p: string, t: int)
    requires Progress(u, s, stale, Done(pools, cur, {}), t)
    ensures Progress(u, s, stale, Done(pools, p, {}), t)
  {
    forall q, k ensures Item(u, s, stale, Done(pools, p, {}), t, q, k) {
      assert Item(u, s, stale, Done(pools, cur, {}), t, q, k);
    }
  }

  lemma PoolEnds(u: Setup, s: Root, stale: map<string, nat>, pools: set<string>, p: string, seen: set<string>, t: int)
    requires p in u.d && seen == u.d[p].entries.Keys
    requires Progress(u, s, stale, Done(pools, p, seen), t)
    ensures Progress(u, s, stale, Done(pools + {p}, p, {}), t)
  {
    forall q, k ensures Item(u, s, stale, Done(pools + {p}, p, {}), t, q, k) {
      assert Item(u, s, stale, Done(pools, p, seen), t, q, k);
    }
  }

  /** A pool not looked at yet is as it was. */
  lemma Untouched(u: Setup, s: Root, stale: map<string, nat>, pools: set<string>, cur: string, p: string, t: int)
    requires Progress(u, s, stale, Done(pools, cur, {}), t) && p in u.d && p !in pools
    ensures p in s && s[p].entries == u.d[p].entries
  {
    forall k ensures ReservationAt(s, p, k) == ReservationAt(u.d, p, k) {
      assert Item(u, s, stale, Done(pools, cur, {}), t, p, k);
    }
    assert forall k :: k in s[p].entries <==> ReservationAt(s, p, k).Some?;
    assert forall k :: k in u.d[p].entries <==> ReservationAt(u.d, p, k).Some?;
  }

  /** The counter keys of the reservations of some pools. */
  ghost predicate KnownIn(d: Root, pools: set<string>, x: string) {
    exists p, k :: p in pools && ReservationAt(d, p, k).Some? && KeyOf(p, ReservationAt(d, p, k).value) == x
  }

  ghost predicate KnownKeys(d: Root, pools: set<string>, known: set<string>) {
    forall x {:trigger x in known} :: x in known <==> KnownIn(d, pools, x)
  }

  lemma KnownAll(d: Root, known: set<string>)
    requires KnownKeys(d, d.Keys, known)
    ensures forall x :: x in known <==> Known(d, x)
  {
    forall x ensures x in known <==> Known(d, x) {
      if Known(d, x) {
        var p, k :| ReservationAt(d, p, k).Some? && KeyOf(p, ReservationAt(d, p, k).value) == x;
        assert p in d.Keys;
      }
    }
  }

  lemma KnownMore(d: Root, pools: set<string>, known: set<string>, p: string)
    requires KnownKeys(d, pools, known) && p in d
    ensures KnownKeys(d, pools + {p}, known + set k | k in d[p].entries :: KeyOf(p, d[p].entries[k]))
  {
    var more := set k | k in d[p].entries :: KeyOf(p, d[p].entries[k]);
    forall x ensures x in known + more <==> KnownIn(d, pools + {p}, x) {
      if x in more {
        var k :| k in d[p].entries && KeyOf(p, d[p].entries[k]) == x;
        assert ReservationAt(d, p, k).Some?;
      }
      if x in known {
        var q, k :| q in pools && ReservationAt(d, q, k).Some? && KeyOf(q, ReservationAt(d, q, k).value) == x;
        assert q in pools + {p};
      }
      if KnownIn(d, pools + {p}, x) {
        var q, k :| q in pools + {p} && ReservationAt(d, q, k).Some? && KeyOf(q, ReservationAt(d, q, k).value) == x;
        if q != p {
          assert KnownIn(d, pools, x);
        } else {
          assert k in d[p].entries;
        }
      }
    }
  }

  // ----- second part: release what was missing too often -----

  /** Whether the entry behind a counter is due, and where `rest` are the counters still to be handled. */
  ghost predicate Item2(u: Setup, s: Root, stale: map<string, nat>, rest: set<string>, t: int, p: string, k: string) {
    match ReservationAt(u.d, p, k)
    case None => ReservationAt(s, p, k) == None
    case Some(r) =>
      var key := KeyOf(p, r);
      && Counter(stale, key) == Next(Counter(u.stale, key), Observed(p, r, u.cached, u.direct))
      && if !r.IsReleased() && key in rest then ReservationAt(s, p, k) == Some(r)
         else Fate(r, ReservationAt(s, p, k), Counter(stale, key), u.limit, u.cooldown, u.t0, t)
  }

  ghost predicate Progress2(u: Setup, s: Root, stale: map<string, nat>, rest: set<string>, t: int) {
    && s.Keys == u.d.Keys && u.t0 <= t
    && (forall p, k {:trigger Item2(u, s, stale, rest, t, p, k)} :: Item2(u, s, stale, rest, t, p, k))
    && (forall x :: x in stale && x !in rest ==> Known(u.d, x))
    && (forall x :: x in stale ==> stale[x] > 0)
    && Framed(u.d, s)
  }

  lemma Handover(u: Setup, s: Root, stale: map<string, nat>, done: Done, t: int)
    requires Progress(u, s, stale, done, t) && done.pools == u.d.Keys
    requires forall x :: x in stale ==> stale[x] > 0
    ensures Progress2(u, s, stale, stale.Keys, t)
  {
    forall p, k ensures Item2(u, s, stale, stale.Keys, t, p, k) {
      assert Item(u, s, stale, done, t, p, k);
    }
  }

  /** Dropping the counter of a key without a reservation. */
  lemma ForgetStep(u: Setup, s: Root, stale: map<string, nat>, rest: set<string>, t: int, x: string)
    requires Progress2(u, s, stale, rest, t) && x in rest && !Known(u.d, x)
    ensures Progress2(u, s, stale - {x}, rest - {x}, t)
  {
    forall p, k ensures Item2(u, s, stale - {x}, rest - {x}, t, p, k) {
      assert Item2(u, s, stale, rest, t, p, k);
      if ReservationAt(u.d, p, k).Some? {
        assert KeyOf(p, ReservationAt(u.d, p, k).value) != x;
      }
    }
  }

  /** A counter at or below the limit leaves its reservation alone. */
  lemma KeepStep(u: Setup, s: Root, stale: map<string, nat>, rest: set<string>, t: int, x: string)
    requires Progress2(u, s, stale, rest, t) && x in rest && Known(u.d, x) && Counter(stale, x) <= u.limit
    ensures Progress2(u, s, stale, rest - {x}, t)
  {
    forall p, k ensures Item2(u, s, stale, rest - {x}, t, p, k) {
      assert Item2(u, s, stale, rest, t, p, k);
    }
  }

  /** A counter above the limit releases its reservation. */
  lemma ReleaseStep(u: Setup, s: Root, stale: map<string, nat>, rest: set<string>, t: int, x: string,
                    p: string, id: string, ifName: string, now: int)
    requires Decodable(u.d) && Progress2(u, s, stale, rest, t) && x in rest && x in stale && Known(u.d, x)
    requires stale[x] > u.limit && t <= now && SplitKey(x) == Some((p, id, ifName))
    ensures Progress2(u, Released(s, p, id, ifName, u.cooldown, now), stale, rest - {x}, now)
  {
    var q, l :| ReservationAt(u.d, q, l).Some? && KeyOf(q, ReservationAt(u.d, q, l).value) == x;
    OwnKey(u.d, q, l);
    assert (p, Key(id, ifName)) == (q, l);
    assert Item2(u, s, stale, rest, t, q, l);
    NotReleasedIfCounted(u, ReservationAt(u.d, q, l).value, q, stale);
    var s' := Released(s, p, id, ifName, u.cooldown, now);
    ReleaseEffect(s, p, id, ifName, u.cooldown, now, q, l);
    FramedOn(u.d, s, s');
    forall a, b ensures Item2(u, s', stale, rest - {x}, now, a, b) {
      if (a, b) != (q, l) {
        ReleaseEffect(s, p, id, ifName, u.cooldown, now, a, b);
        OtherItem(u, s, s', stale, rest, t, now, x, q, l, a, b);
      }
    }
  }

  lemma OtherItem(u: Setup, s: Root, s': Root, stale: map<string, nat>, rest: set<string>, t: int, now: int, x: string,
                  q: string, l: string, a: string, b: string)
    requires Decodable(u.d) && Progress2(u, s, stale, rest, t) && t <= now
    requires ReservationAt(u.d, q, l).Some? && KeyOf(q, ReservationAt(u.d, q, l).value) == x
    requires (a, b) != (q, l) && ReservationAt(s', a, b) == ReservationAt(s, a, b)
    ensures Item2(u, s', stale, rest - {x}, now, a, b)
  {
    assert Item2(u, s, stale, rest, t, a, b);
    if ReservationAt(u.d, a, b).Some? {
      if KeyOf(a, ReservationAt(u.d, a, b).value) == x {
        KeysDiffer(u.d, a, b, q, l);
      }
    }
  }

  /** A reservation that is cooling down has no counter. */
  lemma NotReleasedIfCounted(u: Setup, r: Reservation, p: string, stale: map<string, nat>)
    requires Counter(stale, KeyOf(p, r)) == Next(Counter(u.stale, KeyOf(p, r)), Observed(p, r, u.cached, u.direct))
    requires Counter(stale, KeyOf(p, r)) > 0
    ensures !r.IsReleased()
  {
  }

  // ----- third part: drop empty pools -----

  /** The result of a pass. */
  ghost predicate PassDone(u: Setup, after: Root, stale: map<string, nat>, configured: set<string>, t1: int) {
    && after.Keys == u.d.Keys - DroppedPools(u.d, configured)
    && (forall p, k {:trigger ReservationAt(after, p, k)} :: Final(u, after, stale, t1, p, k))
    && (forall x :: x in stale ==> Known(u.d, x))
    && Framed(u.d, after) && u.t0 <= t1
  }

  /** Pools without entries and without configuration. */
  ghost function DroppedPools(d: Root, configured: set<string>): set<string> {
    set p | p in d && d[p].entries == map[] && p !in configured
  }

  ghost predicate Final(u: Setup, after: Root, stale: map<string, nat>, t1: int, p: string, k: string) {
    match ReservationAt(u.d, p, k)
    case None => ReservationAt(after, p, k) == None
    case Some(r) =>
      && Counter(stale, KeyOf(p, r)) == Next(Counter(u.stale, KeyOf(p, r)), Observed(p, r, u.cached, u.direct))
      && Fate(r, ReservationAt(after, p, k), Counter(stale, KeyOf(p, r)), u.limit, u.cooldown, u.t0, t1)
  }

  lemma FinishPass(u: Setup, s: Root, stale: map<string, nat>, t: int, configured: set<string>)
    requires Progress2(u, s, stale, {}, t)
    ensures PassDone(u, s - DroppedPools(u.d, configured), stale, configured, t)
  {
    var after := s - DroppedPools(u.d, configured);
    forall p, k ensures Final(u, after, stale, t, p, k) {
      assert Item2(u, s, stale, {}, t, p, k);
      if p in DroppedPools(u.d, configured) {
        assert ReservationAt(u.d, p, k) == None;
      } else {
        assert ReservationAt(after, p, k) == ReservationAt(s, p, k);
      }
    }
    forall p | p in after ensures SameFrame(u.d, after, p) {
      assert SameFrame(u.d, s, p);
    }
  }

  /** The result of a pass in plain terms. An entry that is cooling down is gone only if its cooldown is over at the end
      and stays only if it was not over at the start. An active one stays as it is unless its counter is above the limit;
      then it is gone without a cooldown, and marked with a time of the pass otherwise. Nothing is added, and a pool goes
      exactly when it had no entry and has no configuration. */
  lemma PassExactly(u: Setup, after: Root, stale: map<string, nat>, configured: set<string>, t1: int, p: string, k: string)
    requires PassDone(u, after, stale, configured, t1)
    ensures p in u.d ==> (p !in after <==> u.d[p].entries == map[] && p !in configured)
    ensures p in after ==>
              && p in u.d && after[p].name == u.d[p].name
              && after[p].lastReservedIP == u.d[p].lastReservedIP && after[p].lastPoolConfig == u.d[p].lastPoolConfig
    ensures p in after && k in after[p].entries ==> k in u.d[p].entries
    ensures p in u.d && k in u.d[p].entries ==>
              var r, x := u.d[p].entries[k], StaleKey(p, u.d[p].entries[k].containerID, u.d[p].entries[k].interfaceName);
              && p in after
              && (r.releasedAt.Some? && k !in after[p].entries ==> r.releasedAt.value + u.cooldown <= t1)
              && (r.releasedAt.Some? && k in after[p].entries ==>
                    after[p].entries[k] == r && u.t0 < r.releasedAt.value + u.cooldown)
              && (r.releasedAt.None? && x in stale && stale[x] > 0 && stale[x] > u.limit && u.cooldown <= 0 ==> k !in after[p].entries)
              && (r.releasedAt.None? && x in stale && stale[x] > 0 && stale[x] > u.limit && u.cooldown > 0 ==>
                    && k in after[p].entries && after[p].entries[k].releasedAt.Some?
                    && u.t0 <= after[p].entries[k].releasedAt.value <= t1
                    && after[p].entries[k].(releasedAt := None) == r)
              && (r.releasedAt.None? && !(x in stale && stale[x] > 0 && stale[x] > u.limit) ==>
                    k in after[p].entries && after[p].entries[k] == r)
  {
    assert Final(u, after, stale, t1, p, k) by {
      var _ := ReservationAt(after, p, k);
    }
    if p in after {
      assert Framed(u.d, after);
      var _ := SameFrame(u.d, after, p);
      var b, a := u.d[p].(entries := map[]), after[p].(entries := map[]);
      assert a.name == b.name && a.lastReservedIP == b.lastReservedIP && a.lastPoolConfig == b.lastPoolConfig;
    }
  }

  /** The counters a complete pass leaves, in plain terms: dropped when the Pod was found, or is not looked for any more;
      one more when it is in neither; kept when there is no Pod to ask for. */
  lemma CountedExactly(u: Setup, stale: map<string, nat>, p: string, k: string)
    requires Counted(u, stale) && p in u.d && k in u.d[p].entries && !FailsAt(u, p, k)
    ensures var r, x := u.d[p].entries[k], StaleKey(p, u.d[p].entries[k].containerID, u.d[p].entries[k].interfaceName);
            var before, now := Counter(u.stale, x), Counter(stale, x);
            && (r.releasedAt.Some? ==> now == 0)
            && (r.releasedAt.None? && (r.metadata.podName == "" || r.metadata.podNamespace == "") ==> now == before)
            && (r.releasedAt.None? && r.metadata.podName != "" && r.metadata.podNamespace != "" ==>
                  now == if u.cached(x) == PodNotFound && u.direct(x) == PodNotFound then before + 1 else 0)
  {
    var _ := Stepped(u, stale, p, k);
    ObservedExactly(p, u.d[p].entries[k], u.cached, u.direct);
  }

  // ----- what a pass does to the counters -----

  ghost predicate Stepped(u: Setup, stale: map<string, nat>, p: string, k: string) {
    match ReservationAt(u.d, p, k)
    case None => true
    case Some(r) =>
      Counter(stale, KeyOf(p, r)) == Next(Counter(u.stale, KeyOf(p, r)), Observed(p, r, u.cached, u.direct))
  }

  ghost predicate Unmoved(u: Setup, stale: map<string, nat>, p: string, k: string) {
    match ReservationAt(u.d, p, k)
    case None => true
    case Some(r) => Counter(stale, KeyOf(p, r)) == Counter(u.stale, KeyOf(p, r))
  }

  /** A pass that looked at everything, whether or not its write succeeded. */
  ghost predicate Counted(u: Setup, stale: map<string, nat>) {
    && (forall p, k {:trigger Stepped(u, stale, p, k)} :: Stepped(u, stale, p, k))
    && (forall x :: x in stale ==> Known(u.d, x))
  }

  ghost predicate SteppedIfDone(u: Setup, stale: map<string, nat>, done: Done, p: string, k: string) {
    if done.Has(p, k) then Stepped(u, stale, p, k) else Unmoved(u, stale, p, k)
  }

  /** A pass given up at a failed lookup: the counters of what it had looked at have moved, no other has. */
  ghost predicate Aborted(u: Setup, stale: map<string, nat>, done: Done) {
    && (forall p, k {:trigger SteppedIfDone(u, stale, done, p, k)} :: SteppedIfDone(u, stale, done, p, k))
    && OthersKept(u, stale)
    && StoppedAt(u, done)
  }

  lemma PassCounts(u: Setup, after: Root, stale: map<string, nat>, configured: set<string>, t: int)
    requires PassDone(u, after, stale, configured, t)
    ensures Counted(u, stale)
  {
    forall p, k ensures Stepped(u, stale, p, k) {
      var _ := ReservationAt(after, p, k);
    }
  }

  lemma AbortCounts(u: Setup, s: Root, stale: map<string, nat>, done: Done, t: int)
    requires Progress(u, s, stale, done, t) && StoppedAt(u, done)
    ensures Aborted(u, stale, done)
  {
    forall p, k ensures SteppedIfDone(u, stale, done, p, k) {
      assert Item(u, s, stale, done, t, p, k);
    }
  }

  // ----- histories of passes -----

  /** One pass of a history: what it started from, the counters it left, and how far it came before it was given
      up, if it was. */
  datatype Record = Record(u: Setup, stale: map<string, nat>, abandoned: Option<Done>) {

    ghost predicate Valid() {
      Decodable(u.d) && if abandoned.Some? then Aborted(u, stale, abandoned.value) else Counted(u, stale)
    }

    predicate Reached(p: string, k: string) {
      abandoned.Some? ==> abandoned.value.Has(p, k)
    }
  }

  /** Passes of one cleaner. Between passes the store may change in any way; the counters do not. */
  ghost predicate History(recs: seq<Record>) {
    forall i {:trigger Linked(recs, i)} :: 0 <= i < |recs| ==> Linked(recs, i)
  }

  ghost predicate Linked(recs: seq<Record>, i: int)
    requires 0 <= i < |recs|
  {
    recs[i].Valid() && recs[i].u.stale == Left(recs, i)
  }

  /** The counters left by the first `i` passes. */
  function Left(recs: seq<Record>, i: int): map<string, nat>
    requires 0 <= i <= |recs|
  {
    if i == 0 then map[] else recs[i - 1].stale
  }

  /** The entry at (p, k) is the reservation of key `x`. */
  ghost predicate Owns(d: Root, p: string, k: string, x: string) {
    ReservationAt(d, p, k).Some? && KeyOf(p, ReservationAt(d, p, k).value) == x
  }

  /** `o` is what a pass observed of a key: of a reservation it came to, exactly what the lookup says. */
  ghost predicate Saw(rec: Record, x: string, o: Observation) {
    match o
    case Absent => rec.abandoned.None? && !Known(rec.u.d, x)
    case Unreached =>
      rec.abandoned.Some? && (Known(rec.u.d, x) ==> exists p, k :: Owns(rec.u.d, p, k, x) && !rec.Reached(p, k))
    case _ =>
      exists p, k :: Owns(rec.u.d, p, k, x) && rec.Reached(p, k)
        && Observed(p, ReservationAt(rec.u.d, p, k).value, rec.u.cached, rec.u.direct) == o
  }

  /** A pass observes one thing of a key: it cannot count as not reached what it looked at. */
  lemma SawOnce(rec: Record, x: string, o: Observation, o': Observation)
    requires Decodable(rec.u.d) && Saw(rec, x, o) && Saw(rec, x, o')
    ensures o == o'
  {
    if Known(rec.u.d, x) {
      var p, k :| Owns(rec.u.d, p, k, x);
      forall q, l | Owns(rec.u.d, q, l, x) ensures p == q && k == l {
        KeysDiffer(rec.u.d, p, k, q, l);
      }
    }
  }

  lemma PassSaw(rec: Record, x: string) returns (o: Observation)
    requires rec.Valid()
    ensures Saw(rec, x, o) && Counter(rec.stale, x) == Next(Counter(rec.u.stale, x), o)
  {
    if Known(rec.u.d, x) {
      var p, k :| ReservationAt(rec.u.d, p, k).Some? && KeyOf(p, ReservationAt(rec.u.d, p, k).value) == x;
      assert Owns(rec.u.d, p, k, x);
      if rec.Reached(p, k) {
        o := Observed(p, ReservationAt(rec.u.d, p, k).value, rec.u.cached, rec.u.direct);
        assert Stepped(rec.u, rec.stale, p, k) by {
          var _ := rec.abandoned.Some? && SteppedIfDone(rec.u, rec.stale, rec.abandoned.value, p, k);
        }
      } else {
        o := Unreached;
        assert SteppedIfDone(rec.u, rec.stale, rec.abandoned.value, p, k);
      }
    } else {
      o := if rec.abandoned.None? then Absent else Unreached;
      assert rec.abandoned.None? || OtherKept(rec.u, rec.stale, x);
    }
  }

  lemma HistoryBefore(recs: seq<Record>, n: nat)
    requires History(recs) && n <= |recs|
    ensures History(recs[..n]) && Left(recs[..n], n) == Left(recs, n)
  {
    forall i | 0 <= i < n ensures Linked(recs[..n], i) {
      assert Linked(recs, i);
    }
  }

  lemma FoldOne(os: seq<Observation>, o: Observation)
    ensures Fold(os + [o]) == Next(Fold(os), o)
  {
    assert (os + [o])[..|os|] == os;
  }

  ghost predicate SawAll(recs: seq<Record>, x: string, os: seq<Observation>) {
    |os| == |recs| && forall i {:trigger Saw(recs[i], x, os[i])} :: 0 <= i < |recs| ==> Saw(recs[i], x, os[i])
  }

  lemma SawOneMore(recs: seq<Record>, x: string, os: seq<Observation>, o: Observation)
    requires |recs| > 0 && SawAll(recs[..|recs| - 1], x, os) && Saw(recs[|recs| - 1], x, o)
    ensures SawAll(recs, x, os + [o])
  {
    var all := os + [o];
    forall i | 0 <= i < |recs| ensures Saw(recs[i], x, all[i]) {
      if i < |os| {
        assert Saw(recs[..|recs| - 1][i], x, os[i]);
      }
    }
  }

  lemma {:induction false} HistoryOf(recs: seq<Record>, x: string) returns (os: seq<Observation>)
    requires History(recs)
    ensures SawAll(recs, x, os) && Fold(os) == Counter(Left(recs, |recs|), x)
  {
    if recs == [] {
      os := [];
    } else {
      var n := |recs| - 1;
      HistoryBefore(recs, n);
      os := HistoryOf(recs[..n], x);
      assert Linked(recs, n);
      var o := PassSaw(recs[n], x);
      SawOneMore(recs, x, os, o);
      FoldOne(os, o);
      os := os + [o];
    }
  }

  /** The stale path over whole histories, abandoned passes included. When the last pass releases an active
      reservation, there is a row of passes up to it in which its key was never observed as anything but "Pod not
      found", or could not be looked up, or was not reached, and more of them than the limit were "Pod not found".
      The row begins with a "Pod not found"; from there on the observations are the only ones the passes allow
      (SawOnce), and a Pod that was found would have reset the counter. A Pod found in the same pass is not touched. */
  lemma StaleNeedsStreak(recs: seq<Record>, p: string, k: string, after: Root, configured: set<string>, t1: int)
    returns (os: seq<Observation>, since: nat)
    requires |recs| > 0 && History(recs) && recs[|recs| - 1].abandoned.None?
    requires var last := recs[|recs| - 1];
             && ReservationAt(last.u.d, p, k).Some? && !ReservationAt(last.u.d, p, k).value.IsReleased()
             && PassDone(last.u, after, last.stale, configured, t1) && ReservationAt(after, p, k) != ReservationAt(last.u.d, p, k)
    ensures var last := recs[|recs| - 1];
            && SawAll(recs, KeyOf(p, ReservationAt(last.u.d, p, k).value), os) && since < |os| && os[since] == Missing
            && (forall i :: since <= i < |recs| ==> Unbroken(os[i]))
            && CountMissing(os[since..]) > last.u.limit && CountMissing(os[since..]) > 0
            && (forall i :: 0 <= i < |recs| && os[i] == Missing ==>
                  MissedInBoth(recs[i], KeyOf(p, ReservationAt(last.u.d, p, k).value)))
            && Observed(p, ReservationAt(last.u.d, p, k).value, last.u.cached, last.u.direct) != Present
  {
    var last := recs[|recs| - 1];
    assert Linked(recs, |recs| - 1);
    os := HistoryOf(recs, KeyOf(p, ReservationAt(last.u.d, p, k).value));
    since := CounterIsStreak(os);
    assert Stepped(last.u, last.stale, p, k);
    PassExactly(last.u, after, last.stale, configured, t1, p, k);
    forall i | 0 <= i < |recs| && os[i] == Missing ensures MissedInBoth(recs[i], KeyOf(p, ReservationAt(last.u.d, p, k).value)) {
      MissingInBoth(recs[i], KeyOf(p, ReservationAt(last.u.d, p, k).value), os[i]);
    }
  }

  /** The pass came to the reservation of key `x`, and found its Pod neither in the cache nor in the API. */
  ghost predicate MissedInBoth(rec: Record, x: string) {
    && (exists p, k :: Owns(rec.u.d, p, k, x) && rec.Reached(p, k))
    && rec.u.cached(x) == PodNotFound && rec.u.direct(x) == PodNotFound
  }

  lemma MissingInBoth(rec: Record, x: string, o: Observation)
    requires Saw(rec, x, o) && o == Missing
    ensures MissedInBoth(rec, x)
  {
    var p, k :| Owns(rec.u.d, p, k, x) && rec.Reached(p, k)
                && Observed(p, ReservationAt(rec.u.d, p, k).value, rec.u.cached, rec.u.direct) == o;
    ObservedExactly(p, ReservationAt(rec.u.d, p, k).value, rec.u.cached, rec.u.direct);
  }

  /** A row counts in full: the counter is at least the number of "not found" observations in an unbroken row. */
  lemma {:induction false} RowCounts(os: seq<Observation>, since: nat)
    requires since <= |os| && forall i :: since <= i < |os| ==> Unbroken(os[i])
    ensures Fold(os) >= CountMissing(os[since..])
  {
    if since < |os| {
      var n := |os| - 1;
      RowCounts(os[..n], since);
      assert os[since..][..n - since] == os[..n][since..];
    }
  }

  /** The other half: when in an unbroken row of passes up to the last one more of them than the limit found the Pod
      missing, the last pass releases the reservation: it is gone, or with a cooldown marked as released. */
  lemma StreakIsReleased(recs: seq<Record>, os: seq<Observation>, since: nat, p: string, k: string, after: Root,
                         configured: set<string>, t1: int)
    requires |recs| > 0 && History(recs) && recs[|recs| - 1].abandoned.None?
    requires var last := recs[|recs| - 1];
             && ReservationAt(last.u.d, p, k).Some? && !ReservationAt(last.u.d, p, k).value.IsReleased()
             && PassDone(last.u, after, last.stale, configured, t1)
             && SawAll(recs, KeyOf(p, ReservationAt(last.u.d, p, k).value), os) && since <= |os|
             && (forall i :: since <= i < |os| ==> Unbroken(os[i]))
             && CountMissing(os[since..]) > last.u.limit && CountMissing(os[since..]) > 0
    ensures var last := recs[|recs| - 1];
            && (last.u.cooldown <= 0 ==> ReservationAt(after, p, k) == None)
            && (last.u.cooldown > 0 ==> ReservationAt(after, p, k).Some? && ReservationAt(after, p, k).value.releasedAt.Some?)
  {
    var last := recs[|recs| - 1];
    var x := KeyOf(p, ReservationAt(last.u.d, p, k).value);
    var os' := HistoryOf(recs, x);
    forall i | 0 <= i < |recs| ensures os[i] == os'[i] {
      assert Linked(recs, i);
      var _, _ := Saw(recs[i], x, os[i]), Saw(recs[i], x, os'[i]);
      SawOnce(recs[i], x, os[i], os'[i]);
    }
    assert os == os';
    RowCounts(os, since);
    PassExactly(last.u, after, last.stale, configured, t1, p, k);
  }
}
