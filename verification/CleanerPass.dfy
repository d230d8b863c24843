/** The cleaner's pass on the heap (pkg/ipam-node/cleaner/cleaner.go, loop): it drives a store session and keeps
    its counters from pass to pass. */
module CleanerPass {
  import opened Addresses
  import opened Text
  import opened StoreModel
  import opened Store
  import opened StaleCleaner

  type Counts = map<string, nat>

  /** A reading of the clock, which never goes back. */
  method ReadClock(now: int) returns (t: int)
    ensures t >= now
  {
    var reading: int := *;
    t := if reading < now then now else reading;
  }

  ghost predicate Positive(counts: Counts) {
    forall x :: x in counts ==> counts[x] > 0
  }

  // ----- first part -----

  /** Looks at one reservation: drops it when its cooldown is over, or counts a missing Pod. */
  method ObserveOne(session: Session, counts: Counts, ghost u: Setup, ghost done: Done, now: int,
                    p: string, k: string, r: Reservation, cooldown: int, cached: Lookup, direct: Lookup)
    returns (failed: bool, t: int, counts': Counts)
    requires session.Valid() && !session.isClosed
    requires Positive(counts) && Decodable(u.d) && u.cached == cached && u.direct == direct && u.cooldown == cooldown
    requires Progress(u, session.data, counts, done, now)
    requires ReservationAt(u.d, p, k) == Some(r) && !done.Has(p, k) && p == done.cur
    modifies session, session.repr
    ensures session.Valid() && !session.isClosed
    ensures forall o :: o in session.repr ==> o in old(session.repr) || fresh(o)
    ensures Positive(counts')
    ensures Progress(u, session.data, counts', if failed then done else done.(seen := done.seen + {k}), t)
    ensures failed ==> StoppedAt(u, done)
  {
    if r.IsReleased() {
      t := SweepOne(session, counts, u, done, now, p, k, r, cooldown);
      counts' := counts - {StaleKey(p, r.containerID, r.interfaceName)};
      ProgressStep(u, old(session.data), counts, done, now, p, k, session.data, counts', t);
      return false, t, counts';
    }
    failed, counts' := CountOne(session.data, counts, u, done, now, p, k, r, cached, direct);
    return failed, now, counts';
  }

  /** An active reservation: look for its Pod, in the cache and then in the API, and count a miss. */
  method CountOne(ghost s: Root, counts: Counts, ghost u: Setup, ghost done: Done, ghost now: int,
                  p: string, ghost k: string, r: Reservation, cached: Lookup, direct: Lookup)
    returns (failed: bool, counts': Counts)
    requires Positive(counts) && Decodable(u.d) && u.cached == cached && u.direct == direct
    requires Progress(u, s, counts, done, now)
    requires ReservationAt(u.d, p, k) == Some(r) && !done.Has(p, k) && p == done.cur && !r.IsReleased()
    ensures Positive(counts')
    ensures failed <==> FailsAt(u, p, k)
    ensures Progress(u, s, counts', if failed then done else done.(seen := done.seen + {k}), now)
  {
    var key := StaleKey(p, r.containerID, r.interfaceName);
    counts' := counts;
    assert Item(u, s, counts, done, now, p, k);
    if !(r.metadata.podName == "" || r.metadata.podNamespace == "") {
      var check := cached(key);
      if check == PodNotFound {
        check := direct(key);
      }
      match check
      case LookupFailed => return true, counts;
      case PodFound => counts' := counts - {key};
      case PodNotFound => counts' := counts[key := Counter(counts, key) + 1];
    }
    ProgressStep(u, s, counts, done, now, p, k, s, counts', now);
    return false, counts';
  }

  /** A reservation that is cooling down: removed once the cooldown is over. */
  method SweepOne(session: Session, ghost counts: Counts, ghost u: Setup, ghost done: Done, now: int,
                  p: string, k: string, r: Reservation, cooldown: int) returns (t: int)
    requires session.Valid() && !session.isClosed
    requires Decodable(u.d) && u.cooldown == cooldown && Progress(u, session.data, counts, done, now)
    requires ReservationAt(u.d, p, k) == Some(r) && !done.Has(p, k) && p == done.cur && r.IsReleased()
    modifies session, session.repr
    ensures session.Valid() && !session.isClosed && t >= now
    ensures forall o :: o in session.repr ==> o in old(session.repr) || fresh(o)
    ensures session.data.Keys == old(session.data).Keys && Framed(old(session.data), session.data)
    ensures forall q, l {:trigger ReservationAt(session.data, q, l)} ::
              (q, l) != (p, k) ==> ReservationAt(session.data, q, l) == ReservationAt(old(session.data), q, l)
    ensures Swept(r, ReservationAt(session.data, p, k), cooldown, u.t0, t)
  {
    ghost var s := session.data;
    assert Item(u, s, counts, done, now, p, k);
    OwnKey(u.d, p, k);
    t := ReadClock(now);
    if t - r.releasedAt.value >= cooldown {
      t := ReadClock(t);
      var _ := session.ReleaseReservationByID(p, r.containerID, r.interfaceName, cooldown, t);
      forall q, l ensures (q, l) != (p, k) ==> ReservationAt(session.data, q, l) == ReservationAt(s, q, l) {
        ReleaseEffect(s, p, r.containerID, r.interfaceName, cooldown, t, q, l);
      }
      ReleaseEffect(s, p, r.containerID, r.interfaceName, cooldown, t, p, k);
    }
  }

  /** All reservations of one pool. */
  method ObservePool(session: Session, counts: Counts, ghost u: Setup, ghost pools: set<string>, now: int,
                     p: string, reservations: map<string, Reservation>, cooldown: int,
                     cached: Lookup, direct: Lookup)
    returns (failed: bool, t: int, counts': Counts, ghost seen: set<string>)
    requires session.Valid() && !session.isClosed
    requires Positive(counts) && Decodable(u.d) && u.cached == cached && u.direct == direct && u.cooldown == cooldown
    requires Progress(u, session.data, counts, Done(pools, p, {}), now)
    requires p in u.d && reservations == u.d[p].entries && p !in pools
    modifies session, session.repr
    ensures session.Valid() && !session.isClosed
    ensures forall o :: o in session.repr ==> o in old(session.repr) || fresh(o)
    ensures Positive(counts') && Progress(u, session.data, counts', Done(pools, p, seen), t)
    ensures !failed ==> seen == u.d[p].entries.Keys
    ensures failed ==> StoppedAt(u, Done(pools, p, seen))
  {
    var todo := reservations.Keys;
    seen := {};
    t, counts', failed := now, counts, false;
    while todo != {}
      invariant session.Valid() && !session.isClosed
      invariant forall o :: o in session.repr ==> o in old(session.repr) || fresh(o)
      invariant Positive(counts') && Progress(u, session.data, counts', Done(pools, p, seen), t)
      invariant todo !! seen && todo + seen == reservations.Keys
      invariant !failed
      decreases todo
    {
      var k :| k in todo;
      failed, t, counts' :=
        ObserveOne(session, counts', u, Done(pools, p, seen), t, p, k, reservations[k], cooldown, cached, direct);
      if failed {
        return;
      }
      seen, todo := seen + {k}, todo - {k};
    }
  }

  predicate Remaining(all: set<string>, todo: set<string>, pools: set<string>) {
    todo !! pools && todo + pools == all
  }

  lemma TakeOne(all: set<string>, todo: set<string>, pools: set<string>, p: string)
    requires Remaining(all, todo, pools) && p in todo
    ensures Remaining(all, todo - {p}, pools + {p})
  {
  }

  /** `empty` are the pools among these that have no entry. */
  ghost predicate EmptyIn(d: Root, pools: set<string>, empty: set<string>) {
    forall p :: p in empty <==> p in pools && p in d && d[p].entries == map[]
  }

  /** Every pool: what is found, which pools are empty, and the keys of all reservations. */
  method ObserveAll(session: Session, counts: Counts, ghost u: Setup, now: int, cooldown: int,
                    cached: Lookup, direct: Lookup)
    returns (failed: bool, t: int, counts': Counts, empty: set<string>, known: set<string>, ghost done: Done)
    requires session.Valid() && !session.isClosed && session.data == u.d
    requires Positive(counts) && Decodable(u.d) && u.cached == cached && u.direct == direct && u.cooldown == cooldown
    requires counts == u.stale && now == u.t0
    modifies session, session.repr
    ensures session.Valid() && !session.isClosed
    ensures forall o :: o in session.repr ==> o in old(session.repr) || fresh(o)
    ensures Positive(counts') && Progress(u, session.data, counts', done, t)
    ensures !failed ==>
              && done.pools == u.d.Keys
              && EmptyIn(u.d, u.d.Keys, empty)
              && KnownKeys(u.d, u.d.Keys, known)
    ensures failed ==> StoppedAt(u, done)
  {
    t, counts', empty, known, failed := now, counts, {}, {}, false;
    var todo := session.ListPools();
    ghost var pools: set<string> := {};
    done := Done({}, "", {});
    BeforeAnything(u);
    while todo != {}
      invariant session.Valid() && !session.isClosed && !failed
      invariant forall o :: o in session.repr ==> o in old(session.repr) || fresh(o)
      invariant Positive(counts') && Progress(u, session.data, counts', done, t) && done.seen == {} && done.pools == pools
      invariant Remaining(u.d.Keys, todo, pools)
      invariant EmptyIn(u.d, pools, empty)
      invariant KnownKeys(u.d, pools, known)
      decreases todo
    {
      var p :| p in todo;
      var reservations;
      failed, t, counts', reservations, done := ObserveNext(session, counts', u, done, t, p, cooldown, cached, direct);
      if failed {
        return;
      }
      KnownMore(u.d, pools, known, p);
      known := known + set k | k in reservations :: KeyOf(p, reservations[k]);
      if reservations == map[] {
        empty := empty + {p};
      }
      TakeOne(u.d.Keys, todo, pools, p);
      pools, todo := pools + {p}, todo - {p};
    }
  }

  method ObserveNext(session: Session, counts: Counts, ghost u: Setup, ghost done: Done, now: int,
                     p: string, cooldown: int, cached: Lookup, direct: Lookup)
    returns (failed: bool, t: int, counts': Counts, reservations: map<string, Reservation>, ghost done': Done)
    requires session.Valid() && !session.isClosed
    requires Positive(counts) && Decodable(u.d) && u.cached == cached && u.direct == direct && u.cooldown == cooldown
    requires Progress(u, session.data, counts, done, now) && done.seen == {}
    requires p in u.d && p !in done.pools
    modifies session, session.repr
    ensures session.Valid() && !session.isClosed
    ensures forall o :: o in session.repr ==> o in old(session.repr) || fresh(o)
    ensures Positive(counts') && Progress(u, session.data, counts', done', t)
    ensures !failed ==> done'.pools == done.pools + {p} && done'.seen == {}
    ensures reservations == u.d[p].entries
    ensures failed ==> StoppedAt(u, done')
  {
    ghost var seen;
    reservations := session.ListReservations(p);
    Untouched(u, session.data, counts, done.pools, done.cur, p, now);
    PoolStarts(u, session.data, counts, done.pools, done.cur, p, now);
    failed, t, counts', seen := ObservePool(session, counts, u, done.pools, now, p, reservations, cooldown, cached, direct);
    done' := Done(done.pools, p, seen);
    if !failed {
      PoolEnds(u, session.data, counts', done.pools, p, seen, t);
      done' := Done(done.pools + {p}, p, {});
    }
  }

  lemma BeforeAnything(u: Setup)
    ensures Progress(u, u.d, u.stale, Done({}, "", {}), u.t0)
  {
    forall p, k ensures Item(u, u.d, u.stale, Done({}, "", {}), u.t0, p, k) {
    }
  }

  // ----- second part -----

  /** Counters of keys without a reservation are dropped; reservations with a counter above the limit are
      released, by the parts of their key. */
  method ReleaseStale(session: Session, counts: Counts, ghost u: Setup, now: int, known: set<string>, limit: int, cooldown: int)
    returns (t: int, counts': Counts)
    requires session.Valid() && !session.isClosed
    requires Decodable(u.d) && u.limit == limit && u.cooldown == cooldown
    requires Progress2(u, session.data, counts, counts.Keys, now)
    requires forall x :: x in known <==> Known(u.d, x)
    modifies session, session.repr
    ensures session.Valid() && !session.isClosed
    ensures forall o :: o in session.repr ==> o in old(session.repr) || fresh(o)
    ensures Progress2(u, session.data, counts', {}, t)
  {
    t, counts' := now, counts;
    var rest := counts.Keys;
    while rest != {}
      invariant session.Valid() && !session.isClosed
      invariant forall o :: o in session.repr ==> o in old(session.repr) || fresh(o)
      invariant Progress2(u, session.data, counts', rest, t) && rest <= counts'.Keys
      decreases rest
    {
      var x :| x in rest;
      if x !in known {
        ForgetStep(u, session.data, counts', rest, t, x);
        counts' := counts' - {x};
      } else if counts'[x] > limit {
        t := ReleaseOne(session, counts', u, rest, t, x, cooldown);
      } else {
        KeepStep(u, session.data, counts', rest, t, x);
      }
      rest := rest - {x};
    }
  }

  method ReleaseOne(session: Session, ghost counts: Counts, ghost u: Setup, ghost rest: set<string>, now: int, x: string, cooldown: int)
    returns (t: int)
    requires session.Valid() && !session.isClosed
    requires Decodable(u.d) && u.cooldown == cooldown && Known(u.d, x)
    requires Progress2(u, session.data, counts, rest, now) && x in rest && x in counts && counts[x] > u.limit
    modifies session, session.repr
    ensures session.Valid() && !session.isClosed
    ensures forall o :: o in session.repr ==> o in old(session.repr) || fresh(o)
    ensures Progress2(u, session.data, counts, rest - {x}, t)
  {
    KnownSplits(u.d, x);
    var fields := SplitKey(x);
    var (p, id, ifName) := fields.value;
    t := ReadClock(now);
    ReleaseStep(u, session.data, counts, rest, now, x, p, id, ifName, t);
    var _ := session.ReleaseReservationByID(p, id, ifName, cooldown, t);
  }

  lemma KnownSplits(d: Root, x: string)
    requires Decodable(d) && Known(d, x)
    ensures SplitKey(x).Some?
  {
    var p, k :| ReservationAt(d, p, k).Some? && KeyOf(p, ReservationAt(d, p, k).value) == x;
    OwnKey(d, p, k);
  }

  // ----- third part -----

  /** Removes the empty pools that have no configuration; each is still empty when it goes. */
  method RemoveEmptyPools(session: Session, empty: set<string>, configured: set<string>)
    requires session.Valid() && !session.isClosed
    requires forall p :: p in empty ==> PoolOf(session.data, p).entries == map[]
    modifies session, session.repr
    ensures session.Valid() && !session.isClosed && session.repr == old(session.repr)
    ensures session.data == old(session.data) - (empty - configured)
  {
    var todo := empty;
    ghost var gone: set<string> := {};
    assert session.data == old(session.data) - gone;
    while todo != {}
      invariant session.Valid() && !session.isClosed && session.repr == old(session.repr)
      invariant todo <= empty && gone == (empty - todo) - configured
      invariant session.data == old(session.data) - gone
      decreases todo
    {
      var p :| p in todo;
      if p !in configured {
        assert PoolOf(session.data, p).entries == map[];
        MinusOneMore(old(session.data), gone, p);
        session.RemovePool(p);
        gone := gone + {p};
      }
      todo := todo - {p};
    }
  }

  lemma MinusOneMore(d: Root, gone: set<string>, p: string)
    ensures (d - gone) - {p} == d - (gone + {p})
  {
  }

  /** Releasing never fills a pool. */
  lemma StillEmpty(u: Setup, s: Root, stale: Counts, t: int, empty: set<string>)
    requires Progress2(u, s, stale, {}, t)
    requires forall p :: p in empty ==> p in u.d && u.d[p].entries == map[]
    ensures forall p :: p in empty ==> PoolOf(s, p).entries == map[]
  {
    forall p | p in empty ensures PoolOf(s, p).entries == map[] {
      forall k ensures k !in s[p].entries {
        assert Item2(u, s, stale, {}, t, p, k);
        assert ReservationAt(u.d, p, k) == None;
      }
    }
  }

  // ----- the pass -----

  /** The parts of a pass that release and remove. */
  method ActOn(session: Session, counts: Counts, ghost u: Setup, ghost done: Done, now: int, empty: set<string>, known: set<string>,
               limit: int, cooldown: int, configured: set<string>) returns (t: int, counts': Counts)
    requires session.Valid() && !session.isClosed
    requires Positive(counts) && Decodable(u.d) && u.limit == limit && u.cooldown == cooldown
    requires Progress(u, session.data, counts, done, now) && done.pools == u.d.Keys
    requires forall p :: p in empty <==> p in u.d && u.d[p].entries == map[]
    requires KnownKeys(u.d, u.d.Keys, known)
    modifies session, session.repr
    ensures session.Valid() && !session.isClosed
    ensures forall o :: o in session.repr ==> o in old(session.repr) || fresh(o)
    ensures PassDone(u, session.data, counts', configured, t) && Positive(counts')
  {
    Handover(u, session.data, counts, done, now);
    KnownAll(u.d, known);
    t, counts' := ReleaseStale(session, counts, u, now, known, limit, cooldown);
    FinishPass(u, session.data, counts', t, configured);
    StillEmpty(u, session.data, counts', t, empty);
    assert empty - configured == DroppedPools(u.d, configured);
    RemoveEmptyPools(session, empty, configured);
  }

  /** What a pass has done before its session ends. */
  ghost predicate Worked(u: Setup, failed: bool, work: Root, done: Done, stale: Counts, configured: set<string>, t: int) {
    && u.t0 <= t
    && (failed <==> SomeLookupFails(u))
    && (failed ==> Aborted(u, stale, done))
    && (!failed ==> PassDone(u, work, stale, configured, t))
  }

  method WorkOn(session: Session, counts: Counts, ghost u: Setup, now: int, limit: int, cooldown: int,
                cached: Lookup, direct: Lookup, configured: set<string>)
    returns (failed: bool, t: int, counts': Counts, ghost done: Done)
    requires session.Valid() && !session.isClosed && !session.isModified && session.data == u.d
    requires Positive(counts) && Decodable(u.d)
    requires u == Setup(u.d, counts, cooldown, limit, now, cached, direct)
    modifies session, session.repr
    ensures session.Valid() && !session.isClosed
    ensures forall o :: o in session.repr ==> o in old(session.repr) || fresh(o)
    ensures Positive(counts')
    ensures Worked(u, failed, session.data, done, counts', configured, t)
  {
    var empty, known;
    failed, t, counts', empty, known, done := ObserveAll(session, counts, u, now, cooldown, cached, direct);
    if !failed {
      t, counts' := ActOn(session, counts', u, done, t, empty, known, limit, cooldown, configured);
    } else {
      AbortCounts(u, session.data, counts', done, t);
    }
  }

  datatype PassResult = Committed | WriteFailed | LookupError

  /** How a pass ends. It is given up exactly when a lookup fails, and then the counters of what it had looked at have
      stepped and no others; otherwise they all have. What is committed is as PassDone says, or as it was. */
  ghost predicate Ended(u: Setup, r: PassResult, after: Root, done: Done, stale: Counts, configured: set<string>, t1: int,
                        writeOk: bool) {
    && u.t0 <= t1
    && (r == LookupError <==> SomeLookupFails(u))
    && (r == LookupError ==> Aborted(u, stale, done))
    && (r != LookupError ==> Counted(u, stale))
    && (r == Committed ==> PassDone(u, after, stale, configured, t1))
    && (r != Committed ==> after == u.d)
    && (r == WriteFailed ==> !writeOk)
  }

  lemma EndsAs(u: Setup, failed: bool, work: Root, done: Done, stale: Counts, configured: set<string>, t: int,
               r: PassResult, after: Root, writeOk: bool)
    requires Worked(u, failed, work, done, stale, configured, t)
    requires (r == LookupError <==> failed) && (r == WriteFailed ==> !writeOk)
    requires after == if r == Committed then work else u.d
    ensures Ended(u, r, after, done, stale, configured, t, writeOk)
  {
    if !failed {
      PassCounts(u, work, stale, configured, t);
    }
  }

  /** A pass that ends is one record of a history, whatever its result. */
  lemma PassIsRecord(u: Setup, r: PassResult, after: Root, done: Done, stale: Counts, configured: set<string>, t1: int, writeOk: bool)
    requires Decodable(u.d) && Ended(u, r, after, done, stale, configured, t1, writeOk)
    ensures Record(u, stale, if r == LookupError then Some(done) else None).Valid()
  {
  }

  method PassOn(store: FileStore, counts: Counts, limit: int, cooldown: int, cached: Lookup,
                direct: Lookup, configured: set<string>, t0: int, writeOk: bool)
    returns (r: PassResult, t1: int, counts': Counts, ghost done: Done)
    requires store.Valid() && !store.locked && Positive(counts) && Decodable(store.committed)
    modifies store, store.persisted
    ensures store.Valid() && !store.locked
    ensures forall o :: o in store.repr ==> o in old(store.repr) || fresh(o)
    ensures Positive(counts')
    ensures Ended(Setup(old(store.committed), counts, cooldown, limit, t0, cached, direct),
                  r, store.committed, done, counts', configured, t1, writeOk)
  {
    var session := store.Open();
    ghost var u := Setup(store.committed, counts, cooldown, limit, t0, cached, direct);
    r, t1, counts', done := WorkAndClose(session, counts, u, t0, limit, cooldown, cached, direct, configured, writeOk);
  }

  method WorkAndClose(session: Session, counts: Counts, ghost u: Setup, now: int, limit: int, cooldown: int,
                      cached: Lookup, direct: Lookup, configured: set<string>, writeOk: bool)
    returns (r: PassResult, t: int, counts': Counts, ghost done: Done)
    requires session.Valid() && !session.isClosed && !session.isModified && session.data == u.d == session.store.committed
    requires Positive(counts) && Decodable(u.d)
    requires u == Setup(u.d, counts, cooldown, limit, now, cached, direct)
    modifies session, session.repr, session.store, session.store.persisted
    ensures session.store.Valid() && !session.store.locked
    ensures forall o :: o in session.store.repr ==> o in old(session.store.repr) || o in old(session.repr) || fresh(o)
    ensures Positive(counts')
    ensures Ended(u, r, session.store.committed, done, counts', configured, t, writeOk)
  {
    var failed;
    failed, t, counts', done := WorkOn(session, counts, u, now, limit, cooldown, cached, direct, configured);
    assert session.store.committed == u.d;
    ghost var work := session.data;
    r := Close(session, failed, writeOk);
    EndsAs(u, failed, work, done, counts', configured, t, r, session.store.committed, writeOk);
  }

  method Close(session: Session, failed: bool, writeOk: bool) returns (r: PassResult)
    requires session.Valid() && !session.isClosed
    modifies session`isClosed, session.store, session.store.persisted
    ensures session.store.Valid() && !session.store.locked
    ensures forall o :: o in session.store.repr ==> o in old(session.store.repr) || o in session.repr
    ensures r == LookupError <==> failed
    ensures r == WriteFailed ==> !writeOk
    ensures r != Committed ==> session.store.committed == old(session.store.committed)
    ensures r == Committed ==> session.store.committed == session.data == old(session.data)
  {
    if failed {
      session.Cancel();
      return LookupError;
    }
    var ok := session.Commit(writeOk);
    r := if ok then Committed else WriteFailed;
  }

  class Cleaner {
    const limit: int
    const cooldown: int
    var stale: Counts

    ghost predicate Valid()
      reads this
    {
      Positive(stale)
    }

    constructor (limit: int, cooldown: int)
      ensures Valid() && this.limit == limit && this.cooldown == cooldown && stale == map[]
    {
      this.limit := limit;
      this.cooldown := cooldown;
      stale := map[];
    }

    /** One pass: it ends as Ended says, `done` being what it had looked at when it was given up, from what was committed and the counters before it. What is on disk is what
        is committed, before and after. */
    method Pass(store: FileStore, cached: Lookup, direct: Lookup, configured: set<string>,
                t0: int, writeOk: bool) returns (r: PassResult, t1: int, ghost done: Done)
      requires Valid() && store.Valid() && !store.locked && Decodable(store.committed) && this !in store.repr
      modifies this, store, store.persisted
      ensures Valid() && store.Valid() && !store.locked && this !in store.repr
      ensures Ended(Setup(old(store.committed), old(stale), cooldown, limit, t0, cached, direct),
                    r, store.committed, done, stale, configured, t1, writeOk)
      ensures forall o :: o in store.repr ==> o in old(store.repr) || fresh(o)
    {
      r, t1, stale, done := PassOn(store, stale, limit, cooldown, cached, direct, configured, t0, writeOk);
    }
  }
}
