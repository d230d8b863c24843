/** Whole runs of the node daemon's store: any interleaving of sessions of the handlers and the cleaner, with
    time passing anywhere, failed writes and restarts.

    One lock admits one session at a time. A session works on a copy of the data. The cleaner removes a pool
    only when it is empty, and that is the only removal of pools there is. */
module NodeRuns {
  import opened Addresses
  import opened StoreModel

  datatype Session = Session(tmp: Root, modified: bool)

  /** `disk` is the last successful write, `persisted` what the daemon has in memory. */
  datatype Daemon = Daemon(disk: Root, persisted: Root, session: Option<Session>, now: int)

  datatype Step =
    | Tick(to: int)
    | Open
    | DoReserve(poolKey: string, id: string, ifName: string, meta: Metadata, address: Address)
    | DoRelease(poolKey: string, id: string, ifName: string)
    | DoSetLast(poolKey: string, ip: Option<Address>)
    | DoRemovePool(poolKey: string)
    | Commit(writeOk: bool)
    | Cancel
    | Restart

  predicate Enabled(s: Daemon, step: Step) {
    match step
    case Tick(to) => to >= s.now
    case Open => s.session.None?
    case DoRemovePool(p) => s.session.Some? && PoolOf(s.session.value.tmp, p).entries == map[]
    case Restart => true
    case _ => s.session.Some?
  }

  /** What an operation does to the copy the session works on. */
  ghost function OnCopy(cooldown: int, now: int, se: Session, step: Step): Session {
    match step
    case DoReserve(p, id, ifn, meta, a) =>
      if ReserveVerdict(se.tmp, p, id, ifn, a) == NoError then Session(Reserved(se.tmp, p, id, ifn, meta, a), true) else se
    case DoRelease(p, id, ifn) =>
      if ReleaseVerdict(se.tmp, p, id, ifn, cooldown, now) == Nothing then se
      else Session(Released(se.tmp, p, id, ifn, cooldown, now), true)
    case DoSetLast(p, ip) => Session(WithLast(se.tmp, p, ip), true)
    case DoRemovePool(p) => Session(se.tmp - {p}, true)
    case _ => se
  }

  ghost function Apply(cooldown: int, s: Daemon, step: Step): Daemon
    requires Enabled(s, step)
  {
    match step
    case Tick(to) => s.(now := to)
    case Open => s.(session := Some(Session(s.persisted, false)))
    case Commit(writeOk) =>
      if s.session.value.modified && writeOk then
        s.(disk := s.session.value.tmp, persisted := s.session.value.tmp, session := None)
      else s.(session := None)
    case Cancel => s.(session := None)
    case Restart => s.(persisted := s.disk, session := None)
    case _ => s.(session := Some(OnCopy(cooldown, s.now, s.session.value, step)))
  }

  ghost predicate Run(cooldown: int, states: seq<Daemon>, steps: seq<Step>) {
    && |states| == |steps| + 1
    && forall i :: 0 <= i < |steps| ==> Enabled(states[i], steps[i]) && states[i + 1] == Apply(cooldown, states[i], steps[i])
  }

  // ----- no double-held address -----

  ghost predicate AllConsistent(s: Daemon) {
    && s.disk == s.persisted
    && Consistent(s.persisted)
    && (s.session.Some? ==> Consistent(s.session.value.tmp))
  }

  lemma OnCopyConsistent(cooldown: int, now: int, se: Session, step: Step)
    requires Consistent(se.tmp)
    ensures Consistent(OnCopy(cooldown, now, se, step).tmp)
  {
    match step
    case DoReserve(p, id, ifn, meta, a) =>
      if ReserveVerdict(se.tmp, p, id, ifn, a) == NoError {
        ReserveConsistent(se.tmp, p, id, ifn, meta, a);
      }
    case DoRelease(p, id, ifn) => ReleaseConsistent(se.tmp, p, id, ifn, cooldown, now);
    case _ =>
  }

  lemma StepConsistent(cooldown: int, s: Daemon, step: Step)
    requires Enabled(s, step) && AllConsistent(s)
    ensures AllConsistent(Apply(cooldown, s, step))
  {
    if s.session.Some? {
      OnCopyConsistent(cooldown, s.now, s.session.value, step);
    }
  }

  /** In every state of every run from a consistent store: what is committed, on disk and in memory, has no
      address twice in a pool and every entry under its owner's key, and so has the open session's copy. */
  lemma {:induction false} RunConsistent(cooldown: int, states: seq<Daemon>, steps: seq<Step>, i: nat)
    requires Run(cooldown, states, steps) && AllConsistent(states[0]) && i < |states|
    ensures AllConsistent(states[i])
  {
    if i > 0 {
      RunConsistent(cooldown, states, steps, i - 1);
      StepConsistent(cooldown, states[i - 1], steps[i - 1]);
    }
  }

  // ----- the cooldown floor -----

  /** When the protection of an entry seen at time `t` starts to count: its release time, or now. */
  function Since(r: Reservation, t: int): int {
    if r.IsReleased() then r.releasedAt.value else t
  }

  /** `r1` is `r`, or `r` released at `t` or later. A released entry never changes. */
  predicate Continues(r: Reservation, r1: Reservation, t: int) {
    r1 == r || (!r.IsReleased() && r1.IsReleased() && r1.releasedAt.value >= t && r1 == r.(releasedAt := r1.releasedAt))
  }

  ghost predicate KeptIn(r: Reservation, p: string, k: string, t: int, b: Root) {
    p in b && k in b[p].entries && Continues(r, b[p].entries[k], t)
  }

  /** Every entry of `a`, seen at `t0`, is still in `b` at `t1` unless its cooldown has passed. */
  ghost predicate Floor(cooldown: int, t0: int, a: Root, t1: int, b: Root) {
    forall p, k :: p in a && k in a[p].entries && t1 < Since(a[p].entries[k], t0) + cooldown ==>
      KeptIn(a[p].entries[k], p, k, t0, b)
  }

  lemma FloorReflexive(cooldown: int, t: int, a: Root)
    ensures Floor(cooldown, t, a, t, a)
  {
  }

  lemma FloorTransitive(cooldown: int, t0: int, a: Root, t1: int, b: Root, t2: int, c: Root)
    requires t0 <= t1 <= t2 && Floor(cooldown, t0, a, t1, b) && Floor(cooldown, t1, b, t2, c)
    ensures Floor(cooldown, t0, a, t2, c)
  {
    forall p, k | p in a && k in a[p].entries && t2 < Since(a[p].entries[k], t0) + cooldown
      ensures KeptIn(a[p].entries[k], p, k, t0, c)
    {
      assert KeptIn(a[p].entries[k], p, k, t0, b);
      assert KeptIn(b[p].entries[k], p, k, t1, c);
    }
  }

  lemma OnCopyFloor(cooldown: int, now: int, se: Session, step: Step)
    requires cooldown > 0
    requires step.DoRemovePool? ==> PoolOf(se.tmp, step.poolKey).entries == map[]
    ensures Floor(cooldown, now, se.tmp, now, OnCopy(cooldown, now, se, step).tmp)
  {
    var a, b := se.tmp, OnCopy(cooldown, now, se, step).tmp;
    forall p, k | p in a && k in a[p].entries && now < Since(a[p].entries[k], now) + cooldown
      ensures KeptIn(a[p].entries[k], p, k, now, b)
    {
      match step
      case DoRelease(q, id, ifn) => ReleaseKeeps(a, q, id, ifn, cooldown, now, p, k);
      case _ =>
    }
  }

  /** A release touches only the entry it names, and does not remove one whose cooldown still runs. */
  lemma ReleaseKeeps(a: Root, q: string, id: string, ifn: string, cooldown: int, now: int, p: string, k: string)
    requires cooldown > 0 && p in a && k in a[p].entries
    requires now < Since(a[p].entries[k], now) + cooldown
    ensures KeptIn(a[p].entries[k], p, k, now, Released(a, q, id, ifn, cooldown, now))
  {
  }

  /** Seen from time `t0` and committed data `a`, nothing protected is missing anywhere. */
  ghost predicate Protected(cooldown: int, t0: int, a: Root, s: Daemon) {
    && t0 <= s.now
    && s.disk == s.persisted
    && Floor(cooldown, t0, a, s.now, s.persisted)
    && (s.session.Some? ==> Floor(cooldown, t0, a, s.now, s.session.value.tmp))
  }

  lemma StepProtected(cooldown: int, t0: int, a: Root, s: Daemon, step: Step)
    requires cooldown > 0 && Enabled(s, step) && Protected(cooldown, t0, a, s)
    ensures Protected(cooldown, t0, a, Apply(cooldown, s, step))
  {
    if s.session.Some? {
      var se := s.session.value;
      OnCopyFloor(cooldown, s.now, se, step);
      FloorTransitive(cooldown, t0, a, s.now, se.tmp, s.now, OnCopy(cooldown, s.now, se, step).tmp);
    }
  }

  lemma {:induction false} RunProtected(cooldown: int, states: seq<Daemon>, steps: seq<Step>, i: nat, j: nat)
    requires cooldown > 0 && Run(cooldown, states, steps) && i <= j < |states|
    requires states[i].session.None? && states[i].disk == states[i].persisted
    ensures Protected(cooldown, states[i].now, states[i].persisted, states[j])
    decreases j
  {
    if i == j {
      FloorReflexive(cooldown, states[i].now, states[i].persisted);
    } else {
      RunProtected(cooldown, states, steps, i, j - 1);
      StepProtected(cooldown, states[i].now, states[i].persisted, states[j - 1], steps[j - 1]);
    }
  }

  /** The cooldown floor over whole runs. Take an entry of the data committed at any point between sessions,
      active or released at t. Until the cooldown has passed, counted from t or from that point, the entry
      stays, its address and, once set, its release time unchanged, whatever releases, cleaner passes, pool
      removals, failed writes and restarts happen; and nobody, its former owner included, can reserve its
      address in that pool. */
  lemma CooldownFloor(cooldown: int, states: seq<Daemon>, steps: seq<Step>, i: nat, j: nat, p: string, k: string,
                      id: string, ifName: string)
    requires cooldown > 0 && Run(cooldown, states, steps) && i <= j < |states|
    requires states[i].session.None? && states[i].disk == states[i].persisted
    requires p in states[i].persisted && k in states[i].persisted[p].entries
    requires var r := states[i].persisted[p].entries[k];
             states[j].now < Since(r, states[i].now) + cooldown
    ensures var r := states[i].persisted[p].entries[k];
            && KeptIn(r, p, k, states[i].now, states[j].persisted)
            && (states[j].session.Some? ==>
                  ReserveVerdict(states[j].session.value.tmp, p, id, ifName, r.address) != NoError)
  {
    RunProtected(cooldown, states, steps, i, j);
    var r := states[i].persisted[p].entries[k];
    if states[j].session.Some? {
      var tmp := states[j].session.value.tmp;
      assert KeptIn(r, p, k, states[i].now, tmp);
      assert HasAddress(tmp[p].entries, r.address);
    }
  }
}
