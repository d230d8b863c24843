/** The store on the heap takes the steps of the state machine of NodeRuns: whatever a session, a commit, a cancel or a
    restart does to the objects is what the machine does to its values. So the results on its runs are results on the
    store (pkg/ipam-node/store/store.go). */
module SessionSteps {
  import opened Addresses
  import opened StoreModel
  import opened Store
  import NodeRuns

  /** What the machine sees of a session that is open, and of a store. */
  ghost function CopyOf(s: Session): NodeRuns.Session
    reads s
  {
    NodeRuns.Session(s.data, s.isModified)
  }

  ghost function View(store: FileStore, s: Session?, now: int): NodeRuns.Daemon
    reads store, s
  {
    NodeRuns.Daemon(store.disk, store.committed, if s == null || s.isClosed then None else Some(CopyOf(s)), now)
  }

  predicate OnOpenSession(step: NodeRuns.Step) {
    step.DoReserve? || step.DoRelease? || step.DoSetLast? || step.DoRemovePool?
  }

  /** A step of an open session. The clock reads `now`. */
  method Work(s: Session, cooldown: int, now: int, step: NodeRuns.Step)
    requires s.Valid() && !s.isClosed && OnOpenSession(step)
    modifies s, s.repr
    ensures s.Valid() && !s.isClosed
    ensures CopyOf(s) == NodeRuns.OnCopy(cooldown, now, old(CopyOf(s)), step)
  {
    match step
    case DoReserve(p, id, ifName, meta, a) => var _ := s.Reserve(p, id, ifName, meta, a);
    case DoRelease(p, id, ifName) => var _ := s.ReleaseReservationByID(p, id, ifName, cooldown, now);
    case DoSetLast(p, ip) => s.SetLastReservedIP(p, ip);
    case DoRemovePool(p) => s.RemovePool(p);
    case _ => assert false;
  }

  /** A store with at most one session, which holds the lock while it is open. */
  ghost predicate Running(store: FileStore, s: Session?)
    reads store, store.persisted, store.persisted.pools, store.repr
    reads s, if s == null then {} else s.repr, if s == null then {} else {s.tmp, s.tmp.pools}
  {
    && store.Valid() && (store.locked <==> s != null && !s.isClosed)
    && (s != null && !s.isClosed ==> s.store == store && s.Valid())
  }

  /** Any step that the machine allows, taken on the objects. */
  method Take(store: FileStore, s: Session?, now: int, cooldown: int, step: NodeRuns.Step)
    returns (store': FileStore, s': Session?, now': int)
    requires Running(store, s) && NodeRuns.Enabled(View(store, s, now), step)
    modifies store, store.persisted, s, if s == null then {} else s.repr
    ensures Running(store', s')
    ensures View(store', s', now') == NodeRuns.Apply(cooldown, old(View(store, s, now)), step)
  {
    store', s', now' := store, s, now;
    if OnOpenSession(step) {
      Work(s, cooldown, now, step);
      assert store.disk == old(store.disk) && store.committed == old(store.committed);
      return;
    }
    if step.Tick? {
      now' := step.to;
    } else if step.Open? {
      s' := store.Open();
    } else if step.Commit? {
      var _ := s.Commit(step.writeOk);
    } else if step.Cancel? {
      s.Cancel();
    } else {
      store' := new FileStore.Load(store.disk);
      s' := null;
    }
  }
}
