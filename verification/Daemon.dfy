/** The node daemon as a driver of its operations: requests, cleaner passes and restarts, one after the other as the
    store's lock admits them. Whatever it is asked, what it commits is a run of operations, so everything proved of
    such runs holds of it. */
module Daemon {
  import opened Addresses
  import opened StoreModel
  import opened Store
  import opened Handlers
  import opened StaleCleaner
  import opened CleanerPass
  import opened OperationRuns

  datatype Command =
    | Allocate(p: Params, configs: map<string, PoolConfig>, canceled: bool, writeOk: bool)
    | Deallocate(p: Params, canceled: bool, writeOk: bool)
    | Clean(cached: Lookup, direct: Lookup, configured: set<string>, writeOk: bool)
    | Restart

  predicate Plain(cmd: Command) {
    cmd.Allocate? ==> '|' !in cmd.p.id && forall i :: 0 <= i < |cmd.p.pools| ==> '|' !in cmd.p.pools[i]
  }

  /** What was committed in answer to a command: what was asked for, or nothing. */
  predicate Answers(cmd: Command, op: Operation) {
    || op == NothingCommitted
    || (cmd.Allocate? && op.Allocated? && op.p == cmd.p && op.configs == cmd.configs)
    || (cmd.Deallocate? && op.Deallocated? && op.p == cmd.p)
    || (cmd.Clean? && op.Cleaned? && op.configured == cmd.configured)
  }

  /** The daemon is between operations. */
  ghost predicate Ready(store: FileStore, cleaner: Cleaner)
    reads store, store.persisted, store.persisted.pools, store.repr, cleaner
  {
    store.Valid() && !store.locked && cleaner.Valid() && cleaner !in store.repr
  }

  /** What it commits stays in good order. */
  ghost predicate Orderly(root: Root) {
    Consistent(root) && NoBars(root)
  }

  lemma StepOrderly(cooldown: int, t0: int, before: Root, op: Operation, t1: int, after: Root)
    requires Commits(cooldown, t0, before, op, t1, after) && Orderly(before) && PlainRequest(op)
    ensures Orderly(after)
  {
    CommitConsistent(cooldown, t0, before, op, t1, after);
    StepNoBars(cooldown, t0, before, op, t1, after);
  }

  /** One reading of the clock per pool. */
  method ReadTimes(now: int, n: nat) returns (times: seq<int>, t: int)
    ensures |times| == n && Readings(now, times, t)
  {
    times, t := [], now;
    for i := 0 to n
      invariant |times| == i && Readings(now, times, t)
    {
      t := ReadClock(t);
      times := times + [t];
    }
  }

  method DoAllocate(store: FileStore, cleaner: Cleaner, now: int, cmd: Command) returns (t: int, ghost op: Operation)
    requires Ready(store, cleaner) && cmd.Allocate?
    modifies store, store.persisted
    ensures Ready(store, cleaner) && (forall o :: o in store.repr ==> o in old(store.repr) || fresh(o))
    ensures Commits(cleaner.cooldown, now, old(store.committed), op, t, store.committed) && Answers(cmd, op)
  {
    t := ReadClock(now);
    var r := AllocateHandler(store, cmd.p, cmd.configs, cmd.canceled, cmd.writeOk);
    op := if r.Allocated? then Operation.Allocated(cmd.p, cmd.configs, r.addrs) else NothingCommitted;
  }

  method DoDeallocate(store: FileStore, cleaner: Cleaner, now: int, cmd: Command) returns (t: int, ghost op: Operation)
    requires Ready(store, cleaner) && cmd.Deallocate?
    modifies store, store.persisted
    ensures Ready(store, cleaner) && (forall o :: o in store.repr ==> o in old(store.repr) || fresh(o))
    ensures Commits(cleaner.cooldown, now, old(store.committed), op, t, store.committed) && Answers(cmd, op)
  {
    var times;
    times, t := ReadTimes(now, |cmd.p.pools|);
    var ok := DeallocateHandler(store, cmd.p, cleaner.cooldown, times, cmd.canceled, cmd.writeOk);
    op := if ok then Deallocated(cmd.p, times) else NothingCommitted;
  }

  method DoClean(store: FileStore, cleaner: Cleaner, now: int, cmd: Command) returns (t: int, ghost op: Operation)
    requires Ready(store, cleaner) && Decodable(store.committed) && cmd.Clean?
    modifies store, store.persisted, cleaner
    ensures Ready(store, cleaner) && (forall o :: o in store.repr ==> o in old(store.repr) || fresh(o))
    ensures Commits(cleaner.cooldown, now, old(store.committed), op, t, store.committed) && Answers(cmd, op)
  {
    ghost var u := Setup(store.committed, cleaner.stale, cleaner.cooldown, cleaner.limit, now, cmd.cached, cmd.direct);
    var r;
    ghost var done;
    r, t, done := cleaner.Pass(store, cmd.cached, cmd.direct, cmd.configured, now, cmd.writeOk);
    op := if r == Committed then Cleaned(u, cleaner.stale, cmd.configured) else NothingCommitted;
  }

  /** A new daemon on the store file of the old one. It has forgotten its counters. */
  method DoRestart(store: FileStore, cleaner: Cleaner) returns (store': FileStore, cleaner': Cleaner)
    requires Ready(store, cleaner)
    ensures fresh(store') && fresh(cleaner') && fresh(store'.repr) && Ready(store', cleaner')
    ensures store'.committed == store.committed
    ensures cleaner'.cooldown == cleaner.cooldown && cleaner'.limit == cleaner.limit
  {
    store' := new FileStore.Load(store.disk);
    cleaner' := new Cleaner(cleaner.limit, cleaner.cooldown);
  }

  method Step(store: FileStore, cleaner: Cleaner, now: int, cmd: Command)
    returns (store': FileStore, cleaner': Cleaner, t: int, ghost op: Operation)
    requires Ready(store, cleaner) && Orderly(store.committed) && Plain(cmd)
    modifies store, store.persisted, cleaner
    ensures store' == store || (fresh(store') && fresh(store'.repr))
    ensures cleaner' == cleaner || fresh(cleaner')
    ensures forall o :: o in store'.repr ==> o in old(store.repr) || fresh(o)
    ensures Ready(store', cleaner') && Orderly(store'.committed) && cleaner'.cooldown == cleaner.cooldown
    ensures Commits(cleaner.cooldown, now, old(store.committed), op, t, store'.committed)
    ensures Answers(cmd, op) && PlainRequest(op)
  {
    store', cleaner', t, op := store, cleaner, now, NothingCommitted;
    ghost var before := store.committed;
    match cmd {
      case Allocate(_, _, _, _) => t, op := DoAllocate(store, cleaner, now, cmd);
      case Deallocate(_, _, _) => t, op := DoDeallocate(store, cleaner, now, cmd);
      case Clean(_, _, _, _) =>
        ConsistentDecodable(before);
        t, op := DoClean(store, cleaner, now, cmd);
      case Restart => store', cleaner' := DoRestart(store, cleaner);
    }
    StepOrderly(cleaner.cooldown, now, before, op, t, store'.committed);
  }

  /** Any sequence of commands: the states committed on the way, with the operations that commit them, are a run, and
      the operations answer the commands one by one. */
  method Serve(store0: FileStore, cleaner0: Cleaner, now: int, cmds: seq<Command>)
    returns (store: FileStore, cleaner: Cleaner, ghost states: seq<Root>, ghost times: seq<int>, ghost ops: seq<Operation>)
    requires Ready(store0, cleaner0) && Orderly(store0.committed)
    requires forall i :: 0 <= i < |cmds| ==> Plain(cmds[i])
    modifies store0, store0.repr, cleaner0
    ensures Ready(store, cleaner) && cleaner.cooldown == cleaner0.cooldown
    ensures Operations(cleaner0.cooldown, states, times, ops)
    ensures states[0] == old(store0.committed) && states[|ops|] == store.committed && times[0] == now
    ensures |ops| == |cmds| && forall i :: 0 <= i < |cmds| ==> Answers(cmds[i], ops[i]) && PlainRequest(ops[i])
  {
    store, cleaner := store0, cleaner0;
    var t := now;
    states, times, ops := [store.committed], [now], [];
    for i := 0 to |cmds|
      invariant (store == store0 || fresh(store)) && (cleaner == cleaner0 || fresh(cleaner))
      invariant forall o :: o in store.repr ==> o in old(store0.repr) || fresh(o)
      invariant Ready(store, cleaner) && Orderly(store.committed) && cleaner.cooldown == cleaner0.cooldown
      invariant |ops| == i && Operations(cleaner0.cooldown, states, times, ops)
      invariant states[0] == old(store0.committed) && states[i] == store.committed && times[0] == now && times[i] == t
      invariant forall k :: 0 <= k < i ==> Answers(cmds[k], ops[k]) && PlainRequest(ops[k])
    {
      ghost var op;
      store, cleaner, t, op := Step(store, cleaner, t, cmds[i]);
      OneMore(cleaner0.cooldown, states, times, ops, op, t, store.committed);
      states, times, ops := states + [store.committed], times + [t], ops + [op];
    }
  }

  lemma OneMore(cooldown: int, states: seq<Root>, times: seq<int>, ops: seq<Operation>, op: Operation, t: int, after: Root)
    requires Operations(cooldown, states, times, ops) && Commits(cooldown, times[|ops|], states[|ops|], op, t, after)
    ensures Operations(cooldown, states + [after], times + [t], ops + [op])
  {
    var states', times', ops' := states + [after], times + [t], ops + [op];
    forall i | 0 <= i < |ops'| ensures Commits(cooldown, times'[i], states'[i], ops'[i], times'[i + 1], states'[i + 1]) {
      assert i < |ops| ==> Commits(cooldown, times[i], states[i], ops[i], times[i + 1], states[i + 1]);
    }
  }
}
