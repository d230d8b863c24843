/** The controller's IPPool reconcile (pkg/ipam-controller/controllers/ippool/ippool.go): reload an untrusted
    status, give every matching node a block, write the status back.

    Node names come from the API server, so the node list has no repetitions. */
module IPPoolReconcile {
  import opened Addresses
  import opened Exclusions
  import opened IPPoolAllocator
  import opened Sequences

  /** A status entry. An address that does not parse is None. */
  datatype Entry = Entry(node: string, start: Option<Address>, end: Option<Address>)

  datatype State = State(allocations: map<string, AllocatedRange>, startIps: set<nat>)

  /** The part of pool validation that concerns allocation. */
  predicate ValidSpec(c: Config) {
    && c.WellFormed()
    && 1 <= c.blockSize <= c.subnet.PossibleIPCount()
    && (forall e :: e in c.exclusions ==>
          c.subnet.ContainsValue(e.start) && c.subnet.ContainsValue(e.end))
    && (forall e :: e in c.perNode ==> e.end <= 0x7fff_ffff)
    && (c.gateway.Some? ==> c.subnet.ContainsValue(c.gateway.value))
  }

  // ----- reconcile as a function of spec, status and nodes -----

  ghost predicate Accepted(c: Config, nodes: set<string>, st: State, e: Entry) {
    && e.node in nodes
    && e.start.Some? && e.end.Some?
    && Loadable(c, e.start.value, e.end.value)
    && e.start.value.value !in st.startIps
  }

  ghost function LoadOne(c: Config, nodes: set<string>, st: State, e: Entry): State {
    if Accepted(c, nodes, st, e) then
      State(st.allocations[e.node := AllocatedRange(e.start.value.value, e.end.value.value)],
            st.startIps + {e.start.value.value})
    else st
  }

  ghost function LoadAll(c: Config, nodes: set<string>, status: seq<Entry>): State {
    if status == [] then State(map[], {})
    else LoadOne(c, nodes, LoadAll(c, nodes, status[..|status| - 1]), status[|status| - 1])
  }

  ghost function AllocOne(c: Config, st: State, node: string): State
    requires c.blockSize >= 1
  {
    if node in st.allocations then st
    else
      match FirstUsable(c, st.startIps)
      case None => st
      case Some(s) => State(st.allocations[node := BlockAt(c, s)], st.startIps + {s})
  }

  ghost function AllocAll(c: Config, st: State, nodes: seq<string>): State
    requires c.blockSize >= 1
  {
    if nodes == [] then st
    else AllocOne(c, AllocAll(c, st, nodes[..|nodes| - 1]), nodes[|nodes| - 1])
  }

  function EntryFor(c: Config, node: string, r: AllocatedRange): Entry {
    Entry(node, Some(Address(c.subnet.family, r.start)), Some(Address(c.subnet.family, r.end)))
  }

  /** The status: one entry for each node that has a block, in node order. */
  ghost function Entries(c: Config, allocations: map<string, AllocatedRange>, nodes: seq<string>): seq<Entry> {
    if nodes == [] then []
    else
      var n := nodes[|nodes| - 1];
      var before := Entries(c, allocations, nodes[..|nodes| - 1]);
      if n in allocations then before + [EntryFor(c, n, allocations[n])] else before
  }

  ghost function Final(c: Config, status: seq<Entry>, nodes: seq<string>): State
    requires c.blockSize >= 1
  {
    AllocAll(c, LoadAll(c, Elements(nodes), status), nodes)
  }

  /** The status written for a valid pool. */
  ghost function Reconciled(c: Config, status: seq<Entry>, nodes: seq<string>): seq<Entry>
    requires c.blockSize >= 1
  {
    Entries(c, Final(c, status, nodes).allocations, nodes)
  }

  // ----- the reconcile loop -----

  datatype Outcome = Written(status: seq<Entry>) | Failed

  method CreatePoolAllocatorFromIPPool(c: Config, status: seq<Entry>, nodes: set<string>)
    returns (pa: PoolAllocator)
    requires c.WellFormed()
    ensures fresh(pa) && pa.Valid() && pa.cfg == c
    ensures State(pa.allocations, pa.startIps) == LoadAll(c, nodes, status)
    ensures pa.lastAllocatedStartIP == None
  {
    pa := new PoolAllocator(c);
    for i := 0 to |status|
      invariant pa.Valid() && pa.cfg == c
      invariant State(pa.allocations, pa.startIps) == LoadAll(c, nodes, status[..i])
      invariant pa.lastAllocatedStartIP == None
    {
      var e := status[i];
      assert status[..i + 1][..i] == status[..i];
      if e.node !in nodes || e.start.None? || e.end.None? {
        continue;
      }
      var _ := pa.Load(e.node, e.start.value, e.end.value);
    }
    assert status[..|status|] == status;
  }

  /** Reconcile: an invalid pool loses its status; otherwise the new status is the function above, unless the
      call is cancelled, and then nothing is written. */
  method Reconcile(ctx: Context, c: Config, status: seq<Entry>, nodes: seq<string>) returns (r: Outcome)
    requires Distinct(nodes)
    ensures !ValidSpec(c) ==> r == Written([])
    ensures ValidSpec(c) ==> r == Written(Reconciled(c, status, nodes)) || (r == Failed && ctx.DoneAfter?)
  {
    if !ValidSpec(c) {
      return Written([]);
    }
    var pa := CreatePoolAllocatorFromIPPool(c, status, set n | n in nodes);
    var out := [];
    ghost var st := LoadAll(c, Elements(nodes), status);
    for i := 0 to |nodes|
      invariant pa.Valid() && pa.cfg == c
      invariant State(pa.allocations, pa.startIps) == AllocAll(c, st, nodes[..i])
      invariant out == Entries(c, pa.allocations, nodes[..i])
    {
      var node := nodes[i];
      ghost var was := pa.allocations;
      ghost var taken := pa.startIps;
      assert nodes[..i + 1][..i] == nodes[..i];
      var a := pa.AllocateFromPool(ctx, node);
      if a == ErrNoFreeRanges {
        LowestIsFirstUsable(c, taken, None);
        continue;
      }
      if !a.Allocated? {
        return Failed;
      }
      LowestIsFirstUsable(c, taken, Some(a.range.start));
      EntriesFrame(c, was, pa.allocations, nodes[..i]);
      out := out + [EntryFor(c, node, a.range)];
    }
    assert nodes[..|nodes|] == nodes;
    return Written(out);
  }

  /** Entries look only at the nodes listed. */
  lemma {:induction false} EntriesFrame(c: Config, a: map<string, AllocatedRange>, b: map<string, AllocatedRange>,
                                        nodes: seq<string>)
    requires forall n :: n in nodes ==> (n in a <==> n in b) && (n in a ==> a[n] == b[n])
    ensures Entries(c, a, nodes) == Entries(c, b, nodes)
  {
    if nodes == [] {
    } else {
      EntriesFrame(c, a, b, nodes[..|nodes| - 1]);
    }
  }

  // ----- invariants of a run -----

  ghost predicate ValidState(c: Config, st: State) {
    AllocationsValid(c, st.allocations, st.startIps)
  }

  /** No block is blocked by an entry that was overwritten: every taken start belongs to a node. */
  ghost predicate Tight(st: State) {
    st.startIps == Starts(st.allocations)
  }

  ghost function Starts(a: map<string, AllocatedRange>): set<nat> {
    set n | n in a :: a[n].start
  }

  lemma {:induction false} LoadAllValid(c: Config, nodes: set<string>, status: seq<Entry>)
    ensures ValidState(c, LoadAll(c, nodes, status))
    ensures LoadAll(c, nodes, status).allocations.Keys <= nodes
  {
    if status == [] {
    } else {
      var e := status[|status| - 1];
      var st := LoadAll(c, nodes, status[..|status| - 1]);
      LoadAllValid(c, nodes, status[..|status| - 1]);
      if Accepted(c, nodes, st, e) {
        var r := AllocatedRange(e.start.value.value, e.end.value.value);
        assert e.start.value == Address(c.subnet.family, r.start) && e.end.value == Address(c.subnet.family, r.end);
        RecordKeepsValid(c, st.allocations, st.startIps, e.node, r);
      }
    }
  }

  lemma StartsUpdate(a: map<string, AllocatedRange>, node: string, r: AllocatedRange)
    requires node !in a
    ensures Starts(a[node := r]) == Starts(a) + {r.start}
  {
    var b := a[node := r];
    forall s | s in Starts(a) + {r.start} ensures s in Starts(b) {
      if s in Starts(a) {
        var n :| n in a && a[n].start == s;
        assert n in b && b[n].start == s;
      } else {
        assert b[node].start == s;
      }
    }
  }

  /** What a run of allocations for `names` does: the state stays valid, nodes keep their blocks, and one of
      `names` is left without a block only when no block is usable at the end either. */
  ghost predicate RunOf(c: Config, st: State, fin: State, names: set<string>)
    requires c.blockSize >= 1
  {
    && ValidState(c, fin)
    && st.startIps <= fin.startIps
    && (Tight(st) ==> Tight(fin))
    && (forall n :: n in st.allocations ==> n in fin.allocations && fin.allocations[n] == st.allocations[n])
    && fin.allocations.Keys <= st.allocations.Keys + names
    && (forall n :: n in names && n !in fin.allocations ==> NoneUsable(c, fin.startIps))
  }

  lemma RunCompose(c: Config, st: State, mid: State, fin: State, first: set<string>, second: set<string>)
    requires c.blockSize >= 1 && RunOf(c, st, mid, first) && RunOf(c, mid, fin, second)
    ensures RunOf(c, st, fin, first + second)
  {
    forall n | n in first + second && n !in fin.allocations ensures NoneUsable(c, fin.startIps) {
      if n in first {
        assert n !in mid.allocations;
        UsableAntitone(c, mid.startIps, fin.startIps);
      }
    }
  }

  lemma AllocOneRun(c: Config, st: State, node: string)
    requires c.blockSize >= 1 && ValidState(c, st)
    ensures RunOf(c, st, AllocOne(c, st, node), {node})
  {
    if node !in st.allocations {
      var f := FirstUsable(c, st.startIps);
      LowestIsFirstUsable(c, st.startIps, f);
      if f.Some? {
        UsableIsLoadable(c, st.startIps, f.value);
        RecordKeepsValid(c, st.allocations, st.startIps, node, BlockAt(c, f.value));
        StartsUpdate(st.allocations, node, BlockAt(c, f.value));
      }
    }
  }

  lemma {:induction false} AllocAllRun(c: Config, st: State, nodes: seq<string>)
    requires c.blockSize >= 1 && ValidState(c, st)
    ensures RunOf(c, st, AllocAll(c, st, nodes), Elements(nodes))
  {
    if nodes == [] {
    } else {
      var rest, node := nodes[..|nodes| - 1], nodes[|nodes| - 1];
      AllocAllRun(c, st, rest);
      var mid := AllocAll(c, st, rest);
      AllocOneRun(c, mid, node);
      RunCompose(c, st, mid, AllocAll(c, st, nodes), Elements(rest), {node});
      assert nodes == rest + [node];
      assert Elements(nodes) == Elements(rest) + {node};
    }
  }

  lemma FinalRun(c: Config, status: seq<Entry>, nodes: seq<string>)
    requires c.blockSize >= 1
    ensures var fin := Final(c, status, nodes);
            && ValidState(c, fin)
            && fin.allocations.Keys <= Elements(nodes)
            && (forall n :: n in nodes && n !in fin.allocations ==> NoneUsable(c, fin.startIps))
  {
    LoadAllValid(c, Elements(nodes), status);
    AllocAllRun(c, LoadAll(c, Elements(nodes), status), nodes);
  }

  lemma {:induction false} EntriesMembers(c: Config, a: map<string, AllocatedRange>, nodes: seq<string>, e: Entry)
    ensures e in Entries(c, a, nodes) <==> e.node in nodes && e.node in a && e == EntryFor(c, e.node, a[e.node])
  {
    if nodes == [] {
    } else {
      var rest, node := nodes[..|nodes| - 1], nodes[|nodes| - 1];
      EntriesMembers(c, a, rest, e);
      assert nodes == rest + [node];
    }
  }

  // ----- main results -----

  predicate Holds(e: Entry, a: nat) {
    e.start.Some? && e.end.Some? && e.start.value.value <= a <= e.end.value.value
  }

  /** From any status, however inconsistent: no node is written twice, an entry names a node of the list, holds a
      whole block of the subnet, and shares no address with the entry of another node. */
  lemma ReconciledDisjoint(c: Config, status: seq<Entry>, nodes: seq<string>, d: Entry, e: Entry, a: nat)
    requires c.blockSize >= 1 && Distinct(nodes)
    requires d in Reconciled(c, status, nodes) && e in Reconciled(c, status, nodes)
    ensures d.node in nodes && d.start.Some? && d.end.Some? && Loadable(c, d.start.value, d.end.value)
    ensures d.node != e.node ==> !(Holds(d, a) && Holds(e, a))
    ensures d.node == e.node ==> d == e
    ensures var out := Reconciled(c, status, nodes);
            forall i, j :: 0 <= i < j < |out| ==> out[i].node != out[j].node
  {
    var fin := Final(c, status, nodes).allocations;
    WrittenOnce(c, fin, nodes);
    FinalRun(c, status, nodes);
    EntriesMembers(c, fin, nodes, d);
    EntriesMembers(c, fin, nodes, e);
    if d.node != e.node {
      BlocksDisjoint(c, fin[d.node].start, fin[e.node].start, a);
    }
  }

  /** Entries of one node are never written twice. */
  lemma WrittenOnce(c: Config, a: map<string, AllocatedRange>, nodes: seq<string>)
    requires Distinct(nodes)
    ensures var out := Entries(c, a, nodes); forall i, j :: 0 <= i < j < |out| ==> out[i].node != out[j].node
  {
    var out := Entries(c, a, nodes);
    EntriesNameOnce(c, a, nodes);
    forall i, j | 0 <= i < j < |out| ensures out[i].node != out[j].node {
      EntriesMembers(c, a, nodes, out[i]);
      assert out[i].node in Elements(nodes);
    }
  }

  ghost function Held(a: map<string, AllocatedRange>, names: set<string>): map<string, AllocatedRange> {
    map n | n in a && n in names :: a[n]
  }

  lemma HeldExtend(a: map<string, AllocatedRange>, rest: seq<string>, node: string, names: set<string>)
    ensures var before := Held(a, Elements(rest) * names);
            Held(a, Elements(rest + [node]) * names)
            == if node in a && node in names then before[node := a[node]] else before
  {
    assert Elements(rest + [node]) == Elements(rest) + {node};
  }

  /** One entry of a valid allocation loads on top of others. */
  lemma LoadHeld(c: Config, a: map<string, AllocatedRange>, s: set<nat>, before: map<string, AllocatedRange>,
                 node: string, names: set<string>)
    requires AllocationsValid(c, a, s) && node in a && node in names && node !in before
    requires forall n :: n in before ==> n in a && before[n] == a[n]
    ensures LoadOne(c, names, State(before, Starts(before)), EntryFor(c, node, a[node]))
            == State(before[node := a[node]], Starts(before[node := a[node]]))
  {
    assert a[node].start !in Starts(before);
    StartsUpdate(before, node, a[node]);
  }

  /** What a reconcile wrote loads back in full, for any set of nodes: the blocks of the nodes still there. */
  lemma {:induction false} LoadEntries(c: Config, a: map<string, AllocatedRange>, s: set<nat>,
                                       nodes: seq<string>, names: set<string>)
    requires AllocationsValid(c, a, s) && Distinct(nodes)
    ensures var kept := Held(a, Elements(nodes) * names);
            LoadAll(c, names, Entries(c, a, nodes)) == State(kept, Starts(kept))
  {
    if nodes == [] {
    } else {
      var rest, node := nodes[..|nodes| - 1], nodes[|nodes| - 1];
      assert nodes == rest + [node];
      LoadEntries(c, a, s, rest, names);
      HeldExtend(a, rest, node, names);
      if node in a {
        assert Entries(c, a, nodes)[..|Entries(c, a, rest)|] == Entries(c, a, rest);
        if node in names {
          LoadHeld(c, a, s, Held(a, Elements(rest) * names), node, names);
        }
      }
    }
  }

  /** When every node of the list has a block or no block is usable, allocating changes nothing. */
  lemma {:induction false} AllocAllSettled(c: Config, st: State, nodes: seq<string>)
    requires c.blockSize >= 1
    requires forall n :: n in nodes ==> n in st.allocations || NoneUsable(c, st.startIps)
    ensures AllocAll(c, st, nodes) == st
  {
    if nodes == [] {
    } else {
      AllocAllSettled(c, st, nodes[..|nodes| - 1]);
      LowestIsFirstUsable(c, st.startIps, None);
    }
  }

  /** The second run starts from exactly the blocks the first one wrote. */
  lemma SecondLoad(c: Config, status: seq<Entry>, nodes: seq<string>)
    requires c.blockSize >= 1 && Distinct(nodes)
    ensures var fin := Final(c, status, nodes);
            LoadAll(c, Elements(nodes), Reconciled(c, status, nodes)) == State(fin.allocations, Starts(fin.allocations))
  {
    FinalRun(c, status, nodes);
    var fin := Final(c, status, nodes);
    LoadEntries(c, fin.allocations, fin.startIps, nodes, Elements(nodes));
    assert Held(fin.allocations, Elements(nodes) * Elements(nodes)) == fin.allocations;
  }

  /** Matching nodes are named at most once. */
  ghost predicate NamesOnce(status: seq<Entry>, nodes: set<string>) {
    forall i, j :: 0 <= i < j < |status| && status[i].node in nodes ==> status[i].node != status[j].node
  }

  lemma {:induction false} LoadAllTight(c: Config, nodes: set<string>, status: seq<Entry>)
    requires NamesOnce(status, nodes)
    ensures Tight(LoadAll(c, nodes, status))
    ensures forall n :: n in LoadAll(c, nodes, status).allocations ==> exists i :: 0 <= i < |status| && status[i].node == n
  {
    if status == [] {
    } else {
      var rest, e := status[..|status| - 1], status[|status| - 1];
      LoadAllTight(c, nodes, rest);
      var st := LoadAll(c, nodes, rest);
      forall n | n in LoadAll(c, nodes, status).allocations ensures exists i :: 0 <= i < |status| && status[i].node == n {
        if n == e.node {
          assert status[|status| - 1].node == n;
        } else {
          var i :| 0 <= i < |rest| && rest[i].node == n;
          assert status[i].node == n;
        }
      }
      if Accepted(c, nodes, st, e) {
        assert forall i :: 0 <= i < |rest| ==> rest[i] == status[i] && status[i].node != e.node;
        assert e.node !in st.allocations;
        StartsUpdate(st.allocations, e.node, AllocatedRange(e.start.value.value, e.end.value.value));
      }
    }
  }

  /** Idempotent: when the status names each matching node at most once, a second run with the same pool and
      nodes writes the same status, including which nodes have no block. */
  lemma ReconcileIdempotent(c: Config, status: seq<Entry>, nodes: seq<string>)
    requires c.blockSize >= 1 && Distinct(nodes) && NamesOnce(status, Elements(nodes))
    ensures Reconciled(c, Reconciled(c, status, nodes), nodes) == Reconciled(c, status, nodes)
  {
    var fin := Final(c, status, nodes);
    LoadAllValid(c, Elements(nodes), status);
    LoadAllTight(c, Elements(nodes), status);
    AllocAllRun(c, LoadAll(c, Elements(nodes), status), nodes);
    SecondLoad(c, status, nodes);
    AllocAllSettled(c, fin, nodes);
  }

  /** A reconcile always writes each node at most once. */
  lemma {:induction false} EntriesNameOnce(c: Config, a: map<string, AllocatedRange>, nodes: seq<string>)
    requires Distinct(nodes)
    ensures NamesOnce(Entries(c, a, nodes), Elements(nodes))
  {
    if nodes == [] {
    } else {
      var rest, node := nodes[..|nodes| - 1], nodes[|nodes| - 1];
      assert nodes == rest + [node];
      EntriesNameOnce(c, a, rest);
      var es := Entries(c, a, rest);
      forall i | 0 <= i < |es| ensures es[i].node in rest {
        EntriesMembers(c, a, rest, es[i]);
      }
    }
  }

  /** Convergence from any status at all: two runs reach a fixed point. */
  lemma ReconcileConverges(c: Config, status: seq<Entry>, nodes: seq<string>)
    requires c.blockSize >= 1 && Distinct(nodes)
    ensures var second := Reconciled(c, Reconciled(c, status, nodes), nodes);
            Reconciled(c, second, nodes) == second
  {
    EntriesNameOnce(c, Final(c, status, nodes).allocations, nodes);
    ReconcileIdempotent(c, Reconciled(c, status, nodes), nodes);
  }

  /** One run is a fixed point exactly when it served all nodes, or left no block that is not written in the
      status. */
  lemma FixedPointAfter(c: Config, status: seq<Entry>, nodes: seq<string>)
    requires c.blockSize >= 1 && Distinct(nodes)
    ensures var fin := Final(c, status, nodes).allocations;
            Reconciled(c, Reconciled(c, status, nodes), nodes) == Reconciled(c, status, nodes)
            <==> (forall n :: n in nodes ==> n in fin) || NoneUsable(c, Starts(fin))
  {
    var fin := Final(c, status, nodes).allocations;
    var st := State(fin, Starts(fin));
    SecondLoad(c, status, nodes);
    if (forall n :: n in nodes ==> n in fin) || NoneUsable(c, Starts(fin)) {
      AllocAllSettled(c, st, nodes);
    } else {
      FinalRun(c, status, nodes);
      var missing :| missing in nodes && missing !in fin;
      SomeoneServed(c, st, nodes, missing);
      var node :| node in nodes && node !in fin && node in AllocAll(c, st, nodes).allocations;
      var e := EntryFor(c, node, AllocAll(c, st, nodes).allocations[node]);
      EntriesMembers(c, AllocAll(c, st, nodes).allocations, nodes, e);
      EntriesMembers(c, fin, nodes, e);
    }
  }

  /** If a block is usable and some node has none, a run serves somebody new. */
  lemma {:induction false} SomeoneServed(c: Config, st: State, nodes: seq<string>, missing: string)
    requires c.blockSize >= 1 && missing in nodes && missing !in st.allocations
    requires !NoneUsable(c, st.startIps)
    ensures exists n :: n in nodes && n !in st.allocations && n in AllocAll(c, st, nodes).allocations
  {
    var rest, node := nodes[..|nodes| - 1], nodes[|nodes| - 1];
    assert nodes == rest + [node];
    if missing in rest {
      SomeoneServed(c, st, rest, missing);
      var n :| n in rest && n !in st.allocations && n in AllocAll(c, st, rest).allocations;
      assert n in AllocAll(c, st, nodes).allocations;
    } else {
      if exists n :: n in rest && n !in st.allocations && n in AllocAll(c, st, rest).allocations {
        var n :| n in rest && n !in st.allocations && n in AllocAll(c, st, rest).allocations;
        assert n in AllocAll(c, st, nodes).allocations;
      } else {
        OnlyListedServed(c, st, rest);
        LowestIsFirstUsable(c, st.startIps, FirstUsable(c, st.startIps));
        assert missing in AllocAll(c, st, nodes).allocations;
      }
    }
  }

  /** A run that served no listed node changed nothing. */
  lemma {:induction false} OnlyListedServed(c: Config, st: State, nodes: seq<string>)
    requires c.blockSize >= 1
    requires forall n :: n in nodes && n !in st.allocations ==> n !in AllocAll(c, st, nodes).allocations
    ensures AllocAll(c, st, nodes) == st
  {
    if nodes == [] {
    } else {
      var rest, node := nodes[..|nodes| - 1], nodes[|nodes| - 1];
      assert nodes == rest + [node];
      OnlyListedServed(c, st, rest);
    }
  }

  /** Sticky: when nodes come and go, a node that had a block and is still listed keeps it. */
  lemma ReconcileSticky(c: Config, status: seq<Entry>, was: seq<string>, now: seq<string>, e: Entry)
    requires c.blockSize >= 1 && Distinct(was) && Distinct(now)
    requires e in Reconciled(c, status, was) && e.node in now
    ensures e in Reconciled(c, Reconciled(c, status, was), now)
  {
    var fin := Final(c, status, was);
    FinalRun(c, status, was);
    EntriesMembers(c, fin.allocations, was, e);
    LoadEntries(c, fin.allocations, fin.startIps, was, Elements(now));
    var st := LoadAll(c, Elements(now), Reconciled(c, status, was));
    LoadAllValid(c, Elements(now), Reconciled(c, status, was));
    assert e.node in st.allocations && st.allocations[e.node] == fin.allocations[e.node];
    AllocAllRun(c, st, now);
    EntriesMembers(c, AllocAll(c, st, now).allocations, now, e);
  }

  function OneAddress(n: string, v: nat): Entry {
    Entry(n, Some(Address(IPv4, v)), Some(Address(IPv4, v)))
  }

  /** A point-to-point subnet with single-address blocks has the two blocks 0 and 1. */
  lemma TwoBlocks(c: Config)
    requires c == Config(Subnet(IPv4, 0, 1), None, 1, [], [])
    ensures ValidSpec(c)
    ensures Loadable(c, Address(IPv4, 0), Address(IPv4, 0)) && Loadable(c, Address(IPv4, 1), Address(IPv4, 1))
    ensures NoneUsable(c, {0, 1}) && Usable(c, {1}, 0)
  {
    assert Pow2(1) == 2;
    assert Excluded([], [], 0, 0) == false && Excluded([], [], 1, 1) == false;
    assert !BlockExcluded(c, 0) && !BlockExcluded(c, 1);
  }

  /** Both entries of node "a" block their address, but only the last one is kept. */
  lemma LoadedTwice(c: Config, names: set<string>)
    requires c == Config(Subnet(IPv4, 0, 1), None, 1, [], []) && "a" in names
    ensures LoadAll(c, names, [OneAddress("a", 0), OneAddress("a", 1)])
            == State(map["a" := AllocatedRange(1, 1)], {0, 1})
  {
    TwoBlocks(c);
    var status := [OneAddress("a", 0), OneAddress("a", 1)];
    assert status[..1] == [status[0]] && status[..1][..0] == [];
    assert LoadAll(c, names, status[..1]) == State(map["a" := AllocatedRange(0, 0)], {0});
    assert map["a" := AllocatedRange(0, 0)]["a" := AllocatedRange(1, 1)] == map["a" := AllocatedRange(1, 1)];
  }

  /** A status that names a node twice: the first run leaves node "b" without a block although one is free,
      and the second run writes a different status. */
  lemma NotIdempotentForRepeatedNames(c: Config, status: seq<Entry>, nodes: seq<string>)
    requires c == Config(Subnet(IPv4, 0, 1), None, 1, [], [])
    requires status == [OneAddress("a", 0), OneAddress("a", 1)] && nodes == ["a", "b"]
    ensures ValidSpec(c)
    ensures Reconciled(c, Reconciled(c, status, nodes), nodes) != Reconciled(c, status, nodes)
  {
    TwoBlocks(c);
    LoadedTwice(c, Elements(nodes));
    var st := LoadAll(c, Elements(nodes), status);
    AllocAllSettled(c, st, nodes);
    StartsUpdate(map[], "a", AllocatedRange(1, 1));
    assert st.allocations == map["a" := AllocatedRange(1, 1)] == map[]["a" := AllocatedRange(1, 1)];
    assert Starts(st.allocations) == {1};
    assert "b" in nodes;
    FixedPointAfter(c, status, nodes);
  }
}
