/** When is one IPPool reconcile (pkg/ipam-controller/controllers/ippool/ippool.go) already a fixed point? The answer
    is read off the status before the run: a status that names a node twice makes the allocator hold a block back that
    belongs to nobody, and that matters exactly when there are more nodes to serve than blocks to give. */
module IPPoolFixedPoint {
  import opened Addresses
  import opened Exclusions
  import opened IPPoolAllocator
  import opened IPPoolReconcile
  import opened Sequences

  /** The usable blocks, by their starts. */
  ghost function UsableBlocks(c: Config, taken: set<nat>): set<nat>
    requires c.blockSize >= 1
  {
    set s: nat | s < c.subnet.base + c.subnet.Size() && Usable(c, taken, s)
  }

  /** The listed nodes that loading leaves without a block. */
  ghost function Waiting(st: State, nodes: seq<string>): set<string> {
    set n | n in nodes && n !in st.allocations
  }

  /** Blocks that are taken but belong to no node: those of entries a later entry of the same node replaced. */
  ghost function HeldBack(st: State): set<nat> {
    st.startIps - Starts(st.allocations)
  }

  lemma NoUsableBlocks(c: Config, taken: set<nat>)
    requires c.blockSize >= 1
    ensures UsableBlocks(c, taken) == {} <==> NoneUsable(c, taken)
  {
    forall s: nat | Usable(c, taken, s) ensures s in UsableBlocks(c, taken) {
    }
    if NoneUsable(c, taken) {
      forall s ensures s !in UsableBlocks(c, taken) {
      }
    }
  }

  /** Giving a usable block away leaves the others usable. */
  lemma OneFewer(c: Config, taken: set<nat>, s: nat)
    requires c.blockSize >= 1 && Usable(c, taken, s)
    ensures UsableBlocks(c, taken + {s}) == UsableBlocks(c, taken) - {s}
    ensures |UsableBlocks(c, taken + {s})| == |UsableBlocks(c, taken)| - 1
  {
    assert s in UsableBlocks(c, taken);
    forall t ensures t in UsableBlocks(c, taken + {s}) <==> t in UsableBlocks(c, taken) - {s} {
    }
  }

  /** How far an allocation run from `st` over `nodes` has come: everybody is served, and as many blocks are gone as
      nodes were waiting; or the blocks have run out, and more nodes were waiting than there were blocks. */
  ghost predicate Tally(c: Config, st: State, cur: State, nodes: seq<string>)
    requires c.blockSize >= 1
  {
    var waiting, before, left := |Waiting(st, nodes)|, |UsableBlocks(c, st.startIps)|, UsableBlocks(c, cur.startIps);
    || ((forall n :: n in nodes ==> n in cur.allocations) && |left| + waiting == before)
    || ((exists n :: n in nodes && n !in cur.allocations) && left == {} && waiting > before)
  }

  /** The blocks held back stay the same, and only listed nodes get a block. */
  ghost predicate Steady(st: State, cur: State, nodes: seq<string>) {
    && HeldBack(cur) == HeldBack(st)
    && (forall n :: n in cur.allocations ==> n in st.allocations || n in nodes)
    && (forall n :: n in st.allocations ==> n in cur.allocations)
  }

  lemma WaitingOneMore(st: State, rest: seq<string>, node: string)
    requires node !in rest
    ensures |Waiting(st, rest + [node])| == |Waiting(st, rest)| + if node in st.allocations then 0 else 1
  {
    if node in st.allocations {
      assert Waiting(st, rest + [node]) == Waiting(st, rest);
    } else {
      assert Waiting(st, rest + [node]) == Waiting(st, rest) + {node};
    }
  }

  lemma TallyStep(c: Config, st: State, cur: State, rest: seq<string>, node: string)
    requires c.blockSize >= 1 && node !in rest && Tally(c, st, cur, rest) && Steady(st, cur, rest)
    ensures Tally(c, st, AllocOne(c, cur, node), rest + [node])
  {
    var next := AllocOne(c, cur, node);
    WaitingOneMore(st, rest, node);
    var f := FirstUsable(c, cur.startIps);
    LowestIsFirstUsable(c, cur.startIps, f);
    NoUsableBlocks(c, cur.startIps);
    if node !in cur.allocations && f.Some? {
      OneFewer(c, cur.startIps, f.value);
    }
    if n :| n in rest && n !in cur.allocations {
      assert n in rest + [node] && n !in next.allocations;
    } else {
      assert node in rest + [node];
    }
  }

  lemma SteadyStep(c: Config, st: State, cur: State, rest: seq<string>, node: string)
    requires c.blockSize >= 1 && ValidState(c, cur) && Steady(st, cur, rest)
    ensures Steady(st, AllocOne(c, cur, node), rest + [node])
  {
    var f := FirstUsable(c, cur.startIps);
    LowestIsFirstUsable(c, cur.startIps, f);
    if node !in cur.allocations && f.Some? {
      StartsUpdate(cur.allocations, node, BlockAt(c, f.value));
      forall s | s in Starts(cur.allocations) ensures s in cur.startIps {
      }
    }
  }

  lemma {:induction false} AllocAllTally(c: Config, st: State, nodes: seq<string>)
    requires c.blockSize >= 1 && ValidState(c, st) && Distinct(nodes)
    ensures Tally(c, st, AllocAll(c, st, nodes), nodes) && Steady(st, AllocAll(c, st, nodes), nodes)
  {
    if nodes == [] {
      assert Waiting(st, nodes) == {};
    } else {
      var rest, node := nodes[..|nodes| - 1], nodes[|nodes| - 1];
      AllocAllTally(c, st, rest);
      AllocAllRun(c, st, rest);
      assert nodes == rest + [node];
      TallyStep(c, st, AllocAll(c, st, rest), rest, node);
      SteadyStep(c, st, AllocAll(c, st, rest), rest, node);
    }
  }

  /** Every taken start was a block of the pool when it was loaded. */
  lemma {:induction false} TakenLoadable(c: Config, nodes: set<string>, status: seq<Entry>, s: nat)
    requires c.blockSize >= 1 && s in LoadAll(c, nodes, status).startIps
    ensures Loadable(c, Address(c.subnet.family, s), Address(c.subnet.family, s + c.blockSize - 1))
  {
    var rest, e := status[..|status| - 1], status[|status| - 1];
    var st := LoadAll(c, nodes, rest);
    if s in st.startIps {
      TakenLoadable(c, nodes, rest, s);
    } else {
      assert Accepted(c, nodes, st, e);
      assert e.start.value == Address(c.subnet.family, s) && e.end.value == Address(c.subnet.family, s + c.blockSize - 1);
    }
  }

  /** One run is a fixed point if and only if no block is held back that could be handed out, or the blocks that can
      be handed out are enough for the nodes without one. Both are known from the status before the run. */
  lemma IdempotentExactly(c: Config, status: seq<Entry>, nodes: seq<string>)
    requires c.blockSize >= 1 && Distinct(nodes)
    ensures var st := LoadAll(c, Elements(nodes), status);
            Reconciled(c, Reconciled(c, status, nodes), nodes) == Reconciled(c, status, nodes) <==>
              || (forall s :: s in HeldBack(st) ==> !Fits(c, s))
              || |Waiting(st, nodes)| <= |UsableBlocks(c, st.startIps)|
  {
    var names := Elements(nodes);
    var st, fin := LoadAll(c, names, status), Final(c, status, nodes);
    LoadAllValid(c, names, status);
    AllocAllTally(c, st, nodes);
    FixedPointAfter(c, status, nodes);
    if UsableBlocks(c, fin.startIps) == {} {
      NoUsableBlocks(c, fin.startIps);
      forall s | s in HeldBack(st) ensures Fits(c, s) ==> Usable(c, Starts(fin.allocations), s) {
        TakenLoadable(c, names, status, s);
        assert s in HeldBack(fin);
      }
      forall s: nat | Usable(c, Starts(fin.allocations), s) ensures s in HeldBack(st) && Fits(c, s) {
        assert !Usable(c, fin.startIps, s);
        assert s in HeldBack(fin);
      }
    }
  }
}
