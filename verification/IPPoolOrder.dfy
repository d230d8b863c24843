/** Which block a node gets from an IPPool reconcile (pkg/ipam-controller/controllers/ippool/ippool.go), in terms of the
    status and the node list alone. */
module IPPoolOrder {
  import opened Addresses
  import opened Exclusions
  import opened IPPoolAllocator
  import opened IPPoolReconcile
  import opened IPPoolFixedPoint
  import opened Sequences

  // ----- written blocks -----

  /** Every written block: the k-th of the subnet for some k, whole and inside the subnet, not the gateway alone and not
      fully excluded. No block holds the network address of a subnet of four or more. */
  lemma WrittenBlock(c: Config, status: seq<Entry>, nodes: seq<string>, d: Entry)
    requires ValidSpec(c) && Distinct(nodes) && d in Reconciled(c, status, nodes)
    ensures d.start.Some? && d.end.Some? && d.start.value.family == d.end.value.family == c.subnet.family
    ensures var lo, hi := d.start.value.value, d.end.value.value;
            && (exists k: nat :: lo == c.subnet.base + (if c.subnet.hostBits >= 2 then 1 else 0) + k * c.blockSize)
            && hi == lo + c.blockSize - 1 < c.subnet.base + c.subnet.Size()
            && !(c.blockSize == 1 && c.gateway == Some(lo))
            && (exists a :: lo <= a <= hi && !Covers(c.exclusions, a) && !Covers(c.perNode, a - lo))
    ensures c.subnet.hostBits >= 2 ==> !Holds(d, c.subnet.base)
  {
    ReconciledDisjoint(c, status, nodes, d, d, 0);
    LoadableExactly(c, d.start.value, d.end.value);
    HostAddresses(c.subnet);
  }

  // ----- the order in which waiting nodes are served -----

  /** Everything below a block that was given is out of use. */
  lemma {:induction false} GivenAreLowest(c: Config, st: State, nodes: seq<string>, n: string)
    requires c.blockSize >= 1 && ValidState(c, st) && n in nodes && n !in st.allocations
    requires n in AllocAll(c, st, nodes).allocations
    ensures var cur := AllocAll(c, st, nodes); NoneBelow(c, cur.startIps, cur.allocations[n].start + 1)
    ensures Usable(c, st.startIps, AllocAll(c, st, nodes).allocations[n].start)
  {
    var rest, node := nodes[..|nodes| - 1], nodes[|nodes| - 1];
    var mid, cur := AllocAll(c, st, rest), AllocAll(c, st, nodes);
    AllocAllRun(c, st, rest);
    if n in mid.allocations {
      OnlyListed(c, st, rest);
      GivenAreLowest(c, st, rest, n);
      AllocOneRun(c, mid, node);
      UsableAntitone(c, mid.startIps, cur.startIps);
    } else {
      var f := FirstUsable(c, mid.startIps);
      LowestIsFirstUsable(c, mid.startIps, f);
      CursorAfter(c, mid.startIps, f.value);
      UsableAntitone(c, st.startIps, mid.startIps);
    }
  }

  lemma {:induction false} OnlyListed(c: Config, st: State, nodes: seq<string>)
    requires c.blockSize >= 1
    ensures forall n :: n in AllocAll(c, st, nodes).allocations ==> n in st.allocations || n in nodes
  {
    if nodes != [] {
      var rest, node := nodes[..|nodes| - 1], nodes[|nodes| - 1];
      OnlyListed(c, st, rest);
      assert nodes == rest + [node];
    }
  }

  /** A node that is served after others gets a higher block, and those before it are served. */
  lemma ServedInOrder(c: Config, st: State, nodes: seq<string>, i: nat, j: nat)
    requires c.blockSize >= 1 && ValidState(c, st) && Distinct(nodes) && i < j < |nodes|
    requires nodes[i] !in st.allocations && nodes[j] !in st.allocations
    requires nodes[j] in AllocAll(c, st, nodes[..j + 1]).allocations
    ensures var cur := AllocAll(c, st, nodes[..j + 1]);
            nodes[i] in cur.allocations && cur.allocations[nodes[i]].start < cur.allocations[nodes[j]].start
  {
    var mid := AllocAll(c, st, nodes[..j]);
    assert nodes[..j + 1][..j] == nodes[..j];
    AllocAllRun(c, st, nodes[..j]);
    OnlyListed(c, st, nodes[..j]);
    assert nodes[j] !in mid.allocations;
    assert nodes[i] == nodes[..j][i] && nodes[i] in Elements(nodes[..j]);
    var f := FirstUsable(c, mid.startIps);
    LowestIsFirstUsable(c, mid.startIps, f);
    assert nodes[i] in mid.allocations;
    GivenAreLowest(c, st, nodes[..j], nodes[i]);
  }

  /** Later nodes leave the blocks of earlier ones alone. */
  lemma {:induction false} StaysGiven(c: Config, st: State, nodes: seq<string>, k: nat, n: string)
    requires c.blockSize >= 1 && k <= |nodes| && n in AllocAll(c, st, nodes[..k]).allocations
    ensures n in AllocAll(c, st, nodes).allocations
    ensures AllocAll(c, st, nodes).allocations[n] == AllocAll(c, st, nodes[..k]).allocations[n]
  {
    if k == |nodes| {
      assert nodes[..k] == nodes;
    } else {
      var rest := nodes[..|nodes| - 1];
      assert rest[..k] == nodes[..k];
      StaysGiven(c, st, rest, k, n);
    }
  }

  /** And a node is served in its turn or not at all. */
  lemma {:induction false} ServedInTurn(c: Config, st: State, nodes: seq<string>, j: nat)
    requires c.blockSize >= 1 && Distinct(nodes) && j < |nodes| && nodes[j] !in st.allocations
    requires nodes[j] in AllocAll(c, st, nodes).allocations
    ensures nodes[j] in AllocAll(c, st, nodes[..j + 1]).allocations
    decreases |nodes|
  {
    if j + 1 == |nodes| {
      assert nodes[..j + 1] == nodes;
    } else {
      var rest := nodes[..|nodes| - 1];
      assert rest[..j + 1] == nodes[..j + 1] && rest[j] == nodes[j];
      assert nodes[j] != nodes[|nodes| - 1];
      ServedInTurn(c, st, rest, j);
    }
  }

  /** Whether the reload gives a node its block. */
  ghost predicate New(c: Config, status: seq<Entry>, nodes: seq<string>, n: string) {
    n !in LoadAll(c, Elements(nodes), status).allocations
  }

  /** Nodes without a block are served in the order of the list, each with a higher block than the one before; when one
      is served, so are those before it. */
  lemma NewNodesInOrder(c: Config, status: seq<Entry>, nodes: seq<string>, i: nat, j: nat, e: Entry)
    requires c.blockSize >= 1 && Distinct(nodes) && i < j < |nodes|
    requires New(c, status, nodes, nodes[i]) && New(c, status, nodes, nodes[j])
    requires e in Reconciled(c, status, nodes) && e.node == nodes[j]
    ensures exists d :: d in Reconciled(c, status, nodes) && d.node == nodes[i]
              && d.start.Some? && e.start.Some? && d.start.value.value < e.start.value.value
  {
    var st, fin := LoadAll(c, Elements(nodes), status), Final(c, status, nodes);
    LoadAllValid(c, Elements(nodes), status);
    EntriesMembers(c, fin.allocations, nodes, e);
    ServedInTurn(c, st, nodes, j);
    ServedInOrder(c, st, nodes, i, j);
    StaysGiven(c, st, nodes, j + 1, nodes[i]);
    StaysGiven(c, st, nodes, j + 1, nodes[j]);
    var d := EntryFor(c, nodes[i], fin.allocations[nodes[i]]);
    EntriesMembers(c, fin.allocations, nodes, d);
  }

  /** What a new node gets is usable, so does not end on the broadcast address, and every lower block that was usable
      after the reload is written for another new node. */
  lemma NewBlocksLowest(c: Config, status: seq<Entry>, nodes: seq<string>, e: Entry, s: nat)
    requires ValidSpec(c) && Distinct(nodes) && e in Reconciled(c, status, nodes) && New(c, status, nodes, e.node)
    ensures e.start.Some? && e.end.Some? && Usable(c, LoadAll(c, Elements(nodes), status).startIps, e.start.value.value)
    ensures !(c.subnet.family.IPv4? && c.subnet.hostBits >= 2 && e.end.value.value == c.subnet.base + c.subnet.Size() - 1)
    ensures Usable(c, LoadAll(c, Elements(nodes), status).startIps, s) && s < e.start.value.value ==>
              exists d :: d in Reconciled(c, status, nodes) && New(c, status, nodes, d.node) && d.start == Some(Address(c.subnet.family, s))
  {
    var st, fin := LoadAll(c, Elements(nodes), status), Final(c, status, nodes);
    LoadAllValid(c, Elements(nodes), status);
    FinalRun(c, status, nodes);
    EntriesMembers(c, fin.allocations, nodes, e);
    GivenAreLowest(c, st, nodes, e.node);
    UsableExactly(c, st.startIps, e.start.value.value);
    if Usable(c, st.startIps, s) && s < e.start.value.value {
      var m := LowerIsGiven(c, st, nodes, e.node, s);
      EntriesMembers(c, fin.allocations, nodes, EntryFor(c, m, fin.allocations[m]));
    }
  }

  lemma LowerIsGiven(c: Config, st: State, nodes: seq<string>, n: string, s: nat) returns (m: string)
    requires c.blockSize >= 1 && ValidState(c, st) && Distinct(nodes) && n in nodes && n !in st.allocations
    requires n in AllocAll(c, st, nodes).allocations && s < AllocAll(c, st, nodes).allocations[n].start
    requires Usable(c, st.startIps, s)
    ensures m in nodes && m !in st.allocations
    ensures m in AllocAll(c, st, nodes).allocations && AllocAll(c, st, nodes).allocations[m].start == s
  {
    var fin := AllocAll(c, st, nodes);
    GivenAreLowest(c, st, nodes, n);
    AllocAllTally(c, st, nodes);
    AllocAllRun(c, st, nodes);
    OnlyListed(c, st, nodes);
    assert !Usable(c, fin.startIps, s);
    assert s in fin.startIps && s !in HeldBack(st);
    assert s in Starts(fin.allocations);
    m :| m in fin.allocations && fin.allocations[m].start == s;
    assert forall x :: x in st.allocations ==> st.allocations[x].start in st.startIps;
  }

  /** When a listed node gets no block, every block that could be handed out at all is written for somebody or held
      back. */
  lemma NodeWithoutBlock(c: Config, status: seq<Entry>, nodes: seq<string>, n: string, s: nat)
    requires c.blockSize >= 1 && Distinct(nodes) && n in nodes && Usable(c, {}, s)
    requires forall e :: e in Reconciled(c, status, nodes) ==> e.node != n
    ensures || (exists d :: d in Reconciled(c, status, nodes) && d.start == Some(Address(c.subnet.family, s)))
            || s in HeldBack(LoadAll(c, Elements(nodes), status))
  {
    var st, fin := LoadAll(c, Elements(nodes), status), Final(c, status, nodes);
    LoadAllValid(c, Elements(nodes), status);
    FinalRun(c, status, nodes);
    AllocAllTally(c, st, nodes);
    if n in fin.allocations {
      EntriesMembers(c, fin.allocations, nodes, EntryFor(c, n, fin.allocations[n]));
    }
    assert !Usable(c, fin.startIps, s);
    if s in Starts(fin.allocations) {
      var m :| m in fin.allocations && fin.allocations[m].start == s;
      EntriesMembers(c, fin.allocations, nodes, EntryFor(c, m, fin.allocations[m]));
    } else {
      assert s in HeldBack(fin);
    }
  }

  // ----- what is kept of the status -----

  lemma {:induction false} LoadedKeeps(c: Config, names: set<string>, status: seq<Entry>, i: nat)
    requires i < |status| && status[i].node in names && status[i].start.Some? && status[i].end.Some?
    requires Loadable(c, status[i].start.value, status[i].end.value)
    requires forall j :: 0 <= j < |status| && j != i ==> status[j].node != status[i].node && status[j].start != status[i].start
    ensures var st := LoadAll(c, names, status);
            && status[i].node in st.allocations
            && st.allocations[status[i].node] == AllocatedRange(status[i].start.value.value, status[i].end.value.value)
    decreases |status|
  {
    var rest, e := status[..|status| - 1], status[|status| - 1];
    if i == |status| - 1 {
      NotYetTaken(c, names, rest, e.start.value);
    } else {
      LoadedKeeps(c, names, rest, i);
    }
  }

  lemma {:induction false} NotYetTaken(c: Config, names: set<string>, status: seq<Entry>, a: Address)
    requires a.family == c.subnet.family && forall j :: 0 <= j < |status| ==> status[j].start != Some(a)
    ensures a.value !in LoadAll(c, names, status).startIps
  {
    if status != [] {
      var rest, e := status[..|status| - 1], status[|status| - 1];
      NotYetTaken(c, names, rest, a);
      assert status[|status| - 1].start != Some(a);
    }
  }

  /** An acceptable entry of a listed node, the only one of its node and of its start, is written again. */
  lemma AcceptableIsKept(c: Config, status: seq<Entry>, nodes: seq<string>, i: nat)
    requires c.blockSize >= 1 && Distinct(nodes) && i < |status| && status[i].node in nodes
    requires status[i].start.Some? && status[i].end.Some? && Loadable(c, status[i].start.value, status[i].end.value)
    requires forall j :: 0 <= j < |status| && j != i ==> status[j].node != status[i].node && status[j].start != status[i].start
    ensures status[i] in Reconciled(c, status, nodes)
  {
    var names, e := Elements(nodes), status[i];
    LoadAllValid(c, names, status);
    LoadedKeeps(c, names, status, i);
    AllocAllRun(c, LoadAll(c, names, status), nodes);
    EntriesMembers(c, Final(c, status, nodes).allocations, nodes, e);
  }

  // ----- the order of the status -----

  lemma {:induction false} EntriesInOrder(c: Config, a: map<string, AllocatedRange>, nodes: seq<string>, i: nat, j: nat)
    returns (m: nat, n: nat)
    requires i < j < |Entries(c, a, nodes)|
    ensures m < n < |nodes| && Entries(c, a, nodes)[i].node == nodes[m] && Entries(c, a, nodes)[j].node == nodes[n]
  {
    var rest, es := nodes[..|nodes| - 1], Entries(c, a, nodes[..|nodes| - 1]);
    if j < |es| {
      m, n := EntriesInOrder(c, a, rest, i, j);
    } else {
      n := |nodes| - 1;
      EntriesMembers(c, a, rest, es[i]);
      m :| 0 <= m < |rest| && rest[m] == es[i].node;
    }
  }

  /** Entries are written in the order of the node list. */
  lemma WrittenInOrder(c: Config, status: seq<Entry>, nodes: seq<string>, i: nat, j: nat) returns (m: nat, n: nat)
    requires c.blockSize >= 1 && i < j < |Reconciled(c, status, nodes)|
    ensures m < n < |nodes|
    ensures Reconciled(c, status, nodes)[i].node == nodes[m] && Reconciled(c, status, nodes)[j].node == nodes[n]
  {
    m, n := EntriesInOrder(c, Final(c, status, nodes).allocations, nodes, i, j);
  }
}
