/** The node's reservation store as values (pkg/ipam-node/types/types.go, pkg/ipam-node/store/store.go):
    what each session operation does to the data. */
module StoreModel {
  import opened Addresses
  import opened Text

  datatype Metadata = Metadata(podName: string, podNamespace: string, podUUID: string, poolConfigSnapshot: string)

  /** A reservation is active until it is released; a released one only waits for its cooldown. */
  datatype Reservation = Reservation(
    containerID: string,
    interfaceName: string,
    address: Address,
    metadata: Metadata,
    releasedAt: Option<int>)
  {
    predicate IsReleased() {
      releasedAt.Some?
    }
  }

  datatype PoolData = PoolData(
    name: string,
    entries: map<string, Reservation>,
    lastPoolConfig: string,
    lastReservedIP: Option<Address>)

  type Root = map<string, PoolData>

  /** The key of a reservation. */
  function Key(id: string, ifName: string): string {
    Join(id, '_', ifName)
  }

  /** Keys of two owners differ when the container ids have no underscore. */
  lemma KeyInjective(id1: string, if1: string, id2: string, if2: string)
    requires '_' !in id1 && '_' !in id2
    ensures Key(id1, if1) == Key(id2, if2) <==> id1 == id2 && if1 == if2
  {
    CutJoin(id1, '_', if1);
    CutJoin(id2, '_', if2);
  }

  /** The data of a pool, empty when the pool is unknown. */
  function PoolOf(root: Root, poolKey: string): PoolData {
    if poolKey in root then root[poolKey] else PoolData(poolKey, map[], "", None)
  }

  ghost predicate HasAddress(entries: map<string, Reservation>, a: Address) {
    exists k :: k in entries && entries[k].address == a
  }

  datatype ReserveError = NoError | ErrReservationAlreadyExist | ErrIPAlreadyReserved

  /** The verdict on a reservation. A released entry still blocks its key and its address. */
  ghost function ReserveVerdict(root: Root, poolKey: string, id: string, ifName: string, a: Address): ReserveError {
    var entries := PoolOf(root, poolKey).entries;
    if Key(id, ifName) in entries then ErrReservationAlreadyExist
    else if HasAddress(entries, a) then ErrIPAlreadyReserved
    else NoError
  }

  /** A pool with one more reservation, and the cursor on it. */
  function ReservedIn(p: PoolData, id: string, ifName: string, meta: Metadata, a: Address): PoolData {
    p.(entries := p.entries[Key(id, ifName) := Reservation(id, ifName, a, meta, None)],
       lastReservedIP := Some(a), lastPoolConfig := meta.poolConfigSnapshot)
  }

  function Reserved(root: Root, poolKey: string, id: string, ifName: string, meta: Metadata, a: Address): Root {
    root[poolKey := ReservedIn(PoolOf(root, poolKey), id, ifName, meta, a)]
  }

  datatype ReleaseAction = Nothing | Remove | MarkReleased

  /** What a release does: with a cooldown it first marks, and removes only when the cooldown has passed. */
  function ReleaseVerdict(root: Root, poolKey: string, id: string, ifName: string, cooldown: int, now: int): ReleaseAction {
    var entries := PoolOf(root, poolKey).entries;
    var key := Key(id, ifName);
    if key !in entries then Nothing
    else
      var r := entries[key];
      var expired := r.IsReleased() && now - r.releasedAt.value >= cooldown;
      if cooldown > 0 && r.IsReleased() && !expired then Nothing
      else if cooldown <= 0 || expired then Remove
      else MarkReleased
  }

  function Released(root: Root, poolKey: string, id: string, ifName: string, cooldown: int, now: int): Root {
    var p, key := PoolOf(root, poolKey), Key(id, ifName);
    match ReleaseVerdict(root, poolKey, id, ifName, cooldown, now)
    case Nothing => root
    case Remove => root[poolKey := p.(entries := p.entries - {key})]
    case MarkReleased => root[poolKey := p.(entries := p.entries[key := p.entries[key].(releasedAt := Some(now))])]
  }

  function WithLast(root: Root, poolKey: string, ip: Option<Address>): Root {
    root[poolKey := PoolOf(root, poolKey).(lastReservedIP := ip)]
  }

  function Lookup(root: Root, poolKey: string, id: string, ifName: string): Option<Reservation> {
    var entries := PoolOf(root, poolKey).entries;
    if Key(id, ifName) in entries && !entries[Key(id, ifName)].IsReleased() then Some(entries[Key(id, ifName)]) else None
  }

  // ----- the operations in plain terms -----

  /** Outside one pool, and in that pool outside one key, nothing differs. */
  ghost predicate SameOutside(root: Root, root': Root, poolKey: string, key: string) {
    && root'.Keys == root.Keys + {poolKey}
    && (forall q :: q in root && q != poolKey ==> root'[q] == root[q])
    && PoolOf(root', poolKey).name == PoolOf(root, poolKey).name
    && (forall k :: k != key ==> (k in PoolOf(root', poolKey).entries <==> k in PoolOf(root, poolKey).entries))
    && (forall k :: k != key && k in PoolOf(root, poolKey).entries ==>
          PoolOf(root', poolKey).entries[k] == PoolOf(root, poolKey).entries[k])
  }

  /** A reservation is refused for a key that is there and for an address that is there. An accepted one is stored as
      given, active, and becomes the cursor, with its snapshot as the pool's. */
  lemma ReserveExactly(root: Root, poolKey: string, id: string, ifName: string, meta: Metadata, a: Address)
    ensures var entries, v := PoolOf(root, poolKey).entries, ReserveVerdict(root, poolKey, id, ifName, a);
            && (v == ErrReservationAlreadyExist <==> Key(id, ifName) in entries)
            && (v == NoError <==> Key(id, ifName) !in entries && forall k :: k in entries ==> entries[k].address != a)
    ensures var root' := Reserved(root, poolKey, id, ifName, meta, a);
            && SameOutside(root, root', poolKey, Key(id, ifName))
            && Key(id, ifName) in root'[poolKey].entries
            && root'[poolKey].entries[Key(id, ifName)] == Reservation(id, ifName, a, meta, None)
            && root'[poolKey].lastReservedIP == Some(a) && root'[poolKey].lastPoolConfig == meta.poolConfigSnapshot
  {
  }

  /** A release removes the entry without a cooldown, or once the cooldown has passed since its release; with a cooldown
      it marks an active entry with the time; and otherwise it does nothing. */
  lemma ReleaseExactly(root: Root, poolKey: string, id: string, ifName: string, cooldown: int, now: int)
    ensures var entries, key := PoolOf(root, poolKey).entries, Key(id, ifName);
            var root' := Released(root, poolKey, id, ifName, cooldown, now);
            if key !in entries then root' == root
            else
              && SameOutside(root, root', poolKey, key)
              && root'[poolKey].lastReservedIP == root[poolKey].lastReservedIP
              && root'[poolKey].lastPoolConfig == root[poolKey].lastPoolConfig
              && (key !in root'[poolKey].entries <==>
                    cooldown <= 0 || (entries[key].releasedAt.Some? && entries[key].releasedAt.value + cooldown <= now))
              && (key in root'[poolKey].entries ==>
                    root'[poolKey].entries[key] ==
                      if entries[key].releasedAt.Some? then entries[key] else entries[key].(releasedAt := Some(now)))
  {
  }

  // ----- consistency -----

  /** No address twice in a pool, active or cooling down, and every entry under the key of its owner. */
  ghost predicate ConsistentPool(entries: map<string, Reservation>) {
    && (forall k :: k in entries ==> k == Key(entries[k].containerID, entries[k].interfaceName))
    && (forall k, l :: k in entries && l in entries && k != l ==> entries[k].address != entries[l].address)
  }

  ghost predicate Consistent(root: Root) {
    forall p :: p in root ==> ConsistentPool(root[p].entries)
  }

  lemma ReserveConsistent(root: Root, poolKey: string, id: string, ifName: string, meta: Metadata, a: Address)
    requires Consistent(root) && ReserveVerdict(root, poolKey, id, ifName, a) == NoError
    ensures Consistent(Reserved(root, poolKey, id, ifName, meta, a))
  {
    var before := PoolOf(root, poolKey).entries;
    var after := Reserved(root, poolKey, id, ifName, meta, a)[poolKey].entries;
    assert ConsistentPool(before);
    forall k, l | k in after && l in after && k != l ensures after[k].address != after[l].address {
      assert k in before ==> before[k].address != a;
      assert l in before ==> before[l].address != a;
    }
  }

  lemma ReleaseConsistent(root: Root, poolKey: string, id: string, ifName: string, cooldown: int, now: int)
    requires Consistent(root)
    ensures Consistent(Released(root, poolKey, id, ifName, cooldown, now))
  {
  }
}
