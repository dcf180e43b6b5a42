/**
 The tables of the address manager and what has to hold of them: the conditions
 that `CAddrMan::Check_` tests, the bucket capacities, and that every tried
 entry is in the bucket its own hash selects.
 */
module AddrTables {
  const TRIED_BUCKET_COUNT: nat := 64
  const TRIED_BUCKET_SIZE: nat := 64
  const NEW_BUCKET_COUNT: nat := 256
  const NEW_BUCKET_SIZE: nat := 64
  const NEW_BUCKETS_PER_ADDRESS: nat := 4
  const HORIZON_DAYS: int := 30
  const RETRIES: int := 3
  const MAX_FAILURES: int := 10
  const MIN_FAIL_DAYS: int := 7
  const GETADDR_MAX_PCT: int := 100
  const GETADDR_MAX: int := 2500

  type Id = nat
  // A network address without port (`CNetAddr`), and with port (`CService`).
  type NetAddr = nat
  datatype Service = Service(ip: NetAddr, port: nat)
  // Service bits as the set of bits that are on.
  type Services = set<nat>

  // An announced address (`CAddress`).
  datatype Address = Address(service: Service, services: Services, nTime: int)

  datatype AddrInfo = AddrInfo(
    addr: Service, services: Services, nTime: int, source: NetAddr,
    nLastSuccess: int, nLastTry: int, nAttempts: int,
    nRefCount: int, fInTried: bool, nRandomPos: int)
  {
    predicate IsTerrible(nNow: int) {
      if nLastTry != 0 && nLastTry >= nNow - 60 then false
      else
        || nTime > nNow + 10 * 60
        || nTime == 0 || nNow - nTime > HORIZON_DAYS * 86400
        || (nLastSuccess == 0 && nAttempts >= RETRIES)
        || (nNow - nLastSuccess > MIN_FAIL_DAYS * 86400 && nAttempts >= MAX_FAILURES)
    }
  }

  type Infos = map<Id, AddrInfo>
  type NewBuckets = seq<set<Id>>
  type TriedBuckets = seq<seq<Id>>

  // The secret bucket hashes; only their remainders are used.
  datatype Hashes = Hashes(tried: Service -> nat, untried: (Service, NetAddr) -> nat)
  {
    function TriedBucket(a: Service): (b: nat)
      ensures b < TRIED_BUCKET_COUNT
    {
      tried(a) % TRIED_BUCKET_COUNT
    }

    function NewBucket(a: Service, source: NetAddr): (b: nat)
      ensures b < NEW_BUCKET_COUNT
    {
      untried(a, source) % NEW_BUCKET_COUNT
    }
  }

  // `mapAddr` and `mapInfo` are inverse to each other (error -5).
  ghost predicate Addressed(infos: Infos, addrs: map<NetAddr, Id>) {
    && (forall id | id in infos :: infos[id].addr.ip in addrs && addrs[infos[id].addr.ip] == id)
    && (forall ip | ip in addrs :: addrs[ip] in infos && infos[addrs[ip]].addr.ip == ip)
  }

  // `vRandom` lists every entry once, at the position the entry remembers (error -14).
  ghost predicate Shuffled(infos: Infos, order: seq<Id>) {
    && (forall id | id in infos :: 0 <= infos[id].nRandomPos < |order| && order[infos[id].nRandomPos] == id)
    && (forall i | 0 <= i < |order| :: order[i] in infos && infos[order[i]].nRandomPos == i)
  }

  // In how many "new" buckets an entry is.
  ghost function Refs(buckets: NewBuckets, id: Id): nat {
    |BucketsOf(buckets, id)|
  }

  ghost function BucketsOf(buckets: NewBuckets, id: Id): set<nat> {
    set b | 0 <= b < |buckets| && id in buckets[b]
  }

  // The "new" buckets hold untried entries only, and reference counts are exact (errors -2, -3, -4, -12, -15).
  // One entry, `p`, may be in transit: its count may be ahead by `d`, or still zero.
  ghost predicate NewTable(infos: Infos, buckets: NewBuckets, p: int, d: int) {
    Sized(buckets) && HoldsUntried(infos, buckets) && CountsExact(infos, buckets, p, d) && CountsInRange(infos, p)
  }

  ghost predicate Sized(buckets: NewBuckets) {
    |buckets| == NEW_BUCKET_COUNT && forall b | 0 <= b < |buckets| :: |buckets[b]| <= NEW_BUCKET_SIZE
  }

  ghost predicate HoldsUntried(infos: Infos, buckets: NewBuckets) {
    forall b, id | 0 <= b < |buckets| && id in buckets[b] :: id in infos && !infos[id].fInTried
  }

  ghost predicate CountsExact(infos: Infos, buckets: NewBuckets, p: int, d: int) {
    forall id | id in infos :: infos[id].nRefCount == Refs(buckets, id) + (if id == p then d else 0)
  }

  ghost predicate CountsInRange(infos: Infos, p: int) {
    forall id | id in infos && !infos[id].fInTried ::
      (id == p || 1 <= infos[id].nRefCount) && infos[id].nRefCount <= NEW_BUCKETS_PER_ADDRESS
  }

  // The "tried" buckets hold every tried entry exactly once, in the bucket of its hash (errors -11, -13).
  ghost predicate TriedTable(h: Hashes, infos: Infos, buckets: TriedBuckets) {
    && |buckets| == TRIED_BUCKET_COUNT
    && (forall b | 0 <= b < |buckets| :: |buckets[b]| <= TRIED_BUCKET_SIZE && NoRepeats(buckets[b]))
    && (forall b | 0 <= b < |buckets| :: forall i | 0 <= i < |buckets[b]| :: TriedIn(h, infos, buckets[b][i], b))
    && (forall id | id in infos && infos[id].fInTried :: id in buckets[h.TriedBucket(infos[id].addr)])
  }

  ghost predicate TriedIn(h: Hashes, infos: Infos, id: Id, b: nat) {
    id in infos && infos[id].fInTried && h.TriedBucket(infos[id].addr) == b
  }

  ghost predicate NoRepeats(s: seq<Id>) {
    forall i, j | 0 <= i < j < |s| :: s[i] != s[j]
  }

  ghost function TriedIds(infos: Infos): set<Id> {
    set id | id in infos && infos[id].fInTried
  }

  ghost function NewIds(infos: Infos): set<Id> {
    set id | id in infos && !infos[id].fInTried
  }

  // The counters (errors -7, -9, -10).
  ghost predicate Counted(infos: Infos, order: seq<Id>, nTried: int, nNew: int) {
    nTried == |TriedIds(infos)| && nNew == |NewIds(infos)| && |order| == nTried + nNew
  }

  // Times are never negative and a tried entry has had a success (errors -1, -6, -8).
  ghost predicate Timed(infos: Infos) {
    forall id | id in infos ::
      infos[id].nLastTry >= 0 && infos[id].nLastSuccess >= 0 && (infos[id].fInTried ==> infos[id].nLastSuccess != 0)
  }

  // All tables together.
  datatype Tables = Tables(
    nIdCount: nat, infos: Infos, addrs: map<NetAddr, Id>, order: seq<Id>,
    nTried: int, tried: TriedBuckets, nNew: int, untried: NewBuckets)
  {
    // Everything `Check_` tests and the capacities; the entry `p` may be in transit (see NewTable).
    ghost predicate Consistent(h: Hashes, p: int, d: int) {
      && (forall id | id in infos :: id < nIdCount)
      && Addressed(infos, addrs)
      && Shuffled(infos, order)
      && NewTable(infos, untried, p, d)
      && TriedTable(h, infos, tried)
      && Counted(infos, order, nTried, nNew)
      && Timed(infos)
    }
  }

  // The same entries in the same tables; only statistics and random positions may differ.
  ghost predicate SamePlaces(before: Infos, after: Infos) {
    && after.Keys == before.Keys
    && forall id | id in before ::
         && after[id].addr == before[id].addr
         && after[id].fInTried == before[id].fInTried
         && after[id].nRefCount == before[id].nRefCount
  }

  // The same entries, except perhaps for their random positions; some may be gone.
  ghost predicate Reordered(before: Infos, after: Infos) {
    && after.Keys <= before.Keys
    && forall id | id in after :: after[id] == before[id].(nRandomPos := after[id].nRandomPos)
  }

  // An untried entry lost a reference, and was forgotten if that was its last one; all others are as before.
  ghost predicate Dropped(before: Infos, after: Infos, id: Id) {
    && id in before && !before[id].fInTried
    && after.Keys == (if before[id].nRefCount == 1 then before.Keys - {id} else before.Keys)
    && Reordered(before[id := before[id].(nRefCount := before[id].nRefCount - 1)], after)
  }

  lemma DroppedOther(before: Infos, after: Infos, id: Id, p: Id)
    requires Dropped(before, after, id) && p in before && p != id
    ensures p in after && after[p] == before[p].(nRandomPos := after[p].nRandomPos)
  {
  }

  // ---------- reference counts ----------

  lemma RefsInsert(buckets: NewBuckets, b: nat, id: Id)
    requires b < |buckets| && id !in buckets[b]
    ensures forall x :: Refs(buckets[b := buckets[b] + {id}], x) == Refs(buckets, x) + if x == id then 1 else 0
  {
    var after := buckets[b := buckets[b] + {id}];
    forall x ensures Refs(after, x) == Refs(buckets, x) + if x == id then 1 else 0 {
      assert BucketsOf(after, x) == if x == id then BucketsOf(buckets, x) + {b} else BucketsOf(buckets, x);
    }
  }

  lemma RefsRemove(buckets: NewBuckets, b: nat, id: Id)
    requires b < |buckets| && id in buckets[b]
    ensures forall x :: Refs(buckets[b := buckets[b] - {id}], x) == Refs(buckets, x) - if x == id then 1 else 0
  {
    var after := buckets[b := buckets[b] - {id}];
    RefsInsert(after, b, id);
    assert after[b := after[b] + {id}] == buckets by {
      assert buckets[b] - {id} + {id} == buckets[b];
    }
  }

  // An entry in no bucket counts zero, and conversely.
  lemma RefsZero(buckets: NewBuckets, id: Id)
    ensures Refs(buckets, id) == 0 <==> forall b | 0 <= b < |buckets| :: id !in buckets[b]
  {
    if b :| 0 <= b < |buckets| && id in buckets[b] {
      assert b in BucketsOf(buckets, id);
    } else {
      assert BucketsOf(buckets, id) == {};
    }
  }

  lemma SamePlacesKeeps(h: Hashes, before: Infos, after: Infos, addrs: map<NetAddr, Id>, untried: NewBuckets, p: int,
                        d: int,
                        tried: TriedBuckets)
    requires SamePlaces(before, after)
    requires Addressed(before, addrs) && NewTable(before, untried, p, d) && TriedTable(h, before, tried)
    ensures Addressed(after, addrs) && NewTable(after, untried, p, d) && TriedTable(h, after, tried)
    ensures TriedIds(after) == TriedIds(before) && NewIds(after) == NewIds(before)
  {
  }

  lemma ReorderedAt(before: Infos, after: Infos, p: int)
    requires Reordered(before, after) && p in after
    ensures p in before && after[p] == before[p].(nRandomPos := after[p].nRandomPos)
  {
  }

  // ---------- taking an entry out of a "new" bucket ----------

  lemma DropReferenceNew(infos: Infos, after: Infos, buckets: NewBuckets, p: int, d: int, b: nat, id: Id)
    requires NewTable(infos, buckets, p, d) && b < |buckets| && id in buckets[b] && id != p
    requires infos[id].nRefCount > 1
    requires after == infos[id := infos[id].(nRefCount := infos[id].nRefCount - 1)]
    ensures NewTable(after, buckets[b := buckets[b] - {id}], p, d)
    ensures TriedIds(after) == TriedIds(infos) && NewIds(after) == NewIds(infos)
  {
    RefsRemove(buckets, b, id);
    var rest := buckets[b := buckets[b] - {id}];
    assert Sized(rest) && HoldsUntried(after, rest);
    assert CountsExact(after, rest, p, d) by { hide Refs; }
  }

  // The entry has other references.
  lemma DropReference(h: Hashes, t: Tables, p: int, d: int, b: nat, id: Id)
    requires t.Consistent(h, p, d) && b < |t.untried| && id in t.untried[b] && id != p
    ensures id in t.infos && t.infos[id].nRefCount >= 1
    ensures var infos := t.infos[id := t.infos[id].(nRefCount := t.infos[id].nRefCount - 1)];
            && Addressed(infos, t.addrs) && Shuffled(infos, t.order)
            && (t.infos[id].nRefCount > 1 ==>
                  t.(infos := infos, untried := t.untried[b := t.untried[b] - {id}]).Consistent(h, p, d))
  {
    hide Refs;
    var info := t.infos[id].(nRefCount := t.infos[id].nRefCount - 1);
    SameAddressAndOrder(t.infos, t.addrs, t.order, id, info);
    hide Addressed, Shuffled, Timed;
    if t.infos[id].nRefCount > 1 {
      DropReferenceNew(t.infos, t.infos[id := t.infos[id].(nRefCount := t.infos[id].nRefCount - 1)], t.untried, p, d, b,
                       id);
    }
  }

  lemma DropEntryNew(h: Hashes, infos: Infos, after: Infos, buckets: NewBuckets, p: int, d: int, b: nat, id: Id,
                     tried: TriedBuckets)
    requires NewTable(infos, buckets, p, d) && b < |buckets| && id in buckets[b] && id != p
    requires infos[id].nRefCount == 1 && TriedTable(h, infos, tried)
    requires after.Keys == infos.Keys - {id}
    requires forall x | x in after :: after[x] == infos[x].(nRandomPos := after[x].nRandomPos)
    ensures NewTable(after, buckets[b := buckets[b] - {id}], p, d) && TriedTable(h, after, tried)
    ensures TriedIds(after) == TriedIds(infos) && NewIds(after) == NewIds(infos) - {id} && id in NewIds(infos)
  {
    var rest := buckets[b := buckets[b] - {id}];
    RefsRemove(buckets, b, id);
    assert Refs(buckets, id) == 1;
    RefsZero(rest, id);
  }

  // It was the entry's last reference, and the entry goes with it.
  lemma DropEntry(h: Hashes, t: Tables, p: int, d: int, b: nat, id: Id, infos: Infos, order: seq<Id>)
    requires t.Consistent(h, p, d) && b < |t.untried| && id in t.untried[b] && id != p
    requires id in t.infos && t.infos[id].nRefCount == 1 && infos.Keys == t.infos.Keys - {id}
    requires Reordered(t.infos[id := t.infos[id].(nRefCount := 0)], infos)
    requires Shuffled(infos, order) && |order| == |t.order| - 1
    requires Addressed(infos, t.addrs - {t.infos[id].addr.ip})
    ensures t.(infos := infos, order := order, addrs := t.addrs - {t.infos[id].addr.ip}, nNew := t.nNew - 1,
               untried := t.untried[b := t.untried[b] - {id}]).Consistent(h, p, d)
  {
    hide NewTable, TriedTable, Addressed, Shuffled;
    DropEntryNew(h, t.infos, infos, t.untried, p, d, b, id, t.tried);
  }

  // ---------- putting an entry into a "new" bucket ----------

  // Statistics of one entry change, its places do not.
  lemma UpdateStats(h: Hashes, t: Tables, p: int, d: int, id: Id, info: AddrInfo)
    requires t.Consistent(h, p, d) && id in t.infos
    requires info.addr == t.infos[id].addr && info.fInTried == t.infos[id].fInTried
    requires info.nRefCount == t.infos[id].nRefCount && info.nRandomPos == t.infos[id].nRandomPos
    requires info.nLastTry >= 0 && info.nLastSuccess >= 0 && (info.fInTried ==> info.nLastSuccess != 0)
    ensures t.(infos := t.infos[id := info]).Consistent(h, p, d)
  {
    hide NewTable, TriedTable, Addressed;
    SamePlacesKeeps(h, t.infos, t.infos[id := info], t.addrs, t.untried, p, d, t.tried);
  }

  lemma CreateNew(h: Hashes, infos: Infos, untried: NewBuckets, tried: TriedBuckets, id: Id, info: AddrInfo)
    requires NewTable(infos, untried, -1, 0) && TriedTable(h, infos, tried) && id !in infos
    requires !info.fInTried && info.nRefCount == 0
    ensures NewTable(infos[id := info], untried, id, 0) && TriedTable(h, infos[id := info], tried)
    ensures TriedIds(infos[id := info]) == TriedIds(infos) && NewIds(infos[id := info]) == NewIds(infos) + {id}
    ensures id !in NewIds(infos)
  {
    RefsZero(untried, id);
  }

  lemma CreateOrder(infos: Infos, addrs: map<NetAddr, Id>, order: seq<Id>, id: Id, info: AddrInfo)
    requires Addressed(infos, addrs) && Shuffled(infos, order) && id !in infos
    requires info.addr.ip !in addrs && info.nRandomPos == |order|
    ensures Addressed(infos[id := info], addrs[info.addr.ip := id]) && Shuffled(infos[id := info], order + [id])
  {
  }

  // A new entry, not yet in any bucket.
  lemma Create(h: Hashes, t: Tables, info: AddrInfo)
    requires t.Consistent(h, -1, 0) && info.addr.ip !in t.addrs
    requires !info.fInTried && info.nRefCount == 0 && info.nRandomPos == |t.order|
    requires info.nLastTry == 0 && info.nLastSuccess == 0
    ensures var id := t.nIdCount;
            && id !in t.infos
            && t.(nIdCount := id + 1, infos := t.infos[id := info], addrs := t.addrs[info.addr.ip := id],
                  order := t.order + [id], nNew := t.nNew + 1).Consistent(h, id, 0)
  {
    hide NewTable, TriedTable, Addressed, Shuffled;
    CreateNew(h, t.infos, t.untried, t.tried, t.nIdCount, info);
    CreateOrder(t.infos, t.addrs, t.order, t.nIdCount, info);
  }

  // A known entry about to go into another bucket.
  lemma Relax(h: Hashes, t: Tables, id: Id)
    requires t.Consistent(h, -1, 0)
    ensures t.Consistent(h, id, 0)
  {
  }

  // The count goes ahead of the buckets.
  lemma CountAhead(h: Hashes, t: Tables, id: Id)
    requires t.Consistent(h, id, 0) && id in t.infos && !t.infos[id].fInTried
             && t.infos[id].nRefCount < NEW_BUCKETS_PER_ADDRESS
    ensures t.(infos := t.infos[id := t.infos[id].(nRefCount := t.infos[id].nRefCount + 1)]).Consistent(h, id, 1)
  {
    var after := t.infos[id := t.infos[id].(nRefCount := t.infos[id].nRefCount + 1)];
    hide NewTable, TriedTable, Addressed, Shuffled, Timed;
    CountAheadNew(h, t.infos, after, t.untried, t.tried, id);
    SameAddressAndOrder(t.infos, t.addrs, t.order, id, after[id]);
  }

  lemma CountAheadNew(h: Hashes, infos: Infos, after: Infos, untried: NewBuckets, tried: TriedBuckets, id: Id)
    requires NewTable(infos, untried, id, 0) && TriedTable(h, infos, tried)
    requires id in infos && !infos[id].fInTried && infos[id].nRefCount < NEW_BUCKETS_PER_ADDRESS
    requires after == infos[id := infos[id].(nRefCount := infos[id].nRefCount + 1)]
    ensures NewTable(after, untried, id, 1) && TriedTable(h, after, tried)
    ensures TriedIds(after) == TriedIds(infos) && NewIds(after) == NewIds(infos)
  {
    hide Refs;
  }

  // The buckets catch up.
  lemma InsertReference(h: Hashes, t: Tables, b: nat, id: Id)
    requires t.Consistent(h, id, 1) && id in t.infos && !t.infos[id].fInTried
    requires b < |t.untried| && id !in t.untried[b] && |t.untried[b]| < NEW_BUCKET_SIZE
    ensures t.(untried := t.untried[b := t.untried[b] + {id}]).Consistent(h, -1, 0)
  {
    hide Refs, TriedTable, Addressed, Shuffled, Counted;
    RefsInsert(t.untried, b, id);
    var after := t.untried[b := t.untried[b] + {id}];
    assert Sized(after) && HoldsUntried(t.infos, after);
  }

  // What a bucket holds is known.
  lemma HeldIsKnown(h: Hashes, t: Tables, p: int, d: int, b: nat)
    requires t.Consistent(h, p, d) && b < |t.untried|
    ensures forall id | id in t.untried[b] :: id in t.infos && !t.infos[id].fInTried
  {
  }

  lemma CountsBounded(h: Hashes, t: Tables, id: Id)
    requires t.Consistent(h, -1, 0) && id in t.infos
    ensures 0 <= t.infos[id].nRefCount <= NEW_BUCKETS_PER_ADDRESS
    ensures t.infos[id].nLastTry >= 0 && t.infos[id].nLastSuccess >= 0
    ensures t.infos[id].fInTried ==> t.infos[id].nRefCount == 0 && t.infos[id].nLastSuccess != 0
  {
    RefsZero(t.untried, id);
  }

  lemma BucketSizes(h: Hashes, t: Tables, p: int, d: int, b: nat)
    requires t.Consistent(h, p, d)
    ensures |t.untried| == NEW_BUCKET_COUNT && (b < NEW_BUCKET_COUNT ==> |t.untried[b]| <= NEW_BUCKET_SIZE)
  {
  }

  // An entry without a count is in no bucket.
  lemma CountedNowhere(h: Hashes, t: Tables, id: Id)
    requires t.Consistent(h, id, 0) && id in t.infos && t.infos[id].nRefCount == 0
    ensures forall b | 0 <= b < |t.untried| :: id !in t.untried[b]
  {
    RefsZero(t.untried, id);
  }

  // An entry that is in a bucket has a count.
  lemma Referenced(h: Hashes, t: Tables, id: Id, b: nat)
    requires t.Consistent(h, id, 0) && id in t.infos && b < |t.untried| && id in t.untried[b]
    ensures t.Consistent(h, -1, 0)
  {
    RefsZero(t.untried, id);
  }

  // ---------- moving between "new" and "tried" ----------

  // The buckets with one entry taken out of the first `n` of them.
  ghost predicate Without(before: NewBuckets, after: NewBuckets, id: Id, n: nat) {
    |after| == |before| && n <= |before|
    && forall b | 0 <= b < |before| :: after[b] == if b < n then before[b] - {id} else before[b]
  }

  lemma RefsWithout(before: NewBuckets, after: NewBuckets, id: Id)
    requires Without(before, after, id, |before|)
    ensures forall x :: Refs(after, x) == if x == id then 0 else Refs(before, x)
  {
    forall x ensures Refs(after, x) == if x == id then 0 else Refs(before, x) {
      if x == id {
        RefsZero(after, x);
      } else {
        assert BucketsOf(after, x) == BucketsOf(before, x);
      }
    }
  }

  // The "tried" side looks at addresses and flags only.
  lemma TriedKeeps(h: Hashes, infos: Infos, after: Infos, tried: TriedBuckets)
    requires TriedTable(h, infos, tried) && after.Keys == infos.Keys
    requires forall x | x in infos :: after[x].addr == infos[x].addr && after[x].fInTried == infos[x].fInTried
    ensures TriedTable(h, after, tried) && TriedIds(after) == TriedIds(infos) && NewIds(after) == NewIds(infos)
  {
  }

  lemma WithdrawnBuckets(infos: Infos, after: Infos, before: NewBuckets, buckets: NewBuckets, id: Id)
    requires Sized(before) && HoldsUntried(infos, before) && Without(before, buckets, id, |before|)
    requires after.Keys == infos.Keys && forall x | x in infos :: after[x].fInTried == infos[x].fInTried
    ensures Sized(buckets) && HoldsUntried(after, buckets)
  {
    forall b | 0 <= b < |buckets| ensures |buckets[b]| <= NEW_BUCKET_SIZE {
      SmallerBucket(before[b], id);
    }
    forall b, x | 0 <= b < |buckets| && x in buckets[b] ensures x in after && !after[x].fInTried {
      assert x in before[b];
    }
  }

  // An untried entry leaves all its buckets.
  lemma WithdrawNew(h: Hashes, infos: Infos, after: Infos, before: NewBuckets, buckets: NewBuckets, tried: TriedBuckets,
                    id: Id)
    requires NewTable(infos, before, -1, 0) && TriedTable(h, infos, tried) && id in infos && !infos[id].fInTried
    requires Without(before, buckets, id, |before|) && after == infos[id := infos[id].(nRefCount := 0)]
    ensures NewTable(after, buckets, id, 0) && TriedTable(h, after, tried)
    ensures TriedIds(after) == TriedIds(infos) && NewIds(after) == NewIds(infos)
  {
    hide Refs, Sized, HoldsUntried, Without, TriedTable, TriedIds, NewIds;
    RefsWithout(before, buckets, id);
    WithdrawnBuckets(infos, after, before, buckets, id);
    TriedKeeps(h, infos, after, tried);
  }

  lemma SmallerBucket(bucket: set<Id>, id: Id)
    ensures |bucket - {id}| <= |bucket| && (id in bucket ==> |bucket - {id}| < |bucket|)
  {
    assert bucket == if id in bucket then bucket - {id} + {id} else bucket - {id};
  }

  lemma Withdraw(h: Hashes, t: Tables, id: Id, buckets: NewBuckets)
    requires t.Consistent(h, -1, 0) && id in t.infos && !t.infos[id].fInTried
    requires Without(t.untried, buckets, id, |t.untried|)
    ensures t.(infos := t.infos[id := t.infos[id].(nRefCount := 0)], untried := buckets).Consistent(h, id, 0)
  {
    hide NewTable, TriedTable, Without;
    WithdrawNew(h, t.infos, t.infos[id := t.infos[id].(nRefCount := 0)], t.untried, buckets, t.tried, id);
  }

  // A change that leaves address and position alone, and keeps the time rules.
  lemma SameAddressAndOrder(infos: Infos, addrs: map<NetAddr, Id>, order: seq<Id>, id: Id, info: AddrInfo)
    requires Addressed(infos, addrs) && Shuffled(infos, order) && Timed(infos) && id in infos
    requires info.addr == infos[id].addr && info.nRandomPos == infos[id].nRandomPos
    requires info.nLastTry >= 0 && info.nLastSuccess >= 0 && (info.fInTried ==> info.nLastSuccess != 0)
    ensures Addressed(infos[id := info], addrs) && Shuffled(infos[id := info], order) && Timed(infos[id := info])
  {
  }

  lemma PromoteTables(h: Hashes, infos: Infos, after: Infos, untried: NewBuckets, tried: TriedBuckets, id: Id, k: nat)
    requires NewTable(infos, untried, id, 0) && TriedTable(h, infos, tried)
    requires id in infos && !infos[id].fInTried && infos[id].nRefCount == 0 && k == h.TriedBucket(infos[id].addr)
    requires after == infos[id := infos[id].(fInTried := true)] && |tried[k]| < TRIED_BUCKET_SIZE
    ensures NewTable(after, untried, -1, 0) && TriedTable(h, after, tried[k := tried[k] + [id]])
    ensures TriedIds(after) == TriedIds(infos) + {id} && NewIds(after) == NewIds(infos) - {id}
    ensures id !in TriedIds(infos) && id in NewIds(infos)
  {
    hide NewTable, TriedTable;
    PromoteNew(infos, after, untried, id);
    PromoteTried(h, infos, after, tried, id, k);
  }

  lemma PromoteNew(infos: Infos, after: Infos, untried: NewBuckets, id: Id)
    requires NewTable(infos, untried, id, 0) && id in infos && !infos[id].fInTried && infos[id].nRefCount == 0
    requires after == infos[id := infos[id].(fInTried := true)]
    ensures NewTable(after, untried, -1, 0)
  {
    hide Refs;
    RefsZero(untried, id);
  }

  lemma PromoteTried(h: Hashes, infos: Infos, after: Infos, tried: TriedBuckets, id: Id, k: nat)
    requires TriedTable(h, infos, tried) && id in infos && !infos[id].fInTried && k == h.TriedBucket(infos[id].addr)
    requires after == infos[id := infos[id].(fInTried := true)] && |tried[k]| < TRIED_BUCKET_SIZE
    ensures TriedTable(h, after, tried[k := tried[k] + [id]])
  {
  }

  // The entry goes to the end of its "tried" bucket.
  lemma Promote(h: Hashes, t: Tables, id: Id, k: nat)
    requires t.Consistent(h, id, 0) && id in t.infos && !t.infos[id].fInTried && t.infos[id].nRefCount == 0
    requires t.infos[id].nLastSuccess != 0 && k == h.TriedBucket(t.infos[id].addr)
    requires k < |t.tried| && |t.tried[k]| < TRIED_BUCKET_SIZE
    ensures t.(infos := t.infos[id := t.infos[id].(fInTried := true)], tried := t.tried[k := t.tried[k] + [id]],
               nTried := t.nTried + 1, nNew := t.nNew - 1).Consistent(h, -1, 0)
  {
    hide NewTable, TriedTable, Addressed, Shuffled;
    var info := t.infos[id].(fInTried := true);
    PromoteTables(h, t.infos, t.infos[id := info], t.untried, t.tried, id, k);
    SameAddressAndOrder(t.infos, t.addrs, t.order, id, info);
  }

  // The tables after the entry at `pos` of "tried" bucket `k` gave its place to `id` and went to "new" bucket `b`.
  ghost function Exchanged(infos: Infos, id: Id, out: Id): Infos
    requires id in infos && out in infos
  {
    infos[out := infos[out].(fInTried := false, nRefCount := 1)][id := infos[id].(fInTried := true)]
  }

  function Replaced(tried: TriedBuckets, k: nat, pos: nat, id: Id): TriedBuckets
    requires k < |tried| && pos < |tried[k]|
  {
    var bucket: seq<Id> := tried[k][pos := id];
    tried[k := bucket]
  }

  lemma ExchangedIds(infos: Infos, id: Id, out: Id)
    requires id in infos && out in infos && id != out && !infos[id].fInTried && infos[out].fInTried
    ensures |TriedIds(Exchanged(infos, id, out))| == |TriedIds(infos)|
    ensures |NewIds(Exchanged(infos, id, out))| == |NewIds(infos)|
  {
    var after := Exchanged(infos, id, out);
    assert TriedIds(after) == TriedIds(infos) - {out} + {id};
    assert NewIds(after) == NewIds(infos) - {id} + {out};
  }

  lemma ExchangeNew(infos: Infos, untried: NewBuckets, id: Id, out: Id, b: nat)
    requires NewTable(infos, untried, id, 0) && id in infos && out in infos && id != out
    requires !infos[id].fInTried && infos[id].nRefCount == 0 && infos[out].fInTried
    requires b < |untried| && |untried[b]| < NEW_BUCKET_SIZE
    ensures NewTable(Exchanged(infos, id, out), untried[b := untried[b] + {out}], -1, 0)
  {
    hide Refs;
    RefsZero(untried, id);
    RefsZero(untried, out);
    assert forall i | 0 <= i < |untried| :: out !in untried[i] && id !in untried[i];
    RefsInsert(untried, b, out);
    var after, buckets := Exchanged(infos, id, out), untried[b := untried[b] + {out}];
    assert Sized(buckets);
    assert HoldsUntried(after, buckets);
  }

  lemma ExchangeTried(h: Hashes, infos: Infos, tried: TriedBuckets, id: Id, k: nat, pos: nat)
    requires TriedTable(h, infos, tried) && id in infos && !infos[id].fInTried
    requires k == h.TriedBucket(infos[id].addr) && pos < |tried[k]|
    ensures tried[k][pos] in infos && infos[tried[k][pos]].fInTried && id != tried[k][pos]
    ensures TriedTable(h, Exchanged(infos, id, tried[k][pos]), Replaced(tried, k, pos, id))
  {
    var out := tried[k][pos];
    assert TriedIn(h, infos, out, k);
    var after, buckets := Exchanged(infos, id, out), Replaced(tried, k, pos, id);
    forall b, i | 0 <= b < |buckets| && 0 <= i < |buckets[b]| ensures TriedIn(h, after, buckets[b][i], b) {
      if b != k || i != pos {
        assert TriedIn(h, infos, tried[b][i], b);
      }
    }
    forall x | x in after && after[x].fInTried ensures x in buckets[h.TriedBucket(after[x].addr)] {
      if x == id {
        assert buckets[k][pos] == id;
      } else {
        var b := h.TriedBucket(infos[x].addr);
        var i :| 0 <= i < |tried[b]| && tried[b][i] == x;
        assert buckets[b][i] == x;
      }
    }
  }

  lemma Exchange(h: Hashes, t: Tables, id: Id, k: nat, pos: nat, b: nat)
    requires t.Consistent(h, id, 0) && id in t.infos && !t.infos[id].fInTried && t.infos[id].nRefCount == 0
    requires t.infos[id].nLastSuccess != 0 && k == h.TriedBucket(t.infos[id].addr)
    requires k < |t.tried| && pos < |t.tried[k]| && b < |t.untried| && |t.untried[b]| < NEW_BUCKET_SIZE
    ensures t.tried[k][pos] in t.infos && t.infos[t.tried[k][pos]].fInTried && id != t.tried[k][pos]
    ensures t.(infos := Exchanged(t.infos, id, t.tried[k][pos]), tried := Replaced(t.tried, k, pos, id),
               untried := t.untried[b := t.untried[b] + {t.tried[k][pos]}]).Consistent(h, -1, 0)
  {
    hide NewTable, TriedTable, TriedIds, NewIds, Replaced, Addressed, Shuffled, Timed;
    ExchangeTried(h, t.infos, t.tried, id, k, pos);
    var out := t.tried[k][pos];
    ExchangeNew(t.infos, t.untried, id, out, b);
    ExchangedIds(t.infos, id, out);
    ExchangedRest(t.infos, t.addrs, t.order, id, out);
  }

  lemma ExchangedRest(infos: Infos, addrs: map<NetAddr, Id>, order: seq<Id>, id: Id, out: Id)
    requires id in infos && out in infos && infos[id].nLastSuccess != 0
    requires Addressed(infos, addrs) && Shuffled(infos, order) && Timed(infos)
    ensures Addressed(Exchanged(infos, id, out), addrs) && Shuffled(Exchanged(infos, id, out), order)
            && Timed(Exchanged(infos, id, out))
  {
  }

  lemma CountIsRefs(h: Hashes, t: Tables, id: Id)
    requires t.Consistent(h, -1, 0) && id in t.infos
    ensures t.infos[id].nRefCount == Refs(t.untried, id)
  {
  }

  lemma WithoutStart(before: NewBuckets, id: Id)
    ensures Without(before, before, id, 0)
  {
  }

  lemma WithoutStep(before: NewBuckets, after: NewBuckets, id: Id, n: nat)
    requires Without(before, after, id, n) && n < |before|
    ensures Without(before, if id in after[n] then after[n := after[n] - {id}] else after, id, n + 1)
    ensures id !in after[n] ==> after[n] - {id} == after[n]
  {
  }

  // A bucket that the entry has left has room.
  lemma WithoutSmaller(before: NewBuckets, after: NewBuckets, id: Id, b: nat)
    requires Without(before, after, id, |before|) && b < |before| && id in before[b]
    ensures |after| == |before| && |after[b]| < |before[b]|
  {
    SmallerBucket(before[b], id);
  }

  lemma WithoutNone(before: NewBuckets, after: NewBuckets, id: Id)
    requires Without(before, after, id, |before|)
    ensures Refs(after, id) == 0
  {
    RefsZero(after, id);
  }

  // The order within a "tried" bucket does not matter.
  lemma SwapTried(h: Hashes, t: Tables, p: int, d: int, k: nat, i: nat, j: nat)
    requires t.Consistent(h, p, d) && k < |t.tried| && i < |t.tried[k]| && j < |t.tried[k]|
    ensures t.(tried := Swapped(t.tried, k, i, j)).Consistent(h, p, d)
  {
    hide NewTable, Addressed, Shuffled, Counted, Timed;
    var after := Swapped(t.tried, k, i, j);
    forall b, x | 0 <= b < |after| && 0 <= x < |after[b]| ensures TriedIn(h, t.infos, after[b][x], b) {
      var y := if b != k || (x != i && x != j) then x else if x == i then j else i;
      assert after[b][x] == t.tried[b][y];
    }
    forall id | id in t.infos && t.infos[id].fInTried ensures id in after[h.TriedBucket(t.infos[id].addr)] {
      var b := h.TriedBucket(t.infos[id].addr);
      var x :| 0 <= x < |t.tried[b]| && t.tried[b][x] == id;
      var y := if b != k || (x != i && x != j) then x else if x == i then j else i;
      assert after[b][y] == id;
    }
  }

  function Swapped(tried: TriedBuckets, k: nat, i: nat, j: nat): TriedBuckets
    requires k < |tried| && i < |tried[k]| && j < |tried[k]|
  {
    Replaced(Replaced(tried, k, j, tried[k][i]), k, i, tried[k][j])
  }

  lemma TriedSizes(h: Hashes, t: Tables, p: int, d: int, k: nat)
    requires t.Consistent(h, p, d)
    ensures |t.tried| == TRIED_BUCKET_COUNT
    ensures k < TRIED_BUCKET_COUNT ==>
              && |t.tried[k]| <= TRIED_BUCKET_SIZE
              && forall i | 0 <= i < |t.tried[k]| :: t.tried[k][i] in t.infos && t.infos[t.tried[k][i]].fInTried
  {
    if k < TRIED_BUCKET_COUNT {
      forall i | 0 <= i < |t.tried[k]| ensures t.tried[k][i] in t.infos && t.infos[t.tried[k][i]].fInTried {
        assert TriedIn(h, t.infos, t.tried[k][i], k);
      }
    }
  }

  lemma TriedOnce(h: Hashes, t: Tables, p: int, d: int, k: nat)
    requires t.Consistent(h, p, d) && k < |t.tried|
    ensures NoRepeats(t.tried[k])
  {
  }

  // An untried entry is in some "new" bucket.
  lemma UntriedIsSomewhere(h: Hashes, t: Tables, id: Id)
    requires t.Consistent(h, -1, 0) && id in t.infos && !t.infos[id].fInTried
    ensures exists b :: 0 <= b < |t.untried| && id in t.untried[b]
  {
    RefsZero(t.untried, id);
  }

  // ---------- the whole table ----------

  lemma EmptyTables(h: Hashes, t: Tables)
    requires t.infos == map[] && t.addrs == map[] && t.order == [] && t.nTried == 0 && t.nNew == 0
    requires |t.tried| == TRIED_BUCKET_COUNT && (forall b | 0 <= b < |t.tried| :: t.tried[b] == [])
    requires |t.untried| == NEW_BUCKET_COUNT && (forall b | 0 <= b < |t.untried| :: t.untried[b] == {})
    ensures t.Consistent(h, -1, 0)
  {
    assert TriedIds(t.infos) == {} && NewIds(t.infos) == {};
  }

  lemma ReorderedSelf(infos: Infos)
    ensures Reordered(infos, infos)
  {
  }

  lemma ReorderedTrans(a: Infos, b: Infos, c: Infos)
    requires Reordered(a, b) && Reordered(b, c)
    ensures Reordered(a, c)
  {
  }

  lemma OrderIsShuffled(h: Hashes, t: Tables)
    requires t.Consistent(h, -1, 0)
    ensures Shuffled(t.infos, t.order) && NoRepeats(t.order) && forall i | 0 <= i < |t.order| :: t.order[i] in t.infos
  {
  }

  lemma ReorderKeeps(h: Hashes, t: Tables, infos: Infos, order: seq<Id>)
    requires t.Consistent(h, -1, 0) && Reordered(t.infos, infos) && infos.Keys == t.infos.Keys
    requires Shuffled(infos, order) && |order| == |t.order|
    ensures t.(infos := infos, order := order).Consistent(h, -1, 0)
  {
    SamePlacesKeeps(h, t.infos, infos, t.addrs, t.untried, -1, 0, t.tried);
    hide NewTable, TriedTable, Addressed;
  }

  ghost function UnionUpTo(buckets: NewBuckets, n: nat): (u: set<Id>)
    requires n <= |buckets|
    ensures forall b, id | 0 <= b < n && id in buckets[b] :: id in u
  {
    if n == 0 then {} else UnionUpTo(buckets, n - 1) + buckets[n - 1]
  }

  lemma {:induction false} UnionSize(buckets: NewBuckets, n: nat)
    requires n <= |buckets| && forall b | 0 <= b < |buckets| :: |buckets[b]| <= NEW_BUCKET_SIZE
    ensures |UnionUpTo(buckets, n)| <= n * NEW_BUCKET_SIZE
  {
    if n > 0 {
      UnionSize(buckets, n - 1);
      SetSum(UnionUpTo(buckets, n - 1), buckets[n - 1]);
    }
  }

  lemma SetSum(a: set<Id>, b: set<Id>)
    ensures |a + b| <= |a| + |b|
  {
    assert a + b == a + (b - a);
    Subset(b - a, b);
  }

  lemma Subset(a: set<Id>, b: set<Id>)
    requires a <= b
    ensures |a| <= |b|
  {
    assert b == a + (b - a);
  }

  ghost function Members(s: seq<Id>): (m: set<Id>)
    ensures |m| <= |s| && forall x | x in s :: x in m
  {
    if s == [] then {} else Members(s[..|s| - 1]) + {s[|s| - 1]}
  }

  ghost function AllTried(buckets: TriedBuckets, n: nat): (u: set<Id>)
    requires n <= |buckets|
    ensures forall b, id | 0 <= b < n && id in buckets[b] :: id in u
  {
    if n == 0 then {} else AllTried(buckets, n - 1) + Members(buckets[n - 1])
  }

  lemma {:induction false} AllTriedSize(buckets: TriedBuckets, n: nat)
    requires n <= |buckets| && forall b | 0 <= b < |buckets| :: |buckets[b]| <= TRIED_BUCKET_SIZE
    ensures |AllTried(buckets, n)| <= n * TRIED_BUCKET_SIZE
  {
    if n > 0 {
      AllTriedSize(buckets, n - 1);
      SetSum(AllTried(buckets, n - 1), Members(buckets[n - 1]));
    }
  }

  // The address manager holds a limited number of addresses, whatever it is told.
  lemma SizeBound(h: Hashes, t: Tables)
    requires t.Consistent(h, -1, 0)
    ensures t.nNew <= NEW_BUCKET_COUNT * NEW_BUCKET_SIZE && t.nTried <= TRIED_BUCKET_COUNT * TRIED_BUCKET_SIZE
    ensures |t.order| <= 256 * 64 + 64 * 64
  {
    UnionSize(t.untried, NEW_BUCKET_COUNT);
    AllTriedSize(t.tried, TRIED_BUCKET_COUNT);
    forall id | id in NewIds(t.infos) ensures id in UnionUpTo(t.untried, NEW_BUCKET_COUNT) {
      UntriedIsSomewhere(h, t, id);
    }
    forall id | id in TriedIds(t.infos) ensures id in AllTried(t.tried, TRIED_BUCKET_COUNT) {
      assert id in t.tried[h.TriedBucket(t.infos[id].addr)];
    }
    Subset(NewIds(t.infos), UnionUpTo(t.untried, NEW_BUCKET_COUNT));
    Subset(TriedIds(t.infos), AllTried(t.tried, TRIED_BUCKET_COUNT));
  }
}
