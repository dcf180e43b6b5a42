/**
 The address manager (`CAddrMan`): every operation keeps the tables consistent,
 whatever the random choices and the bucket hashes are.
 */
module AddrMan {
  import opened Arithmetic
  import opened AddrDump
  import opened AddrTables
  import opened Options
  import opened Ordered
  import opened Powers
  import opened TriedDraws

  class AddrMan {
    var hashes: Hashes
    // `CNetAddr::IsRoutable`.
    const routable: NetAddr -> bool
    var nIdCount: nat
    var mapInfo: Infos
    var mapAddr: map<NetAddr, Id>
    var vRandom: seq<Id>
    var nTried: int
    var vvTried: TriedBuckets
    var nNew: int
    var vvNew: NewBuckets

    ghost function T(): Tables
      reads this
    {
      Tables(nIdCount, mapInfo, mapAddr, vRandom, nTried, vvTried, nNew, vvNew)
    }

    ghost predicate Valid()
      reads this
    {
      T().Consistent(hashes, -1, 0)
    }

    constructor (h: Hashes, isRoutable: NetAddr -> bool)
      ensures Valid() && hashes == h && routable == isRoutable && mapInfo == map[] && nIdCount == 0
      ensures |vvTried| == TRIED_BUCKET_COUNT && forall b | 0 <= b < |vvTried| :: vvTried[b] == []
    {
      hashes, routable := h, isRoutable;
      nIdCount, mapInfo, mapAddr, vRandom, nTried, nNew := 0, map[], map[], [], 0, 0;
      vvTried := seq(TRIED_BUCKET_COUNT, _ => []);
      vvNew := seq(NEW_BUCKET_COUNT, _ => {});
      new;
      EmptyTables(h, T());
    }

    method SwapRandom(nRndPos1: nat, nRndPos2: nat)
      requires Shuffled(mapInfo, vRandom) && nRndPos1 < |vRandom| && nRndPos2 < |vRandom|
      modifies this`mapInfo, this`vRandom
      ensures Shuffled(mapInfo, vRandom) && Reordered(old(mapInfo), mapInfo) && mapInfo.Keys == old(mapInfo).Keys
      ensures vRandom == old(vRandom)[nRndPos1 := old(vRandom)[nRndPos2]][nRndPos2 := old(vRandom)[nRndPos1]]
    {
      if nRndPos1 == nRndPos2 {
        return;
      }
      var nId1, nId2 := vRandom[nRndPos1], vRandom[nRndPos2];
      mapInfo := mapInfo[nId1 := mapInfo[nId1].(nRandomPos := nRndPos2)];
      mapInfo := mapInfo[nId2 := mapInfo[nId2].(nRandomPos := nRndPos1)];
      vRandom := vRandom[nRndPos1 := nId2];
      vRandom := vRandom[nRndPos2 := nId1];
    }

    // The deletion at the heart of `ShrinkNew`: the last random position fills the gap.
    method Forget(id: Id)
      requires Shuffled(mapInfo, vRandom) && Addressed(mapInfo, mapAddr) && id in mapInfo
      modifies this`mapInfo, this`vRandom, this`mapAddr, this`nNew
      ensures Shuffled(mapInfo, vRandom) && Addressed(mapInfo, mapAddr) && Reordered(old(mapInfo), mapInfo)
      ensures mapInfo.Keys == old(mapInfo).Keys - {id} && mapAddr == old(mapAddr) - {old(mapInfo)[id].addr.ip}
      ensures |vRandom| == |old(vRandom)| - 1 && nNew == old(nNew) - 1
    {
      SwapRandom(mapInfo[id].nRandomPos, |vRandom| - 1);
      vRandom := vRandom[..|vRandom| - 1];
      mapAddr := mapAddr - {mapInfo[id].addr.ip};
      mapInfo := mapInfo - {id};
      nNew := nNew - 1;
    }

    // Take an entry out of one "new" bucket, and forget it when that was its last one.
    method Unreference(b: nat, id: Id, ghost p: int)
      requires T().Consistent(hashes, p, 1) && p in mapInfo && b < |vvNew| && id in vvNew[b] && id != p
      modifies this`mapInfo, this`vRandom, this`mapAddr, this`nNew, this`vvNew
      ensures T().Consistent(hashes, p, 1) && vvNew == old(vvNew)[b := old(vvNew)[b] - {id}]
      ensures Dropped(old(mapInfo), mapInfo, id)
    {
      hide Tables.Consistent, Addressed, Shuffled, Reordered;
      HeldIsKnown(hashes, T(), p, 1, b);
      ghost var t := T();
      DropReference(hashes, t, p, 1, b, id);
      mapInfo := mapInfo[id := mapInfo[id].(nRefCount := mapInfo[id].nRefCount - 1)];
      if mapInfo[id].nRefCount == 0 {
        Forget(id);
        DropEntry(hashes, t, p, 1, b, id, mapInfo, vRandom);
      } else {
        ReorderedSelf(mapInfo);
      }
      vvNew := vvNew[b := vvNew[b] - {id}];
    }

    // Make room in a "new" bucket: drop a terrible entry, or when there is none the oldest of four random ones.
    method ShrinkNew(nUBucket: nat, nNow: int, ghost p: int) returns (r: int, ghost dropped: Id, ghost picks: seq<Id>)
      requires T().Consistent(hashes, p, 1) && p in mapInfo
      requires nUBucket < |vvNew| && vvNew[nUBucket] != {} && p !in vvNew[nUBucket]
      modifies this`mapInfo, this`vRandom, this`mapAddr, this`nNew, this`vvNew
      ensures T().Consistent(hashes, p, 1)
      ensures dropped in old(vvNew)[nUBucket] && vvNew == old(vvNew)[nUBucket := old(vvNew)[nUBucket] - {dropped}]
      ensures dropped in old(mapInfo) && (r == 0 <==> old(mapInfo)[dropped].IsTerrible(nNow))
      ensures r == 0 ==> old(mapInfo)[dropped].nLastTry == 0 || old(mapInfo)[dropped].nLastTry < nNow - 60
      ensures r != 0 ==> NoneTerrible(old(mapInfo), old(vvNew)[nUBucket], nNow)
                         && OldestOf(old(mapInfo), old(vvNew)[nUBucket], picks, dropped)
      ensures Dropped(old(mapInfo), mapInfo, dropped)
    {
      hide Tables.Consistent, NoneTerrible, OldestOf, InOrder, Dropped;
      HeldIsKnown(hashes, T(), p, 1, nUBucket);
      var vNew := InOrder(vvNew[nUBucket]);
      picks := [];
      for i := 0 to |vNew|
        invariant T() == old(T())
        invariant forall k | 0 <= k < i :: !mapInfo[vNew[k]].IsTerrible(nNow)
      {
        if mapInfo[vNew[i]].IsTerrible(nNow) {
          dropped := vNew[i];
          Unreference(nUBucket, vNew[i], p);
          return 0, dropped, picks;
        }
      }
      AllSeen(mapInfo, vvNew[nUBucket], vNew, nNow);
      var oldest;
      oldest, picks := OldestOfFour(vNew);
      SameMembers(mapInfo, vvNew[nUBucket], vNew, picks, oldest);
      dropped := oldest;
      Unreference(nUBucket, oldest, p);
      return 1, dropped, picks;
    }

    static lemma AllSeen(infos: Infos, bucket: set<Id>, vNew: seq<Id>, nNow: int)
      requires forall x :: x in vNew <==> x in bucket
      requires forall k | 0 <= k < |vNew| :: vNew[k] in infos && !infos[vNew[k]].IsTerrible(nNow)
      ensures NoneTerrible(infos, bucket, nNow)
    {
    }

    static lemma SameMembers(infos: Infos, bucket: set<Id>, vNew: seq<Id>, picks: seq<Id>, oldest: Id)
      requires (forall x :: x in vNew <==> x in bucket) && OldestOf(infos, (set x | x in vNew), picks, oldest)
      ensures OldestOf(infos, bucket, picks, oldest) && oldest in bucket && oldest in infos
    {
    }

    // The entry with the smallest time among four picked at random.
    method OldestOfFour(vNew: seq<Id>) returns (nOldest: Id, ghost picks: seq<Id>)
      requires |vNew| > 0 && forall i | 0 <= i < |vNew| :: vNew[i] in mapInfo
      ensures OldestOf(mapInfo, (set x | x in vNew), picks, nOldest)
    {
      var n0, n1, n2, n3 :| 0 <= n0 < |vNew| && 0 <= n1 < |vNew| && 0 <= n2 < |vNew| && 0 <= n3 < |vNew|;
      var best: Option<Id> := None;
      for nI := 0 to |vNew|
        invariant best.Some? ==> best.value in [vNew[n0], vNew[n1], vNew[n2], vNew[n3]]
        invariant forall n | n in [n0, n1, n2, n3] && n < nI ::
                    best.Some?
                    && mapInfo[best.value].nTime <= mapInfo[vNew[n]].nTime
      {
        if nI == n0 || nI == n1 || nI == n2 || nI == n3 {
          if best.None? || mapInfo[vNew[nI]].nTime < mapInfo[best.value].nTime {
            best := Some(vNew[nI]);
          }
        }
      }
      assert n0 in [n0, n1, n2, n3] && n1 in [n0, n1, n2, n3] && n2 in [n0, n1, n2, n3] && n3 in [n0, n1, n2, n3];
      nOldest, picks := best.value, [vNew[n0], vNew[n1], vNew[n2], vNew[n3]];
    }

    function Find(ip: NetAddr): (id: Option<Id>)
      reads this
      ensures Valid() ==> forall x | x in mapInfo && mapInfo[x].addr.ip == ip :: id == Some(x)
      ensures Valid() ==> (id.Some? <==> ip in mapAddr)
      ensures Valid() && id.Some? ==> id.value in mapInfo && mapInfo[id.value].addr.ip == ip
    {
      if ip in mapAddr && mapAddr[ip] in mapInfo then Some(mapAddr[ip]) else None
    }

    // `Create`, with the time penalty and the count that `Add_` applies to a new entry.
    method CreateEntry(addr: Address, source: NetAddr, nTimePenalty: int) returns (nId: Id)
      requires Valid() && addr.service.ip !in mapAddr
      modifies this`nIdCount, this`mapInfo, this`mapAddr, this`vRandom, this`nNew
      ensures T().Consistent(hashes, nId, 0) && nId == old(nIdCount) && nId !in old(mapInfo) && nIdCount == nId + 1
      ensures mapInfo == old(mapInfo)[nId := AddrInfo(addr.service, addr.services, Max(0, addr.nTime - nTimePenalty),
                                                      source, 0, 0, 0, 0, false, |old(vRandom)|)]
      ensures vRandom == old(vRandom) + [nId] && mapAddr == old(mapAddr)[addr.service.ip := nId]
              && nNew == old(nNew) + 1
    {
      hide Tables.Consistent;
      var nTime := Max(0, addr.nTime - nTimePenalty);
      var info := AddrInfo(addr.service, addr.services, nTime, source, 0, 0, 0, 0, false, |vRandom|);
      Create(hashes, T(), info);
      nId := nIdCount;
      nIdCount := nIdCount + 1;
      mapInfo := mapInfo[nId := info];
      mapAddr := mapAddr[addr.service.ip := nId];
      vRandom := vRandom + [nId];
      nNew := nNew + 1;
    }

    // The update of a known entry in `Add_`; says whether it should go into one more bucket. `draw` is what the
    // generator's answer is the remainder of.
    method Refresh(nId: Id, addr: Address, nTimePenalty: int, nNow: int, draw: nat) returns (more: bool)
      requires Valid() && nId in mapInfo
      modifies this`mapInfo
      ensures Valid() && mapInfo.Keys == old(mapInfo).Keys
      ensures forall x | x in mapInfo && x != nId :: mapInfo[x] == old(mapInfo)[x]
      ensures var a, b := old(mapInfo)[nId], mapInfo[nId];
              b == a.(nTime := b.nTime, services := a.services + addr.services)
      ensures mapInfo[nId].nTime == if Outdated(old(mapInfo)[nId].nTime, addr.nTime, nTimePenalty, nNow)
                                    then Max(0, addr.nTime - nTimePenalty) else old(mapInfo)[nId].nTime
      ensures 0 <= mapInfo[nId].nRefCount <= NEW_BUCKETS_PER_ADDRESS
      ensures mapInfo[nId] == RefreshedInfo(old(mapInfo)[nId], addr, nTimePenalty, nNow)
              && (more <==> Spreads(mapInfo[nId], addr.nTime, draw))
      ensures more <==>
                && addr.nTime != 0 && (mapInfo[nId].nTime == 0 || mapInfo[nId].nTime < addr.nTime)
                && !mapInfo[nId].fInTried && mapInfo[nId].nRefCount < NEW_BUCKETS_PER_ADDRESS
                && draw % Pow2(mapInfo[nId].nRefCount) == 0
    {
      hide Tables.Consistent;
      CountsBounded(hashes, T(), nId);
      var info := mapInfo[nId];
      var nUpdateInterval := if nNow - addr.nTime < 24 * 60 * 60 then 60 * 60 else 24 * 60 * 60;
      if addr.nTime != 0 && (info.nTime == 0 || info.nTime < addr.nTime - nUpdateInterval - nTimePenalty) {
        info := info.(nTime := Max(0, addr.nTime - nTimePenalty));
      }
      info := info.(services := info.services + addr.services);
      UpdateStats(hashes, T(), -1, 0, nId, info);
      mapInfo := mapInfo[nId := info];
      if addr.nTime == 0 || (info.nTime != 0 && addr.nTime <= info.nTime) {
        return false;
      }
      if info.fInTried || info.nRefCount == NEW_BUCKETS_PER_ADDRESS {
        return false;
      }
      // The chance of one more reference halves with every reference there is.
      var nFactor: nat := 1;
      for n := 0 to info.nRefCount
        invariant nFactor == Pow2(n)
      {
        nFactor := nFactor * 2;
      }
      return !(nFactor > 1 && draw % nFactor != 0);
    }

    // The end of `Add_`: one more bucket for an untried entry, making room if there is none.
    method AddToBucket(nId: Id, source: NetAddr, nNow: int) returns (ghost dropped: Option<Id>)
      requires T().Consistent(hashes, nId, 0) && nId in mapInfo && !mapInfo[nId].fInTried
      requires mapInfo[nId].nRefCount < NEW_BUCKETS_PER_ADDRESS
      modifies this`mapInfo, this`vRandom, this`mapAddr, this`nNew, this`vvNew
      ensures Valid() && nId in mapInfo
      ensures var b := hashes.NewBucket(old(mapInfo)[nId].addr, source);
              && b < |old(vvNew)| && Enlisted(old(mapInfo), mapInfo, nId, nId in old(vvNew)[b], dropped)
              && MadeRoom(old(mapInfo), old(vvNew), vvNew, b, nId, dropped, nNow)
    {
      hide Tables.Consistent, Dropped, NoneTerrible, OldestOf, Displaced, Enlisted, MadeRoom;
      var nUBucket := hashes.NewBucket(mapInfo[nId].addr, source);
      BucketSizes(hashes, T(), nId, 0, nUBucket);
      HeldIsKnown(hashes, T(), nId, 0, nUBucket);
      dropped := None;
      if nId !in vvNew[nUBucket] {
        CountAhead(hashes, T(), nId);
        mapInfo := mapInfo[nId := mapInfo[nId].(nRefCount := mapInfo[nId].nRefCount + 1)];
        ghost var counted := mapInfo;
        if |vvNew[nUBucket]| == NEW_BUCKET_SIZE {
          var r;
          ghost var gone, picks;
          r, gone, picks := ShrinkNew(nUBucket, nNow, nId);
          dropped := Some(gone);
          DroppedOther(counted, mapInfo, gone, nId);
          DisplacedSame(old(mapInfo), counted, old(vvNew)[nUBucket], nId, gone, picks, nNow);
        }
        InsertReference(hashes, T(), nUBucket, nId);
        vvNew := vvNew[nUBucket := vvNew[nUBucket] + {nId}];
        WentIn(old(mapInfo), counted, mapInfo, old(vvNew), vvNew, nUBucket, nId, dropped, nNow);
      } else {
        Referenced(hashes, T(), nId, nUBucket);
        WasIn(mapInfo, vvNew, nUBucket, nId, nNow);
      }
    }

    // Learn of an address. All other entries keep their data, but one untried entry may lose a reference, and with its
    // last one be forgotten.
    method Add_(addr: Address, source: NetAddr, nTimePenalty: int, nNow: int, draw: nat)
      returns (fNew: bool, ghost dropped: Option<Id>)
      requires Valid()
      modifies this`nIdCount, this`mapInfo, this`mapAddr, this`vRandom, this`nNew, this`vvNew
      ensures Valid()
      ensures fNew <==> routable(addr.service.ip) && old(Find(addr.service.ip)).None?
      ensures !routable(addr.service.ip) ==> T() == old(T())
      ensures routable(addr.service.ip) ==>
                var f := Find(addr.service.ip);
                f.Some? && OthersKept(old(mapInfo), mapInfo, f.value, dropped) && f.value in mapInfo
      ensures fNew ==>
                var nId := Find(addr.service.ip).value;
                && nId == old(nIdCount) == nIdCount - 1
                && MadeRoom(old(mapInfo), old(vvNew), vvNew, hashes.NewBucket(addr.service, source), nId, dropped, nNow)
                && mapInfo[nId] == AddrInfo(addr.service, addr.services, Max(0, addr.nTime - nTimePenalty), source,
                                            0, 0, 0, 1, false, mapInfo[nId].nRandomPos)
      ensures routable(addr.service.ip) && !fNew ==>
                var nId := Find(addr.service.ip).value;
                && Some(nId) == old(Find(addr.service.ip)) && nIdCount == old(nIdCount)
                && var b := hashes.NewBucket(old(mapInfo)[nId].addr, source);
                   && b < |old(vvNew)| && old(mapInfo)[nId].nRefCount >= 0
                   && var more := Spreads(RefreshedInfo(old(mapInfo)[nId], addr, nTimePenalty, nNow), addr.nTime, draw);
                      && Refreshed(old(mapInfo)[nId], mapInfo[nId], addr, nTimePenalty, nNow,
                                   more && nId !in old(vvNew)[b])
                      && (if more then MadeRoom(old(mapInfo), old(vvNew), vvNew, b, nId, dropped, nNow)
                          else vvNew == old(vvNew) && dropped.None?)
    {
      hide Tables.Consistent, Find, Dropped, Enlisted, OthersKept, Refreshed, Outdated, MadeRoom, Spreads;
      dropped := None;
      if !routable(addr.service.ip) {
        return false, None;
      }
      var found := Find(addr.service.ip);
      if found.Some? {
        dropped := AddKnown(found.value, addr, source, nTimePenalty, nNow, draw);
        return false, dropped;
      }
      dropped := AddUnknown(addr, source, nTimePenalty, nNow);
      return true, dropped;
    }

    // `Add_` for an address that is known: it is refreshed and may go into one more bucket.
    method AddKnown(nId: Id, addr: Address, source: NetAddr, nTimePenalty: int, nNow: int, draw: nat)
      returns (ghost dropped: Option<Id>)
      requires Valid() && nId in mapInfo && mapInfo[nId].addr.ip == addr.service.ip
      modifies this`mapInfo, this`mapAddr, this`vRandom, this`nNew, this`vvNew
      ensures Valid() && nId in mapInfo && Find(addr.service.ip) == Some(nId)
              && OthersKept(old(mapInfo), mapInfo, nId, dropped)
      ensures var b := hashes.NewBucket(old(mapInfo)[nId].addr, source);
              && b < |old(vvNew)| && old(mapInfo)[nId].nRefCount >= 0
              && var more := Spreads(RefreshedInfo(old(mapInfo)[nId], addr, nTimePenalty, nNow), addr.nTime, draw);
                 && Refreshed(old(mapInfo)[nId], mapInfo[nId], addr, nTimePenalty, nNow, more && nId !in old(vvNew)[b])
                 && (if more then MadeRoom(old(mapInfo), old(vvNew), vvNew, b, nId, dropped, nNow)
                     else vvNew == old(vvNew) && dropped.None?)
    {
      hide Tables.Consistent, Find, Dropped, Enlisted, Outdated, Displaced, MadeRoom, RefreshedInfo, Spreads;
      BucketSizes(hashes, T(), -1, 0, 0);
      HeldIsKnown(hashes, T(), -1, 0, hashes.NewBucket(mapInfo[nId].addr, source));
      var more := Refresh(nId, addr, nTimePenalty, nNow, draw);
      dropped := None;
      if more {
        Relax(hashes, T(), nId);
        BucketSizes(hashes, T(), nId, 0, 0);
        ghost var infos, there := mapInfo, nId in vvNew[hashes.NewBucket(mapInfo[nId].addr, source)];
        dropped := AddToBucket(nId, source, nNow);
        EnlistedKeeps(old(mapInfo), infos, mapInfo, nId, there, dropped);
        RoomSame(infos, old(mapInfo), old(vvNew), vvNew, hashes.NewBucket(infos[nId].addr, source), nId, dropped, nNow);
      }
    }

    // `Add_` for a new address.
    method AddUnknown(addr: Address, source: NetAddr, nTimePenalty: int, nNow: int) returns (ghost dropped: Option<Id>)
      requires Valid() && addr.service.ip !in mapAddr
      modifies this`nIdCount, this`mapInfo, this`mapAddr, this`vRandom, this`nNew, this`vvNew
      ensures Valid() && Find(addr.service.ip) == Some(old(nIdCount)) && nIdCount == old(nIdCount) + 1
      ensures var nId := old(nIdCount);
              && OthersKept(old(mapInfo), mapInfo, nId, dropped) && nId in mapInfo
              && MadeRoom(old(mapInfo), old(vvNew), vvNew, hashes.NewBucket(addr.service, source), nId, dropped, nNow)
              && mapInfo[nId] == AddrInfo(addr.service, addr.services, Max(0, addr.nTime - nTimePenalty), source,
                                          0, 0, 0, 1, false, mapInfo[nId].nRandomPos)
    {
      hide Tables.Consistent, Find, Dropped, Enlisted, OthersKept, Displaced, MadeRoom;
      BucketSizes(hashes, T(), -1, 0, 0);
      HeldIsKnown(hashes, T(), -1, 0, hashes.NewBucket(addr.service, source));
      var nId := CreateEntry(addr, source, nTimePenalty);
      CountedNowhere(hashes, T(), nId);
      BucketSizes(hashes, T(), nId, 0, 0);
      ghost var infos := mapInfo;
      dropped := AddToBucket(nId, source, nNow);
      EnlistedKeeps(old(mapInfo), infos, mapInfo, nId, false, dropped);
      RoomSame(infos, old(mapInfo), old(vvNew), vvNew, hashes.NewBucket(addr.service, source), nId, dropped, nNow);
      BucketSizes(hashes, T(), -1, 0, 0);
    }

    // The first half of `MakeTried`: the entry leaves every "new" bucket it is in.
    method LeaveNew(nId: Id)
      requires Valid() && nId in mapInfo && !mapInfo[nId].fInTried
      modifies this`mapInfo, this`vvNew
      ensures T().Consistent(hashes, nId, 0) && mapInfo == old(mapInfo)[nId := old(mapInfo)[nId].(nRefCount := 0)]
      ensures Without(old(vvNew), vvNew, nId, |old(vvNew)|)
    {
      hide Tables.Consistent, Refs, Without;
      ghost var t := T();
      CountIsRefs(hashes, t, nId);
      WithoutStart(vvNew, nId);
      for b := 0 to |vvNew|
        invariant |vvNew| == |t.untried| && Without(t.untried, vvNew, nId, b)
        invariant mapInfo == t.infos[nId := t.infos[nId].(nRefCount := Refs(vvNew, nId))]
      {
        WithoutStep(t.untried, vvNew, nId, b);
        if nId in vvNew[b] {
          RefsRemove(vvNew, b, nId);
          vvNew := vvNew[b := vvNew[b] - {nId}];
          mapInfo := mapInfo[nId := mapInfo[nId].(nRefCount := mapInfo[nId].nRefCount - 1)];
        }
      }
      WithoutNone(t.untried, vvNew, nId);
      Withdraw(hashes, t, nId, vvNew);
    }

    // A position to evict from a "tried" bucket: the one from which the entry with the least recent success of those
    // drawn was taken. `random` has the generator's answers.
    method SelectTried(nKBucket: nat, random: nat -> nat, ghost p: int) returns (nOldestPos: nat, ghost a: nat)
      requires T().Consistent(hashes, p, 0) && nKBucket < |vvTried| && |vvTried[nKBucket]| > 0
      modifies this`vvTried
      ensures T().Consistent(hashes, p, 0)
      ensures var bucket := old(vvTried)[nKBucket];
              var draws := Draws(random, |bucket|, Inspections(|bucket|));
              && vvTried == old(vvTried)[nKBucket := AfterDraws(bucket, draws)]
              && FirstLeast(mapInfo, DrawnEntries(bucket, draws), a) && nOldestPos == draws[a]
    {
      hide Tables.Consistent, FirstLeast, AfterDraws, DrawnEntries, Swapped, Drawn, Draw, Fits;
      ghost var bucket := vvTried[nKBucket];
      var size := |vvTried[nKBucket]|;
      var nOldest: Option<Id> := None;
      nOldestPos, a := 0, 0;
      DrawsStart(bucket);
      var i := 0;
      while i < INSPECTED && i < |vvTried[nKBucket]|
        invariant T().Consistent(hashes, p, 0) && i <= Inspections(size) && |vvTried| == |old(vvTried)|
        invariant vvTried == old(vvTried)[nKBucket := AfterDraws(bucket, Draws(random, size, i))]
        invariant i == 0 ==> nOldest.None? && DrawnEntries(bucket, Draws(random, size, i)) == []
        invariant i > 0 ==>
                    && a < i && nOldest == Some(DrawnEntries(bucket, Draws(random, size, i))[a])
                    && nOldest.value in mapInfo
                    && FirstLeast(mapInfo, DrawnEntries(bucket, Draws(random, size, i)), a)
                    && nOldestPos == Draws(random, size, i)[a]
        decreases INSPECTED - i
      {
        var nPos := Draw(random, size, i);
        var nTemp := vvTried[nKBucket][nPos];
        ghost var draws := Draws(random, size, i);
        NextDraw(bucket, draws, nPos);
        SwapTried(hashes, T(), p, 0, nKBucket, i, nPos);
        TriedSizes(hashes, T(), p, 0, nKBucket);
        DrawnIsSwap(old(vvTried), vvTried, nKBucket, i, nPos);
        vvTried := Swapped(vvTried, nKBucket, i, nPos);
        if nOldest.None? || mapInfo[nTemp].nLastSuccess < mapInfo[nOldest.value].nLastSuccess {
          OneMoreDrawn(mapInfo, DrawnEntries(bucket, draws), nTemp, a, i);
          nOldest := Some(nTemp);
          nOldestPos, a := nPos, i;
        } else {
          OneMoreDrawn(mapInfo, DrawnEntries(bucket, draws), nTemp, a, a);
        }
        i := i + 1;
      }
    }

    // Move an untried entry to its "tried" bucket; from a full bucket one entry goes back to a "new" bucket.
    method MakeTried(nId: Id, nOrigin: nat, random: nat -> nat) returns (ghost evicted: Option<Id>)
      requires Valid() && nId in mapInfo && !mapInfo[nId].fInTried && mapInfo[nId].nLastSuccess != 0
      requires nOrigin < |vvNew| && nId in vvNew[nOrigin]
      modifies this`mapInfo, this`vvNew, this`vvTried, this`nNew, this`nTried
      ensures Valid() && mapInfo.Keys == old(mapInfo).Keys
      ensures mapInfo[nId] == old(mapInfo)[nId].(fInTried := true, nRefCount := 0)
      ensures forall x | x in mapInfo && x != nId && Some(x) != evicted :: mapInfo[x] == old(mapInfo)[x]
      ensures evicted.Some? ==> evicted.value in mapInfo && old(mapInfo)[evicted.value].fInTried
                                && mapInfo[evicted.value]
                                   == old(mapInfo)[evicted.value].(fInTried := false, nRefCount := 1)
      ensures var k := hashes.TriedBucket(old(mapInfo)[nId].addr);
              && k < |old(vvTried)| && (evicted.Some? <==> |old(vvTried)[k]| == TRIED_BUCKET_SIZE)
              && (evicted.Some? ==> Evicts(old(mapInfo), old(vvTried)[k], random, evicted.value))
              && (evicted.None? ==> vvTried == old(vvTried)[k := old(vvTried)[k] + [nId]])
    {
      hide Tables.Consistent, Evicts, Without;
      BucketSizes(hashes, T(), -1, 0, nOrigin);
      LeaveNew(nId);
      WithoutSmaller(old(vvNew), vvNew, nId, nOrigin);
      nNew := nNew - 1;
      var nKBucket := hashes.TriedBucket(mapInfo[nId].addr);
      ghost var t := T().(nNew := nNew + 1);
      TriedSizes(hashes, t, nId, 0, nKBucket);
      if |vvTried[nKBucket]| < TRIED_BUCKET_SIZE {
        Promote(hashes, t, nId, nKBucket);
        vvTried := vvTried[nKBucket := vvTried[nKBucket] + [nId]];
        nTried := nTried + 1;
        mapInfo := mapInfo[nId := mapInfo[nId].(fInTried := true)];
        evicted := None;
      } else {
        nNew := nNew + 1;
        ghost var out := EvictFor(nId, nOrigin, nKBucket, random);
        SameEviction(t.infos, old(mapInfo), t.tried[nKBucket], random, out);
        evicted := Some(out);
      }
    }

    // The eviction in `MakeTried`; the count of "new" entries goes down and up again.
    method EvictFor(nId: Id, nOrigin: nat, nKBucket: nat, random: nat -> nat) returns (ghost evicted: Id)
      requires T().Consistent(hashes, nId, 0) && nId in mapInfo && !mapInfo[nId].fInTried && mapInfo[nId].nRefCount == 0
      requires mapInfo[nId].nLastSuccess != 0 && nKBucket == hashes.TriedBucket(mapInfo[nId].addr)
      requires nOrigin < |vvNew| && |vvNew[nOrigin]| < NEW_BUCKET_SIZE
      requires nKBucket < |vvTried| && |vvTried[nKBucket]| > 0
      modifies this`mapInfo, this`vvNew, this`vvTried
      ensures Valid() && evicted in old(mapInfo) && evicted != nId
      ensures old(mapInfo)[evicted].fInTried && mapInfo == Exchanged(old(mapInfo), nId, evicted)
      ensures Evicts(old(mapInfo), old(vvTried)[nKBucket], random, evicted)
      ensures var own := hashes.NewBucket(old(mapInfo)[evicted].addr, old(mapInfo)[evicted].source);
              var target := if own < |old(vvNew)| && |old(vvNew)[own]| < NEW_BUCKET_SIZE then own else nOrigin;
              vvNew == old(vvNew)[target := old(vvNew)[target] + {evicted}]
    {
      hide Tables.Consistent, FirstLeast, AfterDraws, DrawnEntries;
      ghost var a;
      var nPos;
      nPos, a := SelectTried(nKBucket, random, nId);
      LeastMeans(mapInfo, DrawnEntries(old(vvTried)[nKBucket],
                                       Draws(random, |vvTried[nKBucket]|, Inspections(|vvTried[nKBucket]|))), a);
      var out := vvTried[nKBucket][nPos];
      TriedSizes(hashes, T(), nId, 0, nKBucket);
      var nUBucket := hashes.NewBucket(mapInfo[out].addr, mapInfo[out].source);
      BucketSizes(hashes, T(), nId, 0, nUBucket);
      // A full bucket sends the entry to the bucket that `nId` came from, where there is room.
      var target := if |vvNew[nUBucket]| < NEW_BUCKET_SIZE then nUBucket else nOrigin;
      Exchange(hashes, T(), nId, nKBucket, nPos, target);
      mapInfo := mapInfo[out := mapInfo[out].(fInTried := false, nRefCount := 1)];
      vvNew := vvNew[target := vvNew[target] + {out}];
      vvTried := Replaced(vvTried, nKBucket, nPos, nId);
      mapInfo := mapInfo[nId := mapInfo[nId].(fInTried := true)];
      evicted := out;
    }

    // The search in `Good_` for a bucket the entry is in, from a random bucket on and around.
    method FindBucket(nId: Id) returns (nUBucket: nat)
      requires Valid() && nId in mapInfo && !mapInfo[nId].fInTried
      ensures nUBucket < |vvNew| && nId in vvNew[nUBucket]
    {
      hide Tables.Consistent;
      BucketSizes(hashes, T(), -1, 0, 0);
      UntriedIsSomewhere(hashes, T(), nId);
      ghost var there :| 0 <= there < |vvNew| && nId in vvNew[there];
      var nRnd :| 0 <= nRnd < |vvNew|;
      // Going around once meets every bucket, so the search cannot come to nothing.
      ghost var steps := if there >= nRnd then there - nRnd else there - nRnd + |vvNew|;
      assert Around(steps, nRnd, |vvNew|) == there;
      for n := 0 to |vvNew|
        invariant forall m | 0 <= m < n :: nId !in vvNew[Around(m, nRnd, |vvNew|)]
      {
        var nB := Around(n, nRnd, |vvNew|);
        if nId in vvNew[nB] {
          return nB;
        }
      }
      assert false;
    }

    // Mark an address as accessible; the time is that of a connection, so it is positive.
    method Good_(addr: Service, nTime: int, random: nat -> nat) returns (ghost evicted: Option<Id>)
      requires Valid() && nTime > 0
      modifies this`mapInfo, this`vvNew, this`vvTried, this`nNew, this`nTried
      ensures Valid() && mapInfo.Keys == old(mapInfo).Keys
      ensures var found := old(Find(addr.ip));
              if found.None? || old(mapInfo)[found.value].addr != addr then T() == old(T()) && evicted.None?
              else
                && mapInfo[found.value] == old(mapInfo)[found.value].(nLastSuccess := nTime, nLastTry := nTime,
                                                                      nTime := nTime,
                                                                    nAttempts := 0, fInTried := true, nRefCount := 0)
                && (forall x | x in mapInfo && x != found.value && Some(x) != evicted :: mapInfo[x] == old(mapInfo)[x])
                && hashes.TriedBucket(addr) < |old(vvTried)|
                && (evicted.Some? <==>
                      !old(mapInfo)[found.value].fInTried
                        && |old(vvTried)[hashes.TriedBucket(addr)]| == TRIED_BUCKET_SIZE)
                && (evicted.None? ==>
                      vvTried == if old(mapInfo)[found.value].fInTried then old(vvTried)
                                 else old(vvTried)[hashes.TriedBucket(addr) :=
                                                   old(vvTried)[hashes.TriedBucket(addr)] + [found.value]])
      ensures evicted.Some? ==> evicted.value in mapInfo && old(mapInfo)[evicted.value].fInTried
                                && mapInfo[evicted.value]
                                   == old(mapInfo)[evicted.value].(fInTried := false, nRefCount := 1)
                                && Evicts(old(mapInfo), old(vvTried)[hashes.TriedBucket(addr)], random, evicted.value)
    {
      hide Tables.Consistent, Find, Evicts;
      evicted := None;
      var found := Find(addr.ip);
      if found.None? || mapInfo[found.value].addr != addr {
        return;
      }
      var nId := found.value;
      CountsBounded(hashes, T(), nId);
      TriedSizes(hashes, T(), -1, 0, hashes.TriedBucket(addr));
      var info := mapInfo[nId].(nLastSuccess := nTime, nLastTry := nTime, nTime := nTime, nAttempts := 0);
      UpdateStats(hashes, T(), -1, 0, nId, info);
      mapInfo := mapInfo[nId := info];
      if info.fInTried {
        return;
      }
      var nUBucket := FindBucket(nId);
      ghost var infos := mapInfo;
      evicted := MakeTried(nId, nUBucket, random);
      if evicted.Some? {
        SameEviction(infos, old(mapInfo), old(vvTried)[hashes.TriedBucket(addr)], random, evicted.value);
      }
    }

    method Attempt_(addr: Service, nTime: int)
      requires Valid() && nTime >= 0
      modifies this`mapInfo
      ensures Valid()
      ensures var found := old(Find(addr.ip));
              mapInfo == if found.None? || old(mapInfo)[found.value].addr != addr then old(mapInfo)
                         else old(mapInfo)[found.value := old(mapInfo)[found.value].(
                                nLastTry := nTime, nAttempts := old(mapInfo)[found.value].nAttempts + 1)]
    {
      hide Tables.Consistent, Find;
      var found := Find(addr.ip);
      if found.Some? && mapInfo[found.value].addr == addr {
        CountsBounded(hashes, T(), found.value);
        var info := mapInfo[found.value].(nLastTry := nTime, nAttempts := mapInfo[found.value].nAttempts + 1);
        UpdateStats(hashes, T(), -1, 0, found.value, info);
        mapInfo := mapInfo[found.value := info];
      }
    }

    method Connected_(addr: Service, nTime: int)
      requires Valid()
      modifies this`mapInfo
      ensures Valid()
      ensures var found := old(Find(addr.ip));
              mapInfo == if found.None? || old(mapInfo)[found.value].addr != addr
                            || nTime - old(mapInfo)[found.value].nTime <= 20 * 60
                         then old(mapInfo)
                         else old(mapInfo)[found.value := old(mapInfo)[found.value].(nTime := nTime)]
    {
      hide Tables.Consistent, Find;
      var found := Find(addr.ip);
      if found.Some? && mapInfo[found.value].addr == addr && nTime - mapInfo[found.value].nTime > 20 * 60 {
        CountsBounded(hashes, T(), found.value);
        var info := mapInfo[found.value].(nTime := nTime);
        UpdateStats(hashes, T(), -1, 0, found.value, info);
        mapInfo := mapInfo[found.value := info];
      }
    }

    // One step of the shuffle in `GetAddr_`: a random later entry moves to position `n`.
    method ShuffleOne(n: nat)
      requires Valid() && n < |vRandom|
      modifies this`mapInfo, this`vRandom
      ensures Valid() && Reordered(old(mapInfo), mapInfo) && mapInfo.Keys == old(mapInfo).Keys
      ensures |vRandom| == |old(vRandom)| && vRandom[..n] == old(vRandom)[..n] && vRandom[n] in mapInfo
    {
      hide Tables.Consistent, Reordered;
      var nRndPos :| n <= nRndPos < |vRandom|;
      ghost var t := T();
      OrderIsShuffled(hashes, t);
      SwapRandom(n, nRndPos);
      ReorderKeeps(hashes, t, mapInfo, vRandom);
      OrderIsShuffled(hashes, T());
    }

    // A random selection of addresses: distinct entries, as many as the percentage and the cap allow.
    method GetAddr_() returns (vAddr: seq<Address>, ghost chosen: seq<Id>)
      requires Valid()
      modifies this`mapInfo, this`vRandom
      ensures Valid() && Reordered(old(mapInfo), mapInfo) && mapInfo.Keys == old(mapInfo).Keys
      ensures |vAddr| == |chosen| == Min(GETADDR_MAX_PCT * |vRandom| / 100, GETADDR_MAX)
      ensures NoRepeats(chosen)
      ensures forall i | 0 <= i < |chosen| ::
                chosen[i] in mapInfo
                && var info := mapInfo[chosen[i]];
                   vAddr[i].service == info.addr && vAddr[i].services == info.services && vAddr[i].nTime == info.nTime
    {
      hide Tables.Consistent, Reordered;
      var nNodes := Min(GETADDR_MAX_PCT * |vRandom| / 100, GETADDR_MAX);
      vAddr := [];
      ReorderedSelf(mapInfo);
      for n := 0 to nNodes
        invariant Valid() && mapInfo.Keys == old(mapInfo).Keys && Reordered(old(mapInfo), mapInfo)
        invariant |vRandom| == |old(vRandom)| && |vAddr| == n
        invariant forall i | 0 <= i < n :: vRandom[i] in mapInfo && vAddr[i] == Announced(mapInfo[vRandom[i]])
      {
        ghost var infos := mapInfo;
        ShuffleOne(n);
        ReorderedTrans(old(mapInfo), infos, mapInfo);
        vAddr := vAddr + [Announced(mapInfo[vRandom[n]])];
        forall i | 0 <= i < n ensures vRandom[i] in mapInfo && vAddr[i] == Announced(mapInfo[vRandom[i]]) {
          ReorderedAt(infos, mapInfo, vRandom[i]);
        }
      }
      OrderIsShuffled(hashes, T());
      chosen := vRandom[..nNodes];
    }

    // Write all tables to disk.
    method Serialize() returns (d: Dump)
      requires Valid()
      ensures Encodes(T(), d) && d.hashes == hashes
    {
      d := AddrDump.Serialize(Tables(nIdCount, mapInfo, mapAddr, vRandom, nTried, vvTried, nNew, vvNew), hashes);
    }

    // Read what some consistent manager, with tables `t`, has written; whatever was here before goes.
    method Deserialize(d: Dump, ghost t: Tables) returns (nLost: int)
      requires t.Consistent(d.hashes, -1, 0) && Encodes(t, d)
      modifies this
      ensures Valid() && hashes == d.hashes && nLost == 0 && CopyOf(t, T(), DiskOrder(t))
    {
      hide Tables.Consistent, Encodes, CopyOf, DiskOrder;
      var c;
      c, nLost := AddrDump.Deserialize(d, t);
      hashes := d.hashes;
      nIdCount, mapInfo, mapAddr, vRandom := c.nIdCount, c.infos, c.addrs, c.order;
      nTried, vvTried, nNew, vvNew := c.nTried, c.tried, c.nNew, c.untried;
    }
  }

  // The part of an entry that is an announced address.
  function Announced(info: AddrInfo): Address {
    Address(info.addr, info.services, info.nTime)
  }

  // What announcing a known entry again makes of it, apart from a further reference.
  ghost function RefreshedInfo(before: AddrInfo, addr: Address, nTimePenalty: int, nNow: int): AddrInfo {
    before.(services := before.services + addr.services,
            nTime := if Outdated(before.nTime, addr.nTime, nTimePenalty, nNow) then Max(0, addr.nTime - nTimePenalty)
                     else before.nTime)
  }

  // What a known entry is after it was announced again, with or without a further reference.
  ghost predicate Refreshed(before: AddrInfo, after: AddrInfo, addr: Address, nTimePenalty: int, nNow: int,
                            counted: bool)
  {
    after == RefreshedInfo(before, addr, nTimePenalty, nNow).(
               nRefCount := before.nRefCount + (if counted then 1 else 0), nRandomPos := after.nRandomPos)
  }

  // A known entry is referenced once more when the announcement is news and it has room for references; with every
  // reference it has, the chance is halved.
  predicate Spreads(info: AddrInfo, announced: int, draw: nat)
    requires info.nRefCount >= 0
  {
    && announced != 0 && (info.nTime == 0 || info.nTime < announced)
    && !info.fInTried && info.nRefCount < NEW_BUCKETS_PER_ADDRESS && draw % Pow2(info.nRefCount) == 0
  }

  // An entry that makes room in a full bucket: a terrible one, or when there is none the oldest of four.
  ghost predicate Displaced(infos: Infos, bucket: set<Id>, d: Id, nNow: int) {
    && d in bucket && d in infos
    && (infos[d].IsTerrible(nNow)
        || (NoneTerrible(infos, bucket, nNow) && exists picks :: OldestOf(infos, bucket, picks, d)))
  }

  // Bucket `b` now holds `nId`. Only where it was full and did not hold it before, another entry has gone.
  ghost predicate MadeRoom(infos: Infos, before: NewBuckets, after: NewBuckets, b: nat, nId: Id, dropped: Option<Id>,
                           nNow: int)
  {
    && b < |before|
    && after == before[b := before[b] - (if dropped.Some? then {dropped.value} else {}) + {nId}]
    && (dropped.Some? <==> nId !in before[b] && |before[b]| == NEW_BUCKET_SIZE)
    && (dropped.Some? ==> Displaced(infos, before[b], dropped.value, nNow))
  }

  lemma WasIn(infos: Infos, buckets: NewBuckets, b: nat, nId: Id, nNow: int)
    requires nId in infos && b < |buckets| && nId in buckets[b]
    ensures Enlisted(infos, infos, nId, true, None) && MadeRoom(infos, buckets, buckets, b, nId, None, nNow)
  {
    assert buckets[b] - {} + {nId} == buckets[b];
  }

  lemma WentIn(infos: Infos, counted: Infos, infos': Infos, before: NewBuckets, after: NewBuckets, b: nat, nId: Id,
               dropped: Option<Id>, nNow: int)
    requires nId in infos && counted == infos[nId := infos[nId].(nRefCount := infos[nId].nRefCount + 1)]
    requires b < |before| && nId !in before[b]
    requires if dropped.None? then infos' == counted && after == before[b := before[b] + {nId}]
             else dropped.value != nId && Dropped(counted, infos', dropped.value)
                  && Displaced(infos, before[b], dropped.value, nNow)
                  && after == before[b := before[b] - {dropped.value} + {nId}]
    requires dropped.Some? <==> |before[b]| == NEW_BUCKET_SIZE
    ensures Enlisted(infos, infos', nId, false, dropped) && MadeRoom(infos, before, after, b, nId, dropped, nNow)
  {
    hide Dropped, Displaced;
    assert before[b] - {} == before[b];
  }

  lemma DisplacedSame(infos: Infos, counted: Infos, bucket: set<Id>, nId: Id, d: Id, picks: seq<Id>, nNow: int)
    requires nId !in bucket && forall x | x in bucket :: x in infos && x in counted && counted[x] == infos[x]
    requires d in bucket
    requires counted[d].IsTerrible(nNow)
             || (NoneTerrible(counted, bucket, nNow) && OldestOf(counted, bucket, picks, d))
    ensures Displaced(infos, bucket, d, nNow)
  {
    if !counted[d].IsTerrible(nNow) {
      assert OldestOf(infos, bucket, picks, d);
    }
  }

  // Only entries of the bucket matter, and `nId` is not among them when another one goes.
  lemma RoomSame(infos: Infos, infos': Infos, before: NewBuckets, after: NewBuckets, b: nat, nId: Id,
                 dropped: Option<Id>, nNow: int)
    requires MadeRoom(infos, before, after, b, nId, dropped, nNow)
    requires forall x | x in before[b] && x != nId :: x in infos && x in infos' && infos'[x] == infos[x]
    ensures MadeRoom(infos', before, after, b, nId, dropped, nNow)
  {
    if dropped.Some? {
      var d, bucket := dropped.value, before[b];
      assert Displaced(infos, bucket, d, nNow);
      var picks :| infos[d].IsTerrible(nNow) || OldestOf(infos, bucket, picks, d);
      DisplacedSame(infos', infos, bucket, nId, d, picks, nNow);
    }
  }

  // The entry `nId` went into a bucket, where it was or was not, and `dropped` made room for it.
  ghost predicate Enlisted(before: Infos, after: Infos, nId: Id, there: bool, dropped: Option<Id>)
    requires nId in before
  {
    var counted := before[nId := before[nId].(nRefCount := before[nId].nRefCount + 1)];
    && (there ==> after == before && dropped.None?)
    && (!there && dropped.None? ==> after == counted)
    && (!there && dropped.Some? ==> dropped.value != nId && Dropped(counted, after, dropped.value))
  }

  // All entries but `nId` keep their data, except that `dropped`, which was not tried, has a reference less.
  ghost predicate OthersKept(before: Infos, after: Infos, nId: Id, dropped: Option<Id>) {
    match dropped {
      case None => after.Keys == before.Keys + {nId} && forall x | x in before && x != nId :: after[x] == before[x]
      case Some(d) =>
        && d != nId && d in before && !before[d].fInTried
        && after.Keys == before.Keys + {nId} - (if before[d].nRefCount == 1 then {d} else {})
        && forall x | x in before && x != nId && x in after ::
             after[x] == before[x].(nRandomPos := after[x].nRandomPos,
                                    nRefCount := before[x].nRefCount - (if x == d then 1 else 0))
    }
  }

  lemma EnlistedKeeps(before: Infos, infos: Infos, after: Infos, nId: Id, there: bool, dropped: Option<Id>)
    requires nId in infos && infos.Keys == before.Keys + {nId}
             && (forall x | x in before && x != nId :: infos[x] == before[x])
    requires Enlisted(infos, after, nId, there, dropped)
    ensures OthersKept(before, after, nId, dropped) && nId in after
    ensures after[nId] == infos[nId].(nRandomPos := after[nId].nRandomPos,
                                      nRefCount := infos[nId].nRefCount + if there then 0 else 1)
  {
  }

  // A time is replaced when it is missing or too far behind: by an hour for an address seen today, else by a day.
  predicate Outdated(nTime: int, announced: int, nTimePenalty: int, nNow: int) {
    var slack := if nNow - announced < 24 * 60 * 60 then 60 * 60 else 24 * 60 * 60;
    announced != 0 && (nTime == 0 || nTime + slack + nTimePenalty < announced)
  }

  ghost predicate NoneTerrible(infos: Infos, bucket: set<Id>, nNow: int) {
    forall x | x in bucket :: x in infos && !infos[x].IsTerrible(nNow)
  }

  // Four entries of a bucket, and the one of them with the smallest time.
  ghost predicate OldestOf(infos: Infos, bucket: set<Id>, picks: seq<Id>, oldest: Id) {
    && |picks| == 4 && oldest in picks
    && (forall x | x in picks :: x in bucket && x in infos)
    && (forall x | x in picks :: infos[oldest].nTime <= infos[x].nTime)
  }

  // The bucket that is `n` steps on from `start`, going around.
  function Around(n: nat, start: nat, size: nat): (b: nat)
    requires size > 0
    ensures b < size
  {
    (n + start) % size
  }

  function Max(a: int, b: int): int {
    if a >= b then a else b
  }

}
