/**
 Which entries of the address manager are terrible, that is, the first to be dropped from a full
 bucket: said of the operations that an entry went through.
 */
module AddrQuality {
  import opened AddrMan
  import opened AddrTables
  import opened Options
  import opened TriedDraws

  const MINUTE: int := 60
  const WEEK: int := 604800
  const THIRTY_DAYS: int := 2592000

  // Tried in the last minute.
  predicate JustTried(nLastTry: int, nNow: int) {
    nLastTry != 0 && nLastTry >= nNow - MINUTE
  }

  // Seen neither too long ago nor in the future.
  predicate SeenLately(nTime: int, nNow: int) {
    nTime != 0 && nNow - THIRTY_DAYS <= nTime <= nNow + 10 * MINUTE
  }

  // More failures and an older time never make an entry better, and an entry whose time is not in the future
  // gets no better by waiting.
  lemma TerribleStays(info: AddrInfo, nAttempts: int, nTime: int, nNow: int, later: int)
    requires info.IsTerrible(nNow) && info.nTime <= nNow + 10 * MINUTE
    requires info.nAttempts <= nAttempts && 0 <= nTime <= info.nTime && nNow <= later
    ensures info.(nAttempts := nAttempts, nTime := nTime).IsTerrible(later)
  {
  }

  // An announced address is afterwards at most an hour behind what was announced today, a day behind what was announced
  // before, and the penalty. Its time is never set back, moves by more than that hour or day, and is taken over at once
  // when there was none.
  lemma RefreshedTime(info: AddrInfo, addr: Address, nTimePenalty: int, nNow: int)
    requires info.nTime >= 0 && addr.nTime >= 0 && nTimePenalty >= 0
    ensures var before, after := info.nTime, RefreshedInfo(info, addr, nTimePenalty, nNow).nTime;
            var slack := if nNow - addr.nTime < 86400 then 3600 else 86400;
            && (addr.nTime != 0 ==> after >= addr.nTime - nTimePenalty - slack)
            && (addr.nTime != 0 && before == 0 ==> after >= addr.nTime - nTimePenalty)
            && (after == before || before == 0 || after > before + slack)
            && before <= after && (after <= before || after <= addr.nTime - nTimePenalty)
  {
  }

  // A number of attempts to connect to an address, at any times.
  method AttemptAll(m: AddrMan, addr: Service, ghost id: Id, times: seq<int>)
    requires m.Valid() && m.Find(addr.ip) == Some(id) && m.mapInfo[id].addr == addr
    requires forall i | 0 <= i < |times| :: times[i] >= 0
    modifies m`mapInfo
    ensures m.Valid() && m.mapInfo.Keys == old(m.mapInfo).Keys
    ensures m.mapInfo[id] == old(m.mapInfo)[id].(
                               nLastTry := if times == [] then old(m.mapInfo)[id].nLastTry else times[|times| - 1],
                               nAttempts := old(m.mapInfo)[id].nAttempts + |times|)
  {
    hide Tables.Consistent;
    for i := 0 to |times|
      invariant m.Valid() && m.mapInfo.Keys == old(m.mapInfo).Keys && m.Find(addr.ip) == Some(id)
      invariant m.mapInfo[id] == old(m.mapInfo)[id].(
                                   nLastTry := if i == 0 then old(m.mapInfo)[id].nLastTry else times[i - 1],
                                   nAttempts := old(m.mapInfo)[id].nAttempts + i)
    {
      m.Attempt_(addr, times[i]);
    }
  }

  // An entry that was good at time t and then tried in vain is terrible exactly when the last try is more than a minute
  // ago and t is too long ago: thirty days, or a week after ten vain tries.
  method AfterSuccess(m: AddrMan, addr: Service, t: int, random: nat -> nat, times: seq<int>, nNow: int)
    returns (ghost id: Id)
    requires m.Valid() && 0 < t <= nNow && m.Find(addr.ip).Some? && m.mapInfo[m.Find(addr.ip).value].addr == addr
    requires forall i | 0 <= i < |times| :: times[i] >= 0
    modifies m
    ensures m.Valid() && m.Find(addr.ip) == Some(id) && id in m.mapInfo
    ensures m.mapInfo[id].IsTerrible(nNow)
       <==> && !JustTried(if times == [] then t else times[|times| - 1], nNow)
            && (nNow - t > THIRTY_DAYS || (nNow - t > WEEK && |times| >= 10))
  {
    hide Tables.Consistent, Evicts;
    id := m.Find(addr.ip).value;
    ghost var evicted := m.Good_(addr, t, random);
    AttemptAll(m, addr, id, times);
  }

  // A new entry that was tried in vain is terrible exactly when the last try is more than a minute ago and it was not
  // seen lately or tried three times.
  method AfterLearning(m: AddrMan, addr: Address, source: NetAddr, nTimePenalty: int, learnt: int, draw: nat,
                       times: seq<int>, nNow: int)
    returns (ghost id: Id)
    requires m.Valid() && m.routable(addr.service.ip) && m.Find(addr.service.ip).None?
    requires forall i | 0 <= i < |times| :: times[i] >= 0
    modifies m
    ensures m.Valid() && m.Find(addr.service.ip) == Some(id) && id in m.mapInfo
    ensures m.mapInfo[id].IsTerrible(nNow)
       <==> && (times == [] || !JustTried(times[|times| - 1], nNow))
            && (!SeenLately(if addr.nTime < nTimePenalty then 0 else addr.nTime - nTimePenalty, nNow) || |times| >= 3)
  {
    hide Tables.Consistent, MadeRoom, OthersKept, Refreshed;
    var fNew;
    ghost var dropped;
    fNew, dropped := m.Add_(addr, source, nTimePenalty, learnt, draw);
    id := m.Find(addr.service.ip).value;
    AttemptAll(m, addr.service, id, times);
  }
}
