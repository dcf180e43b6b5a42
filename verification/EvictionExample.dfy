/**
 A full "tried" bucket in which the entry with the most recent success of all is evicted.
 */
module EvictionExample {
  import opened AddrMan
  import opened AddrTables
  import opened Options
  import opened TriedDraws

  // Every address falls into the first bucket of its table.
  function AllInOne(): Hashes {
    Hashes(_ => 0, (_, _) => 0)
  }

  function Numbers(n: nat): (r: seq<Id>)
    ensures |r| == n && forall i | 0 <= i < n :: r[i] == i
  {
    if n == 0 then [] else Numbers(n - 1) + [n - 1]
  }

  // When entry `id` had its success: the later entries the earlier.
  function Success(id: Id): int {
    100 - id
  }

  ghost predicate Tried(infos: Infos, id: Id) {
    id in infos && infos[id].addr == Service(id, 0) && infos[id].fInTried && infos[id].nLastSuccess == Success(id)
  }

  // The first `n` addresses have been learnt and found good one after the other.
  ghost predicate Filled(m: AddrMan, n: nat)
    reads m
  {
    && m.Valid() && m.hashes == AllInOne() && (forall ip :: m.routable(ip)) && m.nIdCount == n
    && (forall id | id in m.mapInfo :: id < n) && (forall id: Id | id < n :: Tried(m.mapInfo, id))
    && |m.vvTried| > 0 && m.vvTried[0] == Numbers(n)
  }

  // A new address next to tried ones.
  method Learn(m: AddrMan, n: nat)
    requires Filled(m, n)
    modifies m
    ensures m.Valid() && m.hashes == AllInOne() && (forall ip :: m.routable(ip)) && m.nIdCount == n + 1
    ensures (forall id | id in m.mapInfo :: id <= n) && (forall id: Id | id < n :: Tried(m.mapInfo, id))
    ensures n in m.mapInfo && m.mapInfo[n].addr == Service(n, 0) && !m.mapInfo[n].fInTried && m.Find(n) == Some(n)
    ensures m.vvTried == old(m.vvTried)
  {
    hide Tables.Consistent, AddrMan.Find;
    var fNew;
    ghost var dropped;
    ghost var before := m.mapInfo;
    assert forall id | id in before :: Tried(before, id);
    assert m.Find(n).None?;
    fNew, dropped := m.Add_(Address(Service(n, 0), {}, 1000), 0, 0, 1000, 0);
    assert dropped.None?;
    forall id: Id | id < n ensures Tried(m.mapInfo, id) {
      assert Tried(before, id);
    }
  }

  method Fill(m: AddrMan, n: nat)
    requires Filled(m, n) && n < TRIED_BUCKET_SIZE
    modifies m
    ensures Filled(m, n + 1)
  {
    hide Tables.Consistent, AddrMan.Find, Evicts;
    Learn(m, n);
    ghost var before := m.mapInfo;
    ghost var evicted := m.Good_(Service(n, 0), Success(n), Answers);
    forall id: Id | id < n + 1 ensures Tried(m.mapInfo, id) {
      assert id < n ==> Tried(before, id);
    }
  }

  method FullManager() returns (m: AddrMan)
    ensures fresh(m) && Filled(m, TRIED_BUCKET_SIZE)
  {
    m := new AddrMan(AllInOne(), _ => true);
    for n := 0 to TRIED_BUCKET_SIZE
      invariant fresh(m) && Filled(m, n)
    {
      Fill(m, n);
    }
  }

  // The generator's answers: the last position first, and then each place itself.
  function Answers(n: nat): nat {
    if n == 0 then 63 else 0
  }

  lemma DrawsAre()
    ensures Draws(Answers, 64, 4) == [63, 1, 2, 3]
  {
  }

  lemma SourcesAre()
    ensures Fits([63, 1, 2, 3], 64) && Source([63, 1, 2, 3], 64, 63) == 0
    ensures DrawnFrom([63, 1, 2, 3], 64, 0) == 63
    ensures forall i | 1 <= i < 4 :: DrawnFrom([63, 1, 2, 3], 64, i) == i
  {
    var draws: seq<nat> := [63, 1, 2, 3];
    assert draws[..3] == [63, 1, 2] && draws[..2] == [63, 1] && draws[..1] == [63] && draws[..0] == [];
    assert draws[..3][..2] == draws[..2] && draws[..2][..1] == draws[..1] && draws[..1][..0] == draws[..0];
    assert Source(draws[..1], 64, 63) == 0;
    assert Source(draws[..2], 64, 63) == 0;
    assert Source(draws[..3], 64, 63) == 0;
    assert forall p | 1 <= p < 4 :: Source(draws[..1], 64, p) == p;
    assert forall p | 2 <= p < 4 :: Source(draws[..2], 64, p) == p;
    assert forall p | 3 <= p < 4 :: Source(draws[..3], 64, p) == p;
  }

  // Entry 63 is drawn first and has the least recent success; entry 0 then is at its old position.
  lemma GivesUpZero(infos: Infos, out: Id)
    requires (forall id: Id | id < 64 :: Tried(infos, id)) && Evicts(infos, Numbers(64), Answers, out)
    ensures out == 0 && !GivesUpOldest(infos, Numbers(64), Answers)
  {
    hide Source, AfterDraws, Draws, Numbers;
    var bucket, draws: seq<nat> := Numbers(64), [63, 1, 2, 3];
    DrawsAre();
    SourcesAre();
    var drawn := DrawnEntries(bucket, draws);
    assert drawn == [63, 1, 2, 3];
    assert Tried(infos, 63) && Tried(infos, 1) && Tried(infos, 2) && Tried(infos, 3);
    assert FirstLeast(infos, drawn, 0);
    forall b: nat | FirstLeast(infos, drawn, b) ensures b == 0 {
      LeastOnce(infos, drawn, 0, b);
    }
    SourceRight(bucket, draws, 63);
  }

  // A success of the next address drives out entry 0, whose success is more recent than that of all the others.
  method EvictsMostRecent(m: AddrMan, nTime: int) returns (ghost evicted: Option<Id>)
    requires Filled(m, TRIED_BUCKET_SIZE) && nTime > 0
    modifies m
    ensures m.Valid() && evicted == Some(0) && 0 in m.mapInfo && !m.mapInfo[0].fInTried
    ensures |old(m.vvTried)[0]| == TRIED_BUCKET_SIZE && 0 in old(m.mapInfo)
    ensures forall x | x in old(m.vvTried)[0] && x != 0 ::
              && x in old(m.mapInfo) && old(m.mapInfo)[x].nLastSuccess < old(m.mapInfo)[0].nLastSuccess
              && x in m.mapInfo && m.mapInfo[x].fInTried
  {
    hide Tables.Consistent, Evicts, AddrMan.Find, Numbers;
    ghost var first := m.mapInfo;
    Learn(m, TRIED_BUCKET_SIZE);
    ghost var before := m.mapInfo;
    evicted := m.Good_(Service(TRIED_BUCKET_SIZE, 0), nTime, Answers);
    GivesUpZero(before, evicted.value);
    assert Tried(first, 0) && Tried(before, 0);
    forall x | x in Numbers(64) ensures x < 64 && Tried(first, x) && Tried(before, x) {
      var i :| 0 <= i < 64 && Numbers(64)[i] == x;
    }
  }

  method FullBucketEvictsMostRecent(nTime: int) returns (m: AddrMan, ghost evicted: Option<Id>)
    requires nTime > 0
    ensures fresh(m) && m.Valid() && evicted == Some(0)
  {
    m := FullManager();
    evicted := EvictsMostRecent(m, nTime);
  }
}
