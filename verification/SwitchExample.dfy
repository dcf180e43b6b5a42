/**
 A switch to a branch with a failed block, in a node that received its blocks one by one.
 */
module SwitchExample {
  import opened BlockTree
  import opened ChainSelection
  import opened Options
  import opened SwitchLog

  // Block 1 stands against the branch 2, 3, 4, 5, which has more work from block 4 on.
  function Entry(h: Hash): BlockIndex {
    if h == 0 then BlockIndex(None, 0, 1)
    else if h == 1 then BlockIndex(Some(0), 1, 10)
    else if h == 2 then BlockIndex(Some(0), 1, 2)
    else if h == 3 then BlockIndex(Some(2), 2, 3)
    else if h == 4 then BlockIndex(Some(3), 3, 11)
    else BlockIndex(Some(h - 1), h - 1, h + 7)
  }

  // Block 4 breaks a rule, and all others connect.
  function Verdicts(n: nat, a: Ask): Verdict {
    if a == Ask(4, true) then Invalid else Connected
  }

  // The tree of the first `n` blocks.
  ghost predicate Has(t: Tree, n: nat) {
    forall h: Hash :: (h in t <==> h < n) && (h < n ==> t[h] == Entry(h))
  }

  ghost predicate After(s: ChainState, n: nat)
    reads s
  {
    && s.Valid() && s.genesis == 0 && s.world == Verdicts && Has(s.mapBlockIndex, n)
    && s.pindexBest == (if n == 0 then None else if n == 1 then Some(0) else Some(1))
    && (n > 4 ==> 4 in s.Failed())
  }

  lemma LogIs(log: seq<Ask>, from: nat)
    ensures 4 !in Accepted(Verdicts, log) && Broken(Verdicts, log) <= {4}
    ensures Refused(Verdicts, log, from) ==> 4 in Broken(Verdicts, log)
    ensures Refused(Verdicts, log, from) ==> exists i :: from <= i < |log| && log[i] == Ask(4, true)
  {
    if i: nat :| from <= i < |log| && !Verdicts(i, log[i]).Connected? {
      assert log[i] == Ask(4, true);
    }
  }

  lemma PathIs(t: Tree, n: nat, h: Hash)
    requires WellFormed(t, 0) && Has(t, n) && h < n <= 6
    ensures h == 0 ==> Path(t, 0, h) == [0]
    ensures h == 1 ==> Path(t, 0, h) == [0, 1]
    ensures h == 2 ==> Path(t, 0, h) == [0, 2]
    ensures h == 3 ==> Path(t, 0, h) == [0, 2, 3]
    ensures h == 4 ==> Path(t, 0, h) == [0, 2, 3, 4]
    ensures h == 5 ==> Path(t, 0, h) == [0, 2, 3, 4, 5]
  {
    if h > 0 {
      PathIs(t, n, t[h].pprev.value);
    }
  }

  // Only blocks from 4 on can be marked.
  lemma MarkedIs(t: Tree, n: nat, failed: set<Hash>, broken: set<Hash>, h: Hash)
    requires WellFormed(t, 0) && Has(t, n) && n <= 6 && h in t
    requires ForCause(t, failed, broken) && broken <= {4}
    ensures h in failed ==> h >= 4
  {
    if h in failed {
      CauseBelow(t, 0, failed, broken, h);
      PathIs(t, n, h);
    }
  }

  // No branch is too short: block 1 is at height 1, and the branch has no failed block that low.
  lemma LongEnough(t: Tree, n: nat, tip: Option<Hash>, failed: set<Hash>, h: Hash)
    requires WellFormed(t, 0) && Has(t, n) && n <= 6 && h in t && (tip.Some? ==> tip.value in t && tip.value <= 1)
    requires forall x | x in t && x in failed :: x >= 4
    requires h > 0 || tip.None?
    ensures !Short(if tip.None? then [] else Path(t, 0, tip.value), Path(t, 0, h), failed)
  {
    PathIs(t, n, h);
    if tip.Some? {
      PathIs(t, n, tip.value);
    }
  }

  lemma Facts(s: ChainState, n: nat)
    requires s.Valid() && s.genesis == 0 && s.world == Verdicts && Has(s.mapBlockIndex, n) && n <= 6
    ensures forall h | h in s.mapBlockIndex && h in s.Failed() :: h >= 4
    ensures s.pindexBest.Some? ==> s.pindexBest.value < 4
    ensures Refused(Verdicts, s.asked, 0) ==> 4 in s.Failed()
  {
    hide Broken, Accepted, Refused, Path, WellFormed;
    LogIs(s.asked, 0);
    forall h | h in s.mapBlockIndex && h in s.Failed() ensures h >= 4 {
      MarkedIs(s.mapBlockIndex, n, s.Failed(), Broken(Verdicts, s.asked), h);
    }
    if s.pindexBest.Some? {
      PathIs(s.mapBlockIndex, n, s.pindexBest.value);
      assert 4 !in s.PathTo(s.pindexBest);
    }
  }

  lemma {:induction false} ClimbIs(t: Tree, from: Option<Hash>, switched: seq<Hash>, i: nat)
    requires (from.Some? ==> from.value in t) && Climbing(t, from, switched) && i < |switched|
    ensures TipWork(t, from) < t[switched[i]].chainWork
  {
    if i > 0 {
      ClimbIs(t, from, switched, i - 1);
    }
  }

  lemma NotStuck(s: ChainState, n: nat)
    requires s.Valid() && s.genesis == 0 && Has(s.mapBlockIndex, n) && n <= 6
    requires forall h | h in s.mapBlockIndex && h in s.Failed() :: h >= 4
    requires s.pindexBest.Some? ==> s.pindexBest.value <= 1
    ensures !s.Stuck()
  {
    hide Path, WellFormed;
    forall h | h in s.mapBlockIndex && TipWork(s.mapBlockIndex, s.pindexBest) < s.mapBlockIndex[h].chainWork
      ensures !s.TooShort(h)
    {
      LongEnough(s.mapBlockIndex, n, s.pindexBest, s.Failed(), h);
    }
  }

  // What one more block leads to.
  lemma TipIs(s: ChainState, n: nat, tip: Option<Hash>, ok: bool)
    requires s.Valid() && s.genesis == 0 && s.world == Verdicts && Has(s.mapBlockIndex, n + 1) && n < 6
    requires tip == if n == 0 then None else if n == 1 then Some(0) else Some(1)
    requires TipWork(s.mapBlockIndex, tip) <= TipWork(s.mapBlockIndex, s.pindexBest)
    requires if ok then forall c | c in s.mapBlockIndex && c !in s.Failed() ::
                          s.mapBlockIndex[c].chainWork <= TipWork(s.mapBlockIndex, s.pindexBest)
             else Refused(Verdicts, s.asked, 0) || s.Stuck()
    ensures s.pindexBest == if n == 0 then Some(0) else Some(1)
    ensures n == 4 ==> 4 in s.Failed()
  {
    hide Broken, Accepted, Refused, Path, WellFormed, ChainState.Stuck;
    Facts(s, n + 1);
    var t := s.mapBlockIndex;
    assert forall h | h in t :: h <= n && t[h] == Entry(h);
    assert 0 in t && (n >= 1 ==> 1 in t) && (4 in t <==> n >= 4);
    assert s.Failed() <= t.Keys;
    NotStuck(s, n + 1);
  }

  method AddNext(s: ChainState, n: nat)
    requires After(s, n) && n < 6
    modifies s
    ensures After(s, n + 1)
  {
    hide Broken, Accepted, Refused, Path, WellFormed, ChainState.Valid, ChainState.Failed, ChainState.Stuck;
    var work := if n == 0 then 1 else if n == 1 then 9 else if n == 4 then 8 else 1;
    var ok;
    ghost var switched;
    ghost var tip, log := s.pindexBest, s.asked;
    assert Entry(n).pprev.Some? ==> Entry(n).pprev.value < n;
    ok, switched := s.AcceptBlock(n, Entry(n).pprev, work);
    Extended(old(s.mapBlockIndex), s.mapBlockIndex, s.works, n, work);
    if switched != [] {
      ClimbIs(s.mapBlockIndex, tip, switched, |switched| - 1);
    }
    RefusedSince(s.asked, |log|);
    TipIs(s, n, tip, ok);
  }

  lemma Extended(before: Tree, after: Tree, works: Works, n: nat, work: nat)
    requires Has(before, n) && n < 6 && work == if n == 0 then 1 else if n == 1 then 9 else if n == 4 then 8 else 1
    requires after.Keys == before.Keys + {n} && after[n].pprev == Entry(n).pprev
    requires forall h | h in before :: after[h] == before[h]
    requires WellFormed(after, 0) && Weighed(after, 0, works) && n in works && works[n] == work
    ensures Has(after, n + 1)
  {
    hide WellFormed, Weighed, Path;
    WeighedStep(after, 0, works, n);
    HeightIs(after, n);
    if n > 0 {
      assert Entry(n).pprev.value in before;
    }
    assert after[n] == Entry(n);
  }

  lemma HeightIs(t: Tree, h: Hash)
    requires WellFormed(t, 0) && h in t
    ensures if h == 0 then t[h].height == 0
            else t[h].pprev.Some? && t[h].pprev.value in t && t[h].height == t[t[h].pprev.value].height + 1
  {
  }

  lemma RefusedSince(log: seq<Ask>, from: nat)
    ensures Refused(Verdicts, log, from) ==> Refused(Verdicts, log, 0)
  {
  }

  // The switch to block 5: the branch is long enough, has a failed block, and block 4 is not asked about.
  lemma SwitchIs(s: ChainState)
    requires After(s, 6)
    ensures !s.TooShort(5) && !s.CleanBranch(5)
  {
    hide Broken, Accepted, Refused, Path, WellFormed;
    Facts(s, 6);
    assert 5 in s.mapBlockIndex && 1 in s.mapBlockIndex;
    LongEnough(s.mapBlockIndex, 6, s.pindexBest, s.Failed(), 5);
    PathIs(s.mapBlockIndex, 6, 5);
    PathIs(s.mapBlockIndex, 6, 1);
    assert 4 in s.PathTo(Some(5)) && 4 !in s.PathTo(s.pindexBest);
  }

  lemma FourNotAsked(log: seq<Ask>, from: nat, p: seq<Hash>, q: seq<Hash>, failed: set<Hash>)
    requires AboutBranch(log, from, p, q, failed) && 4 in failed
    ensures !Refused(Verdicts, log, from)
  {
  }

  method Blocks() returns (s: ChainState)
    ensures fresh(s) && After(s, 6)
  {
    hide Broken, Accepted, Path, WellFormed, ChainState.Valid, ChainState.Failed;
    s := new ChainState(0, Verdicts);
    for n := 0 to 6
      invariant After(s, n) && fresh(s)
    {
      AddNext(s, n);
    }
  }

  // Block 4 has failed and block 5 lies above it. A switch to block 5 connects blocks 2 and 3 only and succeeds.
  method FailedBranchBreaksVector() returns (s: ChainState, ok: bool)
    ensures s.Indexed() && ok && s.pindexBest == Some(5) && !s.Valid()
    ensures !Follows(s.vBlockIndexByHeight, s.PathTo(s.pindexBest))
  {
    hide Broken, Accepted, Refused, AboutBranch, Path, WellFormed, Follows;
    hide ChainState.Valid, ChainState.Failed, ChainState.TooShort, ChainState.CleanBranch;
    s := Blocks();
    SwitchIs(s);
    assert 5 in s.mapBlockIndex;
    ghost var before, p, q, failed := |s.asked|, s.PathTo(s.pindexBest), s.PathTo(Some(5)), s.Failed();
    ok := s.SetBestChain(5);
    FourNotAsked(s.asked, before, p, q, failed);
  }
}
