/**
 Block locators (`CBlockLocator`): a peer's chain described by exponentially
 spaced hashes, from which we find where its branch leaves our main chain.
 */
module Locator {
  import opened Options
  import opened Powers
  import opened BlockTree
  import opened ChainSelection

  // How far below the tip entry k of a locator lies: 0 to 11, then 13, 17, 25, ...
  function Distance(k: nat): nat {
    if k <= 10 then k else 9 + Pow2(k - 10)
  }

  // How far entry k lies above the next one.
  function Step(k: nat): nat {
    if k <= 10 then 1 else Pow2(k - 10)
  }

  lemma FirstEntry()
    ensures Distance(0) == 0 && Step(0) == 1 && forall p :: Entries([], p)
  {
  }

  lemma NextEntry(k: nat)
    ensures Step(k) > 0
    ensures Distance(k + 1) == Distance(k) + Step(k)
    ensures Step(k + 1) == if k >= 10 then 2 * Step(k) else Step(k)
    ensures Distance(k + 1) > 10 <==> k >= 10
    ensures Distance(k + 1) <= 11 || Distance(k + 1) == 2 * Distance(k) - 9
  {
    assert Pow2(0) == 1 && Pow2(1) == 2;
    if k > 10 {
      assert Pow2(k + 1 - 10) == 2 * Pow2(k - 10);
    }
  }

  lemma {:induction false} DistanceGrows(j: nat, k: nat)
    requires j <= k
    ensures Distance(j) + (k - j) <= Distance(k)
    decreases k
  {
    if j < k {
      DistanceGrows(j, k - 1);
      NextEntry(k - 1);
    }
  }

  // The block `d` below the end of a path, if the path is that long.
  ghost function Below(p: seq<Hash>, d: nat): Option<Hash> {
    if d < |p| then Some(p[|p| - 1 - d]) else None
  }

  ghost predicate Entries(have: seq<Hash>, p: seq<Hash>) {
    forall k | 0 <= k < |have| :: Below(p, Distance(k)) == Some(have[k])
  }

  lemma EntryAdded(have: seq<Hash>, p: seq<Hash>, h: Hash)
    requires Entries(have, p) && Below(p, Distance(|have|)) == Some(h)
    ensures Entries(have + [h], p)
  {
  }

  lemma GenesisAdded(have: seq<Hash>, p: seq<Hash>, genesis: Hash)
    requires Entries(have, p) && Below(p, Distance(|have|)) == None
    ensures Locates(have + [genesis], p, genesis)
  {
  }

  // The locator of the chain `p`: the blocks at the distances that fit, then the genesis block.
  ghost predicate Locates(have: seq<Hash>, p: seq<Hash>, genesis: Hash) {
    && |have| > 0 && have[|have| - 1] == genesis
    && (forall k | 0 <= k < |have| - 1 :: Below(p, Distance(k)) == Some(have[k]))
    && Distance(|have| - 1) >= |p|
  }

  class BlockLocator {
    var vHave: seq<Hash>

    constructor (vHaveIn: seq<Hash>)
      ensures vHave == vHaveIn
    {
      vHave := vHaveIn;
    }

    // Follow `pprev` for `nStep` blocks or past the genesis block.
    static method StepBack(t: Tree, from: Option<Hash>, nStep: nat, ghost p: seq<Hash>, ghost d: nat)
      returns (pindex: Option<Hash>)
      requires p == [] || Linked(t, p)
      requires from == Below(p, d)
      ensures pindex == Below(p, d + nStep)
    {
      pindex := from;
      var i := 0;
      while pindex.Some? && i < nStep
        invariant 0 <= i <= nStep && pindex == Below(p, d + i)
      {
        pindex := t[pindex.value].pprev;
        i := i + 1;
      }
    }

    // Describe the chain that ends at `pindex`; no block at all gives the genesis block alone.
    method Set(t: Tree, genesis: Hash, pindexLast: Option<Hash>, ghost p: seq<Hash>)
      requires if pindexLast.None? then p == []
               else WellFormed(t, genesis) && pindexLast.value in t && p == Path(t, genesis, pindexLast.value)
      modifies this
      ensures Locates(vHave, p, genesis)
    {
      hide WellFormed, Path, Linked, Locates, Entries, Distance;
      if pindexLast.Some? {
        PathLinked(t, genesis, pindexLast.value);
      }
      Collect(t, pindexLast, p);
      GenesisAdded(vHave, p, genesis);
      vHave := vHave + [genesis];
    }

    // The entries that lie on the chain.
    method Collect(t: Tree, pindexLast: Option<Hash>, ghost p: seq<Hash>)
      requires p == [] || Linked(t, p)
      requires pindexLast == Below(p, 0)
      modifies this
      ensures Entries(vHave, p) && Below(p, Distance(|vHave|)).None?
    {
      hide Linked, Distance, Step, Entries;
      FirstEntry();
      vHave := [];
      var nStep := 1;
      var pindex := pindexLast;
      while pindex.Some?
        invariant nStep == Step(|vHave|)
        invariant pindex == Below(p, Distance(|vHave|))
        invariant Entries(vHave, p)
        decreases |p| - Distance(|vHave|)
      {
        NextEntry(|vHave|);
        EntryAdded(vHave, p, pindex.value);
        ghost var d := Distance(|vHave|);
        vHave := vHave + [pindex.value];
        pindex := StepBack(t, pindex, nStep, p, d);
        if |vHave| > 10 {
          nStep := nStep * 2;
        }
      }
    }

    // Any locator, as received: the first entry on our main chain, or the genesis block.
    method GetBlockIndex(node: ChainState) returns (found: Hash)
      requires node.Valid()
      ensures var k := FirstShared(vHave, node.PathTo(node.pindexBest));
              found == if k < |vHave| then vHave[k] else node.genesis
    {
      ghost var main := node.PathTo(node.pindexBest);
      for i := 0 to |vHave|
        invariant FirstShared(vHave, main) == i + FirstShared(vHave[i..], main)
      {
        Shared(node, vHave[i]);
        assert vHave[i..][0] == vHave[i] && vHave[i..][1..] == vHave[i + 1..];
        if vHave[i] in node.mapBlockIndex && node.IsInMainChain(vHave[i]) {
          return vHave[i];
        }
      }
      return node.genesis;
    }

    // The same search, counting how far back the entries are supposed to lie.
    method GetDistanceBack(node: ChainState) returns (nDistance: nat)
      requires node.Valid()
      ensures nDistance == Distance(FirstShared(vHave, node.PathTo(node.pindexBest)))
    {
      hide Distance, Step, WellFormed, Path;
      FirstEntry();
      ghost var main := node.PathTo(node.pindexBest);
      nDistance := 0;
      var nStep := 1;
      for i := 0 to |vHave|
        invariant FirstShared(vHave, main) == i + FirstShared(vHave[i..], main)
        invariant nDistance == Distance(i) && nStep == Step(i)
      {
        Shared(node, vHave[i]);
        NextEntry(i);
        assert vHave[i..][0] == vHave[i] && vHave[i..][1..] == vHave[i + 1..];
        if vHave[i] in node.mapBlockIndex && node.IsInMainChain(vHave[i]) {
          return nDistance;
        }
        nDistance := nDistance + nStep;
        if nDistance > 10 {
          nStep := nStep * 2;
        }
      }
    }

    static lemma Shared(node: ChainState, h: Hash)
      requires node.Valid()
      ensures h in node.PathTo(node.pindexBest) <==> h in node.mapBlockIndex && node.IsInMainChain(h)
    {
      if h in node.mapBlockIndex {
        node.MainChainMembership(h);
      } else if node.pindexBest.Some? {
        PathLinked(node.mapBlockIndex, node.genesis, node.pindexBest.value);
      }
    }
  }

  // The position of the first entry that lies on the chain `main`, or the number of entries.
  ghost function FirstShared(have: seq<Hash>, main: seq<Hash>): (k: nat)
    ensures k <= |have|
    ensures forall i | 0 <= i < k :: have[i] !in main
    ensures k < |have| ==> have[k] in main
  {
    if have == [] || have[0] in main then 0 else 1 + FirstShared(have[1..], main)
  }

  // Two nodes that know a block by the same hash know the same block.
  ghost predicate Agree(t: Tree, u: Tree) {
    forall h | h in t && h in u :: t[h] == u[h]
  }

  // The peer's chain and ours share exactly a prefix: `fork` is the height of its last block.
  lemma {:induction false} SharedBelow(t: Tree, u: Tree, p: seq<Hash>, main: seq<Hash>, k: nat, j: nat)
    requires Agree(t, u) && Linked(t, p) && Linked(u, main)
    requires j <= k < |p| && p[k] in main
    ensures k < |main| && p[k] == main[k] && p[j] in main
    decreases k
  {
    var i :| 0 <= i < |main| && main[i] == p[k];
    assert i == k;
    if j < k {
      assert t[p[k]].pprev == Some(p[k - 1]) && u[main[k]].pprev == Some(main[k - 1]);
      SharedBelow(t, u, p, main, k - 1, j);
    }
  }

  // `x` is how far the tip of `p` lies above its last block on `main`.
  ghost predicate AboveFork(p: seq<Hash>, main: seq<Hash>, x: nat) {
    && x < |p| && p[|p| - 1 - x] in main
    && forall i | |p| - 1 - x < i < |p| :: p[i] !in main
  }

  // How far back the block lies that a locator makes us answer with.
  ghost function HitDistance(p: seq<Hash>, k: nat): nat
    requires p != []
  {
    if Distance(k) < |p| then Distance(k) else |p| - 1
  }

  // The first shared entry is the first one at or below the fork.
  lemma HitAtFork(t: Tree, u: Tree, genesis: Hash, p: seq<Hash>, main: seq<Hash>, have: seq<Hash>, x: nat)
    requires Agree(t, u) && Linked(t, p) && Linked(u, main) && p[0] == main[0] == genesis
    requires Locates(have, p, genesis) && AboveFork(p, main, x)
    ensures var k := FirstShared(have, main);
            && k < |have| && have[k] == p[|p| - 1 - HitDistance(p, k)]
            && x <= HitDistance(p, k) && (k > 0 ==> Distance(k - 1) < x)
            && (k < |have| - 1 <==> Distance(k) < |p|)
  {
    hide Linked, Agree, Distance;
    var k := FirstShared(have, main);
    assert genesis in main;
    assert have[|have| - 1] in main;
    if k < |have| - 1 {
      assert Below(p, Distance(k)) == Some(have[k]);
    } else {
      assert Distance(k) >= |p|;
    }
    assert p[|p| - 1 - HitDistance(p, k)] in main;
    if k > 0 && Distance(k - 1) >= x {
      assert Below(p, Distance(k - 1)) == Some(have[k - 1]);
      SharedBelow(t, u, p, main, |p| - 1 - x, |p| - 1 - Distance(k - 1));
      assert false;
    }
  }

  // What a locator is for: the answer is a block of both chains, at the fork when the
  // fork is near and otherwise less than twice as far back; the distance computed
  // from the entry is right unless the answer is the entry added at the end.
  lemma FindsFork(t: Tree, u: Tree, genesis: Hash, p: seq<Hash>, main: seq<Hash>, have: seq<Hash>, x: nat)
    requires Agree(t, u) && Linked(t, p) && Linked(u, main) && p[0] == main[0] == genesis
    requires Locates(have, p, genesis) && AboveFork(p, main, x)
    ensures var k := FirstShared(have, main);
            var d := HitDistance(p, k);
            && k < |have| && have[k] == p[|p| - 1 - d] && have[k] in main
            && x <= d && (x <= 11 ==> d == x) && (x > 11 ==> d <= 2 * x - 11)
            && (Distance(k) == d <==> exists j: nat :: x <= Distance(j) < |p|)
  {
    hide Linked, Agree, Distance, Step, Locates, AboveFork;
    HitAtFork(t, u, genesis, p, main, have, x);
    var k := FirstShared(have, main);
    HowFar(p, k, x);
    WhenExact(p, k, x);
  }

  lemma HowFar(p: seq<Hash>, k: nat, x: nat)
    requires p != [] && x <= HitDistance(p, k) && (k > 0 ==> Distance(k - 1) < x)
    ensures (x <= 11 ==> HitDistance(p, k) == x) && (x > 11 ==> HitDistance(p, k) <= 2 * x - 11)
  {
    if k > 0 {
      NextEntry(k - 1);
    }
    if x <= 11 {
      if k > x {
        DistanceGrows(x, k - 1);
      } else {
        DistanceGrows(k, x);
      }
    }
  }

  lemma WhenExact(p: seq<Hash>, k: nat, x: nat)
    requires p != [] && x <= HitDistance(p, k) && (k > 0 ==> Distance(k - 1) < x)
    ensures Distance(k) == HitDistance(p, k) <==> exists j: nat :: x <= Distance(j) < |p|
  {
    if j: nat :| x <= Distance(j) < |p| {
      if j < k {
        DistanceGrows(j, k - 1);
      } else {
        DistanceGrows(k, j);
      }
    }
  }

  // A locator grows with the logarithm of the height.
  lemma LengthIsLogarithmic(p: seq<Hash>, genesis: Hash, have: seq<Hash>)
    requires Locates(have, p, genesis)
    ensures |have| <= 12 || Pow2(|have| - 12) + 9 < |p|
  {
    if |have| > 12 {
      var k := |have| - 2;
      assert Below(p, Distance(k)) == Some(have[k]);
    }
  }

  // A path has a fork with every chain that starts at its first block.
  lemma {:induction false} ForkExists(p: seq<Hash>, main: seq<Hash>, d: nat) returns (x: nat)
    requires d < |p| && p[0] in main && forall i | |p| - 1 - d < i < |p| :: p[i] !in main
    ensures AboveFork(p, main, x)
    decreases |p| - d
  {
    if p[|p| - 1 - d] in main {
      x := d;
    } else {
      assert p[|p| - 1 - d] != p[0];
      x := ForkExists(p, main, d + 1);
    }
  }

  // The same without knowing the fork: the answer lies on both chains, and at most twice as far back as their last
  // common block.
  lemma AnswersNearFork(t: Tree, u: Tree, genesis: Hash, p: seq<Hash>, main: seq<Hash>, have: seq<Hash>)
    returns (x: nat)
    requires Agree(t, u) && Linked(t, p) && Linked(u, main) && p[0] == main[0] == genesis && Locates(have, p, genesis)
    ensures AboveFork(p, main, x)
    ensures var k := FirstShared(have, main);
            && k < |have| && have[k] == p[|p| - 1 - HitDistance(p, k)] && have[k] in main
            && x <= HitDistance(p, k) <= 2 * x && (x <= 11 ==> HitDistance(p, k) == x)
  {
    hide Linked, Agree;
    assert p != [] by { LinkedNonempty(t, p); }
    assert main != [] by { LinkedNonempty(u, main); }
    assert main[0] in main;
    x := ForkExists(p, main, 0);
    FindsFork(t, u, genesis, p, main, have, x);
  }

  lemma LinkedNonempty(t: Tree, p: seq<Hash>)
    requires Linked(t, p)
    ensures p != []
  {
  }

  // A chain of thirteen blocks, hashes 0 to 12.
  function Thirteen(): seq<Hash> {
    [0, 1, 2, 3, 4, 5, 6, 7, 8, 9, 10, 11, 12]
  }

  function ThirteenEntry(h: Hash): BlockIndex {
    BlockIndex(if h == 0 then None else Some(h - 1), h, h + 1)
  }

  function ThirteenTree(): Tree {
    map h | h in Thirteen() :: ThirteenEntry(h)
  }

  // Of that chain we have the genesis block only. The answer is 12 back, and the distance comes out as 13.
  lemma DistanceOvershoots(have: seq<Hash>)
    requires Locates(have, Thirteen(), 0)
    ensures Linked(ThirteenTree(), Thirteen()) && AboveFork(Thirteen(), [0], 12)
    ensures var k := FirstShared(have, [0]); HitDistance(Thirteen(), k) == 12 && Distance(k) == 13
  {
    hide Linked, Locates, AboveFork, ThirteenTree, Distance, Step;
    var t, p := ThirteenTree(), Thirteen();
    ThirteenLinked();
    HitAtFork(t, t, 0, p, [0], have, 12);
    var k := FirstShared(have, [0]);
    NextEntry(11);
    NotTwelve(k);
    if k > 0 {
      NotTwelve(k - 1);
    }
  }

  lemma ThirteenLinked()
    ensures var t, p := ThirteenTree(), Thirteen();
            Linked(t, p) && Linked(t, [0]) && Agree(t, t) && AboveFork(p, [0], 12)
  {
    var p := Thirteen();
    assert forall i | 0 <= i < 13 :: p[i] == i;
  }

  // No entry is 12 back: the steps lead from 11 to 13.
  lemma NotTwelve(k: nat)
    ensures if k < 12 then Distance(k) <= 11 else Distance(k) >= 13
  {
    NextEntry(10);
    NextEntry(11);
    if k < 12 {
      DistanceGrows(k, 11);
    } else {
      DistanceGrows(12, k);
    }
  }
}
