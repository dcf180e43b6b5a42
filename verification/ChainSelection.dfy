/**
 Chain selection and reorganisation: `SetBestChain`, `ConnectBestBlock`,
 `InvalidBlockFound` and `AddToBlockIndex`, as methods of one object that holds
 the globals they update. Whether a block connects or disconnects is decided
 outside the model: an arbitrary function answers one question after the other,
 and a log keeps the questions.
 */
module ChainSelection {
  import opened Options
  import opened BlockTree
  import opened Sequences
  import opened SwitchLog

  // A block is marked because it broke a rule or because the block below it is marked.
  ghost predicate ForCause(t: Tree, failed: set<Hash>, broken: set<Hash>) {
    forall h | h in failed :: h in broken || (h in t && t[h].pprev.Some? && t[h].pprev.value in failed)
  }

  // The height vector holds exactly the blocks of `p`, each at its own height.
  ghost predicate Follows(v: seq<Option<Hash>>, p: seq<Hash>) {
    |v| == |p| && forall i | 0 <= i < |p| :: v[i] == Some(p[i])
  }

  // The lowest position from `base` on that holds a failed block, or the length when there is none.
  ghost function FirstFailed(p: seq<Hash>, base: nat, failed: set<Hash>): (m: nat)
    requires base <= |p|
    ensures base <= m <= |p|
    ensures forall k | base <= k < m :: p[k] !in failed
    ensures m < |p| ==> p[m] in failed
    decreases |p| - base
  {
    if base == |p| || p[base] in failed then base else FirstFailed(p, base + 1, failed)
  }

  ghost function Elements(s: seq<Hash>): set<Hash> {
    set x | x in s
  }

  // Marks have their cause, and every block that broke a rule, other than those pending, is marked.
  ghost predicate Justified(t: Tree, valid: set<Hash>, child: set<Hash>, broken: set<Hash>, pending: set<Hash>) {
    ForCause(t, valid + child, broken) && broken <= valid + child + pending
  }

  // `v` lists `s` backwards.
  ghost predicate Backwards(v: seq<Hash>, s: seq<Hash>) {
    |v| == |s| && forall j | 0 <= j < |v| :: v[j] == s[|s| - 1 - j]
  }

  lemma ReverseBackwards(v: seq<Hash>, s: seq<Hash>)
    requires Backwards(v, s)
    ensures Reverse(v) == s
  {
  }

  // Listing one block further down.
  lemma BackwardsPush(v: seq<Hash>, s: seq<Hash>, n: nat, m: nat)
    requires 0 < n <= m <= |s| && Backwards(v, s[n..m])
    ensures Backwards(v + [s[n - 1]], s[n - 1..m])
  {
  }

  // `std::vector::resize`: cut, or pad with null.
  function Resize(v: seq<Option<Hash>>, n: nat): (r: seq<Option<Hash>>)
    ensures |r| == n
    ensures forall i | 0 <= i < n :: r[i] == if i < |v| then v[i] else None
  {
    seq(n, i requires 0 <= i => if i < |v| then v[i] else None)
  }

  // The work of a tip; having no tip counts as less than any work.
  ghost function TipWork(t: Tree, tip: Option<Hash>): int
    requires tip.Some? ==> tip.value in t
  {
    if tip.None? then -1 else t[tip.value].chainWork
  }

  lemma NoSwitch(t: Tree, from: Option<Hash>)
    requires from.Some? ==> from.value in t
    ensures Climbing(t, from, [])
  {
  }

  // Each switch goes to a block with strictly more work than the tip before it.
  ghost predicate Climbing(t: Tree, from: Option<Hash>, switched: seq<Hash>)
    requires from.Some? ==> from.value in t
  {
    && (forall i | 0 <= i < |switched| :: switched[i] in t)
    && (|switched| > 0 ==> TipWork(t, from) < t[switched[0]].chainWork)
    && (forall i | 0 < i < |switched| :: t[switched[i - 1]].chainWork < t[switched[i]].chainWork)
  }

  class ChainState {
    const genesis: Hash
    // What the outside world says to each attempt to connect or disconnect a block, and what it was asked.
    const world: World
    var asked: seq<Ask>
    // The switches attempted so far, in which it was asked.
    ghost var attempts: seq<Attempt>
    var mapBlockIndex: Tree
    // The work each block brought with it.
    ghost var works: Works
    // The blocks whose status has `BLOCK_FAILED_VALID`, and those with `BLOCK_FAILED_CHILD`.
    var failedValid: set<Hash>
    var failedChild: set<Hash>
    var setBlockIndexValid: set<Hash>
    var vBlockIndexByHeight: seq<Option<Hash>>
    // The best block of the coin view (`pcoinsTip`) and of the chain (`pindexBest`).
    var coinsTip: Option<Hash>
    var pindexBest: Option<Hash>
    var nBestHeight: int
    var nBestChainWork: nat
    var nBestInvalidWork: nat

    function Failed(): set<Hash>
      reads `failedValid, `failedChild
    {
      failedValid + failedChild
    }

    // The block tree, with the best block in it; cumulative work is the sum along the path.
    ghost predicate Rooted()
      reads `mapBlockIndex, `works, `pindexBest
    {
      && WellFormed(mapBlockIndex, genesis) && (pindexBest.Some? ==> pindexBest.value in mapBlockIndex)
      && Weighed(mapBlockIndex, genesis, works)
    }

    // The block tree and the sets over it; the candidates are exactly the blocks not marked as failed.
    ghost predicate Indexed()
      reads `mapBlockIndex, `works, `failedValid, `failedChild, `setBlockIndexValid, `pindexBest, `coinsTip
      ensures Indexed() ==> Rooted()
    {
      && Rooted()
      && Failed() <= mapBlockIndex.Keys
      && Unmarked(mapBlockIndex.Keys, failedValid, failedChild, setBlockIndexValid)
      && (coinsTip.Some? ==> coinsTip.value in mapBlockIndex)
    }

    ghost function PathTo(tip: Option<Hash>): seq<Hash>
      requires WellFormed(mapBlockIndex, genesis) && (tip.Some? ==> tip.value in mapBlockIndex)
      reads `mapBlockIndex
    {
      if tip.None? then [] else Path(mapBlockIndex, genesis, tip.value)
    }

    // The height vector is the `pprev` path to the best block, and the cached
    // height, work and coin tip belong to that same block.
    ghost predicate Coherent()
      requires Rooted()
      reads `mapBlockIndex, `works, `pindexBest, `coinsTip, `vBlockIndexByHeight, `nBestHeight, `nBestChainWork
    {
      && Follows(vBlockIndexByHeight, PathTo(pindexBest))
      && coinsTip == pindexBest
      && nBestHeight == |PathTo(pindexBest)| - 1
      && nBestChainWork == (if pindexBest.None? then 0 else mapBlockIndex[pindexBest.value].chainWork)
    }

    ghost predicate Judged(pending: set<Hash>)
      reads `mapBlockIndex, `failedValid, `failedChild, `asked
    {
      Justified(mapBlockIndex, failedValid, failedChild, Broken(world, asked), pending)
    }

    // Every block of the main chain was connected.
    ghost predicate Proven()
      requires Rooted()
      reads `mapBlockIndex, `works, `pindexBest, `asked
    {
      forall x | x in PathTo(pindexBest) :: x in Accepted(world, asked)
    }

    ghost predicate Valid()
      reads `mapBlockIndex, `works, `failedValid, `failedChild, `setBlockIndexValid, `pindexBest, `coinsTip
      reads `vBlockIndexByHeight, `nBestHeight, `nBestChainWork, `asked
      ensures Valid() ==> Indexed()
    {
      Indexed() && Coherent() && Judged({}) && Proven()
    }

    // The questions are those of the attempts, and the attempts lead to the main chain.
    ghost predicate Traced()
      reads `mapBlockIndex, `works, `pindexBest, `asked, `attempts
    {
      && Rooted() && Tells(mapBlockIndex, world, attempts)
      && LogOf(attempts) == asked && ChainAfter(attempts) == PathTo(pindexBest)
    }

    // A block has just broken a rule and is not marked yet.
    ghost predicate Pending(h: Hash)
      reads `mapBlockIndex, `works, `failedValid, `failedChild, `setBlockIndexValid, `pindexBest, `coinsTip
      reads `vBlockIndexByHeight, `nBestHeight, `nBestChainWork, `asked
      ensures Pending(h) ==> Indexed()
    {
      Indexed() && Coherent() && Judged({h}) && Proven() && h in Broken(world, asked)
    }

    // No block that has not failed has more work than the best block.
    ghost predicate MostWork()
      requires Rooted()
      reads `mapBlockIndex, `works, `pindexBest, `failedValid, `failedChild
    {
      forall c | c in mapBlockIndex && c !in Failed() ::
        mapBlockIndex[c].chainWork <= TipWork(mapBlockIndex, pindexBest)
    }

    // The number of blocks not known to have failed: what every retry uses up.
    ghost function Unfailed(): nat
      reads `mapBlockIndex, `failedValid, `failedChild
    {
      |mapBlockIndex.Keys - Failed()|
    }

    constructor (genesisHash: Hash, verdicts: World)
      ensures Valid() && Traced() && genesis == genesisHash && world == verdicts && asked == []
      ensures mapBlockIndex == map[] && pindexBest.None? && setBlockIndexValid == {} && Failed() == {}
    {
      genesis, world, asked, attempts, works := genesisHash, verdicts, [], [], map[];
      mapBlockIndex, failedValid, failedChild, setBlockIndexValid := map[], {}, {}, {};
      vBlockIndexByHeight, coinsTip, pindexBest := [], None, None;
      nBestHeight, nBestChainWork, nBestInvalidWork := -1, 0, 0;
    }

    function IsInMainChain(h: Hash): bool
      requires h in mapBlockIndex
      reads `mapBlockIndex, `vBlockIndexByHeight
    {
      var n := mapBlockIndex[h].height;
      n < |vBlockIndexByHeight| && vBlockIndexByHeight[n] == Some(h)
    }

    function GetNextInMainChain(h: Hash): Option<Hash>
      requires h in mapBlockIndex
      reads `mapBlockIndex, `vBlockIndexByHeight
    {
      var n := mapBlockIndex[h].height;
      if !IsInMainChain(h) || n + 1 >= |vBlockIndexByHeight| then None else vBlockIndexByHeight[n + 1]
    }

    // Membership of the main chain is what the vector lookup decides.
    lemma MainChainMembership(h: Hash)
      requires Indexed() && Coherent() && h in mapBlockIndex
      ensures IsInMainChain(h) <==> h in PathTo(pindexBest)
      ensures GetNextInMainChain(h).Some? <==> IsInMainChain(h) && pindexBest != Some(h)
    {
      var p := PathTo(pindexBest);
      if h in p {
        PathLinked(mapBlockIndex, genesis, pindexBest.value);
        var i :| 0 <= i < |p| && p[i] == h;
        assert i == mapBlockIndex[h].height;
      }
    }

    // The first loop of `SetBestChain`: walk both tips back until they meet.
    static method FindFork(t: Tree, tip: Option<Hash>, pindexNew: Hash, ghost p: seq<Hash>, ghost q: seq<Hash>)
      returns (pfork: Option<Hash>)
      requires Linked(t, q) && q[|q| - 1] == pindexNew
      requires tip.Some? ==> Linked(t, p) && p[|p| - 1] == tip.value && p[0] == q[0]
      ensures pfork.None? <==> tip.None?
      ensures pfork.Some? ==>
                && pfork.value in t
                && IsFork(p, q, t[pfork.value].height)
                && p[t[pfork.value].height] == pfork.value
    {
      pfork := tip;
      var plonger := pindexNew;
      if tip.None? {
        return;
      }
      ghost var j, i := |p| - 1, |q| - 1;
      while pfork.Some? && pfork.value != plonger
        invariant 0 <= j < |p| && pfork == Some(p[j]) && 0 <= i < |q| && plonger == q[i]
        invariant forall k | 0 <= k < |p| && k < |q| && p[k] == q[k] :: k <= i && k <= j
        decreases j
      {
        while t[plonger].height > t[pfork.value].height
          invariant 0 <= i < |q| && plonger == q[i]
          invariant forall k | 0 <= k < |p| && k < |q| && p[k] == q[k] :: k <= i && k <= j
          decreases i
        {
          assert t[plonger].pprev == Some(q[i - 1]);
          plonger := t[plonger].pprev.value;
          i := i - 1;
        }
        if pfork.value == plonger {
          break;
        }
        assert t[pfork.value].pprev == Some(p[j - 1]);
        pfork := t[pfork.value].pprev;
        j := j - 1;
      }
    }

    // The blocks from `tip` down to, and without, the block at height `base` - 1, tip first.
    static method WalkDown(t: Tree, tip: Option<Hash>, pfork: Option<Hash>, ghost p: seq<Hash>, ghost base: nat)
      returns (v: seq<Hash>)
      requires tip.None? ==> p == []
      requires tip.Some? ==> Linked(t, p) && p[|p| - 1] == tip.value
      requires base <= |p| && pfork == if base == 0 then None else Some(p[base - 1])
      ensures Backwards(v, p[base..])
    {
      v := [];
      var pindex := tip;
      ghost var n := |p|;
      while pindex != pfork
        invariant base <= n <= |p| && pindex == if n == 0 then None else Some(p[n - 1])
        invariant Backwards(v, p[n..])
        decreases n
      {
        v := v + [pindex.value];
        pindex := t[pindex.value].pprev;
        n := n - 1;
      }
    }

    // What has to be connected, listed from the new tip down. A failed block on the way
    // marks everything listed so far as descending from a failed block and empties the list.
    method ListConnect(pindexNew: Hash, pfork: Option<Hash>, ghost p: seq<Hash>, ghost base: nat)
      returns (v: seq<Hash>)
      requires Linked(mapBlockIndex, p) && p[|p| - 1] == pindexNew
      requires base <= |p| && pfork == if base == 0 then None else Some(p[base - 1])
      modifies this`failedChild, this`setBlockIndexValid
      ensures var m := FirstFailed(p, base, old(Failed()));
              && Backwards(v, p[base..m])
              && failedChild == old(failedChild) + Elements(p[m..])
              && setBlockIndexValid == old(setBlockIndexValid) - Elements(p[m..])
    {
      hide Backwards, Elements;
      v := [];
      NothingListed(p);
      var pindex := Some(pindexNew);
      ghost var was := Failed();
      ghost var n, m := |p|, |p|;
      while pindex != pfork
        invariant base <= n <= m <= |p| && pindex == if n == 0 then None else Some(p[n - 1])
        invariant m == FirstFailed(p, n, was)
        invariant Backwards(v, p[n..m])
        invariant failedChild == old(failedChild) + Elements(p[m..])
        invariant setBlockIndexValid == old(setBlockIndexValid) - Elements(p[m..])
        decreases n
      {
        var h := pindex.value;
        BackwardsPush(v, p, n, m);
        v := v + [h];
        n := n - 1;
        assert h in Failed() <==> h in was by { DistinctHeights(mapBlockIndex, p, n, m); }
        if h in Failed() {
          MarkedSuffix(v, p, n, m);
          failedChild := failedChild + set x | x in v;
          setBlockIndexValid := setBlockIndexValid - set x | x in v;
          v := [];
          m := n;
          NothingListed(p[n..m]);
        }
        pindex := mapBlockIndex[h].pprev;
      }
    }

    // Disconnecting takes the coin view from the tip down to the fork, unless some block is refused.
    static method DisconnectBranch(t: Tree, v: seq<Hash>, tip: Option<Hash>, world: World, before: seq<Ask>,
                                   ghost p: seq<Hash>, ghost base: nat)
      returns (ok: bool, view: Option<Hash>, log: seq<Ask>)
      requires tip.None? ==> p == []
      requires tip.Some? ==> Linked(t, p) && p[|p| - 1] == tip.value
      requires base <= |p| && Backwards(v, p[base..])
      ensures Asked(before, log, v, false) && Halts(world, before, log, |v|, ok)
      ensures Broken(world, log) == Broken(world, before) && Accepted(world, log) == Accepted(world, before)
      ensures ok ==> view == if base == 0 then None else Some(p[base - 1])
    {
      hide Broken, Accepted, Refused;
      view, log := tip, before;
      NotRefused(world, log);
      for i := 0 to |v|
        invariant view == if |p| - i == 0 then None else Some(p[|p| - i - 1])
        invariant Asked(before, log, v, false) && |log| == |before| + i && !Refused(world, log, |before|)
        invariant Broken(world, log) == Broken(world, before) && Accepted(world, log) == Accepted(world, before)
      {
        assert view == Some(v[i]);
        AskedOne(world, log, Ask(v[i], false), |before|);
        log := log + [Ask(v[i], false)];
        if !world(|log| - 1, Ask(v[i], false)).Connected? {
          assert log[..|log| - 1] + [Ask(v[i], false)] == log;
          return false, view, log;
        }
        view := t[v[i]].pprev;
      }
      ok := true;
    }

    // Connecting takes the coin view from the fork up; the first block that is refused is named.
    static method ConnectBranch(t: Tree, v: seq<Hash>, pfork: Option<Hash>, world: World, before: seq<Ask>,
                                ghost p: seq<Hash>, ghost base: nat)
      returns (verdict: Verdict, at: nat, view: Option<Hash>, log: seq<Ask>)
      requires Linked(t, p) && base + |v| <= |p| && v == p[base..base + |v|]
      requires pfork == if base == 0 then None else Some(p[base - 1])
      ensures Asked(before, log, v, true) && Halts(world, before, log, |v|, verdict.Connected?)
      ensures verdict.Connected? ==> at == |v| && view == if base + |v| == 0 then None else Some(p[base + |v| - 1])
      ensures !verdict.Connected? ==>
                at < |v| && |log| == |before| + at + 1
                && verdict == world(|log| - 1, Ask(v[at], true))
      ensures at <= |v| && Accepted(world, log) == Accepted(world, before) + Elements(v[..at])
      ensures Broken(world, log) == Broken(world, before) + if verdict.Invalid? then {v[at]} else {}
    {
      hide Broken, Accepted, Refused, Elements;
      view, at, log := pfork, 0, before;
      NotRefused(world, log);
      ElementsPush(v, 0);
      while at < |v|
        invariant at <= |v| && view == if base + at == 0 then None else Some(p[base + at - 1])
        invariant Asked(before, log, v, true) && |log| == |before| + at && !Refused(world, log, |before|)
        invariant Accepted(world, log) == Accepted(world, before) + Elements(v[..at])
        invariant Broken(world, log) == Broken(world, before)
      {
        assert v[at] == p[base + at];
        assert t[v[at]].pprev == view;
        AskedOne(world, log, Ask(v[at], true), |before|);
        ElementsPush(v, at);
        log := log + [Ask(v[at], true)];
        verdict := world(|log| - 1, Ask(v[at], true));
        if !verdict.Connected? {
          assert log[..|log| - 1] + [Ask(v[at], true)] == log;
          return;
        }
        view := Some(v[at]);
        at := at + 1;
      }
      verdict := Connected;
    }

    // Entering the connected blocks into the resized height vector.
    static method Register(t: Tree, byHeight: seq<Option<Hash>>, v: seq<Hash>, n: nat, ghost p: seq<Hash>,
                           ghost base: nat)
      returns (r: seq<Option<Hash>>)
      requires Linked(t, p) && base + |v| <= |p| == n && v == p[base..base + |v|]
      ensures |r| == n
      ensures forall k | 0 <= k < n ::
                r[k] == if base <= k < base + |v| then Some(p[k]) else Resize(byHeight, n)[k]
    {
      r := Resize(byHeight, n);
      for i := 0 to |v|
        invariant |r| == n
        invariant forall k | 0 <= k < n ::
                    r[k] == if base <= k < base + i then Some(p[k]) else Resize(byHeight, n)[k]
      {
        assert v[i] == p[base + i];
        r := r[t[v[i]].height := Some(v[i])];
      }
    }

    method InvalidChainFound(h: Hash)
      requires h in mapBlockIndex
      modifies this`nBestInvalidWork
      ensures nBestInvalidWork >= old(nBestInvalidWork) && nBestInvalidWork >= mapBlockIndex[h].chainWork
      ensures nBestInvalidWork in {old(nBestInvalidWork), mapBlockIndex[h].chainWork}
    {
      if mapBlockIndex[h].chainWork > nBestInvalidWork {
        nBestInvalidWork := mapBlockIndex[h].chainWork;
      }
    }

    // No block between the main chain and `h` has failed.
    ghost predicate CleanBranch(h: Hash)
      requires Rooted() && h in mapBlockIndex
      reads `mapBlockIndex, `works, `pindexBest, `failedValid, `failedChild
    {
      forall x | x in PathTo(Some(h)) && x !in PathTo(pindexBest) :: x !in Failed()
    }

    // The branch to `h` ends, or has a failed block, below the height of the best block.
    ghost predicate TooShort(h: Hash)
      requires Rooted() && h in mapBlockIndex
      reads `mapBlockIndex, `works, `pindexBest, `failedValid, `failedChild
    {
      Short(PathTo(pindexBest), PathTo(Some(h)), Failed())
    }

    // The first half of `SetBestChain`: find the fork, list what to disconnect and what to
    // connect, and mark what lies above a failed block of the new branch.
    method PlanSwitch(pindexNew: Hash)
      returns (vDisconnect: seq<Hash>, vConnect: seq<Hash>, ghost base: nat, ghost m: nat)
      requires Valid() && pindexNew in mapBlockIndex
      modifies this`failedChild, this`setBlockIndexValid
      ensures Valid() && PathTo(pindexBest) == old(PathTo(pindexBest))
      ensures ForkAt(PathTo(pindexBest), PathTo(Some(pindexNew)), base) && base <= m <= |PathTo(Some(pindexNew))|
      ensures Backwards(vDisconnect, PathTo(pindexBest)[base..]) && vConnect == PathTo(Some(pindexNew))[base..m]
      ensures |vDisconnect| == |PathTo(pindexBest)| - base
      ensures forall k | base <= k < m :: PathTo(Some(pindexNew))[k] !in Failed()
      ensures m == |PathTo(Some(pindexNew))| <==> old(CleanBranch(pindexNew))
      ensures m < |PathTo(pindexBest)| <==> old(TooShort(pindexNew))
      ensures old(Failed()) <= Failed() && Unfailed() <= old(Unfailed())
              && setBlockIndexValid <= old(setBlockIndexValid)
      ensures old(CleanBranch(pindexNew)) ==> Failed() == old(Failed()) && setBlockIndexValid == old(setBlockIndexValid)
    {
      hide WellFormed, Weighed, Path, Follows, FirstFailed, Failed, Unfailed, Judged, Accepted, Linked, Unmarked;
      hide Backwards;
      ghost var p, q := PathTo(pindexBest), PathTo(Some(pindexNew));
      BothLinked(pindexNew);
      var pfork := FindFork(mapBlockIndex, coinsTip, pindexNew, p, q);
      base := if pfork.None? then 0 else mapBlockIndex[pfork.value].height + 1;
      vDisconnect := WalkDown(mapBlockIndex, coinsTip, pfork, p, base);
      CleanIff(mapBlockIndex, p, q, base, Failed());
      ShortIff(mapBlockIndex, p, q, base, Failed());
      vConnect, m := MarkAndList(pindexNew, pfork, q, base);
    }

    // Listing what to connect, lowest first, keeps the sets over the tree consistent.
    method MarkAndList(pindexNew: Hash, pfork: Option<Hash>, ghost q: seq<Hash>, ghost base: nat)
      returns (vConnect: seq<Hash>, ghost m: nat)
      requires Indexed() && Judged({}) && Linked(mapBlockIndex, q) && q[|q| - 1] == pindexNew
      requires base <= |q| && pfork == if base == 0 then None else Some(q[base - 1])
      modifies this`failedChild, this`setBlockIndexValid
      ensures Indexed() && base <= m <= |q| && m == FirstFailed(q, base, old(Failed())) && vConnect == q[base..m]
      ensures Judged({})
      ensures forall k | base <= k < m :: q[k] !in Failed()
      ensures old(Failed()) <= Failed() && Unfailed() <= old(Unfailed())
              && setBlockIndexValid <= old(setBlockIndexValid)
      ensures m == |q| ==> Failed() == old(Failed()) && setBlockIndexValid == old(setBlockIndexValid)
    {
      hide WellFormed, Weighed, Path, Linked, Elements, Backwards, Broken, Justified, Unmarked, Reverse;
      m := FirstFailed(q, base, Failed());
      MarkedAbove(mapBlockIndex, q, base, m, failedValid, failedChild, setBlockIndexValid);
      var v := ListConnect(pindexNew, pfork, q, base);
      vConnect := Reverse(v);
      ReverseBackwards(v, q[base..m]);
      MarksJustified(mapBlockIndex, q, m, old(failedValid), old(failedChild), Broken(world, asked));
    }

    lemma BothLinked(pindexNew: Hash)
      requires Indexed() && pindexNew in mapBlockIndex
      ensures Linked(mapBlockIndex, PathTo(Some(pindexNew))) && PathTo(Some(pindexNew))[0] == genesis
      ensures pindexBest.Some? ==> Linked(mapBlockIndex, PathTo(pindexBest)) && PathTo(pindexBest)[0] == genesis
    {
      PathLinked(mapBlockIndex, genesis, pindexNew);
      if pindexBest.Some? {
        PathLinked(mapBlockIndex, genesis, pindexBest.value);
      }
    }

    // The last part of `SetBestChain`: the coin view and the memory structures move to the new tip.
    method AdoptTip(pindexNew: Hash, vConnect: seq<Hash>, view: Option<Hash>,
                    ghost p: seq<Hash>, ghost q: seq<Hash>, ghost base: nat, ghost m: nat)
      requires (p == [] || Linked(mapBlockIndex, p)) && Linked(mapBlockIndex, q) && q[|q| - 1] == pindexNew
      requires ForkAt(p, q, base) && base <= m <= |q| && vConnect == q[base..m]
      requires Follows(vBlockIndexByHeight, p) && view == if m == 0 then None else Some(q[m - 1])
      modifies this`coinsTip, this`vBlockIndexByHeight, this`pindexBest, this`nBestHeight, this`nBestChainWork
      ensures pindexBest == Some(pindexNew) && coinsTip == view
      ensures Follows(vBlockIndexByHeight, q) <==> m == |q|
      ensures nBestHeight == |q| - 1 && nBestChainWork == mapBlockIndex[pindexNew].chainWork
    {
      coinsTip := view;
      var registered := Register(mapBlockIndex, vBlockIndexByHeight, vConnect, mapBlockIndex[pindexNew].height + 1, q,
                                 base);
      RegisteredIff(mapBlockIndex, p, q, base, m, vBlockIndexByHeight, registered);
      vBlockIndexByHeight := registered;
      pindexBest := Some(pindexNew);
      nBestHeight := mapBlockIndex[pindexNew].height;
      nBestChainWork := mapBlockIndex[pindexNew].chainWork;
    }

    // The middle part of `SetBestChain`: disconnect, then connect; a rule-breaking block is marked.
    method ReplaceBranch(pindexNew: Hash, vDisconnect: seq<Hash>, vConnect: seq<Hash>,
                         ghost p: seq<Hash>, ghost q: seq<Hash>, ghost base: nat, ghost m: nat)
      returns (ok: bool, view: Option<Hash>)
      requires Valid() && pindexNew in mapBlockIndex && p == PathTo(pindexBest) && (p == [] || Linked(mapBlockIndex, p))
      requires Linked(mapBlockIndex, q) && ForkAt(p, q, base) && base <= m <= |q|
      requires Backwards(vDisconnect, p[base..]) && vConnect == q[base..m]
      requires forall k | base <= k < m :: q[k] !in Failed()
      modifies this`asked, this`attempts, this`failedValid, this`failedChild, this`setBlockIndexValid
      modifies this`vBlockIndexByHeight, this`coinsTip, this`pindexBest, this`nBestHeight, this`nBestChainWork
      modifies this`nBestInvalidWork
      ensures mapBlockIndex == old(mapBlockIndex) && Valid()
      ensures pindexBest == old(pindexBest) && vBlockIndexByHeight == old(vBlockIndexByHeight)
      ensures old(Failed()) <= Failed() && Unfailed() <= old(Unfailed())
              && setBlockIndexValid <= old(setBlockIndexValid)
      ensures Halts(world, old(asked), asked, |vDisconnect| + |vConnect|, ok)
      ensures InTurn(old(asked), asked, vDisconnect, vConnect) && attempts == old(attempts)
      ensures ok ==> view == (if m == 0 then None else Some(q[m - 1])) && Elements(vConnect) <= Accepted(world, asked)
                     && Failed() == old(Failed()) && setBlockIndexValid == old(setBlockIndexValid)
      ensures nBestInvalidWork >= old(nBestInvalidWork)
      decreases Unfailed(), 1, 1
    {
      hide Valid, Indexed, Coherent, Judged, Proven, Failed, Unfailed, PathTo, WellFormed, Weighed, Path, Follows;
      hide Linked, Backwards, ForkAt, Refused, Broken, Accepted, Elements, Halts, InTurn, Asked;
      LinkedMembers(mapBlockIndex, q);
      ForkInRange(p, q, base);
      CoinsAtTip();
      ghost var start := asked;
      ok, view, asked := DisconnectBranch(mapBlockIndex, vDisconnect, coinsTip, world, asked, p, base);
      ghost var half := asked;
      LogGrew({});
      OnlyDisconnects(world, start, asked, vDisconnect, vConnect, ok);
      if ok {
        var verdict, at;
        verdict, at, view, asked := ConnectBranch(mapBlockIndex, vConnect, view, world, asked, q, base);
        HaltsJoin(world, start, half, asked, vDisconnect, vConnect, verdict.Connected?);
        LogGrew(if verdict.Invalid? then {vConnect[at]} else {});
        if verdict.Connected? {
          ElementsPush(vConnect, at);
        } else {
          ok := false;
          if verdict.Invalid? {
            BranchMembers(mapBlockIndex, p, q, base, base + at);
            assert vConnect[at] == q[base + at];
            BlameBlock(pindexNew, vConnect[at]);
          }
        }
      }
    }

    // More questions: only a block that broke a rule is pending.
    twostate lemma LogGrew(pending: set<Hash>)
      requires old(Valid()) && unchanged(`mapBlockIndex, `works, `failedValid, `failedChild, `setBlockIndexValid)
      requires unchanged(`pindexBest, `coinsTip, `vBlockIndexByHeight, `nBestHeight, `nBestChainWork)
      requires old(Accepted(world, asked)) <= Accepted(world, asked)
      requires Broken(world, asked) == old(Broken(world, asked)) + pending
      ensures pending == {} ==> Valid()
      ensures forall h | pending == {h} :: Pending(h)
    {
      hide Broken, Accepted, WellFormed, Weighed, Path, Follows, Unmarked;
      assert Judged(pending) && Proven();
    }

    lemma CoinsAtTip()
      requires Valid()
      ensures coinsTip == pindexBest
      ensures if pindexBest.None? then PathTo(pindexBest) == []
              else pindexBest.value in mapBlockIndex && PathTo(pindexBest) != []
                   && PathTo(pindexBest)[|PathTo(pindexBest)| - 1] == pindexBest.value
    {
    }

    // A block of the new branch broke a rule: it is not on the main chain, so only marks change.
    method BlameBlock(pindexNew: Hash, h: Hash)
      requires Pending(h) && pindexNew in mapBlockIndex && h in mapBlockIndex && h !in Failed()
               && h !in PathTo(pindexBest)
      modifies this`asked, this`attempts, this`failedValid, this`failedChild, this`setBlockIndexValid
      modifies this`vBlockIndexByHeight, this`coinsTip, this`pindexBest, this`nBestHeight, this`nBestChainWork
      modifies this`nBestInvalidWork
      ensures mapBlockIndex == old(mapBlockIndex) && Valid()
      ensures pindexBest == old(pindexBest) && vBlockIndexByHeight == old(vBlockIndexByHeight)
      ensures old(Failed()) <= Failed() && Unfailed() <= old(Unfailed())
              && setBlockIndexValid <= old(setBlockIndexValid)
      ensures h in Failed() && asked == old(asked) && attempts == old(attempts)
      ensures nBestInvalidWork >= old(nBestInvalidWork)
      ensures nBestInvalidWork >= mapBlockIndex[pindexNew].chainWork && nBestInvalidWork >= mapBlockIndex[h].chainWork
      decreases Unfailed(), 1, 0
    {
      hide WellFormed, Weighed, Path, Follows, Valid, Pending, Failed, Unfailed, PathTo, GetNextInMainChain;
      OffChain(h);
      InvalidChainFound(pindexNew);
      InvalidBlockFound(h);
    }

    lemma OffChain(h: Hash)
      requires Pending(h) && h in mapBlockIndex && h !in PathTo(pindexBest)
      ensures GetNextInMainChain(h).None?
    {
      hide WellFormed, Weighed, Path, Follows, Unmarked, Judged, Proven;
      MainChainMembership(h);
    }

    // Switch the active chain to `pindexNew`. On success the height vector is the path to the
    // new tip exactly when no block of the new branch had failed. It fails exactly when the branch is too short or
    // the outside world refuses a block, and then nothing but failure marks and the candidate set changed.
    method SetBestChain(pindexNew: Hash) returns (ok: bool)
      requires Valid() && pindexNew in mapBlockIndex
      modifies this`asked, this`attempts, this`failedValid, this`failedChild, this`setBlockIndexValid
      modifies this`vBlockIndexByHeight, this`coinsTip, this`pindexBest, this`nBestHeight, this`nBestChainWork
      modifies this`nBestInvalidWork
      ensures mapBlockIndex == old(mapBlockIndex) && Indexed()
      ensures old(Failed()) <= Failed() && Unfailed() <= old(Unfailed())
              && setBlockIndexValid <= old(setBlockIndexValid)
      ensures ok ==> pindexBest == Some(pindexNew) && (Valid() <==> old(CleanBranch(pindexNew))) && Judged({})
      ensures ok ==> (Follows(vBlockIndexByHeight, PathTo(Some(pindexNew))) <==> old(CleanBranch(pindexNew)))
      ensures AboutBranch(asked, |old(asked)|, old(PathTo(pindexBest)), old(PathTo(Some(pindexNew))), old(Failed()))
      ensures old(CleanBranch(pindexNew)) && (ok || old(TooShort(pindexNew))) ==>
                Failed() == old(Failed()) && setBlockIndexValid == old(setBlockIndexValid)
      ensures old(asked) <= asked
      ensures ok <==> !old(TooShort(pindexNew)) && !Refused(world, asked, |old(asked)|)
      ensures !ok ==> Valid() && pindexBest == old(pindexBest) && vBlockIndexByHeight == old(vBlockIndexByHeight)
      ensures nBestHeight >= old(nBestHeight)
      ensures
        old(Traced()) && (old(pindexBest).Some? || pindexNew == genesis) && (ok ==> old(CleanBranch(pindexNew))) ==>
          Traced()
      ensures nBestInvalidWork >= old(nBestInvalidWork)
      decreases Unfailed(), 2
    {
      hide WellFormed, Weighed, Path, PathTo, Follows, Linked, ForkAt, Backwards, Judged, Proven, Unmarked, AboutBranch;
      hide Refused, CleanBranch, TooShort, Traced, Coherent, Failed, Unfailed, Valid;
      BothLinked(pindexNew);
      var vDisconnect, vConnect;
      ghost var base, m;
      vDisconnect, vConnect, base, m := PlanSwitch(pindexNew);
      if |vConnect| < |vDisconnect| {
        NothingAsked(asked, old(PathTo(pindexBest)), old(PathTo(Some(pindexNew))), old(Failed()));
        return false;
      }
      ghost var p, q := PathTo(pindexBest), PathTo(Some(pindexNew));
      ghost var failed := Failed();
      OnlyGenesis(pindexNew);
      ok := PerformSwitch(pindexNew, vDisconnect, vConnect, p, q, base, m);
      FewerFailed(asked, |old(asked)|, p, q, old(Failed()), failed);
    }

    // The second half of `SetBestChain`, for a branch that is long enough: everything moves to the new tip, or nothing.
    method PerformSwitch(pindexNew: Hash, vDisconnect: seq<Hash>, vConnect: seq<Hash>,
                         ghost p: seq<Hash>, ghost q: seq<Hash>, ghost base: nat, ghost m: nat)
      returns (ok: bool)
      requires Valid() && pindexNew in mapBlockIndex && p == PathTo(pindexBest) && q == PathTo(Some(pindexNew))
      requires (p == [] || Linked(mapBlockIndex, p)) && Linked(mapBlockIndex, q) && ForkAt(p, q, base)
               && base <= m <= |q|
      requires base <= |p| && Backwards(vDisconnect, p[base..]) && vConnect == q[base..m]
      requires |vDisconnect| == |p| - base <= |vConnect| && forall k | base <= k < m :: q[k] !in Failed()
      modifies this`asked, this`attempts, this`failedValid, this`failedChild, this`setBlockIndexValid
      modifies this`vBlockIndexByHeight, this`coinsTip, this`pindexBest, this`nBestHeight, this`nBestChainWork
      modifies this`nBestInvalidWork
      ensures mapBlockIndex == old(mapBlockIndex) && Indexed() && Judged({})
      ensures old(Failed()) <= Failed() && Unfailed() <= old(Unfailed())
              && setBlockIndexValid <= old(setBlockIndexValid)
      ensures ok ==> Failed() == old(Failed()) && setBlockIndexValid == old(setBlockIndexValid)
      ensures ok ==>
                pindexBest == Some(pindexNew) && (Valid() <==> m == |q|)
                && (Follows(vBlockIndexByHeight, q) <==> m == |q|)
      ensures !ok ==> Valid() && pindexBest == old(pindexBest) && vBlockIndexByHeight == old(vBlockIndexByHeight)
      ensures old(asked) <= asked && (ok <==> !Refused(world, asked, |old(asked)|))
      ensures AboutBranch(asked, |old(asked)|, p, q, old(Failed()))
      ensures nBestHeight >= old(nBestHeight)
      ensures old(Traced()) && (p == [] ==> |q| == 1) && (ok ==> m == |q|) ==> Traced()
      ensures nBestInvalidWork >= old(nBestInvalidWork)
      decreases Unfailed(), 1, 2
    {
      hide WellFormed, Weighed, Path, Follows, Linked, ForkAt, Backwards, Judged, Accepted, AboutBranch, InTurn;
      hide Elements, Refused, Tells, LogOf, ChainAfter, Halts, Valid, Indexed, Failed, Unfailed;
      ValidParts();
      var view;
      ok, view := ReplaceBranch(pindexNew, vDisconnect, vConnect, p, q, base, m);
      HaltsMeans(world, old(asked), asked, |vDisconnect| + |vConnect|, ok);
      AsksAboutBranch(mapBlockIndex, old(asked), asked, vDisconnect, vConnect, p, q, base, m, old(Failed()));
      Record(vDisconnect, vConnect, p, q, base, m, ok, old(asked));
      ValidParts();
      if ok {
        AdoptBranch(pindexNew, vConnect, view, p, q, base, m);
      }
    }

    lemma ValidParts()
      requires Valid()
      ensures Judged({}) && nBestHeight == |PathTo(pindexBest)| - 1
    {
      hide WellFormed, Weighed, Path, Follows, Unmarked;
    }

    // The connected branch becomes the main chain, for good if and only if all of it was connected.
    method AdoptBranch(pindexNew: Hash, vConnect: seq<Hash>, view: Option<Hash>,
                       ghost p: seq<Hash>, ghost q: seq<Hash>, ghost base: nat, ghost m: nat)
      requires Valid() && pindexNew in mapBlockIndex && p == PathTo(pindexBest) && q == PathTo(Some(pindexNew))
      requires (p == [] || Linked(mapBlockIndex, p)) && Linked(mapBlockIndex, q) && ForkAt(p, q, base)
               && base <= m <= |q|
      requires vConnect == q[base..m] && view == (if m == 0 then None else Some(q[m - 1]))
      requires Elements(vConnect) <= Accepted(world, asked)
      modifies this`coinsTip, this`vBlockIndexByHeight, this`pindexBest, this`nBestHeight, this`nBestChainWork
      ensures Indexed() && Judged({}) && pindexBest == Some(pindexNew) && nBestHeight == |q| - 1
      ensures (Valid() <==> m == |q|) && (Follows(vBlockIndexByHeight, q) <==> m == |q|)
    {
      hide WellFormed, Weighed, Path, Follows, Linked, ForkAt, Judged, Accepted, Elements, Unmarked;
      LinkedMembers(mapBlockIndex, q);
      NewTipProven(mapBlockIndex, p, q, base, m, Accepted(world, asked));
      AdoptTip(pindexNew, vConnect, view, p, q, base, m);
    }

    // The genesis block is a chain of one.
    lemma OnlyGenesis(pindexNew: Hash)
      requires Rooted() && pindexNew in mapBlockIndex
      ensures pindexNew == genesis ==> |PathTo(Some(pindexNew))| == 1
      ensures pindexBest.Some? <==> PathTo(pindexBest) != []
    {
    }

    // Note the attempt to switch that has just been made, unless there was nothing to do.
    ghost method Record(vDisconnect: seq<Hash>, vConnect: seq<Hash>, p: seq<Hash>, q: seq<Hash>, base: nat, m: nat,
                        ok: bool,
                        before: seq<Ask>)
      requires (p == [] || Linked(mapBlockIndex, p)) && Linked(mapBlockIndex, q) && ForkAt(p, q, base)
               && base <= m <= |q|
      requires base <= |p| && Backwards(vDisconnect, p[base..]) && vConnect == q[base..m] && |vDisconnect| <= |vConnect|
      requires InTurn(before, asked, vDisconnect, vConnect)
               && Halts(world, before, asked, |vDisconnect| + |vConnect|, ok)
      modifies this`attempts
      ensures Tells(mapBlockIndex, world, old(attempts)) && LogOf(old(attempts)) == before
              && ChainAfter(old(attempts)) == p
              && (p == [] ==> |q| == 1) ==>
                && Tells(mapBlockIndex, world, attempts) && LogOf(attempts) == asked
                && ChainAfter(attempts) == if ok then q[..m] else p
    {
      hide Linked, ForkAt, Backwards, InTurn, Refused, Tells, LogOf, ChainAfter, Moved, Questions, Answered, Sensible;
      hide Halts;
      if vConnect == [] {
        NothingToDo(mapBlockIndex, before, asked, vDisconnect, vConnect, p, q, base, m);
      } else {
        Planned(mapBlockIndex, world, before, asked, vDisconnect, vConnect, p, q, base, m, ok);
        ghost var a := Attempt(base, vConnect, |asked| - |before| - if ok then 0 else 1);
        if Tells(mapBlockIndex, world, attempts) && LogOf(attempts) == before && ChainAfter(attempts) == p
          && (p == [] ==> |q| == 1) {
          TellsMore(mapBlockIndex, world, attempts, a);
        }
        attempts := attempts + [a];
      }
    }

    // Mark a block as failed; were it a main-chain block with a successor, look for a better chain.
    method InvalidBlockFound(h: Hash)
      requires Pending(h) && h in mapBlockIndex && h !in Failed()
      modifies this`asked, this`attempts, this`failedValid, this`failedChild, this`setBlockIndexValid
      modifies this`vBlockIndexByHeight, this`coinsTip, this`pindexBest, this`nBestHeight, this`nBestChainWork
      modifies this`nBestInvalidWork
      ensures mapBlockIndex == old(mapBlockIndex) && Valid()
      ensures h in Failed() && old(Failed()) <= Failed() && Unfailed() <= old(Unfailed())
              && setBlockIndexValid <= old(setBlockIndexValid)
      ensures old(GetNextInMainChain(h)).None? ==>
                && pindexBest == old(pindexBest) && vBlockIndexByHeight == old(vBlockIndexByHeight)
                && asked == old(asked) && attempts == old(attempts)
      ensures old(GetNextInMainChain(h)).Some? ==> MostWork() || Refused(world, asked, |old(asked)|) || Stuck()
      ensures old(asked) <= asked
      ensures nBestInvalidWork >= old(nBestInvalidWork)
      ensures nBestInvalidWork >= mapBlockIndex[h].chainWork
      decreases Unfailed(), 0
    {
      hide WellFormed, Weighed, Path, Follows, Valid, Pending, Failed, Unfailed;
      MarkFailed(h);
      InvalidChainFound(h);
      if GetNextInMainChain(h).Some? {
        var _, _ := ConnectBestBlock();
      }
    }

    // The block that has just broken a rule gets its mark.
    method MarkFailed(h: Hash)
      requires Pending(h) && h in mapBlockIndex && h !in Failed()
      modifies this`failedValid, this`setBlockIndexValid
      ensures Valid() && Failed() == old(Failed()) + {h} && setBlockIndexValid <= old(setBlockIndexValid)
      ensures Unfailed() < old(Unfailed())
    {
      hide WellFormed, Weighed, Path, Follows, Broken, Accepted, Coherent;
      failedValid := failedValid + {h};
      setBlockIndexValid := setBlockIndexValid - {h};
      assert mapBlockIndex.Keys - Failed() == (mapBlockIndex.Keys - old(Failed())) - {h};
    }

    // Mark the blocks from `top` down to, and without, `failed` as descending from a failed block.
    method MarkDescendants(top: Hash, failed: Hash, ghost q: seq<Hash>, ghost n: nat)
      requires Linked(mapBlockIndex, q) && q[|q| - 1] == top && 0 < n <= |q| && q[n - 1] == failed
      modifies this`failedChild, this`setBlockIndexValid
      ensures failedChild == old(failedChild) + Elements(q[n..])
      ensures setBlockIndexValid == old(setBlockIndexValid) - Elements(q[n..])
    {
      var pindexFailed := top;
      ghost var i := |q|;
      while failed != pindexFailed
        invariant n <= i <= |q| && pindexFailed == q[i - 1]
        invariant failedChild == old(failedChild) + Elements(q[i..])
        invariant setBlockIndexValid == old(setBlockIndexValid) - Elements(q[i..])
        decreases i
      {
        failedChild := failedChild + {pindexFailed};
        setBlockIndexValid := setBlockIndexValid - {pindexFailed};
        assert q[i - 1..] == [q[i - 1]] + q[i..];
        assert mapBlockIndex[q[i - 1]].pprev == Some(q[i - 2]);
        pindexFailed := mapBlockIndex[pindexFailed].pprev.value;
        i := i - 1;
      }
    }

    // The blocks of the branch to `top` that have more work than the best block, lowest first.
    ghost predicate Attachable(top: Hash, vAttach: seq<Hash>)
      requires Rooted() && top in mapBlockIndex
      reads `mapBlockIndex, `works, `pindexBest, `failedValid, `failedChild
    {
      && |vAttach| <= |PathTo(Some(top))|
      && vAttach == PathTo(Some(top))[|PathTo(Some(top))| - |vAttach|..]
      && (forall x | x in vAttach :: x in mapBlockIndex && x !in Failed() && x !in PathTo(pindexBest))
      && (vAttach == [] ==> mapBlockIndex[top].chainWork <= TipWork(mapBlockIndex, pindexBest))
      && (vAttach != [] ==> TipWork(mapBlockIndex, pindexBest) < mapBlockIndex[vAttach[0]].chainWork)
      && (pindexBest.None? ==> vAttach == PathTo(Some(top)))
    }

    // The ancestry walk of `ConnectBestBlock`: from a candidate down to a failed block or the main chain,
    // collecting, highest first, the blocks with more work than the best block.
    method WalkAncestry(top: Hash, bestWork: int, ghost q: seq<Hash>)
      returns (stop: Hash, v: seq<Hash>, ghost n: nat, ghost c: nat)
      requires WellFormed(mapBlockIndex, genesis) && Linked(mapBlockIndex, q) && q[|q| - 1] == top
      ensures n < |q| && stop == q[n] && n <= c <= |q| && Backwards(v, q[c..|q|])
      ensures forall k | n < k < |q| :: q[k] !in Failed()
      ensures stop !in Failed() ==> n == 0 || GetNextInMainChain(stop).Some?
      ensures stop !in Failed() ==> forall k | n <= k < |q| :: bestWork < mapBlockIndex[q[k]].chainWork <==> c <= k
    {
      hide Backwards, WellFormed, Weighed;
      stop, v := top, [];
      NothingListed(q);
      n, c := |q| - 1, |q|;
      while stop !in Failed()
        invariant 0 <= n < c <= |q| && stop == q[n] && Backwards(v, q[c..|q|])
        invariant forall k | n < k < |q| :: q[k] !in Failed()
        invariant forall k | n < k < |q| :: bestWork < mapBlockIndex[q[k]].chainWork <==> c <= k
        decreases n
      {
        if bestWork < mapBlockIndex[stop].chainWork {
          if n + 1 < c {
            PathWork(mapBlockIndex, genesis, q, n, n + 1);
          }
          BackwardsPush(v, q, n + 1, |q|);
          v := v + [stop];
          c := n;
        }
        assert n > 0 ==> mapBlockIndex[q[n]].pprev == Some(q[n - 1]);
        if mapBlockIndex[stop].pprev.None? || GetNextInMainChain(stop).Some? {
          return;
        }
        stop := mapBlockIndex[stop].pprev.value;
        n := n - 1;
      }
    }

    // A failed ancestor takes the candidate, and everything between the two, out of the candidate set.
    method RejectCandidate(top: Hash, stop: Hash, ghost q: seq<Hash>, ghost n: nat)
      requires Valid() && top in setBlockIndexValid && stop in Failed()
      requires Linked(mapBlockIndex, q) && q[|q| - 1] == top && n < |q| && q[n] == stop
      modifies this`failedChild, this`setBlockIndexValid, this`nBestInvalidWork
      ensures Valid() && old(Failed()) <= Failed() && Unfailed() <= old(Unfailed())
      ensures top in Failed() && setBlockIndexValid < old(setBlockIndexValid)
      ensures nBestInvalidWork >= old(nBestInvalidWork)
      ensures nBestInvalidWork >= mapBlockIndex[top].chainWork
    {
      hide WellFormed, Weighed, Path, Follows, Linked, Elements, Unmarked, Coherent, Broken, Justified, Proven;
      CandidateUnmarked(mapBlockIndex.Keys, failedValid, failedChild, setBlockIndexValid, top);
      assert q[n] != top;
      MarkedAbove(mapBlockIndex, q, 0, n + 1, failedValid, failedChild, setBlockIndexValid);
      MarkDescendants(top, stop, q, n + 1);
      MarksJustified(mapBlockIndex, q, n + 1, old(failedValid), old(failedChild), Broken(world, asked));
      InvalidChainFound(top);
    }

    // "Check ancestry" in `ConnectBestBlock`.
    method CheckAncestry(top: Hash) returns (clean: bool, vAttach: seq<Hash>)
      requires Valid() && top in setBlockIndexValid
      modifies this`failedChild, this`setBlockIndexValid, this`nBestInvalidWork
      ensures Valid() && old(Failed()) <= Failed() && Unfailed() <= old(Unfailed())
      ensures clean ==> failedChild == old(failedChild) && setBlockIndexValid == old(setBlockIndexValid)
      ensures clean ==> CleanBranch(top) && Attachable(top, vAttach)
      ensures !clean ==> top in Failed() && setBlockIndexValid < old(setBlockIndexValid)
      ensures nBestInvalidWork >= old(nBestInvalidWork)
    {
      hide WellFormed, Weighed, Path, Follows, Linked, Backwards, Coherent, Attachable, CleanBranch, Unfailed, Unmarked;
      hide Reverse, Judged, Proven;
      CandidateUnmarked(mapBlockIndex.Keys, failedValid, failedChild, setBlockIndexValid, top);
      var bestWork := if pindexBest.None? then -1 else mapBlockIndex[pindexBest.value].chainWork;
      ghost var q := PathTo(Some(top));
      BothLinked(top);
      var stop, v;
      ghost var n, c;
      stop, v, n, c := WalkAncestry(top, bestWork, q);
      vAttach := Reverse(v);
      assert q[c..|q|] == q[c..];
      ReverseBackwards(v, q[c..]);
      clean := stop !in Failed();
      if clean {
        WholeBranchSeen(top, q, n);
        AttachAboveBest(top, q, n, c);
      } else {
        RejectCandidate(top, stop, q, n);
      }
    }

    // Where the ancestry walk stops, the whole branch has been looked at.
    lemma WholeBranchSeen(top: Hash, q: seq<Hash>, n: nat)
      requires Valid() && top in mapBlockIndex && q == PathTo(Some(top)) && Linked(mapBlockIndex, q) && n < |q|
      requires forall k | n <= k < |q| :: q[k] !in Failed()
      requires n == 0 || GetNextInMainChain(q[n]).Some?
      ensures CleanBranch(top)
    {
      var p := PathTo(pindexBest);
      MainChainMembership(q[n]);
      if n > 0 {
        PathLinked(mapBlockIndex, genesis, pindexBest.value);
        SharedPrefix(mapBlockIndex, p, q, n);
        forall k | 0 <= k < n ensures q[k] in p {
          assert q[..n + 1][k] == p[..n + 1][k];
        }
      }
    }

    lemma AttachAboveBest(top: Hash, q: seq<Hash>, n: nat, c: nat)
      requires Valid() && top in mapBlockIndex && q == PathTo(Some(top)) && Linked(mapBlockIndex, q) && n <= c <= |q|
               && n < |q|
      requires (n == 0 || GetNextInMainChain(q[n]).Some?) && forall k | n <= k < |q| :: q[k] !in Failed()
      requires forall k | n <= k < |q| :: TipWork(mapBlockIndex, pindexBest) < mapBlockIndex[q[k]].chainWork <==> c <= k
      ensures Attachable(top, q[c..])
    {
      hide WellFormed, Weighed, Path, Coherent, Judged, Proven, Unmarked;
      forall x | x in q[c..] ensures x in mapBlockIndex && x !in Failed() && x !in PathTo(pindexBest) {
        var k :| 0 <= k < |q[c..]| && q[c..][k] == x;
        assert x == q[c + k];
        MoreWorkThanBest(x);
      }
      if pindexBest.None? {
        NoTipNoNext(q[n]);
        assert q[0] in mapBlockIndex;
      }
    }

    // Without a tip no block has a successor on the main chain.
    lemma NoTipNoNext(h: Hash)
      requires Valid() && h in mapBlockIndex && pindexBest.None?
      ensures GetNextInMainChain(h).None?
    {
      hide WellFormed, Weighed, Path, Judged, Proven, Unmarked;
    }

    // A block with more work than the best block is not on the main chain.
    lemma MoreWorkThanBest(x: Hash)
      requires Indexed() && x in mapBlockIndex
      requires TipWork(mapBlockIndex, pindexBest) < mapBlockIndex[x].chainWork
      ensures x !in PathTo(pindexBest)
    {
      var p := PathTo(pindexBest);
      if x in p {
        PathLinked(mapBlockIndex, genesis, pindexBest.value);
        var k :| 0 <= k < |p| && p[k] == x;
        PathWork(mapBlockIndex, genesis, p, k, |p| - 1);
        assert false;
      }
    }

    // The block right above the best block is not too short a branch.
    lemma NextIsNotShort(top: Hash, q: seq<Hash>, n: nat)
      requires Indexed() && top in mapBlockIndex && q == PathTo(Some(top)) && 0 < n < |q|
      requires pindexBest == Some(q[n - 1]) && q[n] in mapBlockIndex && CleanBranch(q[n])
      ensures !TooShort(q[n])
    {
      PathLinked(mapBlockIndex, genesis, top);
      assert mapBlockIndex[q[n]].pprev == pindexBest;
    }

    // The branch to the next block to attach is clean, whether or not blocks below it were attached already.
    lemma NextIsClean(top: Hash, q: seq<Hash>, n: nat)
      requires Rooted() && top in mapBlockIndex && q == PathTo(Some(top)) && n < |q| && q[n] !in Failed()
      requires (n > 0 && pindexBest == Some(q[n - 1])) || CleanBranch(top)
      ensures q[n] in mapBlockIndex && CleanBranch(q[n])
    {
      hide WellFormed, Weighed, Path;
      PathPrefix(mapBlockIndex, genesis, top, n);
      var p := PathTo(pindexBest);
      assert PathTo(Some(q[n])) == q[..n + 1];
      if n > 0 && pindexBest == Some(q[n - 1]) {
        PathPrefix(mapBlockIndex, genesis, top, n - 1);
        assert p == q[..n] && q[..n + 1] == p + [q[n]];
      } else {
        assert forall x | x in q[..n + 1] :: x in q;
      }
    }

    // A block with more work than the tip heads a branch that is too short to switch to.
    ghost predicate Stuck()
      requires Rooted()
      reads `mapBlockIndex, `works, `pindexBest, `failedValid, `failedChild
    {
      exists h | h in mapBlockIndex ::
        h !in Failed() && TipWork(mapBlockIndex, pindexBest) < mapBlockIndex[h].chainWork && TooShort(h)
    }

    // A branch that was too short still is when neither tip nor marks have moved.
    twostate lemma SameShort(h: Hash)
      requires old(Valid()) && Valid() && mapBlockIndex == old(mapBlockIndex) && pindexBest == old(pindexBest)
      requires Failed() == old(Failed()) && h in mapBlockIndex && h !in Failed() && old(TooShort(h))
      requires TipWork(mapBlockIndex, pindexBest) < mapBlockIndex[h].chainWork
      ensures Stuck()
    {
      assert TooShort(h);
    }

    // One switch: to the lowest block with more work than the best one, or to the block right above the best one.
    method AttachNext(top: Hash, ghost q: seq<Hash>, ghost n: nat, h: Hash) returns (ok: bool)
      requires Valid() && top in mapBlockIndex && q == PathTo(Some(top)) && n < |q| && h == q[n] && h in mapBlockIndex
      requires forall x | x in q[n..] :: x !in Failed()
      requires if n > 0 && pindexBest == Some(q[n - 1]) then true
               else CleanBranch(top) && TipWork(mapBlockIndex, pindexBest) < mapBlockIndex[h].chainWork
      modifies this`asked, this`attempts, this`failedValid, this`failedChild, this`setBlockIndexValid
      modifies this`vBlockIndexByHeight, this`coinsTip, this`pindexBest, this`nBestHeight, this`nBestChainWork
      modifies this`nBestInvalidWork
      ensures mapBlockIndex == old(mapBlockIndex) && Valid() && nBestHeight >= old(nBestHeight)
      ensures old(Failed()) <= Failed() && Unfailed() <= old(Unfailed())
              && setBlockIndexValid <= old(setBlockIndexValid)
      ensures pindexBest == (if ok then Some(h) else old(pindexBest)) && (ok ==> Failed() == old(Failed()))
      ensures old(asked) <= asked && (!ok ==> Refused(world, asked, |old(asked)|) || Stuck())
      ensures old(Traced()) && (old(pindexBest).Some? || h == genesis) ==> Traced()
      ensures nBestInvalidWork >= old(nBestInvalidWork)
      decreases Unfailed(), 3, 0
    {
      hide WellFormed, Weighed, Path, Follows, Linked, Failed, Unfailed, CleanBranch, Valid, Refused, TooShort, Stuck;
      hide Unmarked, Traced;
      NextIsClean(top, q, n);
      ghost var short := TooShort(h);
      if n > 0 && pindexBest == Some(q[n - 1]) {
        NextIsNotShort(top, q, n);
      }
      assert q[n..][0] == h;
      ok := SetBestChain(h);
      if !ok && short {
        SameShort(h);
      }
    }

    lemma AttachableMeans(top: Hash, vAttach: seq<Hash>)
      requires Rooted() && top in mapBlockIndex && Attachable(top, vAttach)
      ensures var q := Path(mapBlockIndex, genesis, top);
              q == PathTo(Some(top)) && |vAttach| <= |q| && vAttach == q[|q| - |vAttach|..]
      ensures forall x | x in vAttach :: x in mapBlockIndex && x !in Failed()
      ensures if vAttach == [] then mapBlockIndex[top].chainWork <= TipWork(mapBlockIndex, pindexBest)
              else TipWork(mapBlockIndex, pindexBest) < mapBlockIndex[vAttach[0]].chainWork
    {
      hide WellFormed, Weighed, Path;
    }

    lemma AttachFromGenesis(top: Hash, vAttach: seq<Hash>)
      requires Rooted() && top in mapBlockIndex && Attachable(top, vAttach)
      ensures pindexBest.None? && vAttach != [] ==> vAttach[0] == genesis
    {
      hide WellFormed, Weighed, Path;
      PathLinked(mapBlockIndex, genesis, top);
    }

    // Switch to each block to attach in turn.
    method AttachAll(top: Hash, vAttach: seq<Hash>) returns (ok: bool, ghost switched: seq<Hash>)
      requires Valid() && top in mapBlockIndex && CleanBranch(top) && Attachable(top, vAttach)
      modifies this`asked, this`attempts, this`failedValid, this`failedChild, this`setBlockIndexValid
      modifies this`vBlockIndexByHeight, this`coinsTip, this`pindexBest, this`nBestHeight, this`nBestChainWork
      modifies this`nBestInvalidWork
      ensures mapBlockIndex == old(mapBlockIndex) && Valid()
      ensures old(Failed()) <= Failed() && Unfailed() <= old(Unfailed())
              && setBlockIndexValid <= old(setBlockIndexValid)
      ensures Climbing(mapBlockIndex, old(pindexBest), switched)
      ensures pindexBest == if switched == [] then old(pindexBest) else Some(switched[|switched| - 1])
      ensures nBestHeight >= old(nBestHeight)
      ensures ok ==> mapBlockIndex[top].chainWork <= TipWork(mapBlockIndex, pindexBest)
      ensures ok && switched != [] ==> pindexBest == Some(top)
      ensures old(asked) <= asked && (!ok ==> Refused(world, asked, |old(asked)|) || Stuck())
      ensures old(Traced()) ==> Traced()
      ensures nBestInvalidWork >= old(nBestInvalidWork)
      decreases Unfailed(), 3, 1
    {
      hide WellFormed, Weighed, Path, PathTo, Follows, Linked, Climbing, Failed, Unfailed, CleanBranch, Attachable;
      hide Valid, Refused, Stuck, Unmarked, Traced;
      AttachableMeans(top, vAttach);
      AttachFromGenesis(top, vAttach);
      ghost var q := PathTo(Some(top));
      ghost var c := |q| - |vAttach|;
      ClimbingSuffix(mapBlockIndex, genesis, top, vAttach, pindexBest);
      var i := 0;
      ok := true;
      while ok && i < |vAttach|
        invariant 0 <= i <= |vAttach| && mapBlockIndex == old(mapBlockIndex) && Valid()
                  && nBestHeight >= old(nBestHeight)
        invariant old(Failed()) <= Failed() && Unfailed() <= old(Unfailed())
                  && setBlockIndexValid <= old(setBlockIndexValid)
        invariant pindexBest == if i == 0 then old(pindexBest) else Some(vAttach[i - 1])
        invariant ok ==> Failed() == old(Failed()) && (i == 0 ==> CleanBranch(top))
        invariant old(asked) <= asked && (!ok ==> Refused(world, asked, |old(asked)|) || Stuck())
        invariant old(Traced()) ==> Traced()
        invariant nBestInvalidWork >= old(nBestInvalidWork)
        decreases |vAttach| - i, ok
      {
        ghost var before := asked;
        SuffixAt(q, vAttach, c, i, mapBlockIndex.Keys, Failed());
        ok := AttachNext(top, q, c + i, vAttach[i]);
        RefusedJoin(world, old(asked), before, asked);
        if ok {
          i := i + 1;
        }
      }
      switched := vAttach[..i];
    }

    // Every block that has not failed is a candidate, and only those are.
    lemma UnfailedAreCandidates()
      requires Indexed()
      ensures setBlockIndexValid <= mapBlockIndex.Keys
      ensures forall c | c in mapBlockIndex && c !in Failed() :: c in setBlockIndexValid
    {
      hide WellFormed, Weighed;
    }

    // The most cumulative work is the greatest sum along a path.
    lemma MostBySum()
      requires Rooted() && MostWork()
      ensures forall c | c in mapBlockIndex && c !in Failed() ::
                pindexBest.Some? && WorkSum(works, PathTo(Some(c))) <= WorkSum(works, PathTo(pindexBest))
    {
      hide WellFormed, Path, WorkSum;
      forall c | c in mapBlockIndex && c !in Failed()
        ensures pindexBest.Some? && WorkSum(works, PathTo(Some(c))) <= WorkSum(works, PathTo(pindexBest))
      {
        assert mapBlockIndex[c].chainWork <= TipWork(mapBlockIndex, pindexBest);
        assert WeighedAt(mapBlockIndex, genesis, works, c);
        assert WeighedAt(mapBlockIndex, genesis, works, pindexBest.value);
      }
    }

    // Keep trying the candidate with the most work until the best chain has as much work as any
    // candidate left, or a switch fails.
    method ConnectBestBlock() returns (ok: bool, ghost switched: seq<Hash>)
      requires Valid()
      modifies this`asked, this`attempts, this`failedValid, this`failedChild, this`setBlockIndexValid
      modifies this`vBlockIndexByHeight, this`coinsTip, this`pindexBest, this`nBestHeight, this`nBestChainWork
      modifies this`nBestInvalidWork
      ensures mapBlockIndex == old(mapBlockIndex) && Valid()
      ensures old(Failed()) <= Failed() && Unfailed() <= old(Unfailed())
              && setBlockIndexValid <= old(setBlockIndexValid)
      ensures Climbing(mapBlockIndex, old(pindexBest), switched)
      ensures pindexBest == if switched == [] then old(pindexBest) else Some(switched[|switched| - 1])
      ensures nBestHeight >= old(nBestHeight)
      ensures ok ==> MostWork()
      ensures ok ==> forall c | c in mapBlockIndex && c !in Failed() ::
                       pindexBest.Some? && WorkSum(works, PathTo(Some(c))) <= WorkSum(works, PathTo(pindexBest))
      ensures ok && switched != [] ==> forall c | c in mapBlockIndex && c !in Failed() ::
                mapBlockIndex[c].chainWork == mapBlockIndex[pindexBest.value].chainWork ==> pindexBest.value <= c
      ensures old(asked) <= asked && (!ok ==> Refused(world, asked, |old(asked)|) || Stuck())
      ensures old(Traced()) ==> Traced()
      ensures nBestInvalidWork >= old(nBestInvalidWork)
      decreases Unfailed(), 4
    {
      hide WellFormed, Weighed, Path, Follows, CleanBranch, Attachable, Coherent, Unfailed, Judged, Proven, Refused;
      hide Tells, LogOf, ChainAfter, Weighed, WorkSum, Unmarked, WorkLess, Stuck;
      switched := [];
      while true
        invariant mapBlockIndex == old(mapBlockIndex) && Valid() && pindexBest == old(pindexBest)
                  && nBestHeight == old(nBestHeight)
        invariant old(Failed()) <= Failed() && Unfailed() <= old(Unfailed())
                  && setBlockIndexValid <= old(setBlockIndexValid)
        invariant asked == old(asked) && attempts == old(attempts)
        invariant nBestInvalidWork >= old(nBestInvalidWork)
        decreases setBlockIndexValid
      {
        UnfailedAreCandidates();
        if setBlockIndexValid == {} {
          return true, [];
        }
        ghost var _ := GreatestCandidate(mapBlockIndex, setBlockIndexValid);
        var top :| top in setBlockIndexValid
                   && forall c | c in setBlockIndexValid :: c == top || WorkLess(mapBlockIndex, c, top);
        ghost var candidates := setBlockIndexValid;
        GreatestHasMostWork(mapBlockIndex, candidates, top);
        if pindexBest.Some? && mapBlockIndex[top].chainWork == mapBlockIndex[pindexBest.value].chainWork {
          MostBySum();
          return true, []; // covers the candidate being the best block itself
        }
        var clean, vAttach := CheckAncestry(top);
        if clean {
          ok, switched := AttachAll(top, vAttach);
          if ok {
            UnfailedAreCandidates();
            MostBySum();
          }
          return;
        }
      }
    }

    // A block whose header passed `CheckProofOfWork`, so its work is positive, enters the index.
    method AcceptBlock(hash: Hash, prev: Option<Hash>, blockWork: nat) returns (ok: bool, ghost switched: seq<Hash>)
      requires Valid() && blockWork > 0 && (prev.None? <==> hash == genesis)
      modifies this
      ensures Valid() && old(asked) <= asked && old(Failed()) <= Failed()
              && old(mapBlockIndex.Keys) <= mapBlockIndex.Keys
      ensures Climbing(mapBlockIndex, old(pindexBest), switched)
      ensures pindexBest == if switched == [] then old(pindexBest) else Some(switched[|switched| - 1])
      ensures nBestHeight >= old(nBestHeight)
      ensures old(hash in mapBlockIndex || (prev.Some? && prev.value !in mapBlockIndex)) ==>
                !ok && mapBlockIndex == old(mapBlockIndex) && works == old(works) && switched == []
      ensures old(hash !in mapBlockIndex && (prev.None? || prev.value in mapBlockIndex)) ==>
                && mapBlockIndex.Keys == old(mapBlockIndex.Keys) + {hash} && mapBlockIndex[hash].pprev == prev
                && (forall h | h in old(mapBlockIndex) :: mapBlockIndex[h] == old(mapBlockIndex)[h])
                && works == old(works)[hash := blockWork]
                && (!ok ==> Refused(world, asked, |old(asked)|) || Stuck())
      ensures ok ==> MostWork()
      ensures ok ==> forall c | c in mapBlockIndex && c !in Failed() ::
                       pindexBest.Some? && WorkSum(works, PathTo(Some(c))) <= WorkSum(works, PathTo(pindexBest))
      ensures ok && switched != [] ==> forall c | c in mapBlockIndex && c !in Failed() ::
                mapBlockIndex[c].chainWork == mapBlockIndex[pindexBest.value].chainWork ==> pindexBest.value <= c
      ensures old(Traced()) ==> Traced()
      ensures nBestInvalidWork >= old(nBestInvalidWork)
    {
      hide Path, Follows, WellFormed, Weighed, Failed, Unfailed, Coherent, Judged, Proven, Refused, Unmarked, NewEntry;
      hide Climbing, Stuck, Traced, WorkSum, MostWork;
      if hash in mapBlockIndex || (prev.Some? && prev.value !in mapBlockIndex) {
        NoSwitch(mapBlockIndex, pindexBest);
        return false, [];
      }
      NewEntryFits(mapBlockIndex, genesis, works, hash, prev, blockWork);
      AddEntry(hash, NewEntry(mapBlockIndex, prev, blockWork), blockWork);
      ok, switched := ConnectBestBlock();
    }

    // The first half of `AddToBlockIndex`: the new entry is a candidate and changes no path.
    method AddEntry(hash: Hash, entry: BlockIndex, ghost blockWork: nat)
      requires Valid() && hash !in mapBlockIndex && WellFormed(mapBlockIndex[hash := entry], genesis)
      requires Weighed(mapBlockIndex[hash := entry], genesis, works[hash := blockWork])
      modifies this`mapBlockIndex, this`works, this`setBlockIndexValid
      ensures mapBlockIndex == old(mapBlockIndex)[hash := entry] && works == old(works)[hash := blockWork] && Valid()
      ensures setBlockIndexValid == old(setBlockIndexValid) + {hash}
      ensures old(Traced()) ==> Traced()
    {
      hide Broken, Accepted, Path, WellFormed, Weighed, Follows, Justified, Unmarked, Tells, LogOf, ChainAfter;
      if pindexBest.Some? {
        PathExtend(mapBlockIndex, genesis, pindexBest.value, hash, entry);
      }
      if Tells(mapBlockIndex, world, attempts) {
        TellsExtend(mapBlockIndex, world, attempts, hash, entry);
      }
      CandidateAdded(mapBlockIndex, hash, entry, failedValid, failedChild, setBlockIndexValid, Broken(world, asked));
      mapBlockIndex, works := mapBlockIndex[hash := entry], works[hash := blockWork];
      setBlockIndexValid := setBlockIndexValid + {hash};
    }
  }

  lemma ElementsPush(v: seq<Hash>, at: nat)
    requires at <= |v|
    ensures at == 0 ==> Elements(v[..at]) == {}
    ensures at < |v| ==> Elements(v[..at + 1]) == Elements(v[..at]) + {v[at]}
    ensures at == |v| ==> v[..at] == v
  {
    if at < |v| {
      assert v[..at + 1] == v[..at] + [v[at]];
    }
  }

  // Below the length of the chain `p`, the chain `q` ends or has a failed block that is not on `p`.
  ghost predicate Short(p: seq<Hash>, q: seq<Hash>, failed: set<Hash>) {
    exists k: nat :: k < |p| && EndsAt(p, q, failed, k)
  }

  ghost predicate EndsAt(p: seq<Hash>, q: seq<Hash>, failed: set<Hash>, k: nat) {
    k == |q| || (k < |q| && q[k] in failed && q[k] !in p)
  }

  lemma ShortIff(t: Tree, p: seq<Hash>, q: seq<Hash>, base: nat, failed: set<Hash>)
    requires (p == [] || Linked(t, p)) && Linked(t, q) && ForkAt(p, q, base)
    ensures base <= |q|
    ensures FirstFailed(q, base, failed) < |p| <==> Short(p, q, failed)
  {
    assert q != [];
    hide Linked, FirstFailed;
    ForkInRange(p, q, base);
    var m := FirstFailed(q, base, failed);
    if m < |q| {
      BranchMembers(t, p, q, base, m);
    }
    if m < |p| {
      assert EndsAt(p, q, failed, m);
    }
    if k: nat :| k < |p| && EndsAt(p, q, failed, k) {
      if k < |q| {
        BranchMembers(t, p, q, base, k);
      }
      assert m <= k;
    }
  }

  lemma LinkedMembers(t: Tree, q: seq<Hash>)
    requires Linked(t, q)
    ensures q != [] && forall k | 0 <= k < |q| :: q[k] in t
  {
  }

  lemma ForkInRange(p: seq<Hash>, q: seq<Hash>, base: nat)
    requires ForkAt(p, q, base) && q != []
    ensures base <= |p| && base <= |q| && (base > 0 ==> p[base - 1] == q[base - 1])
  {
  }

  // Attaching the blocks above the best block's work climbs at every switch, up to the candidate.
  lemma ClimbingSuffix(t: Tree, genesis: Hash, top: Hash, v: seq<Hash>, best: Option<Hash>)
    requires WellFormed(t, genesis) && top in t && (best.Some? ==> best.value in t)
    requires |v| <= |Path(t, genesis, top)| && v == Path(t, genesis, top)[|Path(t, genesis, top)| - |v|..]
    requires forall x | x in v :: x in t
    requires v != [] ==> TipWork(t, best) < t[v[0]].chainWork
    ensures forall i | 0 <= i <= |v| :: Climbing(t, best, v[..i])
    ensures v != [] ==> v[|v| - 1] == top
  {
    var q := Path(t, genesis, top);
    PathLinked(t, genesis, top);
    forall i | 0 < i < |v| ensures t[v[i - 1]].chainWork < t[v[i]].chainWork {
      PathWork(t, genesis, q, |q| - |v| + i - 1, |q| - |v| + i);
    }
  }

  lemma SuffixAt(q: seq<Hash>, v: seq<Hash>, c: nat, i: nat, known: set<Hash>, failed: set<Hash>)
    requires c <= |q| && v == q[c..] && i < |v| && forall x | x in v :: x in known && x !in failed
    ensures c + i < |q| && q[c + i] == v[i] && v[i] in known && (i > 0 ==> q[c + i - 1] == v[i - 1])
    ensures forall x | x in q[c + i..] :: x !in failed
  {
    assert q[c + i..] == v[i..];
  }

  // The candidates are exactly the blocks without a failure mark.
  ghost predicate Unmarked(all: set<Hash>, valid: set<Hash>, child: set<Hash>, candidates: set<Hash>) {
    candidates == all - (valid + child)
  }

  // Marking the blocks of `q` from `m` on takes exactly them out of the candidate set.
  lemma MarkedAbove(t: Tree, q: seq<Hash>, base: nat, m: nat, valid: set<Hash>, child: set<Hash>, candidates: set<Hash>)
    requires Linked(t, q) && base <= m <= |q| && valid + child <= t.Keys && Unmarked(t.Keys, valid, child, candidates)
    ensures var marked := Elements(q[m..]);
            && Unmarked(t.Keys, valid, child + marked, candidates - marked) && valid + (child + marked) <= t.Keys
            && valid + child <= valid + (child + marked) && candidates - marked <= candidates
            && |t.Keys - (valid + (child + marked))| <= |t.Keys - (valid + child)|
            && (forall k | base <= k < m :: q[k] in valid + (child + marked) <==> q[k] in valid + child)
            && (m == |q| ==> child + marked == child && candidates - marked == candidates)
            && (m < |q| ==>
                  && q[|q| - 1] in child + marked
                  && (q[|q| - 1] in candidates ==> candidates - marked < candidates))
  {
    hide Linked, Elements;
    AboveFailed(t, q, base, m);
    FewerLeft(t.Keys, valid + child, valid + (child + Elements(q[m..])));
  }

  // A candidate has no failure mark.
  lemma CandidateUnmarked(all: set<Hash>, valid: set<Hash>, child: set<Hash>, candidates: set<Hash>, top: Hash)
    requires Unmarked(all, valid, child, candidates) && top in candidates
    ensures top in all && top !in valid + child
  {
  }

  lemma FewerLeft(all: set<Hash>, before: set<Hash>, after: set<Hash>)
    requires before <= after
    ensures |all - after| <= |all - before|
  {
    var gone := (all - before) - (all - after);
    assert all - before == (all - after) + gone;
  }

  // `base` is one above the fork of the two chains, or zero when there is no chain `p` yet.
  ghost predicate ForkAt(p: seq<Hash>, q: seq<Hash>, base: nat) {
    if base == 0 then p == [] else IsFork(p, q, base - 1)
  }

  // The blocks of `q` from `base` on are those not on `p`.
  lemma BranchMembers(t: Tree, p: seq<Hash>, q: seq<Hash>, base: nat, k: nat)
    requires (p == [] || Linked(t, p)) && Linked(t, q) && ForkAt(p, q, base) && k < |q|
    ensures q[k] in p <==> k < base
  {
    if base > 0 {
      SharedPrefix(t, p, q, base - 1);
      if k < base {
        assert p[..base][k] == q[..base][k];
      }
    }
  }

  lemma CleanIff(t: Tree, p: seq<Hash>, q: seq<Hash>, base: nat, failed: set<Hash>)
    requires (p == [] || Linked(t, p)) && Linked(t, q) && ForkAt(p, q, base)
    ensures base <= |q|
    ensures FirstFailed(q, base, failed) == |q| <==> forall x | x in q && x !in p :: x !in failed
  {
    forall k | 0 <= k < |q| ensures q[k] in p <==> k < base {
      BranchMembers(t, p, q, base, k);
    }
  }

  // The registered vector is the new path exactly when the whole branch was connected.
  lemma RegisteredIff(t: Tree, p: seq<Hash>, q: seq<Hash>, base: nat, m: nat,
                      before: seq<Option<Hash>>, after: seq<Option<Hash>>)
    requires (p == [] || Linked(t, p)) && Linked(t, q) && ForkAt(p, q, base) && base <= m <= |q|
    requires Follows(before, p) && |after| == |q|
    requires forall k | 0 <= k < |q| ::
               after[k] == if base <= k < m then Some(q[k]) else Resize(before, |q|)[k]
    ensures Follows(after, q) <==> m == |q|
  {
    forall k | 0 <= k < base ensures after[k] == Some(q[k]) {
      SharedPrefix(t, p, q, base - 1);
      assert p[..base][k] == q[..base][k];
    }
    if m < |q| {
      assert after[m] != Some(q[m]);
    }
  }

  // A new entry is a candidate and needs no mark.
  lemma CandidateAdded(t: Tree, hash: Hash, entry: BlockIndex, valid: set<Hash>, child: set<Hash>,
                       candidates: set<Hash>, broken: set<Hash>)
    requires hash !in t && valid + child <= t.Keys && Unmarked(t.Keys, valid, child, candidates)
             && Justified(t, valid, child, broken, {})
    ensures Unmarked(t[hash := entry].Keys, valid, child, candidates + {hash})
    ensures Justified(t[hash := entry], valid, child, broken, {})
  {
  }

  lemma NewEntryFits(t: Tree, genesis: Hash, works: Works, hash: Hash, prev: Option<Hash>, blockWork: nat)
    requires WellFormed(t, genesis) && hash !in t && (prev.Some? ==> prev.value in t)
             && (prev.None? <==> hash == genesis) && blockWork > 0
    requires Weighed(t, genesis, works)
    ensures var after := t[hash := NewEntry(t, prev, blockWork)];
            && WellFormed(after, genesis) && Weighed(after, genesis, works[hash := blockWork])
            && after[hash].pprev == prev
  {
    var entry := NewEntry(t, prev, blockWork);
    assert WellFormed(t[hash := entry], genesis);
    WeighedExtend(t, genesis, works, hash, entry, blockWork);
  }

  // An entry above `prev`, or the genesis block.
  function NewEntry(t: Tree, prev: Option<Hash>, blockWork: nat): BlockIndex
    requires prev.Some? ==> prev.value in t
  {
    if prev.None? then BlockIndex(None, 0, blockWork)
    else BlockIndex(prev, t[prev.value].height + 1, t[prev.value].chainWork + blockWork)
  }

  // Only blocks that are on one of the two chains were asked about, and none to be connected that had failed.
  ghost predicate AboutBranch(log: seq<Ask>, from: nat, p: seq<Hash>, q: seq<Hash>, failed: set<Hash>) {
    forall i | from <= i < |log| ::
      if log[i].connect then log[i].block in q && log[i].block !in p && log[i].block !in failed
      else log[i].block in p && log[i].block !in q
  }

  lemma NothingAsked(log: seq<Ask>, p: seq<Hash>, q: seq<Hash>, failed: set<Hash>)
    ensures AboutBranch(log, |log|, p, q, failed)
  {
  }

  lemma FewerFailed(log: seq<Ask>, from: nat, p: seq<Hash>, q: seq<Hash>, fewer: set<Hash>, failed: set<Hash>)
    requires fewer <= failed
    ensures AboutBranch(log, from, p, q, failed) ==> AboutBranch(log, from, p, q, fewer)
  {
  }

  lemma AsksAboutBranch(t: Tree, before: seq<Ask>, log: seq<Ask>, down: seq<Hash>, up: seq<Hash>,
                        p: seq<Hash>, q: seq<Hash>, base: nat, m: nat, failed: set<Hash>)
    requires (p == [] || Linked(t, p)) && Linked(t, q) && ForkAt(p, q, base) && base <= m <= |q| && base <= |p|
    requires Backwards(down, p[base..]) && up == q[base..m] && InTurn(before, log, down, up)
    requires forall k | base <= k < m :: q[k] !in failed
    ensures AboutBranch(log, |before|, p, q, failed)
  {
    hide Linked, ForkAt;
    forall j | 0 <= j < |down| ensures down[j] in p && down[j] !in q {
      var k := |p| - 1 - j;
      assert down[j] == p[k];
      BelowFork(t, p, q, base, k);
    }
    forall j | 0 <= j < |up| ensures up[j] in q && up[j] !in p && up[j] !in failed {
      assert up[j] == q[base + j];
      BranchMembers(t, p, q, base, base + j);
    }
  }

  // The blocks of `p` from `base` on are those not on `q`.
  lemma BelowFork(t: Tree, p: seq<Hash>, q: seq<Hash>, base: nat, k: nat)
    requires Linked(t, p) && Linked(t, q) && ForkAt(p, q, base) && base <= k < |p|
    ensures p[k] !in q
  {
    forall i | 0 <= i < |q| ensures q[i] != p[k] {
      assert t[q[i]].height == i && t[p[k]].height == k;
    }
  }

  lemma NothingToDo(t: Tree, before: seq<Ask>, log: seq<Ask>, down: seq<Hash>, up: seq<Hash>,
                    p: seq<Hash>, q: seq<Hash>, base: nat, m: nat)
    requires (p == [] || Linked(t, p)) && Linked(t, q) && ForkAt(p, q, base) && base <= m <= |q| && base <= |p|
    requires Backwards(down, p[base..]) && up == q[base..m] && |down| <= |up| && InTurn(before, log, down, up)
             && up == []
    ensures log == before && q[..m] == p
  {
    if base > 0 {
      SharedPrefix(t, p, q, base - 1);
    }
    assert p[..base] == p;
  }

  lemma OnlyDisconnects(world: World, start: seq<Ask>, log: seq<Ask>, down: seq<Hash>, up: seq<Hash>, ok: bool)
    requires Asked(start, log, down, false) && Halts(world, start, log, |down|, ok)
    ensures InTurn(start, log, down, up) && (!ok ==> Halts(world, start, log, |down| + |up|, ok))
  {
  }

  // What a switch asks and what comes of it, as an attempt.
  lemma Planned(t: Tree, world: World, before: seq<Ask>, log: seq<Ask>, down: seq<Hash>, up: seq<Hash>,
                p: seq<Hash>, q: seq<Hash>, base: nat, m: nat, ok: bool)
    requires (p == [] || Linked(t, p)) && Linked(t, q) && ForkAt(p, q, base) && base <= m <= |q| && base <= |p|
    requires Backwards(down, p[base..]) && up == q[base..m] && up != []
    requires InTurn(before, log, down, up) && Halts(world, before, log, |down| + |up|, ok)
    ensures |log| >= |before| + if ok then 0 else 1
    ensures var a := Attempt(base, up, |log| - |before| - if ok then 0 else 1);
            && log == before + Questions(p, a) && Answered(world, |before|, p, a)
            && ((p == [] ==> |q| == 1) ==> Sensible(t, p, a)) && Moved(p, a) == if ok then q[..m] else p
  {
    hide InTurn, Halts, Linked, Answered, Questions;
    forall j | 0 <= j < |down| ensures down[j] == p[|p| - 1 - j] {
      assert p[base..][|down| - 1 - j] == p[|p| - 1 - j];
    }
    AttemptMade(world, before, log, down, up, p, base, ok);
    OneChain(t, p, q, base, m);
    BranchMembers(t, p, q, base, base);
  }

  // Up to the fork the two chains are one.
  lemma OneChain(t: Tree, p: seq<Hash>, q: seq<Hash>, base: nat, m: nat)
    requires (p == [] || Linked(t, p)) && Linked(t, q) && ForkAt(p, q, base) && base < m <= |q| && base <= |p|
    ensures p[..base] + q[base..m] == q[..m] && Linked(t, q[..m])
  {
    if base > 0 {
      SharedPrefix(t, p, q, base - 1);
    }
    assert q[..base] + q[base..m] == q[..m];
  }

  // All of the new chain was connected, now or before.
  lemma NewTipProven(t: Tree, p: seq<Hash>, q: seq<Hash>, base: nat, m: nat, accepted: set<Hash>)
    requires (p == [] || Linked(t, p)) && Linked(t, q) && ForkAt(p, q, base) && base <= m <= |q|
    requires (forall x | x in p :: x in accepted) && Elements(q[base..m]) <= accepted
    ensures m == |q| ==> forall x | x in q :: x in accepted
  {
    if m == |q| {
      forall x | x in q ensures x in accepted {
        var k :| 0 <= k < |q| && q[k] == x;
        BranchMembers(t, p, q, base, k);
        assert k >= base ==> q[base..m][k - base] == x;
      }
    }
  }

  // Marking what lies above a marked block.
  lemma MarksSpread(t: Tree, q: seq<Hash>, m: nat, before: set<Hash>, after: set<Hash>, broken: set<Hash>)
    requires Linked(t, q) && m <= |q| && after == before + Elements(q[m..])
    requires m < |q| ==> q[m] in before || (m > 0 && q[m - 1] in before)
    ensures ForCause(t, before, broken) ==> ForCause(t, after, broken)
  {
    if ForCause(t, before, broken) {
      forall x | x in after && x !in before ensures t[x].pprev.Some? && t[x].pprev.value in after {
        var k :| 0 <= k < |q[m..]| && q[m..][k] == x;
        assert q[m + k] == x;
        if k > 0 {
          assert q[m..][k - 1] == q[m + k - 1];
        }
      }
    }
  }

  // Marking everything above a marked block keeps the marks justified.
  lemma MarksJustified(t: Tree, q: seq<Hash>, n: nat, valid: set<Hash>, child: set<Hash>, broken: set<Hash>)
    requires Justified(t, valid, child, broken, {}) && Linked(t, q) && n <= |q|
    requires n < |q| ==> q[n] in valid + child || (n > 0 && q[n - 1] in valid + child)
    ensures Justified(t, valid, child + Elements(q[n..]), broken, {})
  {
    hide Linked, Elements, ForCause;
    var after := valid + (child + Elements(q[n..]));
    assert after == valid + child + Elements(q[n..]);
    MarksSpread(t, q, n, valid + child, after, broken);
  }

  // A marked block has a block on its path that broke a rule.
  lemma {:induction false} CauseBelow(t: Tree, genesis: Hash, failed: set<Hash>, broken: set<Hash>, h: Hash)
    requires WellFormed(t, genesis) && ForCause(t, failed, broken) && h in failed && h in t
    ensures exists x :: x in Path(t, genesis, h) && x in broken
    decreases t[h].height
  {
    var p := Path(t, genesis, h);
    if h in broken {
      assert p[|p| - 1] == h;
    } else {
      CauseBelow(t, genesis, failed, broken, t[h].pprev.value);
    }
  }

  // A block is not among those above it.
  lemma DistinctHeights(t: Tree, p: seq<Hash>, n: nat, m: nat)
    requires Linked(t, p) && n < m <= |p|
    ensures p[n] !in Elements(p[m..])
  {
  }

  // Everything from a failed block up is in the tree, and nothing below it is affected.
  lemma AboveFailed(t: Tree, q: seq<Hash>, base: nat, m: nat)
    requires Linked(t, q) && base <= m <= |q|
    ensures Elements(q[m..]) <= t.Keys
    ensures forall k | base <= k < m :: q[k] !in Elements(q[m..])
    ensures if m == |q| then Elements(q[m..]) == {} else q[|q| - 1] in Elements(q[m..])
  {
    forall x | x in q[m..] ensures x in t {
      var i :| 0 <= i < |q[m..]| && q[m..][i] == x;
      assert q[m + i] in t;
    }
    forall k | base <= k < m ensures q[k] !in Elements(q[m..]) {
      DistinctHeights(t, q, k, m);
    }
    if m < |q| {
      assert q[m..][|q| - 1 - m] == q[|q| - 1];
    }
  }

  lemma NothingListed(s: seq<Hash>)
    ensures Elements(s[|s|..]) == {} && Backwards([], s[|s|..|s|])
    ensures s == [] ==> Backwards([], s)
  {
  }

  lemma MarkedSuffix(v: seq<Hash>, p: seq<Hash>, n: nat, m: nat)
    requires n <= m <= |p| && Backwards(v, p[n..m])
    ensures (set x | x in v) + Elements(p[m..]) == Elements(p[n..])
  {
    forall x ensures x in v || x in p[m..] <==> x in p[n..] {
      if x in p[n..] {
        var i :| 0 <= i < |p[n..]| && p[n..][i] == x;
        if i < m - n {
          assert v[m - n - 1 - i] == x;
        } else {
          assert p[m..][i - (m - n)] == x;
        }
      }
      if x in v {
        var i :| 0 <= i < |v| && v[i] == x;
        assert p[n..][m - n - 1 - i] == x;
      }
      if x in p[m..] {
        var i :| 0 <= i < |p[m..]| && p[m..][i] == x;
        assert p[n..][m - n + i] == x;
      }
    }
  }
}
