/**
 The tree of block index entries (`mapBlockIndex`): what the `pprev` pointers,
 heights and cumulative work of a well-formed tree say about paths, forks and
 the order in which candidates are tried.
 */
module BlockTree {
  import opened Options

  // A block hash; hashes are compared as numbers by the candidate order.
  type Hash = nat

  // The part of a block index entry that never changes after it was created.
  datatype BlockIndex = BlockIndex(pprev: Option<Hash>, height: nat, chainWork: nat)

  type Tree = map<Hash, BlockIndex>

  // One root, which is the genesis block, and every other entry one above its
  // predecessor and with strictly more work.
  ghost predicate WellFormed(t: Tree, genesis: Hash) {
    forall h | h in t ::
      && (t[h].pprev.None? <==> h == genesis)
      && (t[h].pprev.None? ==> t[h].height == 0)
      && (t[h].pprev.Some? ==>
            && t[h].pprev.value in t
            && t[h].height == t[t[h].pprev.value].height + 1
            && t[t[h].pprev.value].chainWork < t[h].chainWork)
  }

  // The chain from the genesis block up to and including `h`, following `pprev`.
  ghost function Path(t: Tree, genesis: Hash, h: Hash): (p: seq<Hash>)
    requires WellFormed(t, genesis) && h in t
    ensures |p| == t[h].height + 1 && p[|p| - 1] == h
    decreases t[h].height
  {
    if t[h].pprev.None? then [h] else Path(t, genesis, t[h].pprev.value) + [h]
  }

  // `p` is a chain of the tree from its root upwards, linked by `pprev`.
  ghost predicate Linked(t: Tree, p: seq<Hash>) {
    && |p| > 0
    && (forall k | 0 <= k < |p| :: p[k] in t && t[p[k]].height == k)
    && (forall k | 0 < k < |p| :: t[p[k]].pprev == Some(p[k - 1]))
    && t[p[0]].pprev.None?
  }

  lemma {:induction false} PathLinked(t: Tree, genesis: Hash, h: Hash)
    requires WellFormed(t, genesis) && h in t
    ensures Linked(t, Path(t, genesis, h)) && Path(t, genesis, h)[0] == genesis
    decreases t[h].height
  {
    if t[h].pprev.Some? {
      PathLinked(t, genesis, t[h].pprev.value);
    }
  }

  // Two linked chains agree on everything up to a shared block.
  lemma {:induction false} SharedPrefix(t: Tree, p: seq<Hash>, q: seq<Hash>, k: nat)
    requires Linked(t, p) && Linked(t, q)
    requires k < |p| && k < |q| && p[k] == q[k]
    ensures p[..k + 1] == q[..k + 1]
  {
    if k > 0 {
      assert t[p[k]].pprev == Some(p[k - 1]) && t[q[k]].pprev == Some(q[k - 1]);
      SharedPrefix(t, p, q, k - 1);
      assert p[..k + 1] == p[..k] + [p[k]];
      assert q[..k + 1] == q[..k] + [q[k]];
    } else {
      assert p[..1] == [p[0]] && q[..1] == [q[0]];
    }
  }

  // Every block of a path has the prefix of that path as its own path.
  lemma PathPrefix(t: Tree, genesis: Hash, h: Hash, k: nat)
    requires WellFormed(t, genesis) && h in t && k <= t[h].height
    ensures Path(t, genesis, h)[k] in t
    ensures Path(t, genesis, Path(t, genesis, h)[k]) == Path(t, genesis, h)[..k + 1]
  {
    PathLinked(t, genesis, h);
    var x := Path(t, genesis, h)[k];
    PathLinked(t, genesis, x);
    SharedPrefix(t, Path(t, genesis, h), Path(t, genesis, x), k);
  }

  // Work grows strictly along a path.
  lemma {:induction false} PathWork(t: Tree, genesis: Hash, p: seq<Hash>, i: nat, j: nat)
    requires WellFormed(t, genesis) && Linked(t, p) && i < j < |p|
    ensures t[p[i]].chainWork < t[p[j]].chainWork
    decreases j
  {
    assert t[p[j]].pprev == Some(p[j - 1]);
    if i < j - 1 {
      PathWork(t, genesis, p, i, j - 1);
    }
  }

  // Adding an entry leaves the path of every older entry as it was.
  lemma {:induction false} PathExtend(t: Tree, genesis: Hash, h: Hash, added: Hash, entry: BlockIndex)
    requires WellFormed(t, genesis) && h in t && added !in t
    requires WellFormed(t[added := entry], genesis)
    ensures Path(t[added := entry], genesis, h) == Path(t, genesis, h)
    decreases t[h].height
  {
    if t[h].pprev.Some? {
      PathExtend(t, genesis, t[h].pprev.value, added, entry);
    }
  }

  // ---------- cumulative work ----------

  type Works = map<Hash, nat>

  // The work of the blocks of a chain, added up.
  ghost function WorkSum(works: Works, p: seq<Hash>): nat {
    if p == [] then 0
    else WorkSum(works, p[..|p| - 1]) + (if p[|p| - 1] in works then works[p[|p| - 1]] else 0)
  }

  ghost predicate WeighedAt(t: Tree, genesis: Hash, works: Works, h: Hash)
    requires WellFormed(t, genesis) && h in t
  {
    t[h].chainWork == WorkSum(works, Path(t, genesis, h))
  }

  // The cumulative work of every entry is that of all blocks on its path.
  ghost predicate Weighed(t: Tree, genesis: Hash, works: Works)
    requires WellFormed(t, genesis)
  {
    && works.Keys == t.Keys
    && forall h {:trigger WeighedAt(t, genesis, works, h)} | h in t :: WeighedAt(t, genesis, works, h)
  }

  lemma {:induction false} WorkSumKept(works: Works, p: seq<Hash>, added: Hash, work: nat)
    requires added !in p
    ensures WorkSum(works[added := work], p) == WorkSum(works, p)
  {
    if p != [] {
      WorkSumKept(works, p[..|p| - 1], added, work);
    }
  }

  // Every block adds its own work to that of the block below it.
  lemma WeighedStep(t: Tree, genesis: Hash, works: Works, h: Hash)
    requires WellFormed(t, genesis) && Weighed(t, genesis, works) && h in t
    ensures h in works && t[h].chainWork == works[h] + if h == genesis then 0 else t[t[h].pprev.value].chainWork
  {
    assert WeighedAt(t, genesis, works, h);
    var p := Path(t, genesis, h);
    if h == genesis {
      assert |p| == 1 && p[..|p| - 1] == [];
      assert WorkSum(works, p) == WorkSum(works, []) + works[h];
    } else {
      assert WeighedAt(t, genesis, works, t[h].pprev.value);
      assert p[..|p| - 1] == Path(t, genesis, t[h].pprev.value);
    }
  }

  // A new entry that adds its work to that of the entry below it keeps the sums right.
  lemma WeighedExtend(t: Tree, genesis: Hash, works: Works, added: Hash, entry: BlockIndex, work: nat)
    requires WellFormed(t, genesis) && Weighed(t, genesis, works) && added !in t
    requires WellFormed(t[added := entry], genesis)
    requires entry.pprev.Some? ==> entry.pprev.value in t
    requires entry.chainWork == work + if entry.pprev.None? then 0 else t[entry.pprev.value].chainWork
    ensures Weighed(t[added := entry], genesis, works[added := work])
  {
    hide WellFormed;
    var t', works' := t[added := entry], works[added := work];
    forall h | h in t' ensures WeighedAt(t', genesis, works', h) {
      if h == added {
        NewSum(t, genesis, works, added, entry, work);
      } else {
        assert WeighedAt(t, genesis, works, h);
        OldSum(t, genesis, works, added, entry, work, h);
      }
    }
  }

  lemma OldSum(t: Tree, genesis: Hash, works: Works, added: Hash, entry: BlockIndex, work: nat, h: Hash)
    requires WellFormed(t, genesis) && h in t && added !in t && WellFormed(t[added := entry], genesis)
    ensures WorkSum(works[added := work], Path(t[added := entry], genesis, h)) == WorkSum(works, Path(t, genesis, h))
  {
    PathExtend(t, genesis, h, added, entry);
    PathLinked(t, genesis, h);
    WorkSumKept(works, Path(t, genesis, h), added, work);
  }

  lemma NewSum(t: Tree, genesis: Hash, works: Works, added: Hash, entry: BlockIndex, work: nat)
    requires WellFormed(t, genesis) && Weighed(t, genesis, works) && added !in t
    requires WellFormed(t[added := entry], genesis)
    requires entry.pprev.Some? ==> entry.pprev.value in t
    requires entry.chainWork == work + if entry.pprev.None? then 0 else t[entry.pprev.value].chainWork
    ensures WeighedAt(t[added := entry], genesis, works[added := work], added)
  {
    var t', works' := t[added := entry], works[added := work];
    var p := Path(t', genesis, added);
    if entry.pprev.Some? {
      var prev := entry.pprev.value;
      assert WeighedAt(t, genesis, works, prev);
      OldSum(t, genesis, works, added, entry, work, prev);
      assert p[..|p| - 1] == Path(t', genesis, prev);
    } else {
      assert p == [added] && p[..0] == [];
    }
  }

  // `k` is the height of the last common block of the two chains.
  ghost predicate IsFork(p: seq<Hash>, q: seq<Hash>, k: nat) {
    && k < |p| && k < |q| && p[k] == q[k]
    && forall j | k < j < |p| && j < |q| :: p[j] != q[j]
  }

  // The blocks on both chains are exactly those up to the fork: it is their highest common ancestor.
  lemma ForkIsHighestCommonAncestor(t: Tree, p: seq<Hash>, q: seq<Hash>, k: nat, c: Hash)
    requires Linked(t, p) && Linked(t, q) && IsFork(p, q, k)
    ensures c in p && c in q <==> c in p[..k + 1]
  {
    SharedPrefix(t, p, q, k);
    if c in p && c in q {
      var i :| 0 <= i < |p| && p[i] == c;
      var j :| 0 <= j < |q| && q[j] == c;
      assert i == j == t[c].height;
      assert p[..k + 1][i] == c;
    }
    if c in p[..k + 1] {
      assert c in q[..k + 1];
    }
  }

  // The candidate order: less work first, and among equal work the larger hash first.
  predicate WorkLess(t: Tree, a: Hash, b: Hash)
    requires a in t && b in t
  {
    t[a].chainWork < t[b].chainWork || (t[a].chainWork == t[b].chainWork && a > b)
  }

  // `top` is where iteration of the candidate set from its greatest end starts.
  ghost predicate IsGreatest(t: Tree, s: set<Hash>, top: Hash)
    requires s <= t.Keys
  {
    top in s && forall c | c in s :: c == top || WorkLess(t, c, top)
  }

  // It has the most work, and of those with as much the smallest hash.
  lemma GreatestHasMostWork(t: Tree, s: set<Hash>, top: Hash)
    requires s <= t.Keys && IsGreatest(t, s, top)
    ensures forall c | c in s :: t[c].chainWork <= t[top].chainWork && (t[c].chainWork == t[top].chainWork ==> top <= c)
  {
    forall c | c in s
      ensures t[c].chainWork <= t[top].chainWork && (t[c].chainWork == t[top].chainWork ==> top <= c)
    {
      assert c == top || WorkLess(t, c, top);
    }
  }

  // The order is total, so a nonempty candidate set has a greatest element.
  lemma {:induction false} GreatestCandidate(t: Tree, s: set<Hash>) returns (top: Hash)
    requires s != {} && s <= t.Keys
    ensures IsGreatest(t, s, top)
    decreases |s|
  {
    var x :| x in s;
    var rest := s - {x};
    if rest == {} {
      assert s == {x};
      top := x;
    } else {
      var y := GreatestCandidate(t, rest);
      top := if WorkLess(t, y, x) then x else y;
      forall c | c in s ensures c == top || WorkLess(t, c, top) {
        assert c == x || c in rest;
      }
    }
  }
}
