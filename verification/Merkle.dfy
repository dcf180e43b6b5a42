/**
 The Merkle tree of a block: the recursive definition that partial trees use
 (`CalcHash`), the flat array that `CBlock` builds, and the branches taken from
 it. Hashing a pair is a constructor, so it is free of collisions.
 */
module Merkle {
  import opened Powers

  // `Null` is the zero hash.
  datatype Hash = Null | Txid(id: nat) | Pair(left: Hash, right: Hash)

  // `CalcTreeWidth`: the number of nodes at a height over `n` leaves.
  function Width(n: nat, h: nat): nat {
    (n + Pow2(h) - 1) / Pow2(h)
  }

  // A node exists exactly when the first leaf below it does.
  lemma WidthIff(n: nat, h: nat, k: nat)
    ensures k < Width(n, h) <==> k * Pow2(h) < n
  {
    CeilingIff(n, Pow2(h), k);
  }

  lemma CeilingIff(n: nat, p: nat, k: nat)
    requires p > 0
    ensures k < (n + p - 1) / p <==> k * p < n
  {
    var q := (n + p - 1) / p;
    assert q * p <= n + p - 1 < q * p + p;
    if k < q {
      assert (k + 1) * p <= q * p;
    } else {
      assert q * p <= k * p;
    }
  }

  // Each level has half as many nodes as the one below, rounded up.
  lemma WidthHalves(n: nat, h: nat)
    ensures Width(n, h + 1) == (Width(n, h) + 1) / 2
  {
    var a, b := Width(n, h + 1), (Width(n, h) + 1) / 2;
    assert forall k: nat {:trigger k * Pow2(h + 1)} :: k * Pow2(h + 1) == 2 * k * Pow2(h);
    WidthIff(n, h + 1, b);
    WidthIff(n, h, 2 * b);
    if b > 0 {
      WidthIff(n, h + 1, b - 1);
      WidthIff(n, h, 2 * (b - 1));
    }
  }

  lemma WidthZero(n: nat)
    ensures Width(n, 0) == n
  {
  }

  // The hash of a node; a missing right child is a copy of the left one.
  function CalcHash(h: nat, pos: nat, txids: seq<Hash>): (r: Hash)
    requires pos < Width(|txids|, h)
    decreases h
  {
    if h == 0 then
      txids[pos]
    else
      ChildExists(|txids|, h, pos);
      var left := CalcHash(h - 1, pos * 2, txids);
      var right := if pos * 2 + 1 < Width(|txids|, h - 1) then CalcHash(h - 1, pos * 2 + 1, txids) else left;
      Pair(left, right)
  }

  lemma ChildExists(n: nat, h: nat, pos: nat)
    requires h > 0 && pos < Width(n, h)
    ensures pos * 2 < Width(n, h - 1)
  {
    WidthHalves(n, h - 1);
  }

  // The height of the tree: the first level with at most one node.
  function Height(n: nat, from: nat): (h: nat)
    ensures h >= from && Width(n, h) <= 1
    ensures forall k | from <= k < h :: Width(n, k) > 1
    decreases Width(n, from)
  {
    if Width(n, from) <= 1 then from
    else
      WidthHalves(n, from);
      Height(n, from + 1)
  }

  lemma {:induction false} WidthPositive(n: nat, h: nat)
    requires n > 0
    ensures Width(n, h) > 0
  {
    WidthIff(n, h, 0);
  }

  function Root(txids: seq<Hash>): Hash
    requires |txids| > 0
  {
    WidthPositive(|txids|, Height(|txids|, 0));
    CalcHash(Height(|txids|, 0), 0, txids)
  }

  // The left one of a pair comes first, and the last of an odd level is paired with itself.
  lemma RootOfThree(a: Hash, b: Hash, c: Hash)
    ensures Root([a, b, c]) == Pair(Pair(a, b), Pair(c, c))
  {
    var txids := [a, b, c];
    WidthZero(3);
    WidthHalves(3, 0);
    WidthHalves(3, 1);
    hide Width;
    assert Height(3, 0) == 2;
    assert CalcHash(1, 0, txids) == Pair(a, b) && CalcHash(1, 1, txids) == Pair(c, c);
  }

  // ---------- the flat array ----------

  // Where a level starts in the flat array: after all the levels below it.
  ghost function LevelStart(n: nat, k: nat): nat {
    if k == 0 then 0 else LevelStart(n, k - 1) + Width(n, k - 1)
  }

  // The array holds level `k` in its place.
  ghost predicate HasLevel(tree: seq<Hash>, txids: seq<Hash>, k: nat) {
    && LevelStart(|txids|, k) + Width(|txids|, k) <= |tree|
    && forall i | 0 <= i < Width(|txids|, k) :: tree[LevelStart(|txids|, k) + i] == CalcHash(k, i, txids)
  }

  // All levels up to the one with a single node, and nothing after it.
  ghost predicate Complete(tree: seq<Hash>, txids: seq<Hash>)
    requires |txids| > 0
  {
    var top := Height(|txids|, 0);
    && |tree| == LevelStart(|txids|, top) + 1
    && forall k | 0 <= k <= top :: HasLevel(tree, txids, k)
  }

  lemma LevelKept(tree: seq<Hash>, more: seq<Hash>, txids: seq<Hash>, k: nat)
    requires HasLevel(tree, txids, k) && tree <= more
    ensures HasLevel(more, txids, k)
  {
  }

  // A node of the next level from the two below it; the last one of an odd level is paired with itself.
  lemma NextNode(tree: seq<Hash>, txids: seq<Hash>, k: nat, i: nat)
    requires HasLevel(tree, txids, k) && 2 * i < Width(|txids|, k)
    ensures i < Width(|txids|, k + 1)
    ensures var j, n := LevelStart(|txids|, k), Width(|txids|, k);
            var i2 := if 2 * i + 1 <= n - 1 then 2 * i + 1 else n - 1;
            Pair(tree[j + 2 * i], tree[j + i2]) == CalcHash(k + 1, i, txids)
  {
    WidthHalves(|txids|, k);
  }

  // One pass of the outer loop of `BuildMerkleTree`: append the level above level `k`.
  method AppendLevel(tree: seq<Hash>, j: nat, nSize: nat, ghost txids: seq<Hash>, ghost k: nat)
    returns (more: seq<Hash>)
    requires j == LevelStart(|txids|, k) && nSize == Width(|txids|, k) && |tree| == j + nSize
             && HasLevel(tree, txids, k)
    ensures tree <= more && |more| == j + nSize + Width(|txids|, k + 1) && HasLevel(more, txids, k + 1)
  {
    hide Width;
    more := tree;
    WidthHalves(|txids|, k);
    var i := 0;
    ghost var done, up := 0, k + 1;
    while i < nSize
      invariant i == 2 * done && done <= Width(|txids|, k + 1) && tree <= more && |more| == j + nSize + done
      invariant forall m | 0 <= m < done :: more[j + nSize + m] == CalcHash(up, m, txids)
      decreases nSize - i
    {
      LevelKept(tree, more, txids, k);
      NextNode(more, txids, k, done);
      var i2 := if i + 1 <= nSize - 1 then i + 1 else nSize - 1;
      more := more + [Pair(more[j + i], more[j + i2])];
      i := i + 2;
      done := done + 1;
    }
  }

  class MerkleBlock {
    // The transaction hashes of the block, and the cached tree over them.
    const vtx: seq<Hash>
    var vMerkleTree: seq<Hash>

    ghost predicate Valid()
      reads this
    {
      vMerkleTree == [] || (|vtx| > 0 && Complete(vMerkleTree, vtx))
    }

    constructor (txids: seq<Hash>)
      ensures Valid() && vtx == txids && vMerkleTree == []
    {
      vtx := txids;
      vMerkleTree := [];
    }

    method BuildMerkleTree() returns (root: Hash)
      modifies this
      ensures Valid() && (vMerkleTree == [] <==> vtx == [])
      ensures root == if vtx == [] then Null else Root(vtx)
    {
      hide Width, CalcHash, Height, HasLevel, Complete;
      vMerkleTree := vtx;
      var j, nSize := 0, |vtx|;
      WidthZero(|vtx|);
      FirstLevel(vtx);
      ghost var k := 0;
      while nSize > 1
        invariant nSize == Width(|vtx|, k) && j == LevelStart(|vtx|, k) && |vMerkleTree| == j + nSize
        invariant forall m | 0 <= m <= k :: HasLevel(vMerkleTree, vtx, m)
        invariant forall m | 0 <= m < k :: Width(|vtx|, m) > 1
        decreases nSize
      {
        ghost var tree := vMerkleTree;
        WidthHalves(|vtx|, k);
        vMerkleTree := AppendLevel(vMerkleTree, j, nSize, vtx, k);
        forall m | 0 <= m <= k ensures HasLevel(vMerkleTree, vtx, m) {
          LevelKept(tree, vMerkleTree, vtx, m);
        }
        j := j + nSize;
        nSize := (nSize + 1) / 2;
        k := k + 1;
      }
      if |vtx| > 0 {
        TopLevel(vMerkleTree, vtx, k);
      }
      root := if vMerkleTree == [] then Null else vMerkleTree[|vMerkleTree| - 1];
    }

    // The siblings on the way from a transaction to the root.
    method GetMerkleBranch(nIndex: nat) returns (branch: seq<Hash>)
      requires Valid()
      modifies this
      ensures Valid()
      ensures vtx != [] ==> IsBranch(vtx, nIndex, branch)
      ensures vtx == [] ==> branch == []
    {
      hide Width, CalcHash, Height, Sibling, Complete;
      if vMerkleTree == [] {
        var _ := BuildMerkleTree();
      }
      branch := [];
      var j, nSize, index := 0, |vtx|, nIndex;
      WidthZero(|vtx|);
      ghost var k, tree := 0, vMerkleTree;
      while nSize > 1
        invariant vMerkleTree == tree
        invariant nSize == Width(|vtx|, k) && j == LevelStart(|vtx|, k) && |branch| == k
        invariant index == Shifted(nIndex, k)
        invariant forall m | 0 <= m < k :: Width(|vtx|, m) > 1 && branch[m] == Sibling(vtx, nIndex, m)
        decreases nSize
      {
        WidthHalves(|vtx|, k);
        BelowTop(|vtx|, k);
        SiblingStored(tree, vtx, nIndex, k);
        var other := if index % 2 == 0 then index + 1 else index - 1;
        var i := if other <= nSize - 1 then other else nSize - 1;
        branch := branch + [vMerkleTree[j + i]];
        index := index / 2;
        j := j + nSize;
        nSize := (nSize + 1) / 2;
        k := k + 1;
      }
      if vtx != [] {
        WidthPositive(|vtx|, k);
        SameHeight(|vtx|, k);
      }
    }
  }

  lemma FirstLevel(txids: seq<Hash>)
    ensures HasLevel(txids, txids, 0) && LevelStart(|txids|, 0) == 0
  {
    WidthZero(|txids|);
  }

  // Below a level with a single node everything is there, and that node is the root.
  lemma TopLevel(tree: seq<Hash>, txids: seq<Hash>, k: nat)
    requires |txids| > 0 && Width(|txids|, k) <= 1 && |tree| == LevelStart(|txids|, k) + Width(|txids|, k)
    requires (forall m | 0 <= m <= k :: HasLevel(tree, txids, m)) && forall m | 0 <= m < k :: Width(|txids|, m) > 1
    ensures Complete(tree, txids) && tree != [] && tree[|tree| - 1] == Root(txids)
  {
    hide Width;
    WidthPositive(|txids|, k);
    SameHeight(|txids|, k);
    assert HasLevel(tree, txids, k);
  }

  lemma SameHeight(n: nat, k: nat)
    requires Width(n, k) <= 1 && forall m | 0 <= m < k :: Width(n, m) > 1
    ensures Height(n, 0) == k
  {
  }

  lemma BelowTop(n: nat, k: nat)
    requires Width(n, k) > 1 && forall m | 0 <= m < k :: Width(n, m) > 1
    ensures k < Height(n, 0)
  {
  }

  // ---------- branches ----------

  // The position of a leaf's ancestor at a height.
  function Shifted(index: int, k: nat): int {
    if k == 0 then index else Shifted(index, k - 1) / 2
  }

  // What the branch holds at a level: the other child of the parent, or the last node itself when there is none.
  ghost function Sibling(txids: seq<Hash>, index: nat, k: nat): Hash
    requires Width(|txids|, k) > 1
  {
    var at := Shifted(index, k);
    var other := if at % 2 == 0 then at + 1 else at - 1;
    var i := if other <= Width(|txids|, k) - 1 then other else Width(|txids|, k) - 1;
    ShiftedNat(index, k);
    CalcHash(k, i, txids)
  }

  lemma SiblingStored(tree: seq<Hash>, txids: seq<Hash>, index: nat, k: nat)
    requires |txids| > 0 && Complete(tree, txids) && k < Height(|txids|, 0)
    ensures var at, n := Shifted(index, k), Width(|txids|, k);
            var other := if at % 2 == 0 then at + 1 else at - 1;
            var i := if other <= n - 1 then other else n - 1;
            && n > 1 && 0 <= LevelStart(|txids|, k) + i < |tree|
            && tree[LevelStart(|txids|, k) + i] == Sibling(txids, index, k)
  {
    ShiftedNat(index, k);
    assert HasLevel(tree, txids, k);
  }

  lemma {:induction false} ShiftedNat(index: nat, k: nat)
    ensures Shifted(index, k) >= 0
  {
    if k > 0 {
      ShiftedNat(index, k - 1);
    }
  }

  ghost predicate IsBranch(txids: seq<Hash>, index: nat, branch: seq<Hash>)
    requires |txids| > 0
  {
    && |branch| == Height(|txids|, 0)
    && forall k | 0 <= k < |branch| :: Width(|txids|, k) > 1 && branch[k] == Sibling(txids, index, k)
  }

  // Hashing up along a branch from level `k`.
  function ClimbFrom(hash: Hash, branch: seq<Hash>, index: int): (r: Hash)
    decreases |branch|
  {
    if branch == [] then hash
    else ClimbFrom(if index % 2 == 1 then Pair(branch[0], hash) else Pair(hash, branch[0]), branch[1..], index / 2)
  }

  method CheckMerkleBranch(hash: Hash, branch: seq<Hash>, nIndex: int) returns (r: Hash)
    ensures r == if nIndex == -1 then Null else ClimbFrom(hash, branch, nIndex)
  {
    if nIndex == -1 {
      return Null;
    }
    var index := nIndex;
    r := hash;
    for i := 0 to |branch|
      invariant ClimbFrom(hash, branch, nIndex) == ClimbFrom(r, branch[i..], index)
    {
      assert branch[i..][0] == branch[i] && branch[i..][1..] == branch[i + 1..];
      if index % 2 == 1 {
        r := Pair(branch[i], r);
      } else {
        r := Pair(r, branch[i]);
      }
      index := index / 2;
    }
  }

  lemma {:induction false} ShiftedExists(n: nat, index: nat, k: nat)
    requires index < n
    ensures 0 <= Shifted(index, k) < Width(n, k)
  {
    if k == 0 {
      WidthZero(n);
    } else {
      ShiftedExists(n, index, k - 1);
      WidthHalves(n, k - 1);
    }
  }

  // One step up a branch goes from a leaf's ancestor to its parent.
  lemma ClimbStep(txids: seq<Hash>, index: nat, k: nat)
    requires index < |txids| && Width(|txids|, k) > 1
    ensures 0 <= Shifted(index, k) < Width(|txids|, k) && 0 <= Shifted(index, k + 1) < Width(|txids|, k + 1)
    ensures var at, node := Shifted(index, k), CalcHash(k, Shifted(index, k), txids);
            CalcHash(k + 1, Shifted(index, k + 1), txids)
            == if at % 2 == 1 then Pair(Sibling(txids, index, k), node) else Pair(node, Sibling(txids, index, k))
  {
    ShiftedExists(|txids|, index, k);
    ShiftedExists(|txids|, index, k + 1);
  }

  // From any level, the rest of the branch leads to the root.
  lemma {:induction false} BranchClimbs(txids: seq<Hash>, index: nat, branch: seq<Hash>, k: nat)
    requires index < |txids| && IsBranch(txids, index, branch) && k <= |branch|
    ensures 0 <= Shifted(index, k) < Width(|txids|, k)
    ensures ClimbFrom(CalcHash(k, Shifted(index, k), txids), branch[k..], Shifted(index, k)) == Root(txids)
    decreases |branch| - k
  {
    hide Width, CalcHash, Height, Sibling;
    ShiftedExists(|txids|, index, k);
    if k < |branch| {
      ClimbStep(txids, index, k);
      assert branch[k..][1..] == branch[k + 1..];
      BranchClimbs(txids, index, branch, k + 1);
    } else {
      TopIsRoot(txids, index, k);
    }
  }

  lemma TopIsRoot(txids: seq<Hash>, index: nat, k: nat)
    requires index < |txids| && k == Height(|txids|, 0)
    ensures Shifted(index, k) == 0 < Width(|txids|, k) && CalcHash(k, 0, txids) == Root(txids)
  {
    ShiftedExists(|txids|, index, k);
  }

  // The branch of every transaction proves that transaction.
  lemma BranchProves(txids: seq<Hash>, index: nat, branch: seq<Hash>)
    requires index < |txids| && IsBranch(txids, index, branch)
    ensures ClimbFrom(txids[index], branch, index) == Root(txids)
  {
    BranchClimbs(txids, index, branch, 0);
    assert branch[0..] == branch;
  }

  // A branch of the right length that reaches the root from an ancestor position starts at that very node.
  lemma {:induction false} BranchBinds(txids: seq<Hash>, index: nat, hash: Hash, branch: seq<Hash>, k: nat)
    requires index < |txids| && k + |branch| == Height(|txids|, 0)
    requires ClimbFrom(hash, branch, Shifted(index, k)) == Root(txids)
    ensures 0 <= Shifted(index, k) < Width(|txids|, k) && hash == CalcHash(k, Shifted(index, k), txids)
    decreases |branch|
  {
    hide Width, Height, Sibling;
    ShiftedExists(|txids|, index, k);
    if branch == [] {
      TopIsRoot(txids, index, k);
    } else {
      var at := Shifted(index, k);
      var up := if at % 2 == 1 then Pair(branch[0], hash) else Pair(hash, branch[0]);
      BranchBinds(txids, index, up, branch[1..], k + 1);
    }
  }

  // Only the transaction itself passes the check at its position.
  lemma BranchIsSound(txids: seq<Hash>, index: nat, hash: Hash, branch: seq<Hash>)
    requires index < |txids| && |branch| == Height(|txids|, 0)
    requires ClimbFrom(hash, branch, index) == Root(txids)
    ensures hash == txids[index]
  {
    BranchBinds(txids, index, hash, branch, 0);
  }
}
