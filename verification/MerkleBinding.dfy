/**
 What the check for duplicate transactions in `CheckBlock` is for: without
 repeated transactions, the Merkle root determines the whole list.
 */
module MerkleBinding {
  import opened Merkle
  import opened PartialMerkle
  import opened Powers

  ghost predicate Distinct(txids: seq<Hash>) {
    (forall i | 0 <= i < |txids| :: txids[i].Txid?) && (forall i, j | 0 <= i < j < |txids| :: txids[i] != txids[j])
  }

  // How far down the left side of a hash goes, and what is there.
  ghost function LeftDepth(hash: Hash): nat {
    if hash.Pair? then 1 + LeftDepth(hash.left) else 0
  }

  ghost function LeftLeaf(hash: Hash): Hash {
    if hash.Pair? then LeftLeaf(hash.left) else hash
  }

  lemma {:induction false} LeftSide(txids: seq<Hash>, h: nat, pos: nat)
    requires Distinct(txids) && pos < Width(|txids|, h)
    ensures First(h, pos) < |txids|
    ensures LeftDepth(CalcHash(h, pos, txids)) == h && LeftLeaf(CalcHash(h, pos, txids)) == txids[First(h, pos)]
    decreases h
  {
    hide Width, First;
    if h == 0 {
      LeafRange(|txids|, pos);
    } else {
      Split(|txids|, h, pos);
      LeftSide(txids, h - 1, pos * 2);
    }
  }

  // Different nodes of a level have different hashes.
  lemma NodesDiffer(txids: seq<Hash>, h: nat, pos: nat)
    requires Distinct(txids) && pos + 1 < Width(|txids|, h)
    ensures CalcHash(h, pos, txids) != CalcHash(h, pos + 1, txids)
  {
    LeftSide(txids, h, pos);
    LeftSide(txids, h, pos + 1);
    Doubling(pos, Pow2(h));
    NodeRange(|txids|, h, pos);
    assert First(h, pos) < First(h, pos + 1);
  }

  // The leaves below a node are the same in both lists.
  ghost predicate SameBelow(a: seq<Hash>, b: seq<Hash>, h: nat, pos: nat) {
    && Last(|a|, h, pos) == Last(|b|, h, pos)
    && forall i | First(h, pos) <= i < Last(|a|, h, pos) && i < |a| && i < |b| :: a[i] == b[i]
  }

  lemma {:induction false} NodeBinds(a: seq<Hash>, b: seq<Hash>, h: nat, pos: nat)
    requires Distinct(a) && Distinct(b) && pos < Width(|a|, h) && pos < Width(|b|, h)
    requires CalcHash(h, pos, a) == CalcHash(h, pos, b)
    ensures SameBelow(a, b, h, pos)
    decreases h
  {
    hide Width, First, Last, Distinct;
    if h == 0 {
      LeafRange(|a|, pos);
      LeafRange(|b|, pos);
    } else {
      var l, r := pos * 2, pos * 2 + 1;
      Split(|a|, h, pos);
      Split(|b|, h, pos);
      NodeBinds(a, b, h - 1, l);
      if r < Width(|a|, h - 1) {
        NodesDiffer(a, h - 1, l);
      }
      if r < Width(|b|, h - 1) {
        NodesDiffer(b, h - 1, l);
      }
      if r < Width(|a|, h - 1) && r < Width(|b|, h - 1) {
        NodeBinds(a, b, h - 1, r);
      }
    }
  }

  // Two lists without repeated transactions that have the same root are the same list.
  lemma RootBinds(a: seq<Hash>, b: seq<Hash>)
    requires Distinct(a) && Distinct(b) && a != [] && b != [] && Root(a) == Root(b)
    ensures a == b
  {
    hide Width, CalcHash, Distinct;
    RootRange(|a|);
    RootRange(|b|);
    LeftSide(a, Height(|a|, 0), 0);
    LeftSide(b, Height(|b|, 0), 0);
    NodeBinds(a, b, Height(|a|, 0), 0);
  }

  // With the last of three transactions repeated, the root is the same.
  lemma RepeatedHasSameRoot(a: Hash, b: Hash, c: Hash)
    ensures Root([a, b, c]) == Root([a, b, c, c])
  {
    ThreeOrFour([a, b, c]);
    ThreeOrFour([a, b, c, c]);
  }

  lemma ThreeOrFour(txids: seq<Hash>)
    requires 3 <= |txids| <= 4
    ensures Root(txids) == Pair(Pair(txids[0], txids[1]), Pair(txids[2], if |txids| == 3 then txids[2] else txids[3]))
  {
    assert Pow2(0) == 1 && Pow2(1) == 2 && Pow2(2) == 4;
    var n := |txids|;
    assert Width(n, 0) == n && Width(n, 1) == 2 && Width(n, 2) == 1;
    assert Height(n, 2) == 2 && Height(n, 1) == 2 && Height(n, 0) == 2;
    assert CalcHash(1, 0, txids) == Pair(txids[0], txids[1]);
    assert CalcHash(1, 1, txids) == Pair(txids[2], if n == 3 then txids[2] else txids[3]);
  }

  // ---------- branches of any length ----------

  ghost predicate AllTxids(txids: seq<Hash>) {
    forall i | 0 <= i < |txids| :: txids[i].Txid?
  }

  // Every way down a hash ends at a transaction after exactly `h` steps.
  ghost predicate Deep(hash: Hash, h: nat) {
    if h == 0 then hash.Txid? else hash.Pair? && Deep(hash.left, h - 1) && Deep(hash.right, h - 1)
  }

  lemma {:induction false} NodesDeep(txids: seq<Hash>, h: nat, pos: nat)
    requires AllTxids(txids) && pos < Width(|txids|, h)
    ensures Deep(CalcHash(h, pos, txids), h)
    decreases h
  {
    hide Width;
    if h == 0 {
      LeafRange(|txids|, pos);
    } else {
      ChildExists(|txids|, h, pos);
      NodesDeep(txids, h - 1, pos * 2);
      if pos * 2 + 1 < Width(|txids|, h - 1) {
        NodesDeep(txids, h - 1, pos * 2 + 1);
      }
    }
  }

  // What a branch starts from lies as far below its end as the branch is long.
  lemma {:induction false} ClimbsFromDeep(hash: Hash, branch: seq<Hash>, index: int, h: nat)
    requires Deep(ClimbFrom(hash, branch, index), h)
    ensures |branch| <= h && Deep(hash, h - |branch|)
    decreases |branch|
  {
    if branch != [] {
      var up := if index % 2 == 1 then Pair(branch[0], hash) else Pair(hash, branch[0]);
      ClimbsFromDeep(up, branch[1..], index / 2, h);
    }
  }

  // A branch that ends at a node of the tree starts at one.
  lemma {:induction false} ClimbsFromNode(txids: seq<Hash>, hash: Hash, branch: seq<Hash>, index: int, k: nat, pos: nat)
    returns (from: nat)
    requires pos < Width(|txids|, k + |branch|)
    requires ClimbFrom(hash, branch, index) == CalcHash(k + |branch|, pos, txids)
    ensures from < Width(|txids|, k) && hash == CalcHash(k, from, txids)
    decreases |branch|
  {
    hide Width;
    if branch == [] {
      from := pos;
    } else {
      var up := if index % 2 == 1 then Pair(branch[0], hash) else Pair(hash, branch[0]);
      var parent := ClimbsFromNode(txids, up, branch[1..], index / 2, k + 1, pos);
      ChildExists(|txids|, k + 1, parent);
      from := if index % 2 == 1 && parent * 2 + 1 < Width(|txids|, k) then parent * 2 + 1 else parent * 2;
    }
  }

  // Whatever the length of a branch and the position given with it: if it leads from a transaction to the root, it has
  // the full length, the transaction is in the block, and at its position when there is one.
  lemma AnyBranchIsSound(txids: seq<Hash>, hash: Hash, branch: seq<Hash>, index: int)
    requires txids != [] && AllTxids(txids) && hash.Txid? && ClimbFrom(hash, branch, index) == Root(txids)
    ensures |branch| == Height(|txids|, 0) && hash in txids
    ensures 0 <= index < |txids| ==> hash == txids[index]
  {
    hide Width, Height, CalcHash;
    var h := Height(|txids|, 0);
    RootRange(|txids|);
    NodesDeep(txids, h, 0);
    ClimbsFromDeep(hash, branch, index, h);
    var from := ClimbsFromNode(txids, hash, branch, index, 0, 0);
    Leaf(txids, from);
    if 0 <= index < |txids| {
      BranchIsSound(txids, index, hash, branch);
    }
  }

  lemma Leaf(txids: seq<Hash>, pos: nat)
    requires pos < Width(|txids|, 0)
    ensures pos < |txids| && CalcHash(0, pos, txids) == txids[pos]
  {
    WidthZero(|txids|);
  }
}
