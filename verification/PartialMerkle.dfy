/**
 Partial Merkle trees (`CPartialMerkleTree`, "Partial Merkle branch format" of
 BIP 37): a depth-first list of flag bits and hashes from which a block's Merkle
 root and its matched transactions can be recovered.
 */
module PartialMerkle {
  import opened Merkle
  import opened ByteStrings
  import opened CompactSize
  import opened Powers

  const MAX_BLOCK_SIZE: nat := 50000

  // ---------- leaves below a node ----------

  function First(h: nat, pos: nat): nat {
    pos * Pow2(h)
  }

  // One past the last leaf below a node.
  function Last(n: nat, h: nat, pos: nat): nat {
    if (pos + 1) * Pow2(h) <= n then (pos + 1) * Pow2(h) else n
  }

  // The leaves below a node are those below its children, in order.
  lemma Split(n: nat, h: nat, pos: nat)
    requires h > 0 && pos < Width(n, h)
    ensures pos * 2 < Width(n, h - 1) && First(h, pos) == First(h - 1, pos * 2) < n
    ensures First(h, pos) < Last(n, h - 1, pos * 2) <= n
    ensures if pos * 2 + 1 < Width(n, h - 1)
            then Last(n, h - 1, pos * 2) == First(h - 1, pos * 2 + 1) < n
              && Last(n, h, pos) == Last(n, h - 1, pos * 2 + 1)
            else Last(n, h, pos) == Last(n, h - 1, pos * 2)
  {
    ChildExists(n, h, pos);
    WidthIff(n, h, pos);
    WidthIff(n, h - 1, pos * 2);
    WidthIff(n, h - 1, pos * 2 + 1);
    assert Pow2(h) == 2 * Pow2(h - 1);
    Doubling(pos, Pow2(h - 1));
  }

  lemma Doubling(pos: nat, p: nat)
    ensures pos * (2 * p) == (pos * 2) * p
    ensures (pos + 1) * (2 * p) == (pos * 2 + 1) * p + p == (pos * 2 + 2) * p
    ensures (pos * 2 + 1) * p == (pos * 2) * p + p
  {
  }

  lemma LeafRange(n: nat, pos: nat)
    requires pos < Width(n, 0)
    ensures First(0, pos) == pos < n && Last(n, 0, pos) == pos + 1
  {
  }

  lemma NodeRange(n: nat, h: nat, pos: nat)
    requires pos < Width(n, h)
    ensures First(h, pos) < Last(n, h, pos) <= n
  {
    WidthIff(n, h, pos);
    assert (pos + 1) * Pow2(h) == pos * Pow2(h) + Pow2(h);
  }

  lemma RootRange(n: nat)
    requires n > 0
    ensures 0 < Width(n, Height(n, 0)) && First(Height(n, 0), 0) == 0 && Last(n, Height(n, 0), 0) == n
  {
    WidthPositive(n, Height(n, 0));
    WidthIff(n, Height(n, 0), 1);
  }

  predicate AnyMatch(mask: seq<bool>, lo: nat, hi: nat) {
    exists p :: lo <= p < hi && p < |mask| && mask[p]
  }

  // The matched transactions among the leaves from `lo` up to `hi`, in order.
  ghost function Matches(txids: seq<Hash>, mask: seq<bool>, lo: nat, hi: nat): (r: seq<Hash>)
    requires lo <= hi <= |txids| == |mask|
    decreases hi
  {
    if lo == hi then []
    else Matches(txids, mask, lo, hi - 1) + if mask[hi - 1] then [txids[hi - 1]] else []
  }

  lemma {:induction false} MatchesConcat(txids: seq<Hash>, mask: seq<bool>, lo: nat, mid: nat, hi: nat)
    requires lo <= mid <= hi <= |txids| == |mask|
    ensures Matches(txids, mask, lo, hi) == Matches(txids, mask, lo, mid) + Matches(txids, mask, mid, hi)
    decreases hi
  {
    if mid < hi {
      MatchesConcat(txids, mask, lo, mid, hi - 1);
    }
  }

  lemma {:induction false} NoMatches(txids: seq<Hash>, mask: seq<bool>, lo: nat, hi: nat)
    requires lo <= hi <= |txids| == |mask|
    ensures AnyMatch(mask, lo, hi) <==> Matches(txids, mask, lo, hi) != []
    decreases hi
  {
    if lo < hi {
      NoMatches(txids, mask, lo, hi - 1);
      assert mask[hi - 1] ==> AnyMatch(mask, lo, hi);
      assert AnyMatch(mask, lo, hi - 1) ==> AnyMatch(mask, lo, hi) by {
        if AnyMatch(mask, lo, hi - 1) {
          var p :| lo <= p < hi - 1 && p < |mask| && mask[p];
        }
      }
    }
  }

  // ---------- building ----------

  datatype Built = Built(bits: seq<bool>, hashes: seq<Hash>)

  // What a traversal from a node stores.
  ghost function Build(txids: seq<Hash>, mask: seq<bool>, h: nat, pos: nat): (r: Built)
    requires |txids| == |mask| && pos < Width(|txids|, h)
    decreases h
  {
    var match_ := AnyMatch(mask, First(h, pos), Last(|txids|, h, pos));
    if h == 0 || !match_ then
      Built([match_], [CalcHash(h, pos, txids)])
    else
      ChildExists(|txids|, h, pos);
      var l := Build(txids, mask, h - 1, pos * 2);
      if pos * 2 + 1 < Width(|txids|, h - 1) then
        var r := Build(txids, mask, h - 1, pos * 2 + 1);
        Built([true] + l.bits + r.bits, l.hashes + r.hashes)
      else
        Built([true] + l.bits, l.hashes)
  }

  // ---------- extracting ----------

  // What a traversal finds: whether it ran out of data, the node's hash, the matches, and the data used so far.
  datatype Extracted = Extracted(bad: bool, hash: Hash, matches: seq<Hash>, nBitsUsed: nat, nHashUsed: nat)

  function Extract(n: nat, bits: seq<bool>, hashes: seq<Hash>, h: nat, pos: nat, nb: nat, nh: nat): (r: Extracted)
    requires pos < Width(n, h)
    decreases h
  {
    if nb >= |bits| then Extracted(true, Null, [], nb, nh)
    else if h == 0 || !bits[nb] then
      if nh >= |hashes| then Extracted(true, Null, [], nb + 1, nh)
      else Extracted(false, hashes[nh], if h == 0 && bits[nb] then [hashes[nh]] else [], nb + 1, nh + 1)
    else
      ChildExists(n, h, pos);
      var l := Extract(n, bits, hashes, h - 1, pos * 2, nb + 1, nh);
      if pos * 2 + 1 < Width(n, h - 1) then
        var r := Extract(n, bits, hashes, h - 1, pos * 2 + 1, l.nBitsUsed, l.nHashUsed);
        Extracted(l.bad || r.bad, Pair(l.hash, r.hash), l.matches + r.matches, r.nBitsUsed, r.nHashUsed)
      else
        Extracted(l.bad, Pair(l.hash, l.hash), l.matches, l.nBitsUsed, l.nHashUsed)
  }

  // What was built from a node stands in the data at the given places.
  ghost predicate Holds(bits: seq<bool>, hashes: seq<Hash>, nb: nat, nh: nat, b: Built) {
    && nb + |b.bits| <= |bits| && (forall i | 0 <= i < |b.bits| :: b.bits[i] == bits[nb + i])
    && nh + |b.hashes| <= |hashes| && (forall i | 0 <= i < |b.hashes| :: b.hashes[i] == hashes[nh + i])
  }

  lemma HoldsParts(bits: seq<bool>, hashes: seq<Hash>, nb: nat, nh: nat, l: Built, r: Built)
    requires Holds(bits, hashes, nb, nh, Built([true] + l.bits + r.bits, l.hashes + r.hashes))
    ensures nb < |bits| && bits[nb] && Holds(bits, hashes, nb + 1, nh, l)
    ensures Holds(bits, hashes, nb + 1 + |l.bits|, nh + |l.hashes|, r)
  {
    var b := Built([true] + l.bits + r.bits, l.hashes + r.hashes);
    assert b.bits[0] == bits[nb + 0];
    forall i | 0 <= i < |l.bits| ensures l.bits[i] == bits[nb + 1 + i] {
      assert b.bits[1 + i] == bits[nb + (1 + i)];
    }
    forall i | 0 <= i < |r.bits| ensures r.bits[i] == bits[nb + 1 + |l.bits| + i] {
      assert b.bits[1 + |l.bits| + i] == bits[nb + (1 + |l.bits| + i)];
    }
    forall i | 0 <= i < |l.hashes| ensures l.hashes[i] == hashes[nh + i] {
      assert b.hashes[i] == hashes[nh + i];
    }
    forall i | 0 <= i < |r.hashes| ensures r.hashes[i] == hashes[nh + |l.hashes| + i] {
      assert b.hashes[|l.hashes| + i] == hashes[nh + (|l.hashes| + i)];
    }
  }

  lemma ExtractStored(txids: seq<Hash>, mask: seq<bool>, h: nat, pos: nat, bits: seq<bool>, hashes: seq<Hash>, nb: nat,
                      nh: nat)
    requires |txids| == |mask| && pos < Width(|txids|, h)
    requires h == 0 || !AnyMatch(mask, First(h, pos), Last(|txids|, h, pos))
    requires Holds(bits, hashes, nb, nh, Build(txids, mask, h, pos))
    ensures First(h, pos) <= Last(|txids|, h, pos) <= |txids|
    ensures Extract(|txids|, bits, hashes, h, pos, nb, nh)
            == Extracted(false, CalcHash(h, pos, txids), Matches(txids, mask, First(h, pos), Last(|txids|, h, pos)),
                         nb + 1, nh + 1)
  {
    var b := Build(txids, mask, h, pos);
    NodeRange(|txids|, h, pos);
    NoMatches(txids, mask, First(h, pos), Last(|txids|, h, pos));
    assert b.bits[0] == bits[nb + 0] && b.hashes[0] == hashes[nh + 0];
    if h == 0 {
      LeafRange(|txids|, pos);
      assert Matches(txids, mask, pos, pos) == [];
    }
  }

  // What the two traversals below a node give, put together.
  lemma CombineChildren(txids: seq<Hash>, mask: seq<bool>, h: nat, pos: nat)
    requires h > 0 && |txids| == |mask| && pos < Width(|txids|, h)
    ensures var n, lo, hi := |txids|, First(h, pos), Last(|txids|, h, pos);
            && pos * 2 < Width(n, h - 1) && lo <= hi <= n && First(h - 1, pos * 2) <= Last(n, h - 1, pos * 2) <= n
            && var l, lm := CalcHash(h - 1, pos * 2, txids),
                            Matches(txids, mask, First(h - 1, pos * 2), Last(n, h - 1, pos * 2));
               if pos * 2 + 1 < Width(n, h - 1) then
                 && First(h - 1, pos * 2 + 1) <= Last(n, h - 1, pos * 2 + 1) <= n
                 && CalcHash(h, pos, txids) == Pair(l, CalcHash(h - 1, pos * 2 + 1, txids))
                 && Matches(txids, mask, lo, hi) == lm + Matches(txids, mask, First(h - 1, pos * 2 + 1),
                                                                 Last(n, h - 1, pos * 2 + 1))
               else
                 CalcHash(h, pos, txids) == Pair(l, l) && Matches(txids, mask, lo, hi) == lm
  {
    hide First, Last, Width;
    var n := |txids|;
    Split(n, h, pos);
    NodeRange(n, h, pos);
    NodeRange(n, h - 1, pos * 2);
    if pos * 2 + 1 < Width(n, h - 1) {
      NodeRange(n, h - 1, pos * 2 + 1);
      MatchesConcat(txids, mask, First(h, pos), Last(n, h - 1, pos * 2), Last(n, h, pos));
    }
  }

  // Extracting what was built gives the node's hash and the matches below it, and uses exactly that data.
  lemma {:induction false} ExtractBuilt(txids: seq<Hash>, mask: seq<bool>, h: nat, pos: nat,
                                        bits: seq<bool>, hashes: seq<Hash>, nb: nat, nh: nat)
    requires |txids| == |mask| && pos < Width(|txids|, h)
    requires Holds(bits, hashes, nb, nh, Build(txids, mask, h, pos))
    ensures First(h, pos) <= Last(|txids|, h, pos) <= |txids|
    ensures var b := Build(txids, mask, h, pos);
            Extract(|txids|, bits, hashes, h, pos, nb, nh)
            == Extracted(false, CalcHash(h, pos, txids), Matches(txids, mask, First(h, pos), Last(|txids|, h, pos)),
                         nb + |b.bits|, nh + |b.hashes|)
    decreases h
  {
    hide First, Last, Width, CalcHash, Matches, Holds, AnyMatch, Build, Extract;
    var n := |txids|;
    BuildCases(txids, mask, h, pos);
    if h == 0 || !AnyMatch(mask, First(h, pos), Last(n, h, pos)) {
      ExtractStored(txids, mask, h, pos, bits, hashes, nb, nh);
    } else {
      CombineChildren(txids, mask, h, pos);
      var l := Build(txids, mask, h - 1, pos * 2);
      var two := pos * 2 + 1 < Width(n, h - 1);
      var r := if two then Build(txids, mask, h - 1, pos * 2 + 1) else Built([], []);
      assert [true] + l.bits + [] == [true] + l.bits && l.hashes + [] == l.hashes;
      HoldsParts(bits, hashes, nb, nh, l, r);
      ExtractCases(n, bits, hashes, h, pos, nb, nh);
      ExtractBuilt(txids, mask, h - 1, pos * 2, bits, hashes, nb + 1, nh);
      if two {
        ExtractBuilt(txids, mask, h - 1, pos * 2 + 1, bits, hashes, nb + 1 + |l.bits|, nh + |l.hashes|);
      }
    }
  }

  // A node that is descended into.
  lemma ExtractCases(n: nat, bits: seq<bool>, hashes: seq<Hash>, h: nat, pos: nat, nb: nat, nh: nat)
    requires pos < Width(n, h) && h > 0 && nb < |bits| && bits[nb]
    ensures pos * 2 < Width(n, h - 1)
    ensures var l := Extract(n, bits, hashes, h - 1, pos * 2, nb + 1, nh);
            Extract(n, bits, hashes, h, pos, nb, nh)
            == if pos * 2 + 1 < Width(n, h - 1) then
                 var r := Extract(n, bits, hashes, h - 1, pos * 2 + 1, l.nBitsUsed, l.nHashUsed);
                 Extracted(l.bad || r.bad, Pair(l.hash, r.hash), l.matches + r.matches, r.nBitsUsed, r.nHashUsed)
               else
                 Extracted(l.bad, Pair(l.hash, l.hash), l.matches, l.nBitsUsed, l.nHashUsed)
  {
    hide Width;
    ChildExists(n, h, pos);
  }

  // ---------- soundness ----------

  // `found` are transactions at strictly increasing places from `lo` up to `hi`.
  ghost predicate Increasing(places: seq<nat>, lo: nat, hi: nat) {
    && (forall i | 0 <= i < |places| :: lo <= places[i] < hi)
    && (forall i, j | 0 <= i < j < |places| :: places[i] < places[j])
  }

  ghost predicate AtPlaces(txids: seq<Hash>, found: seq<Hash>, places: seq<nat>) {
    |places| == |found| && forall i | 0 <= i < |found| :: places[i] < |txids| && found[i] == txids[places[i]]
  }

  // Whatever bits and hashes a peer sends: if a node comes out with its true hash, then every match below
  // it is a transaction of the block below that node, and they are in block order without repetition.
  lemma {:induction false} ExtractIsSound(txids: seq<Hash>, bits: seq<bool>, hashes: seq<Hash>, h: nat, pos: nat,
                                          nb: nat, nh: nat)
    returns (places: seq<nat>)
    requires pos < Width(|txids|, h)
    requires var x := Extract(|txids|, bits, hashes, h, pos, nb, nh); !x.bad && x.hash == CalcHash(h, pos, txids)
    ensures Increasing(places, First(h, pos), Last(|txids|, h, pos))
    ensures AtPlaces(txids, Extract(|txids|, bits, hashes, h, pos, nb, nh).matches, places)
    decreases h
  {
    hide First, Last, Width, Pow2, Increasing, AtPlaces;
    var n := |txids|;
    NodeRange(n, h, pos);
    if h == 0 {
      LeafRange(n, pos);
      places := if bits[nb] then [pos] else [];
      OnePlace(txids, pos, places);
    } else if !bits[nb] {
      places := [];
      NoPlaces(txids, First(h, pos), Last(n, h, pos));
    } else {
      Split(n, h, pos);
      var l := Extract(n, bits, hashes, h - 1, pos * 2, nb + 1, nh);
      places := ExtractIsSound(txids, bits, hashes, h - 1, pos * 2, nb + 1, nh);
      if pos * 2 + 1 < Width(n, h - 1) {
        NodeRange(n, h - 1, pos * 2 + 1);
        var r := Extract(n, bits, hashes, h - 1, pos * 2 + 1, l.nBitsUsed, l.nHashUsed);
        var right := ExtractIsSound(txids, bits, hashes, h - 1, pos * 2 + 1, l.nBitsUsed, l.nHashUsed);
        JoinPlaces(txids, l.matches, r.matches, places, right, First(h, pos), Last(n, h - 1, pos * 2), Last(n, h, pos));
        places := places + right;
      }
    }
  }

  lemma OnePlace(txids: seq<Hash>, pos: nat, places: seq<nat>)
    requires pos < |txids| && (places == [] || places == [pos])
    ensures Increasing(places, pos, pos + 1) && AtPlaces(txids, if places == [] then [] else [txids[pos]], places)
  {
  }

  lemma NoPlaces(txids: seq<Hash>, lo: nat, hi: nat)
    ensures Increasing([], lo, hi) && AtPlaces(txids, [], [])
  {
  }

  lemma JoinPlaces(txids: seq<Hash>, lf: seq<Hash>, rf: seq<Hash>, left: seq<nat>, right: seq<nat>, lo: nat, mid: nat,
                   hi: nat)
    requires lo <= mid <= hi && Increasing(left, lo, mid) && Increasing(right, mid, hi)
    requires AtPlaces(txids, lf, left) && AtPlaces(txids, rf, right)
    ensures Increasing(left + right, lo, hi) && AtPlaces(txids, lf + rf, left + right)
  {
  }

  // ---------- sizes ----------

  // The stored hashes are no more than the leaves, and no more than one plus a path for every match.
  lemma {:induction false} HashCount(txids: seq<Hash>, mask: seq<bool>, h: nat, pos: nat)
    requires |txids| == |mask| && pos < Width(|txids|, h)
    ensures First(h, pos) < Last(|txids|, h, pos) <= |txids|
    ensures var b, m := Build(txids, mask, h, pos), |Matches(txids, mask, First(h, pos), Last(|txids|, h, pos))|;
            && 0 < |b.hashes| <= Last(|txids|, h, pos) - First(h, pos)
            && |b.hashes| <= |b.bits|
            && |b.hashes| <= 1 + m * h
    decreases h
  {
    hide First, Last, Width, CalcHash, Matches, AnyMatch;
    var n := |txids|;
    NodeRange(n, h, pos);
    if h > 0 && AnyMatch(mask, First(h, pos), Last(n, h, pos)) {
      NoMatches(txids, mask, First(h, pos), Last(n, h, pos));
      CombineChildren(txids, mask, h, pos);
      Split(n, h, pos);
      HashCount(txids, mask, h - 1, pos * 2);
      var l := |Matches(txids, mask, First(h - 1, pos * 2), Last(n, h - 1, pos * 2))|;
      if pos * 2 + 1 < Width(n, h - 1) {
        HashCount(txids, mask, h - 1, pos * 2 + 1);
        var r := |Matches(txids, mask, First(h - 1, pos * 2 + 1), Last(n, h - 1, pos * 2 + 1))|;
        SharedPaths(l, r, h);
      } else {
        SharedPaths(l, 0, h);
      }
    }
  }

  lemma SharedPaths(l: nat, r: nat, h: nat)
    requires h > 0 && l + r > 0
    ensures (1 + l * (h - 1)) + (1 + r * (h - 1)) <= 1 + (l + r) * h
    ensures 1 + l * (h - 1) <= 1 + l * h
  {
    assert l * (h - 1) + r * (h - 1) == (l + r) * h - (l + r);
    assert l * (h - 1) == l * h - l;
  }

  // How many of the nodes descended into have one child only.
  ghost function LoneChildren(txids: seq<Hash>, mask: seq<bool>, h: nat, pos: nat): (r: nat)
    requires |txids| == |mask| && pos < Width(|txids|, h)
    decreases h
  {
    if h == 0 || !AnyMatch(mask, First(h, pos), Last(|txids|, h, pos)) then 0
    else
      ChildExists(|txids|, h, pos);
      LoneChildren(txids, mask, h - 1, pos * 2)
      + if pos * 2 + 1 < Width(|txids|, h - 1) then LoneChildren(txids, mask, h - 1, pos * 2 + 1) else 1
  }

  // A full binary tree has one bit less than twice its leaves; every lone child costs one bit more.
  lemma {:induction false} BitCount(txids: seq<Hash>, mask: seq<bool>, h: nat, pos: nat)
    requires |txids| == |mask| && pos < Width(|txids|, h)
    ensures var b := Build(txids, mask, h, pos);
            |b.bits| == 2 * |b.hashes| - 1 + LoneChildren(txids, mask, h, pos)
    decreases h
  {
    hide First, Last, Width, CalcHash, AnyMatch;
    if h > 0 && AnyMatch(mask, First(h, pos), Last(|txids|, h, pos)) {
      ChildExists(|txids|, h, pos);
      BitCount(txids, mask, h - 1, pos * 2);
      if pos * 2 + 1 < Width(|txids|, h - 1) {
        BitCount(txids, mask, h - 1, pos * 2 + 1);
      }
    }
  }

  // Only the last node of a level can have a single child.
  lemma {:induction false} LoneOnlyAtEnd(txids: seq<Hash>, mask: seq<bool>, h: nat, pos: nat)
    requires |txids| == |mask| && pos + 1 < Width(|txids|, h)
    ensures LoneChildren(txids, mask, h, pos) == 0
    decreases h
  {
    hide First, Last, AnyMatch, Width;
    if h > 0 && AnyMatch(mask, First(h, pos), Last(|txids|, h, pos)) {
      WidthHalves(|txids|, h - 1);
      LoneOnlyAtEnd(txids, mask, h - 1, pos * 2);
      LoneOnlyAtEnd(txids, mask, h - 1, pos * 2 + 1);
    }
  }

  // A match below the lone last node of level `k`, which is the last node of an odd level below it.
  ghost predicate LoneMatch(mask: seq<bool>, k: nat) {
    var n := |mask|;
    Width(n, k) % 2 == 1 && AnyMatch(mask, (Width(n, k) - 1) * Pow2(k), n)
  }

  lemma LastNodeRange(n: nat, h: nat)
    requires n > 0
    ensures Width(n, h) > 0 && First(h, Width(n, h) - 1) == (Width(n, h) - 1) * Pow2(h)
            && Last(n, h, Width(n, h) - 1) == n
  {
    WidthPositive(n, h);
    WidthIff(n, h, Width(n, h));
  }

  // The first leaf below the last node of a level moves left as one goes up.
  lemma LastNodeGrows(n: nat, h: nat)
    requires n > 0
    ensures First(h + 1, Width(n, h + 1) - 1) == (if Width(n, h) % 2 == 1 then Width(n, h) - 1
                                                  else Width(n, h) - 2) * Pow2(h)
    ensures First(h + 1, Width(n, h + 1) - 1) <= First(h, Width(n, h) - 1)
  {
    hide Width;
    LastNodeRange(n, h);
    LastNodeRange(n, h + 1);
    WidthHalves(n, h);
    Doubling(Width(n, h + 1) - 1, Pow2(h));
    Monotone(2 * (Width(n, h + 1) - 1), Width(n, h) - 1, Pow2(h));
  }

  lemma Monotone(a: int, b: int, p: nat)
    requires a <= b
    ensures a * p <= b * p
  {
  }

  lemma AnyMatchWider(mask: seq<bool>, lo: nat, lo': nat, hi: nat)
    requires lo' <= lo && AnyMatch(mask, lo, hi)
    ensures AnyMatch(mask, lo', hi)
  {
    var p :| lo <= p < hi && p < |mask| && mask[p];
  }

  // Lone children are descended into exactly when some odd level has a match below the parent of its last node.
  lemma {:induction false} LoneIff(txids: seq<Hash>, mask: seq<bool>, h: nat)
    requires |txids| == |mask| > 0
    ensures Width(|txids|, h) > 0
    ensures LoneChildren(txids, mask, h, Width(|txids|, h) - 1) > 0 <==> exists k :: 0 <= k < h && LoneMatch(mask, k)
    ensures (exists k :: 0 <= k < h && LoneMatch(mask, k)) ==> AnyMatch(mask, First(h, Width(|txids|, h) - 1), |txids|)
    decreases h
  {
    hide First, Last, Width, AnyMatch, LoneChildren, Pow2;
    var n := |txids|;
    LastNodeRange(n, h);
    if h == 0 {
      NoLoneLeaf(txids, mask);
    } else {
      LoneIff(txids, mask, h - 1);
      LastNodeRange(n, h - 1);
      LastNodeGrows(n, h - 1);
      WidthHalves(n, h - 1);
      LoneStep(txids, mask, h);
      var lo := First(h, Width(n, h) - 1);
      if AnyMatch(mask, First(h - 1, Width(n, h - 1) - 1), n) {
        AnyMatchWider(mask, First(h - 1, Width(n, h - 1) - 1), lo, n);
      }
      if exists k :: 0 <= k < h && LoneMatch(mask, k) {
        var k :| 0 <= k < h && LoneMatch(mask, k);
        assert k == h - 1 || (0 <= k < h - 1 && LoneMatch(mask, k));
      }
    }
  }

  lemma NoLoneLeaf(txids: seq<Hash>, mask: seq<bool>)
    requires |txids| == |mask| > 0 && Width(|txids|, 0) > 0
    ensures LoneChildren(txids, mask, 0, Width(|txids|, 0) - 1) == 0
  {
  }

  lemma LoneStep(txids: seq<Hash>, mask: seq<bool>, h: nat)
    requires |txids| == |mask| > 0 && h > 0
    ensures Width(|txids|, h) > 0 && Width(|txids|, h - 1) > 0
    ensures var n := |txids|;
            && (LoneMatch(mask, h - 1) <==> Width(n, h - 1) % 2 == 1 && AnyMatch(mask, First(h, Width(n, h) - 1), n))
            && (LoneChildren(txids, mask, h, Width(n, h) - 1) > 0
                <==> AnyMatch(mask, First(h, Width(n, h) - 1), n)
                     && (Width(n, h - 1) % 2 == 1 || LoneChildren(txids, mask, h - 1, Width(n, h - 1) - 1) > 0))
  {
    hide Width, AnyMatch, Pow2, First, Last;
    var n := |txids|;
    LastNodeRange(n, h);
    LastNodeRange(n, h - 1);
    LastNodeGrows(n, h - 1);
    WidthHalves(n, h - 1);
    var pos := Width(n, h) - 1;
    if Width(n, h - 1) % 2 == 0 {
      LoneOnlyAtEnd(txids, mask, h - 1, pos * 2);
    }
  }

  // The documented bound of 2N - 1 flag bits for N hashes holds if and only if no odd level of the tree
  // has a match below the parent of its last node.
  lemma BitsWithinPromise(txids: seq<Hash>, mask: seq<bool>)
    requires |txids| == |mask| > 0
    ensures var h := Height(|txids|, 0);
            && 0 < Width(|txids|, h)
            && (|Build(txids, mask, h, 0).bits| <= 2 * |Build(txids, mask, h, 0).hashes| - 1
                <==> forall k | 0 <= k < h :: !LoneMatch(mask, k))
  {
    var h := Height(|txids|, 0);
    RootRange(|txids|);
    BitCount(txids, mask, h, 0);
    LoneIff(txids, mask, h);
  }

  // At most one node of a level has a single child.
  lemma {:induction false} LonePerLevel(txids: seq<Hash>, mask: seq<bool>, h: nat, pos: nat)
    requires |txids| == |mask| && pos < Width(|txids|, h)
    ensures LoneChildren(txids, mask, h, pos) <= h
    decreases h
  {
    hide First, Last, AnyMatch, Width;
    if h > 0 {
      ChildExists(|txids|, h, pos);
      if pos * 2 + 1 < Width(|txids|, h - 1) {
        LoneOnlyAtEnd(txids, mask, h - 1, pos * 2);
        LonePerLevel(txids, mask, h - 1, pos * 2 + 1);
      } else {
        LonePerLevel(txids, mask, h - 1, pos * 2);
      }
    }
  }

  // A block within the size cap has at most ten levels above its transactions.
  lemma HeightWithinCap(n: nat)
    requires n <= MAX_BLOCK_SIZE / 60
    ensures Height(n, 0) <= 10
  {
    hide Width;
    assert Pow2(10) == 1024 by { assert Pow2(2) == 4 && Pow2(4) == 16 && Pow2(6) == 64 && Pow2(8) == 256; }
    WidthIff(n, 10, 1);
    LowEnough(n, 10);
  }

  lemma LowEnough(n: nat, k: nat)
    requires Width(n, k) <= 1
    ensures Height(n, 0) <= k
  {
  }

  // Bytes of the serialized tree: the number of transactions, the counted hashes and the counted flag bytes.
  function SerializedSize(bits: nat, hashes: nat): nat {
    4 + SizeOf(hashes) + 32 * hashes + SizeOf((bits + 7) / 8) + (bits + 7) / 8
  }

  // The hard guarantee on the size: 10 + ceil(32.25 N) for N stored hashes.
  lemma SizeWithinPromise(txids: seq<Hash>, mask: seq<bool>)
    requires 0 < |txids| == |mask| <= MAX_BLOCK_SIZE / 60
    ensures var h := Height(|txids|, 0);
            0 < Width(|txids|, h)
            && var b := Build(txids, mask, h, 0);
               SerializedSize(|b.bits|, |b.hashes|) <= 10 + 32 * |b.hashes| + (|b.hashes| + 3) / 4
  {
    hide Width, Height, Build, First, Last, LoneChildren;
    var n := |txids|;
    var h := Height(n, 0);
    RootRange(n);
    HashCount(txids, mask, h, 0);
    BitCount(txids, mask, h, 0);
    LonePerLevel(txids, mask, h, 0);
    HeightWithinCap(n);
  }

  // ---------- flag bytes ----------

  function Mask(k: nat): bv8
    requires k < 8
  {
    (1 as bv8) << k
  }

  lemma SetBitAt(v: bv8, k: nat, j: nat)
    requires k < 8 && j < 8
    ensures (v | Mask(k)) & Mask(j) != 0 <==> k == j || v & Mask(j) != 0
  {
  }

  // Flag `p` of the packed form, least significant bit first.
  predicate FlagAt(bytes: seq<bv8>, p: nat)
    requires p < 8 * |bytes|
  {
    bytes[p / 8] & Mask(p % 8) != 0
  }

  // Bits are counted from the least significant one of each byte.
  lemma FlagIsBit(bytes: seq<bv8>, p: nat)
    requires p < 8 * |bytes|
    ensures FlagAt(bytes, p) <==> (bytes[p / 8] >> (p % 8)) & 1 == 1
  {
    BitOfMask(bytes[p / 8], p % 8);
  }

  lemma BitOfMask(v: bv8, k: nat)
    requires k < 8
    ensures v & Mask(k) != 0 <==> (v >> k) & 1 == 1
  {
  }


  // The packed form of some bits: the flags in order, then zero padding to a whole byte.
  ghost predicate Packs(bytes: seq<bv8>, bits: seq<bool>) {
    && |bytes| == (|bits| + 7) / 8
    && forall p | 0 <= p < 8 * |bytes| :: FlagAt(bytes, p) == (p < |bits| && bits[p])
  }

  method Pack(bits: seq<bool>) returns (bytes: seq<bv8>)
    ensures Packs(bytes, bits)
  {
    bytes := seq((|bits| + 7) / 8, _ => 0);
    for p := 0 to |bits|
      invariant |bytes| == (|bits| + 7) / 8
      invariant forall q | 0 <= q < 8 * |bytes| :: FlagAt(bytes, q) == (q < p && bits[q])
    {
      var byte := bytes[p / 8] | (if bits[p] then Mask(p % 8) else 0);
      ghost var before := bytes;
      bytes := bytes[p / 8 := byte];
      forall q | 0 <= q < 8 * |bytes| ensures FlagAt(bytes, q) == (q < p + 1 && bits[q]) {
        if q / 8 == p / 8 {
          SetBitAt(before[p / 8], p % 8, q % 8);
        }
        assert FlagAt(before, q) == (q < p && bits[q]);
      }
    }
  }

  method Unpack(bytes: seq<bv8>) returns (bits: seq<bool>)
    ensures |bits| == 8 * |bytes| && forall p | 0 <= p < |bits| :: bits[p] == FlagAt(bytes, p)
  {
    bits := [];
    for p := 0 to 8 * |bytes|
      invariant |bits| == p && forall q | 0 <= q < p :: bits[q] == FlagAt(bytes, q)
    {
      bits := bits + [bytes[p / 8] & Mask(p % 8) != 0];
    }
  }

  // ---------- the bytes of a tree ----------

  ghost function Concat(hashes: seq<Hash>, raw: Hash -> Bytes): Bytes {
    if hashes == [] then [] else Concat(hashes[..|hashes| - 1], raw) + raw(hashes[|hashes| - 1])
  }

  lemma {:induction false} ConcatSize(hashes: seq<Hash>, raw: Hash -> Bytes)
    requires forall h :: |raw(h)| == 32
    ensures |Concat(hashes, raw)| == 32 * |hashes|
  {
    if hashes != [] {
      ConcatSize(hashes[..|hashes| - 1], raw);
    }
  }

  // What goes over the wire: the number of transactions, the counted hashes and the counted flag bytes.
  ghost function Wire(n: nat, hashes: seq<Hash>, bytes: seq<bv8>, raw: Hash -> Bytes): Bytes {
    LittleEndian(n, 4) + Write(|hashes|) + Concat(hashes, raw)
    + Write(|bytes|) + seq(|bytes|, i requires 0 <= i < |bytes| => bytes[i] as Byte)
  }

  // The bytes of a tree built for any block within the size cap and any mask are within the documented bound.
  lemma WireWithinPromise(txids: seq<Hash>, mask: seq<bool>, built: Built, bytes: seq<bv8>, raw: Hash -> Bytes)
    requires 0 < |txids| == |mask| <= MAX_BLOCK_SIZE / 60 && forall h :: |raw(h)| == 32
    requires 0 < Width(|txids|, Height(|txids|, 0)) && built == Build(txids, mask, Height(|txids|, 0), 0)
    requires Packs(bytes, built.bits)
    ensures |Wire(|txids|, built.hashes, bytes, raw)| == SerializedSize(|built.bits|, |built.hashes|)
    ensures |Wire(|txids|, built.hashes, bytes, raw)| <= 10 + 32 * |built.hashes| + (|built.hashes| + 3) / 4
  {
    hide Width, Height, Build, FlagAt, Concat, Read, Write, LittleEndian, SizeOf;
    SizeWithinPromise(txids, mask);
    StoredHashes(txids, mask);
    ConcatSize(built.hashes, raw);
    ReadWrite(|built.hashes|, []);
    ReadWrite(|bytes|, []);
  }

  // ---------- the object ----------

  // What `ExtractMatches` returns; the zero hash stands for failure.
  function Outcome(n: nat, bits: seq<bool>, hashes: seq<Hash>, fBad: bool): (r: (Hash, seq<Hash>)) {
    if n == 0 || n > MAX_BLOCK_SIZE / 60 || |hashes| > n || |bits| < |hashes| then (Null, [])
    else
      WidthPositive(n, Height(n, 0));
      var x := Extract(n, bits, hashes, Height(n, 0), 0, 0, 0);
      if fBad || x.bad || (x.nBitsUsed + 7) / 8 != (|bits| + 7) / 8 || x.nHashUsed != |hashes| then (Null, x.matches)
      else (x.hash, x.matches)
  }

  lemma BuildCases(txids: seq<Hash>, mask: seq<bool>, h: nat, pos: nat)
    requires |txids| == |mask| && pos < Width(|txids|, h)
    ensures var any := AnyMatch(mask, First(h, pos), Last(|txids|, h, pos));
            if h == 0 || !any then
              Build(txids, mask, h, pos) == Built([any], [CalcHash(h, pos, txids)])
            else
              && pos * 2 < Width(|txids|, h - 1)
              && var l := Build(txids, mask, h - 1, pos * 2);
                 if pos * 2 + 1 < Width(|txids|, h - 1) then
                   var r := Build(txids, mask, h - 1, pos * 2 + 1);
                   Build(txids, mask, h, pos) == Built([true] + l.bits + r.bits, l.hashes + r.hashes)
                 else
                   Build(txids, mask, h, pos) == Built([true] + l.bits, l.hashes)
  {
    hide Width, First, Last, CalcHash, AnyMatch;
    if h > 0 {
      ChildExists(|txids|, h, pos);
    }
  }

  lemma Regroup<T>(a: seq<T>, b: seq<T>, c: seq<T>)
    ensures (a + b) + c == a + (b + c)
  {
  }

  class PartialMerkleTree {
    var nTransactions: nat
    var vBits: seq<bool>
    var vHash: seq<Hash>
    var fBad: bool

    constructor (txids: seq<Hash>, mask: seq<bool>)
      requires |txids| == |mask| > 0
      ensures nTransactions == |txids| && !fBad
      ensures 0 < Width(|txids|, Height(|txids|, 0))
      ensures vBits == Build(txids, mask, Height(|txids|, 0), 0).bits
              && vHash == Build(txids, mask, Height(|txids|, 0), 0).hashes
    {
      nTransactions, fBad, vBits, vHash := |txids|, false, [], [];
      new;
      var nHeight := TreeHeight(|txids|);
      WidthPositive(|txids|, nHeight);
      TraverseAndBuild(nHeight, 0, txids, mask);
    }

    static method TreeHeight(n: nat) returns (nHeight: nat)
      ensures nHeight == Height(n, 0)
    {
      nHeight := 0;
      while Width(n, nHeight) > 1
        invariant Height(n, 0) == Height(n, nHeight)
        decreases Width(n, nHeight)
      {
        WidthHalves(n, nHeight);
        nHeight := nHeight + 1;
      }
    }

    method TraverseAndBuild(height: nat, pos: nat, txids: seq<Hash>, mask: seq<bool>)
      requires |txids| == |mask| == nTransactions && pos < Width(nTransactions, height)
      modifies this`vBits, this`vHash
      ensures vBits == old(vBits) + Build(txids, mask, height, pos).bits
      ensures vHash == old(vHash) + Build(txids, mask, height, pos).hashes
      decreases height
    {
      hide Width, First, Last, CalcHash, AnyMatch, Build;
      BuildCases(txids, mask, height, pos);
      var fParentOfMatch := IsParentOfMatch(height, pos, mask);
      vBits := vBits + [fParentOfMatch];
      if height == 0 || !fParentOfMatch {
        vHash := vHash + [CalcHash(height, pos, txids)];
      } else {
        ghost var l := Build(txids, mask, height - 1, pos * 2);
        TraverseAndBuild(height - 1, pos * 2, txids, mask);
        Regroup(old(vBits), [true], l.bits);
        if pos * 2 + 1 < Width(nTransactions, height - 1) {
          ghost var r := Build(txids, mask, height - 1, pos * 2 + 1);
          TraverseAndBuild(height - 1, pos * 2 + 1, txids, mask);
          Regroup(old(vBits), [true] + l.bits, r.bits);
          Regroup(old(vHash), l.hashes, r.hashes);
        }
      }
    }

    method IsParentOfMatch(height: nat, pos: nat, mask: seq<bool>) returns (any: bool)
      requires |mask| == nTransactions
      ensures any == AnyMatch(mask, First(height, pos), Last(nTransactions, height, pos))
    {
      any := false;
      var p := pos * Pow2(height);
      while p < (pos + 1) * Pow2(height) && p < nTransactions
        invariant First(height, pos) <= p
        invariant any <==> exists q :: First(height, pos) <= q < p && q < |mask| && mask[q]
        invariant p <= Last(nTransactions, height, pos) || p == First(height, pos)
        decreases nTransactions - p
      {
        any := any || mask[p];
        p := p + 1;
      }
    }

    method TraverseAndExtract(height: nat, pos: nat, nBitsUsed: nat, nHashUsed: nat, vMatch: seq<Hash>)
      returns (hash: Hash, bitsUsed: nat, hashUsed: nat, matches: seq<Hash>)
      requires pos < Width(nTransactions, height)
      modifies this`fBad
      ensures var x := Extract(nTransactions, vBits, vHash, height, pos, nBitsUsed, nHashUsed);
              && hash == x.hash && bitsUsed == x.nBitsUsed && hashUsed == x.nHashUsed
              && matches == vMatch + x.matches && fBad == (old(fBad) || x.bad)
      decreases height
    {
      hide Width;
      bitsUsed, hashUsed, matches := nBitsUsed, nHashUsed, vMatch;
      if bitsUsed >= |vBits| {
        fBad := true;
        return Null, bitsUsed, hashUsed, matches;
      }
      var fParentOfMatch := vBits[bitsUsed];
      bitsUsed := bitsUsed + 1;
      if height == 0 || !fParentOfMatch {
        if hashUsed >= |vHash| {
          fBad := true;
          return Null, bitsUsed, hashUsed, matches;
        }
        hash := vHash[hashUsed];
        hashUsed := hashUsed + 1;
        if height == 0 && fParentOfMatch {
          matches := matches + [hash];
        }
      } else {
        ChildExists(nTransactions, height, pos);
        var left, right;
        left, bitsUsed, hashUsed, matches := TraverseAndExtract(height - 1, pos * 2, bitsUsed, hashUsed, matches);
        if pos * 2 + 1 < Width(nTransactions, height - 1) {
          right, bitsUsed, hashUsed, matches :=
            TraverseAndExtract(height - 1, pos * 2 + 1, bitsUsed, hashUsed, matches);
        } else {
          right := left;
        }
        hash := Pair(left, right);
      }
    }

    method ExtractMatches() returns (root: Hash, vMatch: seq<Hash>)
      modifies this`fBad
      ensures (root, vMatch) == Outcome(nTransactions, vBits, vHash, old(fBad))
    {
      hide Extract, Height, Width;
      vMatch := [];
      if nTransactions == 0 || nTransactions > MAX_BLOCK_SIZE / 60 || |vHash| > nTransactions || |vBits| < |vHash| {
        return Null, vMatch;
      }
      var nHeight := TreeHeight(nTransactions);
      WidthPositive(nTransactions, nHeight);
      var nBitsUsed, nHashUsed;
      root, nBitsUsed, nHashUsed, vMatch := TraverseAndExtract(nHeight, 0, 0, 0, vMatch);
      assert vMatch == Extract(nTransactions, vBits, vHash, nHeight, 0, 0, 0).matches;
      if fBad || (nBitsUsed + 7) / 8 != (|vBits| + 7) / 8 || nHashUsed != |vHash| {
        root := Null;
      }
    }

    method Serialize() returns (n: nat, hashes: seq<Hash>, bytes: seq<bv8>)
      ensures n == nTransactions && hashes == vHash && Packs(bytes, vBits)
    {
      bytes := Pack(vBits);
      n, hashes := nTransactions, vHash;
    }

    method Deserialize(n: nat, hashes: seq<Hash>, bytes: seq<bv8>)
      modifies this
      ensures nTransactions == n && vHash == hashes && !fBad && |vBits| == 8 * |bytes|
      ensures forall p | 0 <= p < |vBits| :: vBits[p] == FlagAt(bytes, p)
    {
      nTransactions, vHash := n, hashes;
      vBits := Unpack(bytes);
      fBad := false;
    }
  }

  // ---------- the whole way ----------

  // Padding leaves what was built in place and the byte count unchanged.
  lemma PaddedHolds(built: Built, bytes: seq<bv8>, bits: seq<bool>)
    requires Packs(bytes, built.bits)
    requires |bits| == 8 * |bytes| && forall p | 0 <= p < |bits| :: bits[p] == FlagAt(bytes, p)
    ensures Holds(bits, built.hashes, 0, 0, built)
    ensures |built.bits| <= |bits| && (|built.bits| + 7) / 8 == (|bits| + 7) / 8
  {
    hide FlagAt;
  }

  // A tree built for any nonempty block within the size cap and any mask, written and read back, gives
  // the block's Merkle root and exactly the matched transactions in order.
  lemma RoundTrip(txids: seq<Hash>, mask: seq<bool>, built: Built, bytes: seq<bv8>, bits: seq<bool>)
    requires 0 < |txids| == |mask| <= MAX_BLOCK_SIZE / 60
    requires 0 < Width(|txids|, Height(|txids|, 0)) && built == Build(txids, mask, Height(|txids|, 0), 0)
    requires Packs(bytes, built.bits)
    requires |bits| == 8 * |bytes| && forall p | 0 <= p < |bits| :: bits[p] == FlagAt(bytes, p)
    ensures Outcome(|txids|, bits, built.hashes, false) == (Root(txids), Matches(txids, mask, 0, |txids|))
  {
    hide Width, Height, FlagAt, CalcHash, Build, Extract, First, Last, Packs, Holds, Matches;
    var n := |txids|;
    RootRange(n);
    HashCount(txids, mask, Height(n, 0), 0);
    PaddedHolds(built, bytes, bits);
    ExtractBuilt(txids, mask, Height(n, 0), 0, bits, built.hashes, 0, 0);
  }

  // The stored hashes are at most one per transaction, and at most one plus the tree height per match.
  lemma StoredHashes(txids: seq<Hash>, mask: seq<bool>)
    requires 0 < |txids| == |mask|
    ensures var h := Height(|txids|, 0);
            0 < Width(|txids|, h)
            && |Build(txids, mask, h, 0).hashes| <= |txids|
            && |Build(txids, mask, h, 0).hashes| <= 1 + |Matches(txids, mask, 0, |txids|)| * h
  {
    hide Width, Height, Build, First, Last;
    RootRange(|txids|);
    HashCount(txids, mask, Height(|txids|, 0), 0);
  }

  // Whatever data a peer sends with the true number of transactions: if extraction gives the true root
  // and did not fail, the matches are transactions of the block at strictly increasing places.
  lemma OutcomeIsSound(txids: seq<Hash>, bits: seq<bool>, hashes: seq<Hash>) returns (places: seq<nat>)
    requires |txids| > 0
    requires Outcome(|txids|, bits, hashes, false).0 == Root(txids) != Null
    ensures Increasing(places, 0, |txids|) && AtPlaces(txids, Outcome(|txids|, bits, hashes, false).1, places)
  {
    RootRange(|txids|);
    places := ExtractIsSound(txids, bits, hashes, Height(|txids|, 0), 0, 0, 0);
  }

  // ---------- no spare data ----------

  // A traversal that did not fail used at least a bit and a hash, and no more than there is.
  lemma {:induction false} ExtractUses(n: nat, bits: seq<bool>, hashes: seq<Hash>, h: nat, pos: nat, nb: nat, nh: nat)
    requires pos < Width(n, h) && !Extract(n, bits, hashes, h, pos, nb, nh).bad
    ensures var x := Extract(n, bits, hashes, h, pos, nb, nh);
            nb < x.nBitsUsed <= |bits| && nh < x.nHashUsed <= |hashes|
    decreases h
  {
    hide Width;
    if h > 0 && bits[nb] {
      ExtractCases(n, bits, hashes, h, pos, nb, nh);
      ExtractUses(n, bits, hashes, h - 1, pos * 2, nb + 1, nh);
      if pos * 2 + 1 < Width(n, h - 1) {
        var l := Extract(n, bits, hashes, h - 1, pos * 2, nb + 1, nh);
        ExtractUses(n, bits, hashes, h - 1, pos * 2 + 1, l.nBitsUsed, l.nHashUsed);
      }
    }
  }

  // Data behind what a successful traversal used does not matter to it.
  lemma {:induction false} ExtractExtended(n: nat, bits: seq<bool>, hashes: seq<Hash>, moreBits: seq<bool>,
                                           moreHashes: seq<Hash>, h: nat, pos: nat, nb: nat, nh: nat)
    requires pos < Width(n, h) && !Extract(n, bits, hashes, h, pos, nb, nh).bad
    ensures Extract(n, bits + moreBits, hashes + moreHashes, h, pos, nb, nh)
         == Extract(n, bits, hashes, h, pos, nb, nh)
    decreases h
  {
    hide Width;
    if h > 0 && bits[nb] {
      ExtractCases(n, bits, hashes, h, pos, nb, nh);
      ExtractCases(n, bits + moreBits, hashes + moreHashes, h, pos, nb, nh);
      ExtractExtended(n, bits, hashes, moreBits, moreHashes, h - 1, pos * 2, nb + 1, nh);
      if pos * 2 + 1 < Width(n, h - 1) {
        var l := Extract(n, bits, hashes, h - 1, pos * 2, nb + 1, nh);
        ExtractExtended(n, bits, hashes, moreBits, moreHashes, h - 1, pos * 2 + 1, l.nBitsUsed, l.nHashUsed);
      }
    }
  }

  ghost predicate OneExtendsOther<T>(a: seq<T>, b: seq<T>) {
    a <= b || b <= a
  }

  // Of data that are longer or shorter at their ends, in bits or in hashes, all that is accepted has the same hashes
  // and the same number of flag bytes, and gives the same root and the same matches.
  lemma OneLength(n: nat, bits: seq<bool>, hashes: seq<Hash>, bits': seq<bool>, hashes': seq<Hash>)
    requires OneExtendsOther(bits, bits') && OneExtendsOther(hashes, hashes')
    requires Outcome(n, bits, hashes, false).0 != Null && Outcome(n, bits', hashes', false).0 != Null
    ensures hashes == hashes' && (|bits| + 7) / 8 == (|bits'| + 7) / 8
    ensures Outcome(n, bits, hashes, false) == Outcome(n, bits', hashes', false)
  {
    hide Width, Height, Extract;
    var h := Height(n, 0);
    WidthPositive(n, h);
    var b, b' := if bits <= bits' then bits'[|bits|..] else [], if bits <= bits' then [] else bits[|bits'|..];
    var g, g' := if hashes <= hashes' then hashes'[|hashes|..] else [],
                 if hashes <= hashes' then [] else hashes[|hashes'|..];
    assert bits + b == bits' + b' && hashes + g == hashes' + g';
    ExtractExtended(n, bits, hashes, b, g, h, 0, 0, 0);
    ExtractExtended(n, bits', hashes', b', g', h, 0, 0, 0);
  }

  // Nothing is accepted for no transactions or too many, nor from an object that failed before. What is accepted has a
  // hash and not more than one for each transaction, and is refused with a hash more, a hash less or eight bits more.
  lemma NoSpareData(n: nat, bits: seq<bool>, hashes: seq<Hash>, fBad: bool, x: Hash, more: seq<bool>)
    requires Outcome(n, bits, hashes, fBad).0 != Null
    ensures !fBad && 0 < n <= 833 && 0 < |hashes| <= n
    ensures Outcome(n, bits, hashes + [x], fBad).0 == Null
    ensures Outcome(n, bits, hashes[..|hashes| - 1], fBad).0 == Null
    ensures |more| >= 8 ==> Outcome(n, bits + more, hashes, fBad).0 == Null
    ensures (|bits| + |more| + 7) / 8 == (|bits| + 7) / 8 ==>
              Outcome(n, bits + more, hashes, fBad) == Outcome(n, bits, hashes, fBad)
    ensures forall k | 0 <= k < |bits| && (k + 7) / 8 != (|bits| + 7) / 8 ::
              Outcome(n, bits[..k], hashes, fBad).0 == Null
  {
    hide Width, Height, Extract;
    var h := Height(n, 0);
    WidthPositive(n, h);
    ExtractUses(n, bits, hashes, h, 0, 0, 0);
    SpareRefused(n, bits, hashes, bits, hashes + [x]);
    SpareRefused(n, bits, hashes, bits, hashes[..|hashes| - 1]);
    SpareRefused(n, bits, hashes, bits + more, hashes);
    ExtractExtended(n, bits, hashes, more, [], h, 0, 0, 0);
    assert hashes + [] == hashes;
    forall k | 0 <= k < |bits| && (k + 7) / 8 != (|bits| + 7) / 8
      ensures Outcome(n, bits[..k], hashes, fBad).0 == Null
    {
      SpareRefused(n, bits, hashes, bits[..k], hashes);
    }
  }

  // For the same flag bits the hash of a node determines every stored hash below it.
  lemma {:induction false} ExtractBinds(n: nat, bits: seq<bool>, hashes: seq<Hash>, hashes': seq<Hash>,
                                        h: nat, pos: nat, nb: nat, nh: nat)
    requires pos < Width(n, h)
    requires var x, y := Extract(n, bits, hashes, h, pos, nb, nh), Extract(n, bits, hashes', h, pos, nb, nh);
             !x.bad && !y.bad && x.hash == y.hash
    ensures var x := Extract(n, bits, hashes, h, pos, nb, nh);
            && Extract(n, bits, hashes', h, pos, nb, nh) == x && x.nHashUsed <= |hashes| && x.nHashUsed <= |hashes'|
            && forall i | nh <= i < x.nHashUsed :: hashes[i] == hashes'[i]
    decreases h
  {
    hide Width;
    ExtractUses(n, bits, hashes, h, pos, nb, nh);
    ExtractUses(n, bits, hashes', h, pos, nb, nh);
    if h > 0 && bits[nb] {
      ExtractCases(n, bits, hashes, h, pos, nb, nh);
      ExtractCases(n, bits, hashes', h, pos, nb, nh);
      ExtractBinds(n, bits, hashes, hashes', h - 1, pos * 2, nb + 1, nh);
      if pos * 2 + 1 < Width(n, h - 1) {
        var l := Extract(n, bits, hashes, h - 1, pos * 2, nb + 1, nh);
        ExtractBinds(n, bits, hashes, hashes', h - 1, pos * 2 + 1, l.nBitsUsed, l.nHashUsed);
      }
    }
  }

  // Any change of the hashes, with the flags left alone, changes the root.
  lemma DamageIsNoticed(n: nat, bits: seq<bool>, hashes: seq<Hash>, damaged: seq<Hash>)
    requires Outcome(n, bits, hashes, false).0 != Null
    ensures Outcome(n, bits, damaged, false).0 == Outcome(n, bits, hashes, false).0 <==> damaged == hashes
  {
    hide Width, Height, Extract;
    if Outcome(n, bits, damaged, false).0 == Outcome(n, bits, hashes, false).0 {
      WidthPositive(n, Height(n, 0));
      ExtractBinds(n, bits, hashes, damaged, Height(n, 0), 0, 0, 0);
      assert hashes == damaged;
    }
  }

  lemma SpareRefused(n: nat, bits: seq<bool>, hashes: seq<Hash>, bits': seq<bool>, hashes': seq<Hash>)
    requires Outcome(n, bits, hashes, false).0 != Null
    requires OneExtendsOther(bits, bits') && OneExtendsOther(hashes, hashes')
    ensures |hashes| != |hashes'| || (|bits| + 7) / 8 != (|bits'| + 7) / 8 ==>
              Outcome(n, bits', hashes', false).0 == Null
  {
    hide Outcome;
    if Outcome(n, bits', hashes', false).0 != Null {
      OneLength(n, bits, hashes, bits', hashes');
    }
  }

  // The documented bound on the bits fails for five transactions of which only the last is matched.
  lemma PromiseBroken()
    ensures var txids, mask := [Txid(0), Txid(1), Txid(2), Txid(3), Txid(4)], [false, false, false, false, true];
            && 0 < Width(5, Height(5, 0))
            && |Build(txids, mask, Height(5, 0), 0).bits| > 2 * |Build(txids, mask, Height(5, 0), 0).hashes| - 1
  {
    var mask := [false, false, false, false, true];
    hide Build, Pow2, Width;
    WidthZero(5);
    assert Pow2(0) == 1 by { PowZero(); }
    assert mask[4];
    assert AnyMatch(mask, 4, 5);
    assert LoneMatch(mask, 0);
    BitsWithinPromise([Txid(0), Txid(1), Txid(2), Txid(3), Txid(4)], mask);
  }

  lemma PowZero()
    ensures Pow2(0) == 1
  {
  }
}
