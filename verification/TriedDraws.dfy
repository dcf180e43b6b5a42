/**
 What `SelectTried` does to a full "tried" bucket: up to four random draws, each
 of which moves an entry to the front, and a position to evict from.
 */
module TriedDraws {
  import opened AddrTables
  import opened Arithmetic

  // `ADDRMAN_TRIED_ENTRIES_INSPECT_ON_EVICT`.
  const INSPECTED: nat := 4

  // Draw `i` takes an entry from position `i` on.
  ghost predicate Fits(draws: seq<nat>, size: nat) {
    |draws| <= size && forall i | 0 <= i < |draws| :: i <= draws[i] < size
  }

  function Draw(random: nat -> nat, size: nat, i: nat): (pos: nat)
    requires i < size
    ensures i <= pos < size
  {
    i + random(i) % (size - i)
  }

  function Draws(random: nat -> nat, size: nat, n: nat): (draws: seq<nat>)
    requires n <= size
    ensures |draws| == n && Fits(draws, size) && forall i | 0 <= i < n :: draws[i] == Draw(random, size, i)
  {
    if n == 0 then [] else Draws(random, size, n - 1) + [Draw(random, size, n - 1)]
  }

  function Inspections(size: nat): nat {
    Min(INSPECTED, size)
  }

  // The entry at `pos` changes places with the one at `i`.
  function Drawn(bucket: seq<Id>, i: nat, pos: nat): seq<Id>
    requires i <= pos < |bucket|
  {
    bucket[pos := bucket[i]][i := bucket[pos]]
  }

  ghost function AfterDraws(bucket: seq<Id>, draws: seq<nat>): (after: seq<Id>)
    requires Fits(draws, |bucket|)
    ensures |after| == |bucket|
    decreases |draws|
  {
    if draws == [] then bucket
    else
      var i := |draws| - 1;
      Drawn(AfterDraws(bucket, draws[..i]), i, draws[i])
  }

  // Where in the bucket the entry was that is at `place` after the draws.
  ghost function Source(draws: seq<nat>, size: nat, place: nat): (from: nat)
    requires Fits(draws, size) && place < size
    ensures from < size
    decreases |draws|
  {
    if draws == [] then place
    else
      var i := |draws| - 1;
      Source(draws[..i], size, if place == i then draws[i] else if place == draws[i] then i else place)
  }

  // Where in the bucket the entry was that draw `i` takes.
  ghost function DrawnFrom(draws: seq<nat>, size: nat, i: nat): (from: nat)
    requires Fits(draws, size) && i < |draws|
    ensures from < size
  {
    Source(draws[..i], size, draws[i])
  }

  // The entries drawn, in that order, from the bucket as it is before the draws.
  ghost function DrawnEntries(bucket: seq<Id>, draws: seq<nat>): (drawn: seq<Id>)
    requires Fits(draws, |bucket|)
    ensures |drawn| == |draws|
  {
    seq(|draws|, i requires 0 <= i < |draws| => bucket[DrawnFrom(draws, |bucket|, i)])
  }

  // The entry at `a` is the first with the least recent success.
  ghost predicate FirstLeast(infos: Infos, drawn: seq<Id>, a: nat) {
    && a < |drawn| && (forall i | 0 <= i < |drawn| :: drawn[i] in infos)
    && (forall i | 0 <= i < |drawn| :: infos[drawn[a]].nLastSuccess <= infos[drawn[i]].nLastSuccess)
    && (forall i | 0 <= i < a :: infos[drawn[a]].nLastSuccess < infos[drawn[i]].nLastSuccess)
  }

  // No entry drawn has a less recent success than `id`.
  ghost predicate NoneOlder(infos: Infos, drawn: seq<Id>, id: Id) {
    id in infos && forall x | x in drawn :: x in infos && infos[id].nLastSuccess <= infos[x].nLastSuccess
  }

  // `out` is what a bucket gives up.
  ghost predicate Evicts(infos: Infos, bucket: seq<Id>, random: nat -> nat, out: Id) {
    var draws := Draws(random, |bucket|, Inspections(|bucket|));
    exists a: nat :: FirstLeast(infos, DrawnEntries(bucket, draws), a) && out == AfterDraws(bucket, draws)[draws[a]]
  }

  lemma OneMoreDrawn(infos: Infos, drawn: seq<Id>, id: Id, a: nat, next: nat)
    requires id in infos && (drawn == [] || FirstLeast(infos, drawn, a))
    requires if drawn == [] || infos[id].nLastSuccess < infos[drawn[a]].nLastSuccess then next == |drawn| else next == a
    ensures FirstLeast(infos, drawn + [id], next)
  {
  }

  lemma {:induction false} SourceRight(bucket: seq<Id>, draws: seq<nat>, place: nat)
    requires Fits(draws, |bucket|) && place < |bucket|
    ensures AfterDraws(bucket, draws)[place] == bucket[Source(draws, |bucket|, place)]
    decreases |draws|
  {
    if draws != [] {
      var i := |draws| - 1;
      SourceRight(bucket, draws[..i], if place == i then draws[i] else if place == draws[i] then i else place);
    }
  }

  // No entry is in two places.
  lemma {:induction false} SourceOnce(draws: seq<nat>, size: nat, p: nat, q: nat)
    requires Fits(draws, size) && p < size && q < size && p != q
    ensures Source(draws, size, p) != Source(draws, size, q)
    decreases |draws|
  {
    if draws != [] {
      var i := |draws| - 1;
      SourceOnce(draws[..i], size, if p == i then draws[i] else if p == draws[i] then i else p,
                                   if q == i then draws[i] else if q == draws[i] then i else q);
    }
  }

  // What draw `i` takes stays at place `i`.
  lemma {:induction false} DrawnStays(draws: seq<nat>, size: nat, i: nat)
    requires Fits(draws, size) && i < |draws|
    ensures Source(draws, size, i) == DrawnFrom(draws, size, i)
    decreases |draws|
  {
    var k := |draws| - 1;
    if i < k {
      DrawnStays(draws[..k], size, i);
      assert draws[..k][..i] == draws[..i];
    }
  }

  lemma DrawnInFront(bucket: seq<Id>, draws: seq<nat>, i: nat)
    requires Fits(draws, |bucket|) && i < |draws|
    ensures AfterDraws(bucket, draws)[i] == DrawnEntries(bucket, draws)[i]
  {
    hide AfterDraws, Source;
    SourceRight(bucket, draws, i);
    DrawnStays(draws, |bucket|, i);
  }

  lemma DrawsStart(bucket: seq<Id>)
    ensures AfterDraws(bucket, []) == bucket && DrawnEntries(bucket, []) == []
  {
  }

  lemma DrawnIsSwap(before: TriedBuckets, tried: TriedBuckets, k: nat, i: nat, pos: nat)
    requires k < |tried| && i <= pos < |tried[k]| && |before| == |tried| && tried == before[k := tried[k]]
    ensures Swapped(tried, k, i, pos) == before[k := Drawn(tried[k], i, pos)]
  {
    assert forall b | 0 <= b < |tried| && b != k :: tried[b] == before[b];
  }

  // One more draw.
  lemma NextDraw(bucket: seq<Id>, draws: seq<nat>, pos: nat)
    requires Fits(draws, |bucket|) && |draws| <= pos < |bucket|
    ensures AfterDraws(bucket, draws + [pos]) == Drawn(AfterDraws(bucket, draws), |draws|, pos)
    ensures DrawnEntries(bucket, draws + [pos]) == DrawnEntries(bucket, draws) + [AfterDraws(bucket, draws)[pos]]
  {
    hide Source;
    var more := draws + [pos];
    assert more[..|draws|] == draws;
    SourceRight(bucket, draws, pos);
    forall i | 0 <= i < |draws| ensures DrawnEntries(bucket, more)[i] == DrawnEntries(bucket, draws)[i] {
      assert more[..i] == draws[..i];
    }
  }

  // What is given up. It is the entry meant, the one drawn with the least recent success, only when that one was drawn
  // from the place it went to; it is one of those drawn only when it was drawn from the front; and that no drawn entry
  // is older is a condition on the bucket before the draws.
  lemma EvictionExact(infos: Infos, bucket: seq<Id>, draws: seq<nat>, a: nat)
    requires Fits(draws, |bucket|) && NoRepeats(bucket) && (forall x | x in bucket :: x in infos)
    requires FirstLeast(infos, DrawnEntries(bucket, draws), a)
    ensures var drawn, out := DrawnEntries(bucket, draws), AfterDraws(bucket, draws)[draws[a]];
            && (out == drawn[a] <==> draws[a] == a)
            && (out in drawn <==> draws[a] < |draws|)
            && (out in drawn && NoneOlder(infos, drawn, out)
                <==> draws[a] < |draws| && infos[drawn[draws[a]]].nLastSuccess == infos[drawn[a]].nLastSuccess)
    ensures var drawn, out := DrawnEntries(bucket, draws), AfterDraws(bucket, draws)[draws[a]];
            NoneOlder(infos, drawn, out)
            <==> infos[bucket[Source(draws, |bucket|, draws[a])]].nLastSuccess <= infos[drawn[a]].nLastSuccess
  {
    hide AfterDraws, Source, FirstLeast;
    var drawn := DrawnEntries(bucket, draws);
    LeastMeans(infos, drawn, a);
    var d := draws[a];
    var out := AfterDraws(bucket, draws)[d];
    SourceRight(bucket, draws, d);
    forall i | 0 <= i < |drawn| && i != d ensures drawn[i] != out {
      SourceOnce(draws, |bucket|, i, d);
      DrawnStays(draws, |bucket|, i);
    }
    if d < |draws| {
      DrawnInFront(bucket, draws, d);
    }
    assert drawn[a] in drawn;
  }

  lemma LeastMeans(infos: Infos, drawn: seq<Id>, a: nat)
    requires FirstLeast(infos, drawn, a)
    ensures a < |drawn| && drawn[a] in infos
    ensures forall x | x in drawn :: x in infos && infos[drawn[a]].nLastSuccess <= infos[x].nLastSuccess
  {
  }

  // Which entry is meant is determined.
  lemma LeastOnce(infos: Infos, drawn: seq<Id>, a: nat, b: nat)
    requires FirstLeast(infos, drawn, a) && FirstLeast(infos, drawn, b)
    ensures a == b
  {
    assert infos[drawn[a]].nLastSuccess == infos[drawn[b]].nLastSuccess;
  }

  // The draws look at the times of success only.
  lemma SameEviction(before: Infos, infos: Infos, bucket: seq<Id>, random: nat -> nat, out: Id)
    requires forall x | x in bucket :: x in before && x in infos && before[x].nLastSuccess == infos[x].nLastSuccess
    requires Evicts(before, bucket, random, out)
    ensures Evicts(infos, bucket, random, out)
  {
    hide AfterDraws, Source;
    var draws := Draws(random, |bucket|, Inspections(|bucket|));
    var a: nat :| FirstLeast(before, DrawnEntries(bucket, draws), a) && out == AfterDraws(bucket, draws)[draws[a]];
    assert forall i | 0 <= i < |draws| :: DrawnEntries(bucket, draws)[i] in bucket;
    assert FirstLeast(infos, DrawnEntries(bucket, draws), a);
  }

  // When the entry given up is one of those drawn and has the least recent success of them: the entry meant was drawn
  // from one of the front places, and the entry drawn to that place has no more recent success.
  ghost predicate GivesUpOldest(infos: Infos, bucket: seq<Id>, random: nat -> nat) {
    var draws := Draws(random, |bucket|, Inspections(|bucket|));
    var drawn := DrawnEntries(bucket, draws);
    exists a: nat :: FirstLeast(infos, drawn, a) && draws[a] < |draws|
      && infos[drawn[draws[a]]].nLastSuccess == infos[drawn[a]].nLastSuccess
  }

  lemma EvictsOldestIff(h: Hashes, t: Tables, p: int, k: nat, random: nat -> nat, out: Id)
    requires t.Consistent(h, p, 0) && k < |t.tried| && Evicts(t.infos, t.tried[k], random, out)
    ensures var bucket := t.tried[k];
            var drawn := DrawnEntries(bucket, Draws(random, |bucket|, Inspections(|bucket|)));
            out in drawn && NoneOlder(t.infos, drawn, out) <==> GivesUpOldest(t.infos, bucket, random)
  {
    hide Tables.Consistent, AfterDraws, DrawnEntries;
    TriedOnce(h, t, p, 0, k);
    TriedSizes(h, t, p, 0, k);
    var bucket := t.tried[k];
    var draws := Draws(random, |bucket|, Inspections(|bucket|));
    var drawn := DrawnEntries(bucket, draws);
    var a: nat :| FirstLeast(t.infos, drawn, a) && out == AfterDraws(bucket, draws)[draws[a]];
    EvictionExact(t.infos, bucket, draws, a);
    if GivesUpOldest(t.infos, bucket, random) {
      var b: nat :| FirstLeast(t.infos, drawn, b) && draws[b] < |draws|
        && t.infos[drawn[draws[b]]].nLastSuccess == t.infos[drawn[b]].nLastSuccess;
      LeastOnce(t.infos, drawn, a, b);
    }
  }
}
