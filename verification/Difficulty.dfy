/**
 The difficulty rules: which target the next block must carry
 (`GetNextWorkRequired`), which target could be required after some time without
 knowing the blocks in between (`ComputeMinWork`), and the work of a block.
 */
module Difficulty {
  import opened Arithmetic
  import opened Powers
  import opened CompactTarget

  const TARGET_TIMESPAN: nat := 1209600
  const TARGET_SPACING: nat := 600
  const INTERVAL: nat := 2016

  datatype Header = Header(nBits: nat, nTime: nat)

  // `~uint256(0) >> 1`.
  function ProofOfWorkLimit(): nat {
    Pow2(255) - 1
  }

  // Division that drops the fraction, as `BN_div` does for either sign.
  function Truncated(n: int, d: nat): int
    requires d > 0
  {
    Signed(n < 0, Quot(Magnitude(n), d))
  }

  function Clamp(span: int): nat {
    if span < TARGET_TIMESPAN / 4 then TARGET_TIMESPAN / 4
    else if span > TARGET_TIMESPAN * 4 then TARGET_TIMESPAN * 4
    else span
  }

  function Retarget(nBits: nat, span: int, limit: nat): nat {
    GetCompact(Min(limit, Truncated(SetCompact(nBits) * Clamp(span), TARGET_TIMESPAN)))
  }

  // The last block at or below i that is the first of the chain or of an interval, or that
  // does not carry the minimum difficulty.
  function Ordinary(chain: seq<Header>, i: nat, limitBits: nat): (j: nat)
    requires i < |chain|
    ensures j <= i && (j == 0 || j % INTERVAL == 0 || chain[j].nBits != limitBits)
    ensures forall k | j < k <= i :: k % INTERVAL != 0 && chain[k].nBits == limitBits
  {
    if i > 0 && i % INTERVAL != 0 && chain[i].nBits == limitBits then Ordinary(chain, i - 1, limitBits) else i
  }

  // The rule, for a chain given by height: `chain[k]` is the header of the block at height k.
  function NextBits(chain: seq<Header>, nTime: nat, testNet: bool, limit: nat): nat {
    var n := |chain|;
    if n == 0 then GetCompact(limit)
    else if n % INTERVAL == 0 then Retarget(chain[n - 1].nBits, chain[n - 1].nTime - chain[n - INTERVAL].nTime, limit)
    else if !testNet then chain[n - 1].nBits
    else if nTime > chain[n - 1].nTime + 2 * TARGET_SPACING then GetCompact(limit)
    else chain[Ordinary(chain, n - 1, GetCompact(limit))].nBits
  }

  method GetNextWorkRequired(chain: seq<Header>, nTime: nat, testNet: bool, limit: nat) returns (nBits: nat)
    ensures nBits == NextBits(chain, nTime, testNet, limit)
  {
    hide GetCompact, SetCompact, Retarget;
    var nProofOfWorkLimit := GetCompact(limit);
    if chain == [] {
      return nProofOfWorkLimit;
    }
    var last := |chain| - 1;
    if (last + 1) % INTERVAL != 0 {
      if testNet {
        if nTime > chain[last].nTime + TARGET_SPACING * 2 {
          return nProofOfWorkLimit;
        }
        var pindex := last;
        while pindex > 0 && pindex % INTERVAL != 0 && chain[pindex].nBits == nProofOfWorkLimit
          invariant 0 <= pindex <= last
          invariant Ordinary(chain, last, nProofOfWorkLimit) == Ordinary(chain, pindex, nProofOfWorkLimit)
        {
          pindex := pindex - 1;
        }
        return chain[pindex].nBits;
      }
      return chain[last].nBits;
    }
    var first := last;
    var i := 0;
    while first >= 0 && i < INTERVAL - 1
      invariant 0 <= i <= INTERVAL - 1 && first == last - i
      invariant first >= -1
    {
      first := first - 1;
      i := i + 1;
    }
    assert first >= 0;
    nBits := Adjust(chain[last].nBits, chain[last].nTime - chain[first].nTime, limit);
  }

  // The adjustment at the end of `GetNextWorkRequired`.
  method Adjust(nLastBits: nat, nTimespan: int, limit: nat) returns (nBits: nat)
    ensures nBits == Retarget(nLastBits, nTimespan, limit)
  {
    hide GetCompact, SetCompact, Truncated;
    var nActualTimespan := nTimespan;
    if nActualTimespan < TARGET_TIMESPAN / 4 {
      nActualTimespan := TARGET_TIMESPAN / 4;
    }
    if nActualTimespan > TARGET_TIMESPAN * 4 {
      nActualTimespan := TARGET_TIMESPAN * 4;
    }
    var bnNew := SetCompact(nLastBits);
    bnNew := bnNew * nActualTimespan;
    bnNew := Truncated(bnNew, TARGET_TIMESPAN);
    if bnNew > limit {
      bnNew := limit;
    }
    return GetCompact(bnNew);
  }

  // One adjustment changes the target by at most a factor of four and never beyond the limit.
  lemma RetargetBounds(nBits: nat, span: int, limit: nat)
    requires SetCompact(nBits) >= 0 && Exponent(limit) <= 255
    ensures var was: nat, next := SetCompact(nBits), SetCompact(Retarget(nBits, span, limit));
            && next == Round(Capped(limit, Quot(Times(was, Clamp(span)), TARGET_TIMESPAN)))
            && Round(Capped(limit, was / 4)) <= next <= Capped(limit, 4 * was)
  {
    hide GetCompact, SetCompact, Exponent, Round, Mantissa;
    var was := SetCompact(nBits);
    AdjustmentBounds(was, Clamp(span));
    var target := Capped(limit, Quot(Times(was, Clamp(span)), TARGET_TIMESPAN));
    ExponentGrows(target, limit);
    RoundTrip(target);
    RoundKeepsParts(target);
    RoundMonotone(Capped(limit, was / 4), target);
  }

  function Capped(limit: nat, target: nat): nat {
    if target < limit then target else limit
  }

  lemma AdjustmentBounds(was: nat, span: nat)
    requires TARGET_TIMESPAN / 4 <= span <= 4 * TARGET_TIMESPAN
    ensures was * span >= 0 && was / 4 <= was * span / TARGET_TIMESPAN <= 4 * was
    ensures Truncated(was * span, TARGET_TIMESPAN) == was * span / TARGET_TIMESPAN
  {
    assert was * (TARGET_TIMESPAN / 4) <= was * span <= was * (4 * TARGET_TIMESPAN) by {
      TimesGrows(was, was, TARGET_TIMESPAN / 4, span);
      TimesGrows(was, was, span, 4 * TARGET_TIMESPAN);
    }
  }

  // ---------- what an adjustment does ----------

  ghost predicate AtAdjustment(chain: seq<Header>, limit: nat) {
    |chain| > 0 && |chain| % INTERVAL == 0 && SetCompact(chain[|chain| - 1].nBits) >= 0 && Exponent(limit) <= 255
  }

  // How long the last interval took.
  function Elapsed(chain: seq<Header>): int
    requires |chain| >= INTERVAL
  {
    chain[|chain| - 1].nTime - chain[|chain| - INTERVAL].nTime
  }

  // A quarter of the intended time or less divides the target by four, four times as much or more multiplies it by
  // four, and in between it changes in proportion, so that the intended time leaves it alone.
  lemma Adjusted(chain: seq<Header>, nTime: nat, testNet: bool, limit: nat)
    requires AtAdjustment(chain, limit)
    ensures var was: nat := SetCompact(chain[|chain| - 1].nBits);
            var next := SetCompact(NextBits(chain, nTime, testNet, limit));
            var span := Elapsed(chain);
            && (4 * span <= TARGET_TIMESPAN ==> next == Round(Capped(limit, was / 4)))
            && (span >= 4 * TARGET_TIMESPAN ==> next == Round(Capped(limit, 4 * was)))
            && (TARGET_TIMESPAN <= 4 * span <= 16 * TARGET_TIMESPAN ==>
                  next == Round(Capped(limit, Quot(Times(was, span), TARGET_TIMESPAN))))
            && (span == TARGET_TIMESPAN ==> next == Round(Capped(limit, was)))
  {
    hide GetCompact, SetCompact, Exponent, Round, Clamp, Times, Quot, Retarget;
    var nBits := chain[|chain| - 1].nBits;
    RetargetBounds(nBits, Elapsed(chain), limit);
    Proportion(SetCompact(nBits), Elapsed(chain));
    assert NextBits(chain, nTime, testNet, limit) == Retarget(nBits, Elapsed(chain), limit);
  }

  lemma Proportion(was: nat, span: int)
    ensures var part := Quot(Times(was, Clamp(span)), TARGET_TIMESPAN);
            && (4 * span <= TARGET_TIMESPAN ==> part == was / 4)
            && (span >= 4 * TARGET_TIMESPAN ==> part == 4 * was)
            && (TARGET_TIMESPAN <= 4 * span <= 16 * TARGET_TIMESPAN ==>
                  part == Quot(Times(was, span), TARGET_TIMESPAN))
            && (span == TARGET_TIMESPAN ==> part == was)
  {
    hide Times, Quot;
    Portions(was);
  }

  lemma Portions(was: nat)
    ensures Quot(Times(was, 302400), TARGET_TIMESPAN) == was / 4
    ensures Quot(Times(was, 4838400), TARGET_TIMESPAN) == 4 * was
    ensures Quot(Times(was, TARGET_TIMESPAN), TARGET_TIMESPAN) == was
  {
  }

  // Of two chains that end with the same target, the one whose last interval took longer gets the easier target.
  lemma SlowerIsEasier(fast: seq<Header>, slow: seq<Header>, t1: nat, t2: nat, testNet: bool, limit: nat)
    requires AtAdjustment(fast, limit) && AtAdjustment(slow, limit)
    requires fast[|fast| - 1].nBits == slow[|slow| - 1].nBits && Elapsed(fast) <= Elapsed(slow)
    ensures SetCompact(NextBits(fast, t1, testNet, limit)) <= SetCompact(NextBits(slow, t2, testNet, limit))
  {
    hide GetCompact, SetCompact, Exponent, Round;
    var was := SetCompact(fast[|fast| - 1].nBits);
    var c1, c2 := Clamp(Elapsed(fast)), Clamp(Elapsed(slow));
    RetargetBounds(fast[|fast| - 1].nBits, Elapsed(fast), limit);
    RetargetBounds(slow[|slow| - 1].nBits, Elapsed(slow), limit);
    ProportionGrows(was, c1, c2);
    RoundMonotone(Capped(limit, Quot(Times(was, c1), TARGET_TIMESPAN)),
                  Capped(limit, Quot(Times(was, c2), TARGET_TIMESPAN)));
  }

  lemma ProportionGrows(was: nat, c1: nat, c2: nat)
    requires c1 <= c2
    ensures Quot(Times(was, c1), TARGET_TIMESPAN) <= Quot(Times(was, c2), TARGET_TIMESPAN)
  {
    TimesGrows(was, was, c1, c2);
  }

  // A chain whose headers, after the first, all carry the required target.
  ghost predicate Retargeted(chain: seq<Header>, testNet: bool, limit: nat) {
    forall k | 1 <= k < |chain| :: chain[k].nBits == NextBits(chain[..k], chain[k].nTime, testNet, limit)
  }

  ghost predicate InRange(nBits: nat, limit: nat) {
    0 <= SetCompact(nBits) <= limit
  }

  // Along every such chain, on either network, no target is negative or above the limit.
  lemma {:induction false} TargetsStayInRange(chain: seq<Header>, testNet: bool, limit: nat, n: nat)
    requires Retargeted(chain, testNet, limit) && Exponent(limit) <= 255
    requires n < |chain| && InRange(chain[0].nBits, limit)
    ensures InRange(chain[n].nBits, limit)
  {
    hide GetCompact, SetCompact, Exponent, Round, Retarget;
    if n > 0 {
      var before := chain[..n];
      TargetsStayInRange(chain, testNet, limit, n - 1);
      if n % INTERVAL == 0 {
        RetargetBounds(chain[n - 1].nBits, chain[n - 1].nTime - chain[n - INTERVAL].nTime, limit);
        assert chain[n].nBits == Retarget(before[n - 1].nBits, before[n - 1].nTime - before[n - INTERVAL].nTime, limit);
      } else if testNet {
        LimitInRange(limit);
        var j := Ordinary(before, n - 1, GetCompact(limit));
        TargetsStayInRange(chain, testNet, limit, j);
      }
    }
  }

  lemma LimitInRange(limit: nat)
    requires Exponent(limit) <= 255
    ensures InRange(GetCompact(limit), limit)
  {
    hide GetCompact, SetCompact, Exponent, Round, Mantissa;
    RoundTrip(limit);
    RoundKeepsParts(limit);
  }

  // Off the test network the target changes only at the start of an interval.
  lemma {:induction false} ConstantWithinInterval(chain: seq<Header>, limit: nat, i: nat, j: nat)
    requires Retargeted(chain, false, limit) && i <= j < |chain| && i / INTERVAL == j / INTERVAL
    ensures chain[i].nBits == chain[j].nBits
    decreases j
  {
    if i < j {
      assert j % INTERVAL != 0;
      assert chain[j].nBits == chain[..j][j - 1].nBits;
      ConstantWithinInterval(chain, limit, i, j - 1);
    }
  }

  // Where the interval of a height begins.
  function IntervalStart(i: nat): (k: nat)
    ensures k <= i
  {
    i - i % INTERVAL
  }

  // On the test network a block that comes more than two spacings after the one before carries the limit. Every other
  // block within an interval carries the target with which the interval began.
  lemma {:induction false} TestNetWithinInterval(chain: seq<Header>, limit: nat, i: nat)
    requires Retargeted(chain, true, limit) && i < |chain| && i % INTERVAL != 0
    ensures chain[i].nBits == if chain[i].nTime > chain[i - 1].nTime + 1200 then GetCompact(limit)
                              else chain[IntervalStart(i)].nBits
  {
    hide GetCompact, Ordinary, Retarget, IntervalStart;
    var before := chain[..i];
    assert chain[i].nBits == NextBits(before, chain[i].nTime, true, limit);
    var j := Ordinary(before, i - 1, GetCompact(limit));
    SameInterval(i, j);
    if chain[i].nTime <= chain[i - 1].nTime + 1200 && j % INTERVAL != 0 {
      TestNetWithinInterval(chain, limit, j);
    }
  }

  lemma SameInterval(i: nat, j: nat)
    requires j < i && i % INTERVAL != 0 && forall k | j < k < i :: k % INTERVAL != 0
    ensures IntervalStart(i) == IntervalStart(j) && (j % INTERVAL == 0 ==> IntervalStart(j) == j)
  {
    var k := i - i % INTERVAL;
    assert k % INTERVAL == 0;
    assert k <= j;
    assert i / INTERVAL == j / INTERVAL;
  }

  // ---------- minimum work after some time ----------

  function Pow4(k: nat): (p: nat)
    ensures p > 0
  {
    if k == 0 then 1 else 4 * Pow4(k - 1)
  }

  lemma {:induction false} Pow4Grows(a: nat, b: nat)
    requires a <= b
    ensures Pow4(a) <= Pow4(b)
    decreases b
  {
    if a < b {
      Pow4Grows(a, b - 1);
    }
  }

  // How many adjustments fit into the elapsed time, the last one perhaps in part.
  function Adjustments(nTime: int): nat {
    if nTime <= 0 then 0 else (nTime + 4 * TARGET_TIMESPAN - 1) / (4 * TARGET_TIMESPAN)
  }

  function MinTarget(target: int, nTime: int, limit: nat): int {
    Min(limit, target * Pow4(Adjustments(nTime)))
  }

  function MinBits(nBase: nat, nTime: int, testNet: bool, limit: nat): nat {
    if testNet && nTime > 2 * TARGET_SPACING then GetCompact(limit)
    else GetCompact(MinTarget(SetCompact(nBase), nTime, limit))
  }

  method ComputeMinWork(nBase: nat, nTime: int, testNet: bool, limit: nat) returns (nBits: nat)
    ensures nBits == MinBits(nBase, nTime, testNet, limit)
  {
    hide GetCompact, SetCompact, MinTarget;
    if testNet && nTime > TARGET_SPACING * 2 {
      return GetCompact(limit);
    }
    var bnResult := SetCompact(nBase);
    var time := nTime;
    while time > 0 && bnResult < limit
      invariant MinTarget(SetCompact(nBase), nTime, limit) == MinTarget(bnResult, time, limit)
      decreases time
    {
      MinTargetStep(bnResult, time, limit);
      bnResult := bnResult * 4;
      time := time - TARGET_TIMESPAN * 4;
    }
    MinTargetDone(bnResult, time, limit);
    if bnResult > limit {
      bnResult := limit;
    }
    return GetCompact(bnResult);
  }

  lemma MinTargetStep(target: int, time: int, limit: nat)
    requires time > 0
    ensures MinTarget(target, time, limit) == MinTarget(target * 4, time - TARGET_TIMESPAN * 4, limit)
  {
    var k := Adjustments(time);
    assert k > 0 && Adjustments(time - TARGET_TIMESPAN * 4) == k - 1;
    assert target * Pow4(k) == (target * 4) * Pow4(k - 1);
  }

  lemma MinTargetDone(target: int, time: int, limit: nat)
    requires time <= 0 || target >= limit
    ensures MinTarget(target, time, limit) == Min(limit, target)
  {
    if time > 0 {
      TimesGrows(target, target, 1, Pow4(Adjustments(time)));
    }
  }

  // The more time has passed, the easier a block may be, on either network.
  lemma MinWorkMonotone(nBase: nat, t1: int, t2: int, testNet: bool, limit: nat)
    requires SetCompact(nBase) >= 0 && t1 <= t2 && Exponent(limit) <= 255
    ensures SetCompact(MinBits(nBase, t1, testNet, limit)) <= SetCompact(MinBits(nBase, t2, testNet, limit))
  {
    hide GetCompact, SetCompact, Exponent, Round, Mantissa;
    var base := SetCompact(nBase);
    MinTargetGrows(base, t1, t2, limit);
    var r1, r2 := MinTarget(base, t1, limit), MinTarget(base, t2, limit);
    RoundedMonotone(r1, limit, limit);
    RoundedMonotone(r1, r2, limit);
  }

  lemma RoundedMonotone(a: nat, b: nat, limit: nat)
    requires a <= b <= limit && Exponent(limit) <= 255
    ensures 0 <= SetCompact(GetCompact(a)) <= SetCompact(GetCompact(b))
  {
    hide GetCompact, SetCompact, Exponent, Round, Mantissa;
    ExponentGrows(a, limit);
    ExponentGrows(b, limit);
    RoundTrip(a);
    RoundTrip(b);
    RoundMonotone(a, b);
  }

  lemma MinTargetGrows(base: nat, t1: int, t2: int, limit: nat)
    requires t1 <= t2
    ensures 0 <= MinTarget(base, t1, limit) <= MinTarget(base, t2, limit)
  {
    var k1, k2 := Adjustments(t1), Adjustments(t2);
    assert k1 <= k2;
    Pow4Grows(k1, k2);
    TimesGrows(base, base, Pow4(k1), Pow4(k2));
    TimesGrows(0, base, 0, Pow4(k1));
  }

  // Every started period of four timespans multiplies the target by four, up to the limit. On the test network two
  // spacings are enough for the limit.
  lemma MinWorkAfter(nBase: nat, nTime: int, periods: nat, testNet: bool, limit: nat)
    requires SetCompact(nBase) >= 0 && Exponent(limit) <= 255
    requires if periods == 0 then nTime <= 0
             else 4 * TARGET_TIMESPAN * (periods - 1) < nTime <= 4 * TARGET_TIMESPAN * periods
    ensures var base: nat := SetCompact(nBase);
            SetCompact(MinBits(nBase, nTime, testNet, limit))
            == if testNet && nTime > 1200 then Round(limit) else Round(Capped(limit, Times(base, Pow4(periods))))
  {
    hide GetCompact, SetCompact, Exponent, Round;
    assert Adjustments(nTime) == periods;
    var target := Capped(limit, Times(SetCompact(nBase), Pow4(periods)));
    ExponentGrows(target, limit);
    RoundTrip(target);
    RoundTrip(limit);
  }

  // What is required after an adjustment is never easier than what `ComputeMinWork` allows for the time it took.
  lemma AdjustmentWithinMinWork(chain: seq<Header>, nTime: nat, testNet: bool, limit: nat)
    requires AtAdjustment(chain, limit)
    ensures SetCompact(NextBits(chain, nTime, testNet, limit))
         <= SetCompact(MinBits(chain[|chain| - 1].nBits, Elapsed(chain), testNet, limit))
  {
    hide GetCompact, SetCompact, Exponent, Round;
    var nBits, span := chain[|chain| - 1].nBits, Elapsed(chain);
    var was := SetCompact(nBits);
    RetargetBounds(nBits, span, limit);
    var target := Capped(limit, Quot(Times(was, Clamp(span)), TARGET_TIMESPAN));
    var k := Adjustments(span);
    MinWorkAfter(nBits, span, k, testNet, limit);
    WithinPow4(was, span);
    RoundMonotone(target, Capped(limit, Times(was, Pow4(k))));
    RoundMonotone(target, limit);
  }

  lemma WithinPow4(was: nat, span: int)
    ensures Quot(Times(was, Clamp(span)), TARGET_TIMESPAN) <= Times(was, Pow4(Adjustments(span)))
  {
    var k := Adjustments(span);
    if span <= 0 {
      assert Pow4(k) == 1;
      AdjustmentBounds(was, Clamp(span));
    } else {
      Pow4Grows(1, k);
      assert Pow4(1) == 4;
      TimesGrows(was, was, 4, Pow4(k));
      AdjustmentBounds(was, Clamp(span));
    }
  }

  ghost predicate Monotone(nBase: nat, testNet: bool, limit: nat) {
    forall t1, t2 | t1 <= t2 ::
      SetCompact(MinBits(nBase, t1, testNet, limit)) <= SetCompact(MinBits(nBase, t2, testNet, limit))
  }

  // Off the test network the rule is monotone for no negative base, whatever 32-bit field it comes from. On the test
  // network there is at most one adjustment, and it is for those whose fourfold no longer fits the size byte.
  lemma MinWorkMonotoneIff(nBase: nat, testNet: bool, limit: nat)
    requires nBase < 0x1_0000_0000 && Exponent(limit) <= 255
    ensures Monotone(nBase, testNet, limit)
       <==> SetCompact(nBase) >= 0 || (testNet && Exponent(4 * Magnitude(SetCompact(nBase))) > 255)
  {
    hide GetCompact, SetCompact, Exponent, Round, Mantissa, MinBits;
    if SetCompact(nBase) >= 0 {
      forall t1, t2 | t1 <= t2
        ensures SetCompact(MinBits(nBase, t1, testNet, limit)) <= SetCompact(MinBits(nBase, t2, testNet, limit))
      {
        MinWorkMonotone(nBase, t1, t2, testNet, limit);
      }
    } else if testNet {
      NegativeOnTestNet(nBase, limit);
    } else {
      var t1, t2 := NegativeBaseFalls(nBase, limit);
    }
  }

  // The three values that the rule takes on the test network for a negative base.
  lemma TestNetBits(nBase: nat, nTime: int, limit: nat)
    requires SetCompact(nBase) < 0
    ensures var m := Magnitude(SetCompact(nBase));
            MinBits(nBase, nTime, true, limit)
            == if nTime <= 0 then GetCompact(Signed(true, m))
               else if nTime <= 2 * TARGET_SPACING then GetCompact(Signed(true, 4 * m))
               else GetCompact(limit)
  {
    hide GetCompact, SetCompact;
    assert Pow4(1) == 4;
    assert 0 < nTime <= 2 * TARGET_SPACING ==> Adjustments(nTime) == 1;
  }

  lemma NegativeOnTestNet(nBase: nat, limit: nat)
    requires SetCompact(nBase) < 0 && nBase < 0x1_0000_0000 && Exponent(limit) <= 255
    ensures Monotone(nBase, true, limit) <==> Exponent(4 * Magnitude(SetCompact(nBase))) > 255
  {
    hide GetCompact, SetCompact, Exponent, Round, Mantissa, MinBits;
    var m := Magnitude(SetCompact(nBase));
    forall t ensures MinBits(nBase, t, true, limit)
                  == if t <= 0 then GetCompact(Signed(true, m))
                     else if t <= 2 * TARGET_SPACING then GetCompact(Signed(true, 4 * m)) else GetCompact(limit)
    {
      TestNetBits(nBase, t, limit);
    }
    if Exponent(4 * m) <= 255 {
      FallsAtOnce(m);
      assert SetCompact(MinBits(nBase, 0, true, limit)) > SetCompact(MinBits(nBase, 1, true, limit));
    } else {
      DecodedFits(nBase);
      ExponentStep(m);
      OversizeDecodes(4 * m, true);
      RoundedMonotone(limit, limit, limit);
      NegativeStays(m);
    }
  }

  // A negative number that fits decodes to one that is not positive.
  lemma NegativeStays(m: nat)
    requires m > 0 && Exponent(m) <= 255
    ensures SetCompact(GetCompact(Signed(true, m))) <= 0
  {
    hide GetCompact, SetCompact, Exponent, Round, Mantissa;
    RoundTrip(Signed(true, m));
    RoundKeepsParts(m);
  }

  // After `k` adjustments a negative base has grown by a factor of 4^k.
  lemma NegativeMinBits(nBase: nat, k: nat, limit: nat)
    requires SetCompact(nBase) < 0
    ensures MinBits(nBase, k * 4 * TARGET_TIMESPAN, false, limit)
         == GetCompact(Signed(true, Times(Magnitude(SetCompact(nBase)), Pow4(k))))
  {
    hide GetCompact, SetCompact;
    var m := Magnitude(SetCompact(nBase));
    assert Adjustments(k * 4 * TARGET_TIMESPAN) == k;
    NegativeProduct(m, Pow4(k));
  }

  lemma NegativeProduct(m: nat, p: nat)
    requires m > 0 && p > 0
    ensures Signed(true, m) * p == Signed(true, Times(m, p)) < 0
  {
  }

  // A negative base is lower at some later time than at an earlier one: at once when its fourfold still fits the size
  // byte, and otherwise when, after decoding to zero, the wrapped size is 1.
  lemma NegativeBaseFalls(nBase: nat, limit: nat) returns (t1: int, t2: int)
    requires SetCompact(nBase) < 0 && nBase < 0x1_0000_0000
    ensures t1 <= t2 && SetCompact(MinBits(nBase, t1, false, limit)) > SetCompact(MinBits(nBase, t2, false, limit))
  {
    hide GetCompact, SetCompact, Exponent, Round, Mantissa, MinBits, Times, Pow4;
    var m := Magnitude(SetCompact(nBase));
    DecodedFits(nBase);
    Pow4Values(m);
    NegativeMinBits(nBase, 0, limit);
    NegativeMinBits(nBase, 1, limit);
    if Exponent(4 * m) <= 255 {
      FallsAtOnce(m);
      t1, t2 := 0, 4 * TARGET_TIMESPAN;
    } else {
      ExponentStep(m);
      OversizeDecodes(4 * m, true);
      var k := WrappedAgain(m, 1);
      NegativeMinBits(nBase, k, limit);
      t1, t2 := 4 * TARGET_TIMESPAN, k * 4 * TARGET_TIMESPAN;
    }
  }

  lemma Pow4Values(m: nat)
    ensures Times(m, Pow4(0)) == m && Times(m, Pow4(1)) == 4 * m
  {
    assert Pow4(1) == 4;
  }

  lemma FallsAtOnce(m: nat)
    requires m > 0 && Exponent(4 * m) <= 255
    ensures SetCompact(GetCompact(Signed(true, m))) > SetCompact(GetCompact(Signed(true, 4 * m)))
  {
    hide GetCompact, SetCompact, Exponent, Round, Mantissa;
    ExponentGrows(m, 4 * m);
    RoundTrip(Signed(true, m));
    RoundTrip(Signed(true, 4 * m));
    RoundKeepsParts(m);
    RoundKeepsParts(4 * m);
  }

  // A number that came out of a header has a size that fits its byte.
  lemma DecodedFits(nBase: nat)
    requires nBase < 0x1_0000_0000
    ensures Exponent(Magnitude(SetCompact(nBase))) <= 255
  {
    hide Exponent, Times, Quot, Base;
    var size, word := nBase / 0x1000000, nBase % 0x800000;
    var m := Magnitude(SetCompact(nBase));
    assert m == Scaled(size, word);
    SmallBases();
    ScaledBound(size, word);
    if Exponent(m) > 255 {
      ExponentBounds(m);
      BaseGrows(255, Exponent(m) - 1);
    }
  }

  lemma ScaledBound(size: nat, word: nat)
    requires size <= 255 && word < 0x800000
    ensures 2 * Scaled(size, word) < Base(255)
  {
    hide Times, Quot, Base;
    SmallBases();
    if size <= 3 {
      BaseGrows(4, 255);
      BaseSteps(3);
      QuotTimes(word, Base(3 - size));
      TimesGrows(Quot(word, Base(3 - size)), Quot(word, Base(3 - size)), 1, Base(3 - size));
      TimesStep(0, Quot(word, Base(3 - size)));
    } else {
      BaseGrows(size - 3, 252);
      BaseAdd(3, 252);
      TimesGrows(word + 1, 0x800000, Base(size - 3), Base(252));
      TimesStep(word, Base(size - 3));
      TimesTwo(0x800000, Base(252));
    }
  }

  // Four times as much needs at most one more byte.
  lemma ExponentStep(m: nat)
    requires m > 0
    ensures Exponent(m) <= Exponent(4 * m) <= Exponent(m) + 1
  {
    hide Exponent, Base;
    ExponentGrows(m, 4 * m);
    ExponentBounds(m);
    ExponentBounds(4 * m);
    BaseSteps(Exponent(m));
    if Exponent(4 * m) > Exponent(m) + 1 {
      BaseGrows(Exponent(m) + 1, Exponent(4 * m) - 1);
    }
  }

  // There is a last power whose size is 257, and it decodes to something below zero.
  lemma {:induction false} WrappedAgain(m: nat, k: nat) returns (r: nat)
    requires m > 0 && k > 0 && Exponent(Times(m, Pow4(k))) <= 257
    ensures r >= k && SetCompact(GetCompact(Signed(true, Times(m, Pow4(r))))) < 0
    decreases Base(257) - 2 * Times(m, Pow4(k))
  {
    hide Exponent, Base, SetCompact, GetCompact, Times, Pow4;
    var x := Times(m, Pow4(k));
    NextPower(m, k);
    ExponentBounds(x);
    BaseGrows(Exponent(x), 257);
    ExponentStep(x);
    if Exponent(4 * x) <= 257 {
      r := WrappedAgain(m, k + 1);
    } else {
      r := k;
      LastOfSize(x);
    }
  }

  lemma NextPower(m: nat, k: nat)
    requires m > 0
    ensures Times(m, Pow4(k + 1)) == 4 * Times(m, Pow4(k)) && Times(m, Pow4(k)) > 0
  {
    NegativeProduct(m, Pow4(k));
    assert Pow4(k + 1) == 4 * Pow4(k);
  }

  lemma LastOfSize(x: nat)
    requires x > 0 && Exponent(x) == 257 && Exponent(4 * x) == 258
    ensures SetCompact(GetCompact(Signed(true, x))) < 0
  {
    hide Exponent, Mantissa, SetCompact, Times, Quot, Base;
    Parts(x);
    ExponentBounds(4 * x);
    BaseAdd(3, 254);
    SmallBases();
    TimesTwo(0x800000, Base(254));
    EighthOf(Base(254));
    QuotIff(x, Base(254), 0x200000);
    DecodeParts(1, Mantissa(x), true);
    QuotIff(Mantissa(x), Base(2), 1);
    TimesStep(0, Base(2));
  }

  lemma EighthOf(b: nat)
    ensures Times(0x1000000, b) == 8 * Times(0x200000, b)
  {
  }

  // ---------- the work of a block ----------

  function BlockWork(nBits: nat): nat {
    var target := SetCompact(nBits);
    if target <= 0 then 0 else Quot(Pow2(256), target + 1)
  }

  // A block adds work to its chain exactly when its target is positive and below 2^256.
  lemma WorkPositiveIff(nBits: nat)
    ensures BlockWork(nBits) > 0 <==> 0 < SetCompact(nBits) < Pow2(256)
  {
    hide SetCompact, Pow2, Quot, Times;
    var target := SetCompact(nBits);
    if target > 0 {
      QuotIff(Pow2(256), target + 1, 1);
      TimesStep(0, target + 1);
    }
  }

  // A harder target stands for at least as much work.
  lemma WorkAntitone(a: nat, b: nat)
    requires 0 < SetCompact(a) <= SetCompact(b)
    ensures BlockWork(a) >= BlockWork(b)
  {
    hide SetCompact, Pow2, Quot, Times;
    var s, t := SetCompact(a), SetCompact(b);
    var w := Quot(Pow2(256), t + 1);
    QuotIff(Pow2(256), t + 1, w);
    QuotIff(Pow2(256), s + 1, w);
    TimesGrows(w, w, s + 1, t + 1);
  }

  // The work is how many times the target, counted from zero, fits into all 2^256 hashes.
  lemma WorkFillsSpace(nBits: nat)
    requires SetCompact(nBits) > 0
    ensures var t := SetCompact(nBits) + 1;
            BlockWork(nBits) * t <= Pow2(256) < (BlockWork(nBits) + 1) * t
  {
    hide SetCompact, Pow2;
    var t := SetCompact(nBits) + 1;
    QuotTimes(Pow2(256), t);
  }

  // A block that passes the proof-of-work check against the network's limit adds work, so
  // cumulative work grows strictly along `pprev`.
  lemma AcceptedWorkIsPositive(nBits: nat)
    requires 0 < SetCompact(nBits) <= ProofOfWorkLimit()
    ensures BlockWork(nBits) > 0
  {
    hide SetCompact;
    WorkPositiveIff(nBits);
    Pow2Grows(255, 256);
  }

  lemma {:induction false} LimitFitsSize(k: nat)
    ensures Base(k) == Pow2(8 * k)
  {
    if k > 0 {
      LimitFitsSize(k - 1);
      Pow2Add(8, 8 * (k - 1));
      assert Pow2(8) == 256;
    }
  }

  // The limit of the network is all ones shifted by one, and encodable, as the lemmas above ask.
  lemma LimitEncodable()
    ensures Exponent(ProofOfWorkLimit()) == 32 && ProofOfWorkLimit() == (Pow2(256) - 1) / 2
  {
    hide Exponent, Pow2;
    LimitFitsSize(32);
    LimitFitsSize(31);
    assert Pow2(256) == 2 * Pow2(255) by { Pow2Add(1, 255); PowersOfTwo(); }
    Pow2Grows(248, 255);
    PowersOfTwo();
    Pow2Grows(1, 248);
    ExponentIs(ProofOfWorkLimit(), 32);
  }

  lemma PowersOfTwo()
    ensures Pow2(0) == 1 && Pow2(1) == 2
  {
  }
}
