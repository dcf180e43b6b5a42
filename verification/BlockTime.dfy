/**
 Block timestamps: the median time past, the rule that a block must be later than
 it, and the time a miner puts into a new block.
 */
module BlockTime {
  import opened Difficulty

  const MEDIAN_TIME_SPAN: nat := 11
  const TIME_MODULUS: nat := 0x1_0000_0000

  // ---------- order statistics ----------

  // How many elements are below m.
  ghost function Below(s: seq<int>, m: int): (n: nat)
    ensures n <= |s|
  {
    if s == [] then 0 else Below(s[..|s| - 1], m) + if s[|s| - 1] < m then 1 else 0
  }

  // The upper median: at most half of the elements are below it, and more than half are not above it.
  ghost predicate IsMedian(s: seq<int>, m: int) {
    m in s && Below(s, m) <= |s| / 2 < Below(s, m + 1)
  }

  lemma {:induction false} BelowGrows(s: seq<int>, a: int, b: int)
    requires a <= b
    ensures Below(s, a) <= Below(s, b)
  {
    if s != [] {
      BelowGrows(s[..|s| - 1], a, b);
    }
  }

  lemma {:induction false} BelowDropsFirst(s: seq<int>, m: int)
    requires s != []
    ensures Below(s, m) == Below(s[1..], m) + if s[0] < m then 1 else 0
  {
    if |s| == 1 {
      assert s[1..] == [] && s[..0] == [];
    } else {
      BelowDropsFirst(s[..|s| - 1], m);
      assert s[..|s| - 1][1..] == s[1..][..|s| - 2];
    }
  }

  lemma MedianUnique(s: seq<int>, a: int, b: int)
    requires IsMedian(s, a) && IsMedian(s, b)
    ensures a == b
  {
    if a < b {
      BelowGrows(s, a + 1, b);
    } else if b < a {
      BelowGrows(s, b + 1, a);
    }
  }

  ghost predicate Sorted(s: seq<int>) {
    forall i, j | 0 <= i < j < |s| :: s[i] <= s[j]
  }

  // The same elements, each as often.
  ghost predicate SameElements(s: seq<int>, t: seq<int>) {
    |s| == |t| && (forall x :: x in s <==> x in t) && forall m :: Below(s, m) == Below(t, m)
  }

  // The position of an element in sorted order bounds how many are below it.
  lemma {:induction false} SortedBelow(s: seq<int>, k: nat, m: int)
    requires Sorted(s) && k < |s|
    ensures s[k] >= m ==> Below(s, m) <= k
    ensures s[k] < m ==> Below(s, m) > k
  {
    var last := |s| - 1;
    if k < last {
      SortedBelow(s[..last], k, m);
    } else if s[k] < m && k > 0 {
      SortedBelow(s[..last], k - 1, m);
    }
  }

  lemma SortedMedian(window: seq<int>, s: seq<int>)
    requires s != [] && Sorted(s) && SameElements(s, window)
    ensures IsMedian(window, s[|s| / 2])
  {
    var k := |s| / 2;
    SortedBelow(s, k, s[k]);
    SortedBelow(s, k, s[k] + 1);
  }

  // Put x behind the elements that are not above it.
  function Inserted(s: seq<int>, x: int): (r: seq<int>)
    requires Sorted(s)
    ensures Sorted(r) && |r| == |s| + 1 && (forall y :: y in r <==> y in s || y == x)
  {
    if s == [] || s[|s| - 1] <= x then s + [x]
    else
      var front := Inserted(s[..|s| - 1], x);
      assert forall i | 0 <= i < |front| :: front[i] in front && front[i] <= s[|s| - 1];
      front + [s[|s| - 1]]
  }

  lemma {:induction false} InsertedBelow(s: seq<int>, x: int, m: int)
    requires Sorted(s)
    ensures Below(Inserted(s, x), m) == Below(s, m) + if x < m then 1 else 0
  {
    hide Sorted;
    var r := Inserted(s, x);
    if s == [] || s[|s| - 1] <= x {
      assert r[..|s|] == s;
    } else {
      SortedPrefix(s);
      InsertedBelow(s[..|s| - 1], x, m);
      assert r[..|s|] == Inserted(s[..|s| - 1], x);
    }
  }

  lemma SortedPrefix(s: seq<int>)
    requires Sorted(s) && s != []
    ensures Sorted(s[..|s| - 1])
  {
  }

  // `std::sort`.
  function Sort(s: seq<int>): (r: seq<int>)
    ensures Sorted(r) && SameElements(r, s)
  {
    if s == [] then []
    else
      var rest := Sort(s[..|s| - 1]);
      OneMoreElement(s, rest);
      Inserted(rest, s[|s| - 1])
  }

  lemma OneMoreElement(s: seq<int>, rest: seq<int>)
    requires s != [] && Sorted(rest) && SameElements(rest, s[..|s| - 1])
    ensures SameElements(Inserted(rest, s[|s| - 1]), s)
  {
    hide Sorted, Inserted;
    forall m ensures Below(Inserted(rest, s[|s| - 1]), m) == Below(s, m) {
      InsertedBelow(rest, s[|s| - 1], m);
    }
    assert s == s[..|s| - 1] + [s[|s| - 1]];
  }

  // ---------- median time past ----------

  // The times of the last eleven blocks, or of all when there are fewer.
  function Window(chain: seq<Header>): (w: seq<int>)
    ensures |w| == if |chain| < MEDIAN_TIME_SPAN then |chain| else MEDIAN_TIME_SPAN
  {
    var n := if |chain| < MEDIAN_TIME_SPAN then |chain| else MEDIAN_TIME_SPAN;
    seq(n, i requires 0 <= i < n => chain[|chain| - n + i].nTime)
  }

  // Collect the window from its end, sort it and take the middle element.
  method GetMedianTimePast(chain: seq<Header>) returns (median: nat)
    requires chain != []
    ensures IsMedian(Window(chain), median)
  {
    hide IsMedian, Sorted, SameElements, Below, Sort;
    ghost var window := Window(chain);
    var pmedian: seq<nat> := [];
    var pindex := |chain| - 1;
    var i := 0;
    while i < MEDIAN_TIME_SPAN && pindex >= 0
      invariant 0 <= i <= |window| && pindex == |chain| - 1 - i
      invariant pmedian == window[|window| - i..]
    {
      assert window[|window| - i - 1] == chain[pindex].nTime;
      pmedian := [chain[pindex].nTime] + pmedian;
      i, pindex := i + 1, pindex - 1;
    }
    assert pmedian == window;
    median := Middle(pmedian);
  }

  method Middle(window: seq<nat>) returns (median: nat)
    requires window != []
    ensures IsMedian(window, median)
  {
    var sorted := Sort(window);
    SortedMedian(window, sorted);
    assert sorted[|sorted| / 2] in window;
    return sorted[|sorted| / 2];
  }

  // The timestamp rule of `AcceptBlock`.
  ghost predicate TimeRule(chain: seq<Header>, nTime: nat) {
    forall m | IsMedian(Window(chain), m) :: nTime > m
  }

  ghost predicate Timely(chain: seq<Header>) {
    forall k | 1 <= k < |chain| :: TimeRule(chain[..k], chain[k].nTime)
  }

  // One more block that obeys the rule does not lower the median, full window or not.
  lemma MedianStep(chain: seq<Header>, h: Header, m: int, next: int)
    requires IsMedian(Window(chain), m) && h.nTime > m && IsMedian(Window(chain + [h]), next)
    ensures m <= next
  {
    var w, v := Window(chain), Window(chain + [h]);
    var kept := if |chain| < MEDIAN_TIME_SPAN then w else w[1..];
    assert v == kept + [h.nTime as int];
    assert v[..|v| - 1] == kept;
    if |chain| >= MEDIAN_TIME_SPAN {
      BelowDropsFirst(w, m);
    }
    assert Below(v, m) <= Below(w, m);
    if next < m {
      BelowGrows(v, next + 1, m);
    }
  }

  // Along every chain that obeys the rule the median time past never decreases.
  lemma {:induction false} MedianNeverDecreases(chain: seq<Header>, i: nat, j: nat, a: int, b: int)
    requires Timely(chain) && 0 < i <= j <= |chain|
    requires IsMedian(Window(chain[..i]), a) && IsMedian(Window(chain[..j]), b)
    ensures a <= b
    decreases j
  {
    hide Window, IsMedian, Below;
    if i == j {
      MedianUnique(Window(chain[..i]), a, b);
    } else {
      var c := MedianExists(Window(chain[..j - 1]));
      MedianNeverDecreases(chain, i, j - 1, a, c);
      assert TimeRule(chain[..j - 1], chain[j - 1].nTime);
      assert chain[..j] == chain[..j - 1] + [chain[j - 1]];
      MedianStep(chain[..j - 1], chain[j - 1], c, b);
    }
  }

  lemma MedianExists(window: seq<int>) returns (m: int)
    requires window != []
    ensures IsMedian(window, m)
  {
    var s := Sort(window);
    SortedMedian(window, s);
    m := s[|s| / 2];
  }

  // Whether `AcceptBlock` takes a header on top of a chain, as far as target and time go.
  method CheckHeader(chain: seq<Header>, h: Header, testNet: bool, limit: nat) returns (ok: bool)
    requires chain != []
    ensures ok <==> h.nBits == NextBits(chain, h.nTime, testNet, limit) && TimeRule(chain, h.nTime)
  {
    hide NextBits;
    var bits := GetNextWorkRequired(chain, h.nTime, testNet, limit);
    if h.nBits != bits {
      return false;
    }
    var median := GetMedianTimePast(chain);
    MedianIsRule(chain, median, h.nTime);
    return h.nTime > median;
  }

  lemma MedianIsRule(chain: seq<Header>, m: int, nTime: nat)
    requires IsMedian(Window(chain), m)
    ensures TimeRule(chain, nTime) <==> nTime > m
  {
    if nTime > m {
      forall x | IsMedian(Window(chain), x) ensures nTime > x {
        MedianUnique(Window(chain), m, x);
      }
    }
  }

  // Put the current time into a block under construction, but not before the rule allows it. The time field
  // has 32 bits. The block then passes both checks exactly when the time did not wrap around to an early one.
  method UpdateTime(block: Header, chain: seq<Header>, adjustedTime: int, testNet: bool, limit: nat) returns (r: Header)
    requires chain != []
    ensures r.nTime < TIME_MODULUS
    ensures r.nBits == if testNet then NextBits(chain, r.nTime, testNet, limit) else block.nBits
    ensures block.nBits == NextBits(chain, block.nTime, testNet, limit) ==>
            r.nBits == NextBits(chain, r.nTime, testNet, limit)
    ensures forall m | IsMedian(Window(chain), m) ::
              && r.nTime == (if adjustedTime > m then adjustedTime else m + 1) % TIME_MODULUS
              && (TimeRule(chain, r.nTime) <==> r.nTime > m)
              && (adjustedTime < TIME_MODULUS ==> (TimeRule(chain, r.nTime) <==> m + 1 < TIME_MODULUS))
  {
    hide Ordinary, Retarget, Window, IsMedian;
    var median := GetMedianTimePast(chain);
    var time := if adjustedTime > median + 1 then adjustedTime else median + 1;
    r := block.(nTime := time % TIME_MODULUS);
    if testNet {
      var bits := GetNextWorkRequired(chain, r.nTime, testNet, limit);
      r := r.(nBits := bits);
    }
    forall m | IsMedian(Window(chain), m) ensures m == median && (TimeRule(chain, r.nTime) <==> r.nTime > median) {
      MedianUnique(Window(chain), m, median);
      MedianIsRule(chain, median, r.nTime);
    }
  }

  // With the largest time in the last block no time is left: the new one wraps around to zero and is too early.
  method TimeRunsOut() returns (r: Header)
    ensures r.nTime == 0 && !TimeRule([Header(0, TIME_MODULUS - 1)], r.nTime)
  {
    var last := Header(0, TIME_MODULUS - 1);
    r := UpdateTime(Header(0, 0), [last], 0, false, 0);
    assert Window([last]) == [TIME_MODULUS - 1];
    LoneMedian(TIME_MODULUS - 1);
  }

  lemma LoneMedian(m: int)
    ensures IsMedian([m], m)
  {
    assert [m][..0] == [];
  }
}
