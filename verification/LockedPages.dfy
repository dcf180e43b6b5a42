/**
 `LockedPageManagerBase`: memory locks of the operating system do not stack, so a
 count per page decides when a page is locked and unlocked. A page is named by its
 number: its address divided by the page size.
 */
module LockedPages {
  import opened Arithmetic

  const ADDRESS_SPACE: nat := 0x1_0000_0000_0000_0000

  datatype Range = Range(p: nat, size: nat)
  {
    function First(pageSize: nat): nat
      requires pageSize > 0
    {
      Quot(p, pageSize)
    }

    function Last(pageSize: nat): nat
      requires pageSize > 0 && size > 0
    {
      Quot(p + size - 1, pageSize)
    }

    // Some byte of the range lies on the page.
    ghost predicate Touches(pageSize: nat, page: nat)
      requires pageSize > 0
    {
      exists a :: p <= a < p + size && Quot(a, pageSize) == page
    }

    // The range ends before the last page of the address space.
    ghost predicate Fits(pageSize: nat)
      requires pageSize > 0
    {
      size > 0 ==> Last(pageSize) + 1 < Pages(pageSize)
    }
  }

  // How many pages there are; the page after the last one is the first.
  function Pages(pageSize: nat): nat
    requires pageSize > 0
  {
    Quot(ADDRESS_SPACE, pageSize)
  }

  function NextPage(page: nat, pageSize: nat): nat
    requires pageSize > 0
  {
    if page + 1 == Pages(pageSize) then 0 else page + 1
  }

  // The page that a loop over pages has come to after `n` rounds.
  function PageAfter(first: nat, pageSize: nat, n: nat): nat
    requires pageSize > 0
  {
    if n == 0 then first else NextPage(PageAfter(first, pageSize, n - 1), pageSize)
  }

  // The loop over the pages from `first` to `last` ends if and only if `last` is not the last page there is.
  lemma LoopEndsIff(first: nat, last: nat, pageSize: nat)
    requires pageSize > 0 && first <= last < Pages(pageSize)
    ensures (exists n: nat :: PageAfter(first, pageSize, n) > last) <==> last + 1 < Pages(pageSize)
  {
    hide Quot;
    if last + 1 < Pages(pageSize) {
      StepsUp(first, last, pageSize, last + 1 - first);
      assert PageAfter(first, pageSize, last + 1 - first) > last;
    } else {
      forall n: nat ensures PageAfter(first, pageSize, n) <= last {
        StaysWithin(first, last, pageSize, n);
      }
    }
  }

  lemma {:induction false} StepsUp(first: nat, last: nat, pageSize: nat, n: nat)
    requires pageSize > 0 && first <= last && last + 1 < Pages(pageSize) && first + n <= last + 1
    ensures PageAfter(first, pageSize, n) == first + n
  {
    hide Quot;
    if n > 0 {
      StepsUp(first, last, pageSize, n - 1);
    }
  }

  lemma {:induction false} StaysWithin(first: nat, last: nat, pageSize: nat, n: nat)
    requires pageSize > 0 && first <= last && last + 1 == Pages(pageSize)
    ensures PageAfter(first, pageSize, n) <= last
  {
    hide Quot;
    if n > 0 {
      StaysWithin(first, last, pageSize, n - 1);
    }
  }

  // Addresses are 64 bits wide; within the range nothing wraps around.
  lemma AddressFits(r: Range, pageSize: nat)
    requires pageSize > 0 && r.size > 0 && r.Fits(pageSize)
    ensures (r.p + r.size - 1) % ADDRESS_SPACE == r.p + r.size - 1
  {
    hide Quot, Times;
    var a := r.p + r.size - 1;
    if a >= ADDRESS_SPACE {
      QuotGrows(ADDRESS_SPACE, a, pageSize);
    }
  }

  // The pages that hold some byte of a range are those from its first to its last.
  lemma TouchesIff(r: Range, pageSize: nat, page: nat)
    requires pageSize > 0
    ensures r.Touches(pageSize, page) <==> r.size > 0 && r.First(pageSize) <= page <= r.Last(pageSize)
  {
    hide Quot, Times;
    if a :| r.p <= a < r.p + r.size && Quot(a, pageSize) == page {
      QuotGrows(r.p, a, pageSize);
      QuotGrows(a, r.p + r.size - 1, pageSize);
    }
    if r.size > 0 && r.First(pageSize) <= page <= r.Last(pageSize) {
      var base := Times(page, pageSize);
      QuotTimes(page, pageSize);
      QuotIff(r.p + r.size - 1, pageSize, page);
      if page == r.First(pageSize) {
        assert Quot(r.p, pageSize) == page;
      } else {
        QuotIff(r.p, pageSize, page);
        assert r.p <= base < r.p + r.size && Quot(base, pageSize) == page;
      }
    }
  }

  lemma QuotGrows(a: nat, b: nat, d: nat)
    requires a <= b && d > 0
    ensures Quot(a, d) <= Quot(b, d)
  {
    hide Quot, Times;
    QuotIff(a, d, Quot(a, d));
    QuotIff(b, d, Quot(a, d));
  }

  // How many of the ranges touch a page.
  ghost function Touching(rs: seq<Range>, pageSize: nat, page: nat): nat
    requires pageSize > 0
  {
    if rs == [] then 0
    else Touching(rs[..|rs| - 1], pageSize, page) + if rs[|rs| - 1].Touches(pageSize, page) then 1 else 0
  }

  ghost function Without(rs: seq<Range>, i: nat): seq<Range>
    requires i < |rs|
  {
    rs[..i] + rs[i + 1..]
  }

  lemma {:induction false} TouchingWithout(rs: seq<Range>, i: nat, pageSize: nat, page: nat)
    requires i < |rs| && pageSize > 0
    ensures Touching(rs, pageSize, page)
         == Touching(Without(rs, i), pageSize, page) + if rs[i].Touches(pageSize, page) then 1 else 0
  {
    var last := |rs| - 1;
    if i < last {
      TouchingWithout(rs[..last], i, pageSize, page);
      assert Without(rs, i)[..last - 1] == Without(rs[..last], i);
      assert Without(rs, i)[last - 1] == rs[last];
    } else {
      assert Without(rs, i) == rs[..last];
    }
  }

  ghost function Held(h: map<nat, nat>, page: nat): nat {
    if page in h then h[page] else 0
  }

  class LockedPageManager {
    const pageSize: nat
    var histogram: map<nat, nat>
    // The pages that the operating system keeps locked.
    var locked: set<nat>
    // The ranges locked and not yet unlocked.
    ghost var outstanding: seq<Range>

    // A page is locked exactly when it has a count.
    ghost predicate Consistent()
      reads this
    {
      pageSize > 0 && locked == histogram.Keys && forall page | page in histogram :: histogram[page] > 0
    }

    // Every count is the number of outstanding ranges that touch the page.
    ghost predicate Valid()
      reads this
    {
      Consistent() && forall page: nat :: Held(histogram, page) == Touching(outstanding, pageSize, page)
    }

    constructor (size: nat)
      requires size > 0
      ensures Valid() && pageSize == size && outstanding == []
    {
      pageSize, histogram, locked, outstanding := size, map[], {}, [];
    }

    method LockRange(p: nat, size: nat)
      requires Valid() && Range(p, size).Fits(pageSize)
      modifies this
      ensures Valid() && outstanding == old(outstanding) + [Range(p, size)]
    {
      hide Quot, Times;
      ghost var range := Range(p, size);
      forall page: nat
        ensures range.Touches(pageSize, page) <==> size > 0 && range.First(pageSize) <= page <= range.Last(pageSize)
      {
        TouchesIff(range, pageSize, page);
      }
      outstanding := outstanding + [range];
      assert outstanding[..|outstanding| - 1] == old(outstanding);
      if size == 0 {
        return;
      }
      AddressFits(range, pageSize);
      var page, end := Quot(p, pageSize), Quot((p + size - 1) % ADDRESS_SPACE, pageSize);
      QuotGrows(p, p + size - 1, pageSize);
      while page <= end
        invariant range.First(pageSize) <= page <= end + 1 && Consistent() && outstanding == old(outstanding) + [range]
        invariant forall q: nat ::
                    Held(histogram, q) == old(Held(histogram, q)) + if range.First(pageSize) <= q < page then 1 else 0
      {
        if page !in histogram {
          locked := locked + {page};
          histogram := histogram[page := 1];
        } else {
          histogram := histogram[page := histogram[page] + 1];
        }
        page := NextPage(page, pageSize);
      }
    }

    // The inverse, for a range that was locked; no count is ever missing.
    method UnlockRange(p: nat, size: nat, ghost i: nat)
      requires Valid() && Range(p, size).Fits(pageSize) && i < |outstanding| && outstanding[i] == Range(p, size)
      modifies this
      ensures Valid() && outstanding == Without(old(outstanding), i)
    {
      hide Quot, Times, Touching, Without;
      ghost var range := Range(p, size);
      CountsWithout(i);
      outstanding := Without(outstanding, i);
      if size == 0 {
        return;
      }
      AddressFits(range, pageSize);
      var page, end := Quot(p, pageSize), Quot((p + size - 1) % ADDRESS_SPACE, pageSize);
      QuotGrows(p, p + size - 1, pageSize);
      while page <= end
        invariant range.First(pageSize) <= page <= end + 1 && Consistent()
                  && outstanding == Without(old(outstanding), i)
        invariant forall q: nat ::
                    Held(histogram, q) == Touching(outstanding, pageSize, q) + if page <= q <= end then 1 else 0
      {
        assert Held(histogram, page) > 0;
        histogram := histogram[page := histogram[page] - 1];
        if histogram[page] == 0 {
          locked := locked - {page};
          histogram := histogram - {page};
        }
        page := NextPage(page, pageSize);
      }
    }

    // Without the range, the counts of its pages are one too high.
    lemma CountsWithout(i: nat)
      requires Valid() && i < |outstanding|
      ensures forall page: nat ::
                Held(histogram, page) == Touching(Without(outstanding, i), pageSize, page)
                + var r := outstanding[i]; if r.size > 0 && r.First(pageSize) <= page <= r.Last(pageSize) then 1 else 0
    {
      hide Quot, Times, Touching, Without;
      forall page: nat
        ensures Held(histogram, page) == Touching(Without(outstanding, i), pageSize, page)
                + var r := outstanding[i]; if r.size > 0 && r.First(pageSize) <= page <= r.Last(pageSize) then 1 else 0
      {
        TouchesIff(outstanding[i], pageSize, page);
        TouchingWithout(outstanding, i, pageSize, page);
      }
    }

    // What the counts are for: a page is locked exactly while an outstanding range touches it.
    lemma LockedIff(page: nat)
      requires Valid()
      ensures page in locked <==> exists i :: 0 <= i < |outstanding| && outstanding[i].Touches(pageSize, page)
    {
      assert Held(histogram, page) == Touching(outstanding, pageSize, page);
      TouchingPositive(outstanding, pageSize, page);
    }
  }

  lemma {:induction false} TouchingPositive(rs: seq<Range>, pageSize: nat, page: nat)
    requires pageSize > 0
    ensures Touching(rs, pageSize, page) > 0 <==> exists i :: 0 <= i < |rs| && rs[i].Touches(pageSize, page)
  {
    if rs != [] {
      var last := |rs| - 1;
      TouchingPositive(rs[..last], pageSize, page);
      if i :| 0 <= i < |rs| && rs[i].Touches(pageSize, page) {
        assert i < last ==> rs[..last][i] == rs[i];
      }
      if i :| 0 <= i < last && rs[..last][i].Touches(pageSize, page) {
        assert rs[i].Touches(pageSize, page);
      }
    }
  }
}
