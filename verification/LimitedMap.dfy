/**
 `limitedmap`: a map of bounded size that drops its lowest value to make room. A second
 index, sorted by value, is kept beside the map.
 */
module LimitedMap {
  import opened Options

  // The multimap from values to keys: entries in the order of their values.
  type Reverse<K> = seq<(int, K)>

  ghost predicate Ascending<K>(r: Reverse<K>) {
    forall i, j | 0 <= i < j < |r| :: r[i].0 <= r[j].0
  }

  ghost predicate Entries<K>(r: Reverse<K>, m: map<K, int>) {
    forall i | 0 <= i < |r| :: r[i].1 in m && m[r[i].1] == r[i].0
  }

  ghost predicate Distinct<K>(r: Reverse<K>) {
    forall i, j | 0 <= i < j < |r| :: r[i].1 != r[j].1
  }

  ghost predicate Complete<K>(r: Reverse<K>, m: map<K, int>) {
    forall k | k in m :: (m[k], k) in r
  }

  // One entry per key of the map, under the value of that key.
  ghost predicate Mirrors<K>(r: Reverse<K>, m: map<K, int>) {
    Ascending(r) && Entries(r, m) && Distinct(r) && Complete(r, m)
  }

  function Inserted<K>(r: Reverse<K>, at: nat, v: int, k: K): Reverse<K>
    requires at <= |r|
  {
    r[..at] + [(v, k)] + r[at..]
  }

  function Erased<K>(r: Reverse<K>, at: nat): Reverse<K>
    requires at < |r|
  {
    r[..at] + r[at + 1..]
  }

  // The old entry behind a position of the changed list.
  lemma InsertedAt<K>(r: Reverse<K>, at: nat, v: int, k: K, i: nat)
    requires at <= |r| && i <= |r|
    ensures |Inserted(r, at, v, k)| == |r| + 1
    ensures Inserted(r, at, v, k)[i] == if i < at then r[i] else if i == at then (v, k) else r[i - 1]
  {
  }

  lemma ErasedAt<K>(r: Reverse<K>, at: nat, i: nat)
    requires at < |r| && i < |r| - 1
    ensures |Erased(r, at)| == |r| - 1 && Erased(r, at)[i] == if i < at then r[i] else r[i + 1]
  {
  }

  lemma InsertMirrors<K>(r: Reverse<K>, m: map<K, int>, at: nat, v: int, k: K)
    requires Mirrors(r, m) && k !in m && at <= |r|
    requires (forall i | 0 <= i < at :: r[i].0 <= v) && (forall i | at <= i < |r| :: v < r[i].0)
    ensures Mirrors(Inserted(r, at, v, k), m[k := v])
  {
    InsertComplete(r, m, at, v, k);
    hide Complete, Inserted;
    var s := Inserted(r, at, v, k);
    InsertedAt(r, at, v, k, 0);
    forall i, j | 0 <= i < j < |s| ensures s[i].0 <= s[j].0 && s[i].1 != s[j].1 {
      InsertedAt(r, at, v, k, i);
      InsertedAt(r, at, v, k, j);
    }
    forall i | 0 <= i < |s| ensures s[i].1 in m[k := v] && m[k := v][s[i].1] == s[i].0 {
      InsertedAt(r, at, v, k, i);
    }
  }

  lemma InsertComplete<K>(r: Reverse<K>, m: map<K, int>, at: nat, v: int, k: K)
    requires Complete(r, m) && k !in m && at <= |r|
    ensures Complete(Inserted(r, at, v, k), m[k := v])
  {
    var s, n := Inserted(r, at, v, k), m[k := v];
    assert s[at] == (v, k);
    forall x | x in n ensures (n[x], x) in s {
      if x != k {
        var i :| 0 <= i < |r| && r[i] == (m[x], x);
        assert s[if i < at then i else i + 1] == r[i];
      }
    }
  }

  lemma EraseMirrors<K>(r: Reverse<K>, m: map<K, int>, at: nat)
    requires Mirrors(r, m) && at < |r|
    ensures Mirrors(Erased(r, at), m - {r[at].1})
  {
    EraseComplete(r, m, at);
    var s, n := Erased(r, at), m - {r[at].1};
    assert |s| == |r| - 1;
    hide Complete, Erased;
    forall i, j | 0 <= i < j < |s| ensures s[i].0 <= s[j].0 && s[i].1 != s[j].1 {
      ErasedAt(r, at, i);
      ErasedAt(r, at, j);
    }
    forall i | 0 <= i < |s| ensures s[i].1 in n && n[s[i].1] == s[i].0 {
      ErasedAt(r, at, i);
    }
  }

  lemma EraseComplete<K>(r: Reverse<K>, m: map<K, int>, at: nat)
    requires Complete(r, m) && at < |r|
    ensures Complete(Erased(r, at), m - {r[at].1})
  {
    var s, n := Erased(r, at), m - {r[at].1};
    forall x | x in n ensures (n[x], x) in s {
      var i :| 0 <= i < |r| && r[i] == (m[x], x);
      assert s[if i < at then i else i - 1] == r[i];
    }
  }

  lemma MirrorFirst<K>(r: Reverse<K>, m: map<K, int>)
    requires Mirrors(r, m) && m != map[]
    ensures |r| > 0 && r[0].1 in m && forall k | k in m :: m[r[0].1] <= m[k]
  {
    forall k | k in m ensures |r| > 0 && r[0].0 <= m[k] {
      var i :| 0 <= i < |r| && r[i] == (m[k], k);
    }
  }

  // ---------- runs of insertions ----------

  // A key and value to insert, and the key that makes room for them.
  datatype Insertion<K> = Insertion(k: K, v: int, evicted: Option<K>)

  // A key that is present is left alone. At the limit a least value among those stored goes.
  ghost predicate Inserts<K>(limit: nat, before: map<K, int>, x: Insertion<K>, after: map<K, int>) {
    && (x.evicted.Some? <==> x.k !in before && limit > 0 && |before| + 1 == limit)
    && match x.evicted {
      case None => after == if x.k in before then before else before[x.k := x.v]
      case Some(e) =>
        && e in before && (forall y | y in before :: before[e] <= before[y])
        && after == (before - {e})[x.k := x.v]
    }
  }

  // What is stored before each of a sequence of insertions into the empty map, and at its end.
  ghost predicate Run<K>(limit: nat, states: seq<map<K, int>>, xs: seq<Insertion<K>>) {
    && |states| == |xs| + 1 && states[0] == map[]
    && forall i | 0 <= i < |xs| :: InsertsAt(limit, states, xs, i)
  }

  ghost predicate InsertsAt<K>(limit: nat, states: seq<map<K, int>>, xs: seq<Insertion<K>>, i: nat)
    requires i < |xs| && |states| == |xs| + 1
  {
    Inserts(limit, states[i], xs[i], states[i + 1])
  }

  // Insertion `i` drops a value.
  ghost predicate Drops<K>(states: seq<map<K, int>>, xs: seq<Insertion<K>>, i: nat) {
    i < |xs| && i < |states| && xs[i].evicted.Some? && xs[i].evicted.value in states[i]
  }

  ghost function Dropped<K>(states: seq<map<K, int>>, xs: seq<Insertion<K>>, i: nat): int
    requires Drops(states, xs, i)
  {
    states[i][xs[i].evicted.value]
  }

  // Of all values inserted so far those stored are the highest: none of them is below a value that was dropped.
  ghost predicate Highest<K>(states: seq<map<K, int>>, xs: seq<Insertion<K>>, n: nat)
    requires n < |states|
  {
    forall i, y | 0 <= i < n && Drops(states, xs, i) && y in states[n] :: Dropped(states, xs, i) <= states[n][y]
  }

  // Once a value was dropped the map stays full.
  lemma {:induction false} StaysFull<K>(limit: nat, states: seq<map<K, int>>, xs: seq<Insertion<K>>, i: nat, n: nat)
    requires Run(limit, states, xs) && i < n <= |xs| && Drops(states, xs, i)
    ensures limit > 0 && |states[n]| + 1 == limit
  {
    var before, x, after := states[n - 1], xs[n - 1], states[n];
    assert InsertsAt(limit, states, xs, n - 1);
    if i < n - 1 {
      StaysFull(limit, states, xs, i, n - 1);
    }
    if x.evicted.Some? {
      assert after.Keys == before.Keys - {x.evicted.value} + {x.k};
    }
  }

  // One more insertion: what is stored stays highest if and only if no value above the new one is dropped.
  lemma HighestStep<K>(limit: nat, states: seq<map<K, int>>, xs: seq<Insertion<K>>, n: nat)
    requires Run(limit, states, xs) && n < |xs| && Highest(states, xs, n)
    ensures Highest(states, xs, n + 1) <==> (Drops(states, xs, n) ==> Dropped(states, xs, n) <= xs[n].v)
  {
    var before, x, after := states[n], xs[n], states[n + 1];
    assert InsertsAt(limit, states, xs, n);
    assert x.k !in before ==> x.k in after && after[x.k] == x.v;
    if x.evicted.None? && x.k !in before {
      forall i | 0 <= i < n ensures !Drops(states, xs, i) {
        if Drops(states, xs, i) {
          StaysFull(limit, states, xs, i, n);
        }
      }
    }
  }

  // What the documentation promises of a run of insertions, from its start to its end, holds if and only if none of
  // them dropped a value above the one it stored.
  lemma HighestIff<K>(limit: nat, states: seq<map<K, int>>, xs: seq<Insertion<K>>)
    requires Run(limit, states, xs)
    ensures (forall n | 0 <= n <= |xs| :: Highest(states, xs, n))
       <==> forall i | 0 <= i < |xs| && Drops(states, xs, i) :: Dropped(states, xs, i) <= xs[i].v
  {
    hide Run, Highest;
    RunLength(limit, states, xs);
    if forall i | 0 <= i < |xs| && Drops(states, xs, i) :: Dropped(states, xs, i) <= xs[i].v {
      forall n | 0 <= n <= |xs| ensures Highest(states, xs, n) {
        HighestUpTo(limit, states, xs, n);
      }
    }
    if forall n | 0 <= n <= |xs| :: Highest(states, xs, n) {
      forall i | 0 <= i < |xs| && Drops(states, xs, i) ensures Dropped(states, xs, i) <= xs[i].v {
        HighestStep(limit, states, xs, i);
        assert Highest(states, xs, i + 1);
      }
    }
  }

  lemma RunLength<K>(limit: nat, states: seq<map<K, int>>, xs: seq<Insertion<K>>)
    requires Run(limit, states, xs)
    ensures |states| == |xs| + 1
  {
  }

  lemma {:induction false} HighestUpTo<K>(limit: nat, states: seq<map<K, int>>, xs: seq<Insertion<K>>, n: nat)
    requires Run(limit, states, xs) && n <= |xs|
    requires forall i | 0 <= i < |xs| && Drops(states, xs, i) :: Dropped(states, xs, i) <= xs[i].v
    ensures Highest(states, xs, n)
  {
    if n > 0 {
      HighestUpTo(limit, states, xs, n - 1);
      HighestStep(limit, states, xs, n - 1);
    }
  }

  // ---------- the container ----------

  class Limited<K(==)> {
    var entries: map<K, int>
    var rmap: Reverse<K>
    var nMaxSize: nat

    // 0 means no limit. The size stays below the limit.
    ghost predicate Valid()
      reads this
    {
      Mirrors(rmap, entries) && nMaxSize != 1 && (nMaxSize > 0 ==> |entries| < nMaxSize)
    }

    constructor (nMaxSizeIn: nat)
      requires nMaxSizeIn != 1
      ensures Valid() && entries == map[] && nMaxSize == nMaxSizeIn
    {
      entries, rmap, nMaxSize := map[], [], nMaxSizeIn;
    }

    // Where a multimap puts a new entry: behind those with the same value.
    method UpperBound(v: int) returns (at: nat)
      requires Ascending(rmap)
      ensures at <= |rmap| && (forall i | 0 <= i < at :: rmap[i].0 <= v)
              && (forall i | at <= i < |rmap| :: v < rmap[i].0)
    {
      at := 0;
      while at < |rmap| && rmap[at].0 <= v
        invariant at <= |rmap| && forall i | 0 <= i < at :: rmap[i].0 <= v
      {
        at := at + 1;
      }
    }

    method Add(k: K, v: int)
      requires Mirrors(rmap, entries) && k !in entries
      modifies this`rmap, this`entries
      ensures Mirrors(rmap, entries) && entries == old(entries)[k := v]
    {
      hide Mirrors;
      assert Ascending(rmap) by { Sorted(rmap, entries); }
      var at := UpperBound(v);
      InsertMirrors(rmap, entries, at, v, k);
      entries := entries[k := v];
      rmap := Inserted(rmap, at, v, k);
    }

    static lemma Sorted(r: Reverse<K>, m: map<K, int>)
      requires Mirrors(r, m)
      ensures Ascending(r)
    {
    }

    // A key that is present is left alone. At the limit a least value among those already stored makes room, so
    // the new value may be lower than the one dropped: exactly then a stored value is below it.
    method Insert(k: K, v: int) returns (evicted: Option<K>)
      requires Valid()
      modifies this`rmap, this`entries
      ensures Valid() && Inserts(nMaxSize, old(entries), Insertion(k, v, evicted), entries)
      ensures evicted.Some? ==>
                ((forall x | x in entries :: old(entries)[evicted.value] <= entries[x])
                 <==> old(entries)[evicted.value] <= v)
    {
      hide Mirrors;
      if k in entries {
        return None;
      }
      if nMaxSize > 0 && |entries| + 1 == nMaxSize {
        MirrorFirst(rmap, entries);
        EraseMirrors(rmap, entries, 0);
        evicted := Some(rmap[0].1);
        entries := entries - {rmap[0].1};
        rmap := Erased(rmap, 0);
      } else {
        evicted := None;
      }
      Add(k, v);
      assert k in entries && entries[k] == v;
    }

    // The entry of a present key, among those with its value: it is always found.
    method Locate(k: K) returns (at: nat)
      requires Valid() && k in entries
      ensures at < |rmap| && rmap[at] == (entries[k], k)
    {
      var v := entries[k];
      ghost var i :| 0 <= i < |rmap| && rmap[i] == (v, k);
      at := 0;
      while at < |rmap| && rmap[at].0 < v
        invariant at <= i
      {
        at := at + 1;
      }
      while at < |rmap| && rmap[at].0 == v
        invariant at <= i
      {
        if rmap[at].1 == k {
          return;
        }
        at := at + 1;
      }
      assert false;
    }

    method Erase(k: K)
      requires Valid()
      modifies this`rmap, this`entries
      ensures Valid() && entries == old(entries) - {k}
    {
      hide Mirrors;
      if k !in entries {
        return;
      }
      var at := Locate(k);
      EraseMirrors(rmap, entries, at);
      rmap := Erased(rmap, at);
      entries := entries - {k};
    }

    method Update(k: K, v: int)
      requires Valid()
      modifies this`rmap, this`entries
      ensures Valid() && entries == if k in old(entries) then old(entries)[k := v] else old(entries)
    {
      hide Mirrors;
      if k !in entries {
        return;
      }
      var at := Locate(k);
      EraseMirrors(rmap, entries, at);
      rmap := Erased(rmap, at);
      entries := entries - {k};
      Add(k, v);
      assert entries == old(entries)[k := v];
      assert entries.Keys == old(entries).Keys;
    }
  }

  // "Only the elements with the highest value" is not what remains: at limit 3, after the values 5 and 6, the
  // value 1 displaces the 5.
  method LowValueDisplacesHigh() returns (l: Limited<nat>)
    ensures fresh(l) && l.Valid() && l.nMaxSize == 3 && l.entries == map[2 := 6, 3 := 1]
  {
    hide Mirrors;
    l := new Limited(3);
    var e := l.Insert(1, 5);
    assert l.entries == map[1 := 5];
    e := l.Insert(2, 6);
    assert l.entries == map[1 := 5, 2 := 6];
    e := l.Insert(3, 1);
    assert e == Some(1);
  }
}
