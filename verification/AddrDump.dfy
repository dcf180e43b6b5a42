/**
 Writing the address manager to disk and reading it back. Ids are not written:
 the untried entries come first, then the tried ones, and the "new" buckets
 refer to the former by their index. Reading rebuilds every other table.
 */
module AddrDump {
  import opened AddrTables
  import opened Ordered

  // What is written of an entry.
  datatype Stored = Stored(addr: Service, services: Services, nTime: int, source: NetAddr, nLastSuccess: int,
                           nAttempts: int)

  // The key of the bucket hashes, which stands for the hashes themselves, and the counters come first.
  datatype Dump = Dump(hashes: Hashes, nNew: int, nTried: int, nUBuckets: int, untried: seq<Stored>, tried: seq<Stored>,
                       buckets: seq<seq<int>>)

  function Save(info: AddrInfo): Stored {
    Stored(info.addr, info.services, info.nTime, info.source, info.nLastSuccess, info.nAttempts)
  }

  // An entry as read, before it is placed anywhere.
  function Load(s: Stored): AddrInfo {
    AddrInfo(s.addr, s.services, s.nTime, s.source, s.nLastSuccess, 0, s.nAttempts, 0, false, -1)
  }

  // The tried, or the untried, ones among some ids.
  ghost function Select(ids: seq<Id>, infos: Infos, tried: bool): (r: seq<Id>)
    requires forall x | x in ids :: x in infos
    ensures forall x :: x in r <==> x in ids && infos[x].fInTried == tried
  {
    if ids == [] then []
    else
      var last := ids[|ids| - 1];
      var r := Select(ids[..|ids| - 1], infos, tried);
      assert forall x :: x in ids <==> x in ids[..|ids| - 1] || x == last;
      if infos[last].fInTried == tried then r + [last] else r
  }

  // The ids of a table in ascending order; first the untried, then the tried, is the order on disk.
  ghost function Listed(t: Tables, tried: bool): (r: seq<Id>)
    ensures forall x :: x in r <==> x in t.infos && t.infos[x].fInTried == tried
  {
    Select(InOrder(t.infos.Keys), t.infos, tried)
  }

  lemma {:induction false} SelectNoRepeats(ids: seq<Id>, infos: Infos, tried: bool)
    requires (forall x | x in ids :: x in infos) && NoRepeats(ids)
    ensures NoRepeats(Select(ids, infos, tried))
  {
    if ids != [] {
      SelectNoRepeats(ids[..|ids| - 1], infos, tried);
      var r := Select(ids[..|ids| - 1], infos, tried);
      forall i | 0 <= i < |r| ensures r[i] != ids[|ids| - 1] {
        assert r[i] in ids[..|ids| - 1];
      }
    }
  }

  // Selecting from a prefix gives a prefix.
  lemma {:induction false} SelectPrefix(ids: seq<Id>, infos: Infos, tried: bool, n: nat)
    requires (forall x | x in ids :: x in infos) && n <= |ids|
    ensures forall x | x in ids[..n] :: x in infos
    ensures Select(ids[..n], infos, tried) <= Select(ids, infos, tried)
    decreases |ids| - n
  {
    if n == |ids| {
      assert ids[..n] == ids;
    } else {
      SelectPrefix(ids, infos, tried, n + 1);
      assert ids[..n + 1][..n] == ids[..n];
    }
  }

  lemma {:induction false} SizeOfSet(s: seq<Id>, all: set<Id>)
    requires NoRepeats(s) && forall x :: x in s <==> x in all
    ensures |s| == |all|
    decreases |s|
  {
    if s == [] {
      assert all == {};
    } else {
      var last := s[|s| - 1];
      forall x ensures x in s[..|s| - 1] <==> x in all - {last} {
        if x in s[..|s| - 1] {
          assert x in s;
        }
      }
      SizeOfSet(s[..|s| - 1], all - {last});
    }
  }

  lemma ListedFacts(h: Hashes, t: Tables, tried: bool)
    requires t.Consistent(h, -1, 0)
    ensures NoRepeats(Listed(t, tried)) && |Listed(t, tried)| == if tried then t.nTried else t.nNew
  {
    var ids := InOrder(t.infos.Keys);
    SelectNoRepeats(ids, t.infos, tried);
    SizeOfSet(Listed(t, tried), if tried then TriedIds(t.infos) else NewIds(t.infos));
  }

  // ---------- writing ----------

  ghost predicate SavedAs(infos: Infos, ids: seq<Id>, out: seq<Stored>) {
    |out| == |ids| && forall j | 0 <= j < |ids| :: ids[j] in infos && out[j] == Save(infos[ids[j]])
  }

  // `ix` lists the positions in `ids` of the members of `bucket`, each once.
  ghost predicate IndexedAs(ids: seq<Id>, bucket: set<Id>, ix: seq<int>) {
    && (forall i, j | 0 <= i < j < |ix| :: ix[i] != ix[j])
    && (forall n :: n in ix <==> 0 <= n < |ids| && ids[n] in bucket)
  }

  ghost predicate Encodes(t: Tables, d: Dump) {
    && d.nNew == t.nNew && d.nTried == t.nTried && d.nUBuckets == NEW_BUCKET_COUNT
    && SavedAs(t.infos, Listed(t, false), d.untried)
    && SavedAs(t.infos, Listed(t, true), d.tried)
    && |d.buckets| == |t.untried| == NEW_BUCKET_COUNT
    && forall b | 0 <= b < |d.buckets| :: IndexedAs(Listed(t, false), t.untried[b], d.buckets[b])
  }

  // The index each listed entry gets.
  ghost predicate Numbered(ids: seq<Id>, m: map<Id, int>) {
    forall j | 0 <= j < |ids| :: ids[j] in m && m[ids[j]] == j
  }

  lemma SavedPush(infos: Infos, ids: seq<Id>, out: seq<Stored>, id: Id)
    requires SavedAs(infos, ids, out) && id in infos
    ensures SavedAs(infos, ids + [id], out + [Save(infos[id])])
  {
  }

  lemma NumberedPush(ids: seq<Id>, m: map<Id, int>, id: Id)
    requires Numbered(ids, m) && id !in ids
    ensures Numbered(ids, m[id := |ids|]) && Numbered(ids + [id], m[id := |ids|])
  {
  }

  // The first loop of the writer: untried entries, and the index each of them gets.
  method WriteUntried(t: Tables, ghost h: Hashes) returns (out: seq<Stored>, mapUnkIds: map<Id, int>)
    requires t.Consistent(h, -1, 0)
    ensures SavedAs(t.infos, Listed(t, false), out) && Numbered(Listed(t, false), mapUnkIds)
  {
    hide Tables.Consistent, Select, SavedAs, Numbered, Ascending;
    ListedFacts(h, t, false);
    CountsTell(h, t);
    var ids := InOrder(t.infos.Keys);
    SelectNone(t.infos, false);
    out, mapUnkIds := [], map[];
    ghost var done: seq<Id> := [];
    var i := 0;
    assert ids[..0] == [];
    while i < |ids|
      invariant 0 <= i <= |ids| && |out| == |done| && done == Select(ids[..i], t.infos, false)
      invariant SavedAs(t.infos, done, out) && Numbered(done, mapUnkIds)
    {
      if |out| == t.nNew {
        break;
      }
      SelectStep(ids, t.infos, false, i);
      FreshInOrder(ids, i);
      NumberedPush(done, mapUnkIds, ids[i]);
      mapUnkIds := mapUnkIds[ids[i] := |out|];
      if t.infos[ids[i]].nRefCount != 0 {
        SavedPush(t.infos, done, out, ids[i]);
        out := out + [Save(t.infos[ids[i]])];
        done := done + [ids[i]];
      }
      i := i + 1;
    }
    SelectPrefix(ids, t.infos, false, i);
    assert i == |ids| ==> ids[..i] == ids;
    WholePrefix(done, Listed(t, false));
  }

  lemma WholePrefix(a: seq<Id>, b: seq<Id>)
    requires a <= b
    ensures |a| == |b| ==> a == b
  {
  }

  lemma SelectNone(infos: Infos, tried: bool)
    ensures Select([], infos, tried) == [] && SavedAs(infos, [], []) && Numbered([], map[])
  {
  }

  lemma CountsTell(h: Hashes, t: Tables)
    requires t.Consistent(h, -1, 0)
    ensures forall id | id in t.infos :: t.infos[id].nRefCount != 0 <==> !t.infos[id].fInTried
  {
    forall id | id in t.infos ensures t.infos[id].nRefCount != 0 <==> !t.infos[id].fInTried {
      CountsBounded(h, t, id);
    }
  }

  lemma SelectStep(ids: seq<Id>, infos: Infos, tried: bool, i: nat)
    requires (forall x | x in ids :: x in infos) && i < |ids|
    ensures forall x | x in ids[..i + 1] :: x in infos
    ensures forall x | x in ids[..i] :: x in infos
    ensures Select(ids[..i + 1], infos, tried)
            == Select(ids[..i], infos, tried) + if infos[ids[i]].fInTried == tried then [ids[i]] else []
  {
    assert ids[..i + 1][..i] == ids[..i];
  }

  lemma FreshInOrder(ids: seq<Id>, i: nat)
    requires Ascending(ids) && i < |ids|
    ensures ids[i] !in ids[..i]
  {
  }

  // The second loop of the writer.
  method WriteTried(t: Tables, ghost h: Hashes) returns (out: seq<Stored>)
    requires t.Consistent(h, -1, 0)
    ensures SavedAs(t.infos, Listed(t, true), out)
  {
    hide Tables.Consistent, Select, SavedAs, Ascending;
    ListedFacts(h, t, true);
    var ids := InOrder(t.infos.Keys);
    SelectNone(t.infos, true);
    out := [];
    ghost var done: seq<Id> := [];
    var i := 0;
    assert ids[..0] == [];
    while i < |ids|
      invariant 0 <= i <= |ids| && |out| == |done| && done == Select(ids[..i], t.infos, true)
      invariant SavedAs(t.infos, done, out)
    {
      if |out| == t.nTried {
        break;
      }
      SelectStep(ids, t.infos, true, i);
      if t.infos[ids[i]].fInTried {
        SavedPush(t.infos, done, out, ids[i]);
        out := out + [Save(t.infos[ids[i]])];
        done := done + [ids[i]];
      }
      i := i + 1;
    }
    SelectPrefix(ids, t.infos, true, i);
    assert i == |ids| ==> ids[..i] == ids;
    WholePrefix(done, Listed(t, true));
  }

  // The third loop of the writer, for one bucket.
  method WriteBucket(bucket: set<Id>, mapUnkIds: map<Id, int>, ghost ids: seq<Id>) returns (ix: seq<int>)
    requires NoRepeats(ids) && (forall x | x in bucket :: x in ids) && Numbered(ids, mapUnkIds)
    ensures IndexedAs(ids, bucket, ix)
  {
    var members := InOrder(bucket);
    ix := [];
    hide NoRepeats;
    for i := 0 to |members|
      invariant |ix| == i
      invariant forall j | 0 <= j < i :: 0 <= ix[j] < |ids| && ids[ix[j]] == members[j]
    {
      assert members[i] in bucket;
      ix := ix + [mapUnkIds[members[i]]];
    }
    IndexesOf(ids, bucket, members, ix);
  }

  lemma IndexesOf(ids: seq<Id>, bucket: set<Id>, members: seq<Id>, ix: seq<int>)
    requires NoRepeats(ids) && (forall x :: x in members <==> x in bucket) && Ascending(members) && |ix| == |members|
    requires forall j | 0 <= j < |ix| :: 0 <= ix[j] < |ids| && ids[ix[j]] == members[j]
    ensures IndexedAs(ids, bucket, ix)
  {
    forall n ensures n in ix <==> 0 <= n < |ids| && ids[n] in bucket {
      if n in ix {
        var j :| 0 <= j < |ix| && ix[j] == n;
        assert members[j] in bucket;
      }
      if 0 <= n < |ids| && ids[n] in bucket {
        assert ids[n] in members;
        var j :| 0 <= j < |members| && members[j] == ids[n];
        assert ix[j] == n;
      }
    }
  }

  method Serialize(t: Tables, h: Hashes) returns (d: Dump)
    requires t.Consistent(h, -1, 0)
    ensures Encodes(t, d) && d.hashes == h
  {
    hide Tables.Consistent, SavedAs, IndexedAs, Listed, Numbered;
    ListedFacts(h, t, false);
    BucketSizes(h, t, -1, 0, 0);
    var untried, mapUnkIds := WriteUntried(t, h);
    var tried := WriteTried(t, h);
    var buckets := [];
    for b := 0 to |t.untried|
      invariant |buckets| == b
      invariant forall k | 0 <= k < b :: IndexedAs(Listed(t, false), t.untried[k], buckets[k])
    {
      HeldIsKnown(h, t, -1, 0, b);
      var ix := WriteBucket(t.untried[b], mapUnkIds, Listed(t, false));
      buckets := buckets + [ix];
    }
    d := Dump(h, t.nNew, t.nTried, NEW_BUCKET_COUNT, untried, tried, buckets);
  }

  // ---------- reading ----------

  // The ids in the order on disk; reading gives entry L[j] the id j.
  ghost function DiskOrder(t: Tables): seq<Id> {
    Listed(t, false) + Listed(t, true)
  }

  lemma DiskOrderFacts(h: Hashes, t: Tables)
    requires t.Consistent(h, -1, 0)
    ensures var l := DiskOrder(t);
            && NoRepeats(l) && |l| == t.nNew + t.nTried && t.nNew >= 0 && |Listed(t, false)| == t.nNew
            && (forall j | 0 <= j < |l| :: l[j] in t.infos && (t.infos[l[j]].fInTried <==> t.nNew <= j))
            && (forall id | id in t.infos :: id in l)
  {
    hide Tables.Consistent, Listed;
    ListedFacts(h, t, false);
    ListedFacts(h, t, true);
    var l := DiskOrder(t);
    forall j | 0 <= j < |l| ensures l[j] in t.infos && (t.infos[l[j]].fInTried <==> t.nNew <= j) {
      if j < t.nNew {
        assert l[j] in Listed(t, false);
      } else {
        assert l[j] in Listed(t, true);
      }
    }
  }

  lemma EncodedSizes(h: Hashes, t: Tables, d: Dump)
    requires t.Consistent(h, -1, 0) && Encodes(t, d)
    ensures 0 <= d.nNew == t.nNew == |d.untried| && 0 <= d.nTried == t.nTried == |d.tried|
    ensures |DiskOrder(t)| == |d.untried| + |d.tried| && Addressed(t.infos, t.addrs)
  {
    hide Select, NewTable, TriedTable, Shuffled;
    ListedFacts(h, t, false);
    ListedFacts(h, t, true);
  }

  // The entry at place `n` on disk is the one at place `n` of the disk order.
  lemma EncodedEntry(t: Tables, d: Dump, n: nat)
    requires Encodes(t, d) && n < |DiskOrder(t)| == |d.untried| + |d.tried|
    ensures DiskOrder(t)[n] in t.infos
    ensures Save(t.infos[DiskOrder(t)[n]]) == if n < |d.untried| then d.untried[n] else d.tried[n - |d.untried|]
  {
    hide Listed;
  }

  // An entry read from disk, placed at position `j` but not yet in a "new" bucket.
  ghost function Copy(info: AddrInfo, j: nat, tried: bool): AddrInfo {
    info.(nLastTry := 0, nRefCount := 0, fInTried := tried, nRandomPos := j)
  }

  // The first `m` entries of the list have been read.
  ghost predicate Copied(t: Tables, l: seq<Id>, nNew: int, m: nat, infos: Infos, addrs: map<NetAddr, Id>,
                         order: seq<Id>) {
    && m <= |l| && |order| == m
    && (forall j | 0 <= j < m :: l[j] in t.infos)
    && (forall j :: j in infos <==> 0 <= j < m)
    && (forall j | 0 <= j < m :: infos[j] == Copy(t.infos[l[j]], j, nNew <= j) && order[j] == j)
    && (forall j | 0 <= j < m :: t.infos[l[j]].addr.ip in addrs && addrs[t.infos[l[j]].addr.ip] == j)
    && (forall ip | ip in addrs :: addrs[ip] < m && t.infos[l[addrs[ip]]].addr.ip == ip)
  }

  lemma CopiedPush(t: Tables, l: seq<Id>, nNew: int, m: nat, infos: Infos, addrs: map<NetAddr, Id>, order: seq<Id>)
    requires Copied(t, l, nNew, m, infos, addrs, order) && m < |l| && l[m] in t.infos
    requires NoRepeats(l) && Addressed(t.infos, t.addrs)
    ensures Copied(t, l, nNew, m + 1, infos[m := Copy(t.infos[l[m]], m, nNew <= m)], addrs[t.infos[l[m]].addr.ip := m],
                   order + [m])
  {
    forall j | 0 <= j < m ensures t.infos[l[j]].addr.ip != t.infos[l[m]].addr.ip {
      assert l[j] != l[m];
    }
  }

  // The first loop of the reader.
  method ReadUntried(d: Dump, ghost t: Tables, ghost h: Hashes)
    returns (infos: Infos, addrs: map<NetAddr, Id>, order: seq<Id>)
    requires t.Consistent(h, -1, 0) && Encodes(t, d)
    ensures d.nNew >= 0 && Copied(t, DiskOrder(t), t.nNew, d.nNew, infos, addrs, order)
  {
    hide Tables.Consistent, Encodes, DiskOrder, Copied, Addressed, NoRepeats;
    DiskOrderFacts(h, t);
    EncodedSizes(h, t, d);
    ghost var l := DiskOrder(t);
    infos, addrs, order := map[], map[], [];
    CopiedNone(t, l, t.nNew);
    for n := 0 to d.nNew
      invariant Copied(t, l, t.nNew, n, infos, addrs, order) && |order| == n
    {
      EncodedEntry(t, d, n);
      CopiedPush(t, l, t.nNew, n, infos, addrs, order);
      var info := Load(d.untried[n]);
      infos := infos[n := info.(nRandomPos := |order|)];
      addrs := addrs[info.addr.ip := n];
      order := order + [n];
    }
  }

  lemma CopiedNone(t: Tables, l: seq<Id>, nNew: int)
    ensures Copied(t, l, nNew, 0, map[], map[], [])
  {
  }

  // The tried entries up to `m` are in the buckets of their hashes.
  ghost predicate TriedCopied(h: Hashes, t: Tables, l: seq<Id>, nNew: int, m: nat, tried: TriedBuckets) {
    && |tried| == TRIED_BUCKET_COUNT && 0 <= nNew <= m <= |l|
    && (forall j | 0 <= j < m :: l[j] in t.infos)
    && (forall k | 0 <= k < |tried| :: NoRepeats(tried[k]))
    && (forall k, x: Id | 0 <= k < |tried| :: x in tried[k] <==> GoesTo(h, t, l, nNew, m, x, k))
  }

  ghost predicate GoesTo(h: Hashes, t: Tables, l: seq<Id>, nNew: int, m: nat, x: Id, k: nat) {
    nNew <= x < m && x < |l| && l[x] in t.infos && h.TriedBucket(t.infos[l[x]].addr) == k
  }

  lemma TriedCopiedPush(h: Hashes, t: Tables, l: seq<Id>, nNew: int, m: nat, tried: TriedBuckets)
    requires TriedCopied(h, t, l, nNew, m, tried) && nNew <= m < |l| && l[m] in t.infos
    ensures var k := h.TriedBucket(t.infos[l[m]].addr);
            TriedCopied(h, t, l, nNew, m + 1, tried[k := tried[k] + [m]])
  {
    var k := h.TriedBucket(t.infos[l[m]].addr);
    assert m !in tried[k];
  }

  // Distinct members of a sequence are no more than its length.
  lemma Pigeonhole(s: seq<Id>, all: seq<Id>)
    requires NoRepeats(s) && forall x | x in s :: x in all
    ensures |s| <= |all|
  {
    var members := set x | x in s;
    SizeOfSet(s, members);
    Subset(members, Members(all));
  }

  // A bucket that is still missing one of its entries is not full, so reading loses nothing.
  lemma RoomLeft(h: Hashes, t: Tables, l: seq<Id>, m: nat, tried: TriedBuckets)
    requires t.Consistent(h, -1, 0) && TriedCopied(h, t, l, t.nNew, m, tried) && 0 <= t.nNew <= m < |l| && NoRepeats(l)
    requires forall j | 0 <= j < |l| :: l[j] in t.infos && (t.infos[l[j]].fInTried <==> t.nNew <= j)
    ensures |tried[h.TriedBucket(t.infos[l[m]].addr)]| < TRIED_BUCKET_SIZE
  {
    var k := h.TriedBucket(t.infos[l[m]].addr);
    TriedSizes(h, t, -1, 0, k);
    forall i | 0 <= i < |tried[k]| ensures t.nNew <= tried[k][i] < m {
      assert tried[k][i] in tried[k];
      assert GoesTo(h, t, l, t.nNew, m, tried[k][i], k);
    }
    var s := seq(|tried[k]|, i requires 0 <= i < |tried[k]| => l[tried[k][i]]) + [l[m]];
    forall x | x in s ensures x in t.tried[k] {
      var i :| 0 <= i < |s| && s[i] == x;
      assert i < |tried[k]| ==> GoesTo(h, t, l, t.nNew, m, tried[k][i], k);
      TriedIsInBucket(h, t, x);
    }
    Pigeonhole(s, t.tried[k]);
  }

  lemma TriedIsInBucket(h: Hashes, t: Tables, id: Id)
    requires t.Consistent(h, -1, 0) && id in t.infos && t.infos[id].fInTried
    ensures h.TriedBucket(t.infos[id].addr) < |t.tried| && id in t.tried[h.TriedBucket(t.infos[id].addr)]
  {
  }

  // The second loop of the reader.
  method ReadTried(d: Dump, infos0: Infos, addrs0: map<NetAddr, Id>, order0: seq<Id>, h: Hashes, ghost t: Tables)
    returns (infos: Infos, addrs: map<NetAddr, Id>, order: seq<Id>, tried: TriedBuckets, nLost: int)
    requires t.Consistent(h, -1, 0) && Encodes(t, d)
    requires d.nNew >= 0 && Copied(t, DiskOrder(t), t.nNew, d.nNew, infos0, addrs0, order0)
    ensures nLost == 0 && Copied(t, DiskOrder(t), t.nNew, |DiskOrder(t)|, infos, addrs, order)
    ensures TriedCopied(h, t, DiskOrder(t), t.nNew, |DiskOrder(t)|, tried)
  {
    hide Tables.Consistent, Encodes, DiskOrder, Copied, TriedCopied, Addressed, NoRepeats;
    DiskOrderFacts(h, t);
    EncodedSizes(h, t, d);
    ghost var l := DiskOrder(t);
    infos, addrs, order, nLost := infos0, addrs0, order0, 0;
    var nIdCount := d.nNew;
    tried := seq(TRIED_BUCKET_COUNT, _ => []);
    NoneTried(h, t, l, t.nNew, tried);
    for n := 0 to d.nTried
      invariant nIdCount == t.nNew + n && nLost == 0
      invariant Copied(t, l, t.nNew, nIdCount, infos, addrs, order) && TriedCopied(h, t, l, t.nNew, nIdCount, tried)
    {
      EncodedEntry(t, d, nIdCount);
      var placed;
      placed, infos, addrs, order, tried := ReadOneTried(d.tried[n], nIdCount, infos, addrs, order, tried, h, t);
      if placed {
        nIdCount := nIdCount + 1;
      } else {
        nLost := nLost + 1;
      }
    }
  }

  // One round of that loop: the bucket always has room.
  method ReadOneTried(stored: Stored, n: nat, infos0: Infos, addrs0: map<NetAddr, Id>, order0: seq<Id>,
                      tried0: TriedBuckets,
                      h: Hashes, ghost t: Tables)
    returns (placed: bool, infos: Infos, addrs: map<NetAddr, Id>, order: seq<Id>, tried: TriedBuckets)
    requires t.Consistent(h, -1, 0) && Addressed(t.infos, t.addrs) && 0 <= t.nNew <= n < |DiskOrder(t)|
    requires DiskOrder(t)[n] in t.infos && stored == Save(t.infos[DiskOrder(t)[n]])
    requires Copied(t, DiskOrder(t), t.nNew, n, infos0, addrs0, order0)
             && TriedCopied(h, t, DiskOrder(t), t.nNew, n, tried0)
    ensures placed && Copied(t, DiskOrder(t), t.nNew, n + 1, infos, addrs, order)
    ensures TriedCopied(h, t, DiskOrder(t), t.nNew, n + 1, tried)
  {
    hide Tables.Consistent, DiskOrder, Copied, TriedCopied, Addressed, NoRepeats;
    ghost var l := DiskOrder(t);
    DiskOrderFacts(h, t);
    infos, addrs, order, tried := infos0, addrs0, order0, tried0;
    var info := Load(stored);
    TriedCopiedShape(h, t, l, t.nNew, n, tried);
    RoomLeft(h, t, l, n, tried);
    var k := h.TriedBucket(info.addr);
    placed := |tried[k]| < TRIED_BUCKET_SIZE;
    if placed {
      TriedCopiedPush(h, t, l, t.nNew, n, tried);
      tried := tried[k := tried[k] + [n]];
      infos, addrs, order := PlaceTried(info, n, infos, addrs, order, t, l);
    }
  }

  method PlaceTried(info: AddrInfo, n: nat, infos0: Infos, addrs0: map<NetAddr, Id>, order0: seq<Id>, ghost t: Tables,
                    ghost l: seq<Id>)
    returns (infos: Infos, addrs: map<NetAddr, Id>, order: seq<Id>)
    requires Copied(t, l, t.nNew, n, infos0, addrs0, order0) && t.nNew <= n < |l| && l[n] in t.infos
    requires NoRepeats(l) && Addressed(t.infos, t.addrs) && info == Load(Save(t.infos[l[n]]))
    ensures Copied(t, l, t.nNew, n + 1, infos, addrs, order)
  {
    hide Copied, NoRepeats, Addressed;
    CopiedShape(t, l, t.nNew, n, infos0, addrs0, order0);
    CopiedPush(t, l, t.nNew, n, infos0, addrs0, order0);
    infos := infos0[n := info.(nRandomPos := |order0|, fInTried := true)];
    addrs := addrs0[info.addr.ip := n];
    order := order0 + [n];
  }

  lemma NoneTried(h: Hashes, t: Tables, l: seq<Id>, nNew: int, tried: TriedBuckets)
    requires |tried| == TRIED_BUCKET_COUNT && 0 <= nNew <= |l| && forall k | 0 <= k < |tried| :: tried[k] == []
    requires forall j | 0 <= j < |l| :: l[j] in t.infos
    ensures TriedCopied(h, t, l, nNew, nNew, tried)
  {
  }

  lemma TriedCopiedShape(h: Hashes, t: Tables, l: seq<Id>, nNew: int, m: nat, tried: TriedBuckets)
    requires TriedCopied(h, t, l, nNew, m, tried)
    ensures |tried| == TRIED_BUCKET_COUNT
  {
  }

  lemma CopiedShape(t: Tables, l: seq<Id>, nNew: int, m: nat, infos: Infos, addrs: map<NetAddr, Id>, order: seq<Id>)
    requires Copied(t, l, nNew, m, infos, addrs, order)
    ensures |order| == m
  {
  }

  // The copy of a "new" bucket holds the positions of its members.
  ghost predicate BucketCopied(ids: seq<Id>, bucket: set<Id>, copy: set<Id>) {
    forall n: Id :: n in copy <==> n < |ids| && ids[n] in bucket
  }

  // Nothing but what belongs there is in any bucket yet.
  ghost predicate Within(ids: seq<Id>, buckets: NewBuckets, copies: NewBuckets) {
    |copies| == |buckets| && forall b, n: Id | 0 <= b < |copies| && n in copies[b] :: n < |ids| && ids[n] in buckets[b]
  }

  // Every entry is read, and its count is the number of buckets it has been put into.
  ghost predicate CountedCopy(t: Tables, l: seq<Id>, infos: Infos, untried: NewBuckets) {
    && (forall j :: j in infos <==> 0 <= j < |l|)
    && (forall j | 0 <= j < |l| ::
          l[j] in t.infos && infos[j] == Copy(t.infos[l[j]], j, t.nNew <= j).(nRefCount := Refs(untried, j)))
  }

  // The count is below the limit as long as one bucket is missing.
  lemma FewSoFar(h: Hashes, t: Tables, ids: seq<Id>, copies: NewBuckets, b: nat, n: Id)
    requires t.Consistent(h, -1, 0) && Within(ids, t.untried, copies) && b < |copies|
    requires n < |ids| && ids[n] in t.infos && ids[n] in t.untried[b] && n !in copies[b]
    ensures Refs(copies, n) < NEW_BUCKETS_PER_ADDRESS
  {
    var mine, all := BucketsOf(copies, n), BucketsOf(t.untried, ids[n]);
    assert mine <= all - {b} && b in all;
    FewerBuckets(mine, all, b);
    CountIsRefs(h, t, ids[n]);
    CountsBounded(h, t, ids[n]);
  }

  lemma FewerBuckets(mine: set<nat>, all: set<nat>, b: nat)
    requires mine <= all - {b} && b in all
    ensures |mine| < |all|
  {
    assert all == mine + (all - mine) && b in all - mine;
  }

  lemma WithinInsert(ids: seq<Id>, buckets: NewBuckets, copies: NewBuckets, b: nat, n: Id)
    requires Within(ids, buckets, copies) && b < |copies| && n < |ids| && ids[n] in buckets[b]
    ensures Within(ids, buckets, copies[b := copies[b] + {n}])
  {
  }

  lemma CountedInsert(t: Tables, l: seq<Id>, infos: Infos, copies: NewBuckets, b: nat, n: Id)
    requires CountedCopy(t, l, infos, copies) && b < |copies| && n < |l| && n !in copies[b]
    ensures n in infos && infos[n].nRefCount == Refs(copies, n)
    ensures CountedCopy(t, l, infos[n := infos[n].(nRefCount := infos[n].nRefCount + 1)], copies[b := copies[b] + {n}])
  {
    hide Refs;
    RefsInsert(copies, b, n);
  }

  // The third loop of the reader, for one bucket.
  method ReadBucket(ix: seq<int>, b: nat, infos0: Infos, untried0: NewBuckets, ghost h: Hashes, ghost t: Tables,
                    ghost l: seq<Id>, ghost ids: seq<Id>)
    returns (infos: Infos, untried: NewBuckets)
    requires t.Consistent(h, -1, 0) && ids <= l && b < |untried0| && untried0[b] == {}
    requires CountedCopy(t, l, infos0, untried0) && Within(ids, t.untried, untried0) && IndexedAs(ids, t.untried[b], ix)
    ensures CountedCopy(t, l, infos, untried) && Within(ids, t.untried, untried)
    ensures |untried| == |untried0| && BucketCopied(ids, t.untried[b], untried[b])
    ensures forall k | 0 <= k < |untried| && k != b :: untried[k] == untried0[k]
  {
    hide Tables.Consistent, CountedCopy, Within, Refs;
    infos, untried := infos0, untried0;
    for n := 0 to |ix|
      invariant CountedCopy(t, l, infos, untried) && Within(ids, t.untried, untried)
      invariant |untried| == |untried0| && forall k | 0 <= k < |untried| && k != b :: untried[k] == untried0[k]
      invariant forall x :: x in untried[b] <==> x in ix[..n]
    {
      assert ix[n] in ix && ix[n] !in ix[..n];
      var nIndex: nat := ix[n];
      CountedAt(t, l, infos, untried, nIndex);
      CountedInsert(t, l, infos, untried, b, nIndex);
      FewSoFar(h, t, ids, untried, b, nIndex);
      WithinInsert(ids, t.untried, untried, b, nIndex);
      if infos[nIndex].nRefCount < NEW_BUCKETS_PER_ADDRESS {
        infos := infos[nIndex := infos[nIndex].(nRefCount := infos[nIndex].nRefCount + 1)];
        untried := untried[b := untried[b] + {nIndex}];
      }
      assert ix[..n + 1] == ix[..n] + [ix[n]];
    }
    assert ix[..|ix|] == ix;
  }

  lemma CountedAt(t: Tables, l: seq<Id>, infos: Infos, copies: NewBuckets, n: nat)
    requires CountedCopy(t, l, infos, copies) && n < |l|
    ensures l[n] in t.infos && n in infos
  {
  }

  ghost predicate AllRead(t: Tables, l: seq<Id>, infos: Infos) {
    && (forall j :: j in infos <==> 0 <= j < |l|)
    && (forall j | 0 <= j < |l| :: l[j] in t.infos && infos[j] == Copy(t.infos[l[j]], j, t.nNew <= j))
  }

  // The whole third loop of the reader.
  method ReadBuckets(d: Dump, infos0: Infos, ghost h: Hashes, ghost t: Tables)
    returns (infos: Infos, untried: NewBuckets)
    requires t.Consistent(h, -1, 0) && Encodes(t, d) && AllRead(t, DiskOrder(t), infos0)
    ensures CountedCopy(t, DiskOrder(t), infos, untried) && |untried| == NEW_BUCKET_COUNT == |t.untried|
    ensures forall b | 0 <= b < |untried| :: BucketCopied(Listed(t, false), t.untried[b], untried[b])
  {
    hide Tables.Consistent, CountedCopy, Within, Refs, IndexedAs, SavedAs, BucketCopied, Listed, AllRead;
    ghost var ids, l := Listed(t, false), DiskOrder(t);
    infos, untried := infos0, seq(NEW_BUCKET_COUNT, _ => {});
    StartCounting(t, l, infos, untried);
    StartWithin(ids, t.untried, untried);
    for b := 0 to d.nUBuckets
      invariant |untried| == NEW_BUCKET_COUNT
      invariant CountedCopy(t, l, infos, untried) && Within(ids, t.untried, untried)
      invariant forall k | 0 <= k < b :: BucketCopied(ids, t.untried[k], untried[k])
      invariant forall k | b <= k < |untried| :: untried[k] == {}
    {
      infos, untried := ReadBucket(d.buckets[b], b, infos, untried, h, t, l, ids);
    }
  }

  lemma StartCounting(t: Tables, l: seq<Id>, infos: Infos, untried: NewBuckets)
    requires forall b | 0 <= b < |untried| :: untried[b] == {}
    requires AllRead(t, l, infos)
    ensures CountedCopy(t, l, infos, untried)
  {
    forall j: Id ensures Refs(untried, j) == 0 {
      RefsZero(untried, j);
    }
  }

  lemma StartWithin(ids: seq<Id>, buckets: NewBuckets, copies: NewBuckets)
    requires |copies| == |buckets| && forall b | 0 <= b < |copies| :: copies[b] == {}
    ensures Within(ids, buckets, copies)
  {
  }

  // ---------- the round trip ----------

  // `c` is `t` with every id replaced by its place in `l`: the same entries up to their last try and
  // random position, the same counters, and the same members in every bucket of either kind.
  ghost predicate CopyOf(t: Tables, c: Tables, l: seq<Id>) {
    && NoRepeats(l) && (forall id :: id in l <==> id in t.infos)
    && (forall j :: j in c.infos <==> 0 <= j < |l|)
    && (forall j | 0 <= j < |l| :: c.infos[j] == t.infos[l[j]].(nLastTry := 0, nRandomPos := j))
    && c.nNew == t.nNew && c.nTried == t.nTried && c.nIdCount == |l|
    && |c.untried| == |t.untried| && |c.tried| == |t.tried|
    && (forall b | 0 <= b < |c.untried| :: forall j: Id :: j in c.untried[b] <==> j < |l| && l[j] in t.untried[b])
    && (forall k | 0 <= k < |c.tried| ::
          NoRepeats(c.tried[k]) && forall j: Id :: j in c.tried[k] <==> j < |l| && l[j] in t.tried[k])
    && |c.order| == |l| && (forall j | 0 <= j < |l| :: c.order[j] == j)
    && Addressed(c.infos, c.addrs)
  }

  // Positions of members are no more than the members.
  lemma ImageSize(l: seq<Id>, copy: set<Id>, members: set<Id>)
    requires NoRepeats(l) && forall j | j in copy :: j < |l| && l[j] in members
    ensures |copy| <= |members|
  {
    var js := InOrder(copy);
    assert forall i | 0 <= i < |js| :: js[i] in copy;
    var s := seq(|js|, i requires 0 <= i < |js| => l[js[i]]);
    var image := set x | x in s;
    SizeOfSet(s, image);
    Subset(image, members);
  }

  lemma CopyAt(t: Tables, c: Tables, l: seq<Id>, j: Id)
    requires CopyOf(t, c, l) && j in c.infos
    ensures j < |l| && l[j] in t.infos && c.infos[j] == t.infos[l[j]].(nLastTry := 0, nRandomPos := j)
  {
    assert l[j] in l;
  }

  lemma CopyRefs(t: Tables, c: Tables, l: seq<Id>, j: Id)
    requires CopyOf(t, c, l) && j < |l|
    ensures Refs(c.untried, j) == Refs(t.untried, l[j])
  {
    assert BucketsOf(c.untried, j) == BucketsOf(t.untried, l[j]);
  }

  lemma CopySized(t: Tables, c: Tables, l: seq<Id>)
    requires CopyOf(t, c, l) && Sized(t.untried)
    ensures Sized(c.untried)
  {
    forall b | 0 <= b < |c.untried| ensures |c.untried[b]| <= NEW_BUCKET_SIZE {
      ImageSize(l, c.untried[b], t.untried[b]);
    }
  }

  lemma CopyHolds(t: Tables, c: Tables, l: seq<Id>)
    requires CopyOf(t, c, l) && HoldsUntried(t.infos, t.untried)
    ensures HoldsUntried(c.infos, c.untried)
  {
    forall b, j | 0 <= b < |c.untried| && j in c.untried[b] ensures j in c.infos && !c.infos[j].fInTried {
      assert l[j] in t.untried[b];
    }
  }

  lemma CopyCounts(t: Tables, c: Tables, l: seq<Id>)
    requires CopyOf(t, c, l) && CountsExact(t.infos, t.untried, -1, 0) && CountsInRange(t.infos, -1)
    ensures CountsExact(c.infos, c.untried, -1, 0) && CountsInRange(c.infos, -1)
  {
    hide CopyOf, Refs;
    forall j | j in c.infos
      ensures c.infos[j].nRefCount == Refs(c.untried, j)
      ensures !c.infos[j].fInTried ==> 1 <= c.infos[j].nRefCount <= NEW_BUCKETS_PER_ADDRESS
    {
      CopyAt(t, c, l, j);
      CopyRefs(t, c, l, j);
    }
  }

  lemma CopyNewTable(t: Tables, c: Tables, l: seq<Id>)
    requires CopyOf(t, c, l) && NewTable(t.infos, t.untried, -1, 0)
    ensures NewTable(c.infos, c.untried, -1, 0)
  {
    hide CopyOf, Sized, HoldsUntried, CountsExact, CountsInRange;
    CopySized(t, c, l);
    CopyHolds(t, c, l);
    CopyCounts(t, c, l);
  }

  lemma CopyTriedTable(h: Hashes, t: Tables, c: Tables, l: seq<Id>)
    requires CopyOf(t, c, l) && TriedTable(h, t.infos, t.tried)
    ensures TriedTable(h, c.infos, c.tried)
  {
    hide NoRepeats, TriedIn, Addressed;
    CopyTriedSizes(h, t, c, l);
    CopyTriedIn(h, t, c, l);
    forall j | j in c.infos && c.infos[j].fInTried ensures j in c.tried[h.TriedBucket(c.infos[j].addr)] {
      assert l[j] in l;
      assert l[j] in t.tried[h.TriedBucket(t.infos[l[j]].addr)];
    }
  }

  lemma CopyTriedSizes(h: Hashes, t: Tables, c: Tables, l: seq<Id>)
    requires CopyOf(t, c, l) && TriedTable(h, t.infos, t.tried)
    ensures forall k | 0 <= k < |c.tried| :: |c.tried[k]| <= TRIED_BUCKET_SIZE
  {
    hide TriedIn, Addressed;
    forall k | 0 <= k < |c.tried| ensures |c.tried[k]| <= TRIED_BUCKET_SIZE {
      assert forall i | 0 <= i < |c.tried[k]| :: c.tried[k][i] in c.tried[k];
      var s := seq(|c.tried[k]|, i requires 0 <= i < |c.tried[k]| => l[c.tried[k][i]]);
      Pigeonhole(s, t.tried[k]);
    }
  }

  lemma CopyTriedIn(h: Hashes, t: Tables, c: Tables, l: seq<Id>)
    requires CopyOf(t, c, l) && TriedTable(h, t.infos, t.tried)
    ensures forall k | 0 <= k < |c.tried| :: forall i | 0 <= i < |c.tried[k]| :: TriedIn(h, c.infos, c.tried[k][i], k)
  {
    hide NoRepeats, Addressed;
    forall k, i | 0 <= k < |c.tried| && 0 <= i < |c.tried[k]| ensures TriedIn(h, c.infos, c.tried[k][i], k) {
      var j := c.tried[k][i];
      assert j in c.tried[k];
      var x :| 0 <= x < |t.tried[k]| && t.tried[k][x] == l[j];
      assert TriedIn(h, t.infos, t.tried[k][x], k);
    }
  }

  lemma CopyKeys(t: Tables, c: Tables, l: seq<Id>)
    requires CopyOf(t, c, l)
    ensures |c.infos.Keys| == |l| == |c.order|
  {
    forall j: Id ensures j in c.order <==> j in c.infos.Keys {
      if j in c.infos {
        assert c.order[j] == j;
      }
    }
    SizeOfSet(c.order, c.infos.Keys);
  }

  lemma CopyCounted(t: Tables, c: Tables, l: seq<Id>)
    requires CopyOf(t, c, l) && Counted(t.infos, t.order, t.nTried, t.nNew) && |l| == t.nTried + t.nNew
    ensures Counted(c.infos, c.order, c.nTried, c.nNew)
  {
    hide CopyOf, NoRepeats, TriedIds, NewIds;
    CopyTotals(t, c, l);
    CopyKeys(t, c, l);
    CopyImages(t, c, l);
    ImageSize(l, TriedIds(c.infos), TriedIds(t.infos));
    ImageSize(l, NewIds(c.infos), NewIds(t.infos));
    Partition(c.infos);
  }

  lemma CopyTotals(t: Tables, c: Tables, l: seq<Id>)
    requires CopyOf(t, c, l)
    ensures NoRepeats(l) && c.nTried == t.nTried && c.nNew == t.nNew
  {
  }

  // What is tried in the copy was tried before, and likewise what is not.
  lemma CopyImages(t: Tables, c: Tables, l: seq<Id>)
    requires CopyOf(t, c, l)
    ensures forall j | j in TriedIds(c.infos) :: j < |l| && l[j] in TriedIds(t.infos)
    ensures forall j | j in NewIds(c.infos) :: j < |l| && l[j] in NewIds(t.infos)
  {
    hide CopyOf;
    forall j | j in c.infos ensures j < |l| && l[j] in t.infos && c.infos[j].fInTried == t.infos[l[j]].fInTried {
      CopyAt(t, c, l, j);
    }
  }

  lemma Partition(infos: Infos)
    ensures |TriedIds(infos)| + |NewIds(infos)| == |infos.Keys|
  {
    assert TriedIds(infos) + NewIds(infos) == infos.Keys;
    assert TriedIds(infos) !! NewIds(infos);
  }

  lemma CopyRest(t: Tables, c: Tables, l: seq<Id>)
    requires CopyOf(t, c, l) && Timed(t.infos)
    ensures Timed(c.infos) && Shuffled(c.infos, c.order) && forall j | j in c.infos :: j < c.nIdCount
  {
    forall j | j in c.infos ensures l[j] in t.infos {
      assert l[j] in l;
    }
  }

  // A copy of consistent tables is consistent.
  lemma CopyConsistent(h: Hashes, t: Tables, c: Tables, l: seq<Id>)
    requires CopyOf(t, c, l) && t.Consistent(h, -1, 0) && |l| == t.nTried + t.nNew
    ensures c.Consistent(h, -1, 0)
  {
    assert Addressed(c.infos, c.addrs);
    hide CopyOf, NewTable, TriedTable, Counted, Timed, Shuffled, Addressed;
    CopyNewTable(t, c, l);
    CopyTriedTable(h, t, c, l);
    CopyCounted(t, c, l);
    CopyRest(t, c, l);
  }

  // The parts that the loops of the reader built make up a copy.
  lemma Assemble(h: Hashes, t: Tables, l: seq<Id>, read: Infos, c: Tables)
    requires t.Consistent(h, -1, 0) && l == DiskOrder(t)
    requires Copied(t, l, t.nNew, |l|, read, c.addrs, c.order) && CountedCopy(t, l, c.infos, c.untried)
    requires TriedCopied(h, t, l, t.nNew, |l|, c.tried)
    requires |c.untried| == |t.untried|
             && forall b | 0 <= b < |c.untried| :: BucketCopied(Listed(t, false), t.untried[b], c.untried[b])
    requires c.nNew == t.nNew && c.nTried == t.nTried && c.nIdCount == |l|
    ensures CopyOf(t, c, l)
  {
    hide Tables.Consistent, DiskOrder, Listed, CountedCopy, Copied, TriedCopied, BucketCopied, Addressed;
    DiskOrderFacts(h, t);
    AssembleNew(h, t, l, c);
    AssembleTried(h, t, l, c);
    forall j | 0 <= j < |l| ensures j in c.infos && c.infos[j] == t.infos[l[j]].(nLastTry := 0, nRandomPos := j) {
      AssembleCount(h, t, l, c, j);
    }
    AssembleRest(t, l, read, c);
  }

  lemma AssembleRest(t: Tables, l: seq<Id>, read: Infos, c: Tables)
    requires Copied(t, l, t.nNew, |l|, read, c.addrs, c.order) && CountedCopy(t, l, c.infos, c.untried)
    ensures Addressed(c.infos, c.addrs) && (forall j :: j in c.infos <==> 0 <= j < |l|)
    ensures |c.order| == |l| && forall j | 0 <= j < |l| :: c.order[j] == j
  {
    hide Refs;
  }

  lemma AssembleNew(h: Hashes, t: Tables, l: seq<Id>, c: Tables)
    requires t.Consistent(h, -1, 0) && l == DiskOrder(t)
    requires |c.untried| == |t.untried|
             && forall b | 0 <= b < |c.untried| :: BucketCopied(Listed(t, false), t.untried[b], c.untried[b])
    ensures forall b | 0 <= b < |c.untried| :: forall j: Id :: j in c.untried[b] <==> j < |l| && l[j] in t.untried[b]
  {
    hide Tables.Consistent;
    DiskOrderFacts(h, t);
    forall b, j: Id | 0 <= b < |c.untried| ensures j in c.untried[b] <==> j < |l| && l[j] in t.untried[b] {
      HeldIsKnown(h, t, -1, 0, b);
    }
  }

  lemma AssembleTried(h: Hashes, t: Tables, l: seq<Id>, c: Tables)
    requires t.Consistent(h, -1, 0) && l == DiskOrder(t) && TriedCopied(h, t, l, t.nNew, |l|, c.tried)
    ensures |c.tried| == |t.tried|
    ensures forall k | 0 <= k < |c.tried| ::
              NoRepeats(c.tried[k]) && forall j: Id :: j in c.tried[k] <==> j < |l| && l[j] in t.tried[k]
  {
    hide Tables.Consistent, DiskOrder;
    DiskOrderFacts(h, t);
    TriedSizes(h, t, -1, 0, 0);
    forall k, j: Id | 0 <= k < |c.tried| ensures j in c.tried[k] <==> j < |l| && l[j] in t.tried[k] {
      if GoesTo(h, t, l, t.nNew, |l|, j, k) {
        TriedIsInBucket(h, t, l[j]);
      }
      if j < |l| && l[j] in t.tried[k] {
        HoldsItsOwn(h, t, k, l[j]);
      }
    }
  }

  lemma HoldsItsOwn(h: Hashes, t: Tables, k: nat, id: Id)
    requires t.Consistent(h, -1, 0) && k < |t.tried| && id in t.tried[k]
    ensures id in t.infos && t.infos[id].fInTried && h.TriedBucket(t.infos[id].addr) == k
  {
    var x :| 0 <= x < |t.tried[k]| && t.tried[k][x] == id;
    assert TriedIn(h, t.infos, t.tried[k][x], k);
  }

  lemma AssembleCount(h: Hashes, t: Tables, l: seq<Id>, c: Tables, j: nat)
    requires t.Consistent(h, -1, 0) && CountedCopy(t, l, c.infos, c.untried) && j < |l|
    requires |c.untried| == |t.untried|
    requires forall b | 0 <= b < |c.untried| :: forall j: Id :: j in c.untried[b] <==> j < |l| && l[j] in t.untried[b]
    requires t.infos[l[j]].fInTried <==> t.nNew <= j
    ensures j in c.infos && c.infos[j] == t.infos[l[j]].(nLastTry := 0, nRandomPos := j)
  {
    hide Tables.Consistent;
    CountIsRefs(h, t, l[j]);
    assert BucketsOf(c.untried, j) == BucketsOf(t.untried, l[j]);
  }

  // Reading back what was written: nothing is lost, and the tables are a consistent copy.
  method Deserialize(d: Dump, ghost t: Tables) returns (c: Tables, nLost: int)
    requires t.Consistent(d.hashes, -1, 0) && Encodes(t, d)
    ensures nLost == 0 && CopyOf(t, c, DiskOrder(t)) && c.Consistent(d.hashes, -1, 0)
  {
    hide Tables.Consistent, CopyOf, Copied, CountedCopy, TriedCopied, BucketCopied, Encodes, DiskOrder, Listed, AllRead;
    var h := d.hashes;
    EncodedSizes(h, t, d);
    DiskOrderFacts(h, t);
    var infos, addrs, order := ReadUntried(d, t, h);
    var tried, untried;
    infos, addrs, order, tried, nLost := ReadTried(d, infos, addrs, order, h, t);
    ghost var read := infos;
    CopiedInfos(t, DiskOrder(t), infos, addrs, order);
    CopiedShape(t, DiskOrder(t), t.nNew, |DiskOrder(t)|, infos, addrs, order);
    infos, untried := ReadBuckets(d, infos, h, t);
    c := Tables(|order|, infos, addrs, order, d.nTried - nLost, tried, d.nNew, untried);
    Assemble(h, t, DiskOrder(t), read, c);
    CopyConsistent(h, t, c, DiskOrder(t));
  }

  lemma CopiedInfos(t: Tables, l: seq<Id>, infos: Infos, addrs: map<NetAddr, Id>, order: seq<Id>)
    requires Copied(t, l, t.nNew, |l|, infos, addrs, order)
    ensures AllRead(t, l, infos)
  {
  }
}
