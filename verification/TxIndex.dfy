/**
 The username transaction index: `ConnectBlock`, `DisconnectBlock` and
 `GetTransaction`. The key (user, -1) leads to the user's latest registration
 and (user, h - 1) to the one that the block at height h replaced; a lookup
 follows these keys back. Keys are the pairs themselves: their hash is taken
 to be free of collisions.
 */
module TxIndex {
  import opened Arithmetic
  import opened Options

  type User = string
  type BlockId = nat

  datatype Key = Key(user: User, height: int)

  // A transaction on disk: its block and its place among the block's registrations.
  datatype Pos = Pos(block: BlockId, offset: nat)

  // A stored block: its height and the usernames its transactions register, in order.
  datatype Block = Block(height: nat, users: seq<User>)

  type Index = map<Key, Pos>
  type Disk = map<BlockId, Block>

  // What a lookup does at one key, and what it ends with.
  datatype Outcome = Found(pos: Pos) | NotFound | Running(height: int)

  function Get(index: Index, key: Key): Option<Pos> {
    if key in index then Some(index[key]) else None
  }

  ghost predicate Distinct(s: seq<User>) {
    forall i, j | 0 <= i < j < |s| :: s[i] != s[j]
  }

  // The main chain by height: stored blocks, each at its own height.
  ghost predicate Stored(disk: Disk, chain: seq<BlockId>) {
    |chain| > 0 && forall h | 0 <= h < |chain| :: chain[h] in disk && disk[chain[h]].height == h
  }

  predicate InMainChain(disk: Disk, chain: seq<BlockId>, b: BlockId) {
    b in disk && disk[b].height < |chain| && chain[disk[b].height] == b
  }

  // The reference definition of a lookup: scan the chain down from height `m` for a block
  // that registers the user. The genesis block registers nobody.
  ghost function Newest(disk: Disk, chain: seq<BlockId>, u: User, m: int): (h: Option<nat>)
    requires Stored(disk, chain) && m < |chain|
    ensures h.Some? ==> 0 < h.value <= m && u in disk[chain[h.value]].users
    ensures forall k | 0 < k <= m && (h.None? || h.value < k) :: u !in disk[chain[k]].users
    decreases m
  {
    if m <= 0 then None
    else if u in disk[chain[m]].users then Some(m)
    else Newest(disk, chain, u, m - 1)
  }

  // Every entry is a registration of its own user in a stored block above the genesis block.
  ghost predicate Sound(disk: Disk, index: Index) {
    forall k | k in index ::
      && index[k].block in disk
      && disk[index[k].block].height > 0
      && index[k].offset < |disk[index[k].block].users|
      && disk[index[k].block].users[index[k].offset] == k.user
  }

  // An entry stands for the registration at height `h`, or for none: then it is absent or off the chain.
  ghost predicate Points(disk: Disk, chain: seq<BlockId>, entry: Option<Pos>, h: Option<nat>)
    requires Stored(disk, chain)
  {
    match h
    case Some(n) => n < |chain| && entry.Some? && entry.value.block == chain[n]
    case None => entry.Some? ==> !InMainChain(disk, chain, entry.value.block)
  }

  // The key that precedes a registration at height `h` leads to the registration before it.
  ghost predicate Precedes(disk: Disk, chain: seq<BlockId>, index: Index, u: User, h: nat)
    requires Stored(disk, chain) && 0 < h < |chain|
  {
    Points(disk, chain, Get(index, Key(u, h - 1)), Newest(disk, chain, u, h - 1))
  }

  // The index agrees with the chain: every latest entry and every saved entry that a lookup may read.
  ghost predicate Agrees(disk: Disk, chain: seq<BlockId>, index: Index)
    requires Stored(disk, chain)
  {
    && (forall u :: Points(disk, chain, Get(index, Key(u, -1)), Newest(disk, chain, u, |chain| - 1)))
    && (forall u, h | 1 < h < |chain| && u in disk[chain[h]].users :: Precedes(disk, chain, index, u, h))
  }

  // Connecting: the block's users lead to it, and their previous latest entries are saved under
  // the height below, unless they already belong to this very block.
  ghost predicate ConnectEffect(before: Index, after: Index, b: BlockId, block: Block) {
    forall u, k ::
      if u in block.users && k == -1 then
        && Get(after, Key(u, k)).Some?
        && Get(after, Key(u, k)).value.block == b
        && Get(after, Key(u, k)).value.offset < |block.users|
        && block.users[Get(after, Key(u, k)).value.offset] == u
      else if u in block.users && k == block.height - 1 && Get(before, Key(u, -1)).Some?
        && Get(before, Key(u, -1)).value.block != b then
        Get(after, Key(u, k)) == Get(before, Key(u, -1))
      else
        Get(after, Key(u, k)) == Get(before, Key(u, k))
  }

  // Disconnecting: the block's users get their saved entries back, where there are any.
  ghost predicate DisconnectEffect(before: Index, after: Index, block: Block) {
    forall u, k ::
      Get(after, Key(u, k)) ==
      if u in block.users && k == -1 && Get(before, Key(u, block.height - 1)).Some?
      then Get(before, Key(u, block.height - 1))
      else Get(before, Key(u, k))
  }

  // ---------- the reference scan ----------

  lemma {:induction false} NewestExtend(disk: Disk, chain: seq<BlockId>, b: BlockId, u: User, m: int)
    requires Stored(disk, chain) && Stored(disk, chain + [b]) && m < |chain|
    ensures Newest(disk, chain + [b], u, m) == Newest(disk, chain, u, m)
    decreases m
  {
    if m > 0 {
      assert (chain + [b])[m] == chain[m];
      NewestExtend(disk, chain, b, u, m - 1);
    }
  }

  // A scan from lower down finds the same block as long as it starts at or above it.
  lemma {:induction false} NewestBetween(disk: Disk, chain: seq<BlockId>, u: User, m: int, t: int)
    requires Stored(disk, chain) && m <= t < |chain|
    requires var n := Newest(disk, chain, u, t); n.Some? ==> n.value <= m
    ensures Newest(disk, chain, u, m) == Newest(disk, chain, u, t)
    decreases t
  {
    if m < t && t > 0 {
      NewestBetween(disk, chain, u, m, t - 1);
    }
  }

  // ---------- connecting ----------

  ghost predicate LeadsTo(index: Index, key: Key, b: BlockId) {
    key in index && index[key].block == b
  }

  // What the caller can check before connecting `b`: no saved entry that ends a walk along the chain leads to
  // `b`, and no user of `b` has a saved entry leading to it that connecting would leave in place.
  ghost predicate LoopFree(disk: Disk, chain: seq<BlockId>, index: Index, b: BlockId)
    requires Stored(disk, chain) && b in disk
  {
    forall u, h: nat :: !Returns(disk, chain, index, b, u, h)
  }

  ghost predicate Returns(disk: Disk, chain: seq<BlockId>, index: Index, b: BlockId, u: User, h: nat)
    requires Stored(disk, chain) && b in disk
  {
    if h == |chain| then ReturnsAtTop(disk, chain, index, b, u) else ReturnsFromBelow(disk, chain, index, b, u, h)
  }

  ghost predicate ReturnsFromBelow(disk: Disk, chain: seq<BlockId>, index: Index, b: BlockId, u: User, h: nat)
    requires Stored(disk, chain)
  {
    && 1 < h < |chain| && u in disk[chain[h]].users && Newest(disk, chain, u, h - 1).None?
    && LeadsTo(index, Key(u, h - 1), b)
  }

  ghost predicate ReturnsAtTop(disk: Disk, chain: seq<BlockId>, index: Index, b: BlockId, u: User)
    requires b in disk
  {
    && |chain| > 1 && u in disk[b].users && LeadsTo(index, Key(u, |chain| - 1), b)
    && (Key(u, -1) !in index || LeadsTo(index, Key(u, -1), b))
  }

  ghost predicate Connectable(disk: Disk, chain: seq<BlockId>, b: BlockId) {
    Stored(disk, chain) && b in disk && disk[b].height == |chain|
  }

  lemma ConnectKeepsSound(disk: Disk, chain: seq<BlockId>, before: Index, after: Index, b: BlockId)
    requires Connectable(disk, chain, b) && Sound(disk, before) && ConnectEffect(before, after, b, disk[b])
    ensures Sound(disk, after)
  {
    forall k | k in after
      ensures && after[k].block in disk && disk[after[k].block].height > 0
              && after[k].offset < |disk[after[k].block].users|
              && disk[after[k].block].users[after[k].offset] == k.user
    {
      assert Get(after, Key(k.user, k.height)) == Some(after[k]);
    }
  }

  // Off the old chain and not the new block is off the new chain.
  lemma StaysOff(disk: Disk, chain: seq<BlockId>, b: BlockId, x: BlockId)
    requires Connectable(disk, chain, b)
    ensures Stored(disk, chain + [b])
    ensures InMainChain(disk, chain + [b], x) <==> InMainChain(disk, chain, x) || x == b
  {
  }

  // A sound entry of a user nobody on the chain registers is off the chain.
  lemma UnregisteredIsOff(disk: Disk, chain: seq<BlockId>, index: Index, k: Key)
    requires Stored(disk, chain) && Sound(disk, index) && k in index
    requires Newest(disk, chain, k.user, |chain| - 1).None?
    ensures !InMainChain(disk, chain, index[k].block)
  {
  }

  // The latest entries are right after every connect.
  lemma ConnectLatest(disk: Disk, chain: seq<BlockId>, before: Index, after: Index, b: BlockId, u: User)
    requires Connectable(disk, chain, b) && Sound(disk, before) && Agrees(disk, chain, before)
    requires ConnectEffect(before, after, b, disk[b])
    ensures Stored(disk, chain + [b])
    ensures Points(disk, chain + [b], Get(after, Key(u, -1)), Newest(disk, chain + [b], u, |chain|))
  {
    StaysOff(disk, chain, b, b);
    NewestExtend(disk, chain, b, u, |chain| - 1);
    if u !in disk[b].users {
      var e := Get(before, Key(u, -1));
      assert Get(after, Key(u, -1)) == e;
      assert Points(disk, chain, e, Newest(disk, chain, u, |chain| - 1));
      if e.Some? {
        StaysOff(disk, chain, b, e.value.block);
      }
    }
  }

  // The saved entries below the new block are right exactly when none of them that ends a walk leads to it.
  lemma ConnectSavedBelow(disk: Disk, chain: seq<BlockId>, before: Index, after: Index, b: BlockId, u: User, h: nat)
    requires Connectable(disk, chain, b) && Sound(disk, before) && Agrees(disk, chain, before)
    requires ConnectEffect(before, after, b, disk[b])
    requires 1 < h < |chain| && u in disk[chain[h]].users
    requires Newest(disk, chain, u, h - 1).None? ==> !LeadsTo(before, Key(u, h - 1), b)
    ensures Stored(disk, chain + [b]) && Precedes(disk, chain + [b], after, u, h)
  {
    StaysOff(disk, chain, b, b);
    NewestExtend(disk, chain, b, u, h - 1);
    assert Precedes(disk, chain, before, u, h);
    var e := Get(before, Key(u, h - 1));
    assert Get(after, Key(u, h - 1)) == e;
    if e.Some? {
      StaysOff(disk, chain, b, e.value.block);
    }
  }

  // The entry saved for the new block is right unless it leads back to that block.
  lemma ConnectSavedTop(disk: Disk, chain: seq<BlockId>, before: Index, after: Index, b: BlockId, u: User)
    requires Connectable(disk, chain, b) && Sound(disk, before) && Agrees(disk, chain, before)
    requires ConnectEffect(before, after, b, disk[b])
    requires 1 < |chain| && u in disk[b].users
    requires Key(u, -1) !in before || LeadsTo(before, Key(u, -1), b) ==> !LeadsTo(before, Key(u, |chain| - 1), b)
    ensures Stored(disk, chain + [b]) && Precedes(disk, chain + [b], after, u, |chain|)
  {
    StaysOff(disk, chain, b, b);
    NewestExtend(disk, chain, b, u, |chain| - 1);
    var latest, e := Get(before, Key(u, -1)), Get(after, Key(u, |chain| - 1));
    assert Points(disk, chain, latest, Newest(disk, chain, u, |chain| - 1));
    if latest.Some? && latest.value.block != b {
      assert e == latest;
      StaysOff(disk, chain, b, latest.value.block);
    } else {
      assert e == Get(before, Key(u, |chain| - 1));
      assert Newest(disk, chain, u, |chain| - 1).None?;
      if e.Some? {
        UnregisteredIsOff(disk, chain, before, Key(u, |chain| - 1));
        StaysOff(disk, chain, b, e.value.block);
      }
    }
  }

  lemma ConnectKeepsAgreement(disk: Disk, chain: seq<BlockId>, before: Index, after: Index, b: BlockId)
    requires Connectable(disk, chain, b) && Sound(disk, before) && Agrees(disk, chain, before)
    requires ConnectEffect(before, after, b, disk[b]) && LoopFree(disk, chain, before, b)
    ensures Stored(disk, chain + [b]) && Agrees(disk, chain + [b], after)
  {
    StaysOff(disk, chain, b, b);
    forall u ensures Points(disk, chain + [b], Get(after, Key(u, -1)), Newest(disk, chain + [b], u, |chain|)) {
      ConnectLatest(disk, chain, before, after, b, u);
    }
    forall u, h | 1 < h < |chain + [b]| && u in disk[(chain + [b])[h]].users
      ensures Precedes(disk, chain + [b], after, u, h)
    {
      if h < |chain| {
        assert !Returns(disk, chain, before, b, u, h);
        ConnectSavedBelow(disk, chain, before, after, b, u, h);
      } else {
        assert !Returns(disk, chain, before, b, u, h);
        ConnectSavedTop(disk, chain, before, after, b, u);
      }
    }
  }

  // ---------- disconnecting ----------

  lemma DisconnectKeeps(disk: Disk, chain: seq<BlockId>, before: Index, after: Index, b: BlockId)
    requires Connectable(disk, chain, b) && Stored(disk, chain + [b])
    requires Sound(disk, before) && Agrees(disk, chain + [b], before)
    requires DisconnectEffect(before, after, disk[b])
    ensures Sound(disk, after) && Agrees(disk, chain, after)
  {
    forall k | k in after
      ensures && after[k].block in disk && disk[after[k].block].height > 0
              && after[k].offset < |disk[after[k].block].users|
              && disk[after[k].block].users[after[k].offset] == k.user
    {
      assert Get(after, Key(k.user, k.height)) == Some(after[k]);
    }
    forall u ensures Points(disk, chain, Get(after, Key(u, -1)), Newest(disk, chain, u, |chain| - 1)) {
      DisconnectLatest(disk, chain, before, after, b, u);
    }
    forall u, h | 1 < h < |chain| && u in disk[chain[h]].users ensures Precedes(disk, chain, after, u, h) {
      assert u in disk[(chain + [b])[h]].users;
      assert Precedes(disk, chain + [b], before, u, h);
      NewestExtend(disk, chain, b, u, h - 1);
      var e := Get(before, Key(u, h - 1));
      assert Get(after, Key(u, h - 1)) == e;
      if e.Some? {
        StaysOff(disk, chain, b, e.value.block);
      }
    }
  }

  lemma DisconnectLatest(disk: Disk, chain: seq<BlockId>, before: Index, after: Index, b: BlockId, u: User)
    requires Connectable(disk, chain, b) && Stored(disk, chain + [b])
    requires Sound(disk, before) && Agrees(disk, chain + [b], before)
    requires DisconnectEffect(before, after, disk[b])
    ensures Points(disk, chain, Get(after, Key(u, -1)), Newest(disk, chain, u, |chain| - 1))
  {
    NewestExtend(disk, chain, b, u, |chain| - 1);
    var latest, saved := Get(before, Key(u, -1)), Get(before, Key(u, |chain| - 1));
    assert Points(disk, chain + [b], latest, Newest(disk, chain + [b], u, |chain|));
    if u in disk[b].users {
      if |chain| > 1 {
        assert u in disk[(chain + [b])[|chain|]].users;
        assert Precedes(disk, chain + [b], before, u, |chain|);
      }
      if saved.Some? {
        assert Get(after, Key(u, -1)) == saved;
        StaysOff(disk, chain, b, saved.value.block);
      } else {
        assert Get(after, Key(u, -1)) == latest;
      }
    } else {
      assert Get(after, Key(u, -1)) == latest;
      if latest.Some? {
        StaysOff(disk, chain, b, latest.value.block);
      }
    }
  }

  // ---------- looking up ----------

  // One round of the lookup loop at the key (u, height).
  function LookupStep(disk: Disk, chain: seq<BlockId>, index: Index, u: User, m: nat, height: int): (o: Outcome)
  {
    var entry := Get(index, Key(u, height));
    if entry.None? || entry.value.block !in disk then NotFound
    else
      var pos, block := entry.value, disk[entry.value.block];
      if pos.offset >= |block.users| || block.users[pos.offset] != u then NotFound
      else if !InMainChain(disk, chain, pos.block) then NotFound
      else if block.height <= m then Found(pos)
      else if block.height - 1 > 0 && block.height - 1 >= m then Running(block.height - 1)
      else NotFound
  }

  // At most `fuel` rounds of the lookup loop.
  function Lookup(disk: Disk, chain: seq<BlockId>, index: Index, u: User, m: nat, height: int, fuel: nat): (o: Outcome)
    decreases fuel
  {
    if fuel == 0 then Running(height)
    else
      var o := LookupStep(disk, chain, index, u, m, height);
      if o.Running? then Lookup(disk, chain, index, u, m, o.height, fuel - 1) else o
  }

  // The outcome is the user's registration at the given height, or that there is none.
  ghost predicate Answers(disk: Disk, chain: seq<BlockId>, u: User, o: Outcome, h: Option<nat>)
    requires Stored(disk, chain)
  {
    match h
    case None => o.NotFound?
    case Some(n) =>
      && o.Found? && n < |chain| && o.pos.block == chain[n]
      && o.pos.offset < |disk[chain[n]].users| && disk[chain[n]].users[o.pos.offset] == u
  }

  // Where the loop stands: at a key whose entry stands for the newest registration up to height `t`.
  ghost predicate At(disk: Disk, chain: seq<BlockId>, index: Index, u: User, m: nat, k: int, t: int)
    requires Stored(disk, chain)
  {
    && Min(m, |chain| - 1) <= t < |chain| && (k == -1 || m <= t)
    && Points(disk, chain, Get(index, Key(u, k)), Newest(disk, chain, u, t))
  }

  // The saved entries of a user agree with the chain.
  ghost predicate SavedAgree(disk: Disk, chain: seq<BlockId>, index: Index, u: User)
    requires Stored(disk, chain)
  {
    forall h | 1 < h < |chain| && u in disk[chain[h]].users :: Precedes(disk, chain, index, u, h)
  }

  // A round either answers or moves to the key below an earlier registration.
  lemma LookupRound(disk: Disk, chain: seq<BlockId>, index: Index, u: User, m: nat, k: int, t: int)
    requires Stored(disk, chain) && Sound(disk, index) && SavedAgree(disk, chain, index, u)
             && At(disk, chain, index, u, m, k, t)
    ensures var o := LookupStep(disk, chain, index, u, m, k);
            if o.Running? then 0 < o.height < t && At(disk, chain, index, u, m, o.height, o.height)
            else Answers(disk, chain, u, o, Newest(disk, chain, u, Min(m, |chain| - 1)))
  {
    hide Newest, Points, LookupStep;
    var n := Newest(disk, chain, u, t);
    if n.None? || n.value <= m {
      NewestBetween(disk, chain, u, Min(m, |chain| - 1), t);
      RoundAnswers(disk, chain, index, u, m, k, t);
    } else {
      RoundGoesOn(disk, chain, index, u, m, k, t);
      if n.value > 1 {
        assert Precedes(disk, chain, index, u, n.value);
      } else {
        NewestBetween(disk, chain, u, 0, 0);
      }
    }
  }

  lemma RoundAnswers(disk: Disk, chain: seq<BlockId>, index: Index, u: User, m: nat, k: int, t: int)
    requires Stored(disk, chain) && Sound(disk, index) && At(disk, chain, index, u, m, k, t)
    requires var n := Newest(disk, chain, u, t); n.None? || n.value <= m
    ensures Answers(disk, chain, u, LookupStep(disk, chain, index, u, m, k), Newest(disk, chain, u, t))
  {
    hide Newest;
  }

  lemma RoundGoesOn(disk: Disk, chain: seq<BlockId>, index: Index, u: User, m: nat, k: int, t: int)
    requires Stored(disk, chain) && Sound(disk, index) && At(disk, chain, index, u, m, k, t)
    requires var n := Newest(disk, chain, u, t); n.Some? && n.value > m
    ensures var n := Newest(disk, chain, u, t).value;
            LookupStep(disk, chain, index, u, m, k) == if n > 1 then Running(n - 1) else NotFound
  {
    hide Newest;
  }

  // The lookup terminates, with the answer of the reference scan.
  lemma {:induction false} LookupRight(disk: Disk, chain: seq<BlockId>, index: Index, u: User, m: nat, k: int, t: int,
                                       fuel: nat)
    requires Stored(disk, chain) && Sound(disk, index) && SavedAgree(disk, chain, index, u)
             && At(disk, chain, index, u, m, k, t)
    requires fuel > t
    ensures fuel > 0 ==> Answers(disk, chain, u, Lookup(disk, chain, index, u, m, k, fuel),
                                 Newest(disk, chain, u, Min(m, |chain| - 1)))
    decreases fuel
  {
    hide Sound, SavedAgree, At, Newest, Answers, LookupStep;
    LookupRound(disk, chain, index, u, m, k, t);
    if fuel > 0 {
      var o := LookupStep(disk, chain, index, u, m, k);
      if o.Running? {
        LookupRight(disk, chain, index, u, m, o.height, o.height, fuel - 1);
      }
    }
  }

  // Every lookup, of every user at every height, terminates with the right answer.
  ghost predicate AllLookupsRight(disk: Disk, chain: seq<BlockId>, index: Index)
    requires Stored(disk, chain)
  {
    forall u, m: nat :: LookupsRight(disk, chain, index, u, m)
  }

  ghost predicate LookupsRight(disk: Disk, chain: seq<BlockId>, index: Index, u: User, m: nat)
    requires Stored(disk, chain)
  {
    exists fuel: nat :: Answers(disk, chain, u, Lookup(disk, chain, index, u, m, -1, fuel),
                                Newest(disk, chain, u, Min(m, |chain| - 1)))
  }

  lemma AgreementMakesLookupsRight(disk: Disk, chain: seq<BlockId>, index: Index)
    requires Stored(disk, chain) && Sound(disk, index) && Agrees(disk, chain, index)
    ensures AllLookupsRight(disk, chain, index)
  {
    forall u, m: nat ensures LookupsRight(disk, chain, index, u, m) {
      LookupRight(disk, chain, index, u, m, -1, |chain| - 1, |chain|);
    }
  }

  // ---------- when a connect breaks lookups ----------

  // The first registration of `u` on the chain, at height `h`, has a saved entry that leads back to the tip.
  ghost predicate Loop(disk: Disk, chain: seq<BlockId>, index: Index, u: User, h: nat)
    requires Stored(disk, chain)
  {
    && 1 < h < |chain| && u in disk[chain[h]].users && Newest(disk, chain, u, h - 1).None?
    && LeadsTo(index, Key(u, h - 1), chain[|chain| - 1])
  }

  // A saved entry above an earlier registration is right after every connect.
  lemma ConnectSavedAboveEarlier(disk: Disk, chain: seq<BlockId>, before: Index, after: Index, b: BlockId, u: User,
                                 n: nat)
    requires Connectable(disk, chain, b) && Sound(disk, before) && Agrees(disk, chain, before)
    requires ConnectEffect(before, after, b, disk[b]) && Stored(disk, chain + [b])
    requires 1 < n <= |chain| && u in disk[(chain + [b])[n]].users && Newest(disk, chain, u, n - 1).Some?
    ensures Precedes(disk, chain + [b], after, u, n)
  {
    if n < |chain| {
      ConnectSavedBelow(disk, chain, before, after, b, u, n);
    } else {
      assert Points(disk, chain, Get(before, Key(u, -1)), Newest(disk, chain, u, |chain| - 1));
      ConnectSavedTop(disk, chain, before, after, b, u);
    }
  }

  // The saved entry of a registration at height `h` leads to the same height or up, and those above it are right.
  ghost predicate Ring(disk: Disk, chain: seq<BlockId>, index: Index, u: User, h: nat)
    requires Stored(disk, chain)
  {
    && 1 < h < |chain| && u in disk[chain[h]].users
    && (forall g | h < g < |chain| && u in disk[chain[g]].users :: Precedes(disk, chain, index, u, g))
    && var e := Get(index, Key(u, h - 1));
       e.Some? && InMainChain(disk, chain, e.value.block) && disk[e.value.block].height >= h
  }

  // Above height `h`, right saved entries lead the walk from one registration to the one before it.
  lemma StepDown(disk: Disk, chain: seq<BlockId>, index: Index, u: User, m: nat, g: nat) returns (to: nat)
    requires Stored(disk, chain) && Sound(disk, index) && 0 < m && m + 1 < g < |chain|
    requires u in disk[chain[m + 1]].users && u in disk[chain[g]].users && Precedes(disk, chain, index, u, g)
    ensures m < to < g && u in disk[chain[to]].users && LookupStep(disk, chain, index, u, m, g - 1) == Running(to - 1)
  {
    to := Newest(disk, chain, u, g - 1).value;
  }

  lemma RingStep(disk: Disk, chain: seq<BlockId>, index: Index, u: User, m: nat, g: nat) returns (to: nat)
    requires Stored(disk, chain) && Sound(disk, index) && Ring(disk, chain, index, u, m + 1)
    requires m < g < |chain| && u in disk[chain[g]].users
    ensures m < to < |chain| && u in disk[chain[to]].users
            && LookupStep(disk, chain, index, u, m, g - 1) == Running(to - 1)
  {
    hide Newest, Precedes, LookupStep;
    if g > m + 1 {
      to := StepDown(disk, chain, index, u, m, g);
    } else {
      to := RingClose(disk, chain, index, u, m);
    }
  }

  lemma RingClose(disk: Disk, chain: seq<BlockId>, index: Index, u: User, m: nat) returns (to: nat)
    requires Stored(disk, chain) && Sound(disk, index) && Ring(disk, chain, index, u, m + 1)
    ensures m < to < |chain| && u in disk[chain[to]].users && LookupStep(disk, chain, index, u, m, m) == Running(to - 1)
  {
    hide Precedes;
    to := disk[index[Key(u, m)].block].height;
  }

  // A walk that comes to the saved entry of a registration on the ring goes round for ever.
  lemma {:induction false} RingForever(disk: Disk, chain: seq<BlockId>, index: Index, u: User, m: nat, g: nat,
                                       fuel: nat)
    requires Stored(disk, chain) && Sound(disk, index) && Ring(disk, chain, index, u, m + 1)
    requires m < g < |chain| && u in disk[chain[g]].users
    ensures Lookup(disk, chain, index, u, m, g - 1, fuel).Running?
    decreases fuel
  {
    hide Ring, Sound, LookupStep;
    if fuel > 0 {
      var to := RingStep(disk, chain, index, u, m, g);
      RingForever(disk, chain, index, u, m, to, fuel - 1);
    }
  }

  lemma RingBreaksLookup(disk: Disk, chain: seq<BlockId>, index: Index, u: User, m: nat)
    requires Stored(disk, chain) && Sound(disk, index) && Ring(disk, chain, index, u, m + 1)
    requires Points(disk, chain, Get(index, Key(u, -1)), Newest(disk, chain, u, |chain| - 1))
    ensures NeverEnds(disk, chain, index, u, m)
  {
    hide Precedes, Lookup;
    var g := Newest(disk, chain, u, |chain| - 1);
    assert g.Some? && g.value > m;
    assert LookupStep(disk, chain, index, u, m, -1) == Running(g.value - 1);
    forall fuel: nat ensures Lookup(disk, chain, index, u, m, -1, fuel).Running? {
      LookupUnfolds(disk, chain, index, u, m, -1, fuel);
      if fuel > 0 {
        RingForever(disk, chain, index, u, m, g.value, fuel - 1);
      }
    }
  }

  lemma LookupUnfolds(disk: Disk, chain: seq<BlockId>, index: Index, u: User, m: nat, k: int, fuel: nat)
    ensures Lookup(disk, chain, index, u, m, k, fuel)
         == if fuel == 0 then Running(k)
            else var o := LookupStep(disk, chain, index, u, m, k);
                 if o.Running? then Lookup(disk, chain, index, u, m, o.height, fuel - 1) else o
  {
  }

  // However many rounds it gets, the lookup is not done.
  ghost predicate NeverEnds(disk: Disk, chain: seq<BlockId>, index: Index, u: User, m: nat) {
    forall fuel: nat :: Lookup(disk, chain, index, u, m, -1, fuel).Running?
  }

  // A loop makes the lookup of its user below its height run for ever.
  lemma LoopBreaksLookup(disk: Disk, chain: seq<BlockId>, before: Index, after: Index, b: BlockId, u: User, h: nat)
    requires Connectable(disk, chain, b) && Sound(disk, before) && Agrees(disk, chain, before)
    requires ConnectEffect(before, after, b, disk[b]) && Sound(disk, after)
    requires Stored(disk, chain + [b]) && Loop(disk, chain + [b], after, u, h)
    ensures NeverEnds(disk, chain + [b], after, u, h - 1)
  {
    hide ConnectEffect, Agrees;
    var chain' := chain + [b];
    forall g | h < g < |chain'| && u in disk[chain'[g]].users ensures Precedes(disk, chain', after, u, g) {
      assert chain[h] == chain'[h];
      ConnectSavedAboveEarlier(disk, chain, before, after, b, u, g);
    }
    ConnectLatest(disk, chain, before, after, b, u);
    RingBreaksLookup(disk, chain', after, u, h - 1);
  }

  // ---------- lookups are right exactly when the index agrees ----------

  // If every lookup is right then so is the saved entry of a registration, given those above it.
  lemma RightLookupsPrecede(disk: Disk, chain: seq<BlockId>, index: Index, u: User, m: nat)
    requires Stored(disk, chain) && Sound(disk, index) && AllLookupsRight(disk, chain, index)
    requires 0 < m && m + 1 < |chain| && u in disk[chain[m + 1]].users
    requires forall g | m + 1 < g < |chain| && u in disk[chain[g]].users :: Precedes(disk, chain, index, u, g)
    ensures Precedes(disk, chain, index, u, m + 1)
  {
    hide Precedes, Sound, Ring;
    RightLookupsLatest(disk, chain, index, u);
    assert LookupsRight(disk, chain, index, u, m);
    var fuel: nat :| Answers(disk, chain, u, Lookup(disk, chain, index, u, m, -1, fuel), Newest(disk, chain, u, m));
    if Ring(disk, chain, index, u, m + 1) {
      RingBreaksLookup(disk, chain, index, u, m);
    } else {
      var g := Newest(disk, chain, u, |chain| - 1);
      FirstStep(disk, chain, index, u, m);
      WalkAnswers(disk, chain, index, u, m, g.value, fuel - 1);
    }
  }

  lemma FirstStep(disk: Disk, chain: seq<BlockId>, index: Index, u: User, m: nat)
    requires Stored(disk, chain) && Sound(disk, index) && 0 < m && m + 1 < |chain| && u in disk[chain[m + 1]].users
    requires Points(disk, chain, Get(index, Key(u, -1)), Newest(disk, chain, u, |chain| - 1))
    ensures var g := Newest(disk, chain, u, |chain| - 1);
            g.Some? && m < g.value && LookupStep(disk, chain, index, u, m, -1) == Running(g.value - 1)
  {
  }

  // Down the right saved entries the walk comes to the one in question, which then gives the answer.
  lemma {:induction false} WalkAnswers(disk: Disk, chain: seq<BlockId>, index: Index, u: User, m: nat, g: nat,
                                       fuel: nat)
    requires Stored(disk, chain) && Sound(disk, index) && !Ring(disk, chain, index, u, m + 1)
    requires 0 < m < g < |chain| && u in disk[chain[m + 1]].users && u in disk[chain[g]].users
    requires forall k | m + 1 < k < |chain| && u in disk[chain[k]].users :: Precedes(disk, chain, index, u, k)
    requires Answers(disk, chain, u, Lookup(disk, chain, index, u, m, g - 1, fuel), Newest(disk, chain, u, m))
    ensures Precedes(disk, chain, index, u, m + 1)
    decreases fuel
  {
    hide Precedes, Sound, Ring, LookupStep;
    if g > m + 1 {
      var to := StepDown(disk, chain, index, u, m, g);
      WalkAnswers(disk, chain, index, u, m, to, fuel - 1);
    } else {
      LastStep(disk, chain, index, u, m, fuel);
    }
  }

  lemma LastStep(disk: Disk, chain: seq<BlockId>, index: Index, u: User, m: nat, fuel: nat)
    requires Stored(disk, chain) && Sound(disk, index) && !Ring(disk, chain, index, u, m + 1)
    requires 0 < m && m + 1 < |chain| && u in disk[chain[m + 1]].users
    requires forall k | m + 1 < k < |chain| && u in disk[chain[k]].users :: Precedes(disk, chain, index, u, k)
    requires Answers(disk, chain, u, Lookup(disk, chain, index, u, m, m, fuel), Newest(disk, chain, u, m))
    ensures Precedes(disk, chain, index, u, m + 1)
  {
    hide Lookup;
    LookupUnfolds(disk, chain, index, u, m, m, fuel);
  }

  lemma RightLookupsLatest(disk: Disk, chain: seq<BlockId>, index: Index, u: User)
    requires Stored(disk, chain) && Sound(disk, index) && AllLookupsRight(disk, chain, index)
    ensures Points(disk, chain, Get(index, Key(u, -1)), Newest(disk, chain, u, |chain| - 1))
  {
    hide Newest;
    assert LookupsRight(disk, chain, index, u, |chain| - 1);
    var fuel: nat :| Answers(disk, chain, u, Lookup(disk, chain, index, u, |chain| - 1, -1, fuel),
                             Newest(disk, chain, u, |chain| - 1));
  }

  lemma {:induction false} RightLookupsSaved(disk: Disk, chain: seq<BlockId>, index: Index, u: User, h: nat)
    requires Stored(disk, chain) && Sound(disk, index) && AllLookupsRight(disk, chain, index) && 1 < h <= |chain|
    ensures forall g | h <= g < |chain| && u in disk[chain[g]].users :: Precedes(disk, chain, index, u, g)
    decreases |chain| - h
  {
    hide Precedes, AllLookupsRight, Sound;
    if h < |chain| {
      RightLookupsSaved(disk, chain, index, u, h + 1);
      if u in disk[chain[h]].users {
        RightLookupsPrecede(disk, chain, index, u, h - 1);
      }
    }
  }

  // The agreement is not only enough: whenever all lookups are right, the index agrees with the chain.
  lemma LookupsRightIff(disk: Disk, chain: seq<BlockId>, index: Index)
    requires Stored(disk, chain) && Sound(disk, index)
    ensures AllLookupsRight(disk, chain, index) <==> Agrees(disk, chain, index)
  {
    hide Precedes, AllLookupsRight, Sound, Newest;
    if Agrees(disk, chain, index) {
      AgreementMakesLookupsRight(disk, chain, index);
    }
    if AllLookupsRight(disk, chain, index) {
      forall u ensures Points(disk, chain, Get(index, Key(u, -1)), Newest(disk, chain, u, |chain| - 1)) {
        RightLookupsLatest(disk, chain, index, u);
      }
      forall u, h | 1 < h < |chain| && u in disk[chain[h]].users ensures Precedes(disk, chain, index, u, h) {
        RightLookupsSaved(disk, chain, index, u, 2);
      }
    }
  }

  lemma ReturningMakesLoop(disk: Disk, chain: seq<BlockId>, before: Index, after: Index, b: BlockId, u: User, h: nat)
    requires Connectable(disk, chain, b) && Sound(disk, before) && Agrees(disk, chain, before)
    requires ConnectEffect(before, after, b, disk[b])
    requires Returns(disk, chain, before, b, u, h)
    ensures Stored(disk, chain + [b]) && Loop(disk, chain + [b], after, u, h)
  {
    StaysOff(disk, chain, b, b);
    assert Points(disk, chain, Get(before, Key(u, -1)), Newest(disk, chain, u, |chain| - 1));
    NewestExtend(disk, chain, b, u, h - 1);
    assert Get(after, Key(u, h - 1)) == Get(before, Key(u, h - 1));
  }

  // After connecting a block all lookups are right if and only if the block was loop free.
  lemma ConnectExact(disk: Disk, chain: seq<BlockId>, before: Index, after: Index, b: BlockId)
    requires Connectable(disk, chain, b) && Sound(disk, before) && Agrees(disk, chain, before)
    requires ConnectEffect(before, after, b, disk[b])
    ensures Stored(disk, chain + [b])
    ensures AllLookupsRight(disk, chain + [b], after) <==> LoopFree(disk, chain, before, b)
  {
    hide ConnectEffect, Agrees, Lookup, Newest;
    ConnectKeepsSound(disk, chain, before, after, b);
    StaysOff(disk, chain, b, b);
    if LoopFree(disk, chain, before, b) {
      ConnectKeepsAgreement(disk, chain, before, after, b);
      AgreementMakesLookupsRight(disk, chain + [b], after);
    } else {
      var u, h: nat :| Returns(disk, chain, before, b, u, h);
      ReturningMakesLoop(disk, chain, before, after, b, u, h);
      LoopBreaksLookup(disk, chain, before, after, b, u, h);
      assert !LookupsRight(disk, chain + [b], after, u, h - 1);
    }
  }

  lemma ConnectAgreesIff(disk: Disk, chain: seq<BlockId>, before: Index, after: Index, b: BlockId)
    requires Connectable(disk, chain, b) && Sound(disk, before) && Agrees(disk, chain, before)
    requires ConnectEffect(before, after, b, disk[b])
    ensures Stored(disk, chain + [b]) && Sound(disk, after)
    ensures Agrees(disk, chain + [b], after) <==> LoopFree(disk, chain, before, b)
  {
    hide ConnectEffect, Agrees, Sound, LoopFree, AllLookupsRight;
    ConnectKeepsSound(disk, chain, before, after, b);
    ConnectExact(disk, chain, before, after, b);
    LookupsRightIff(disk, chain + [b], after);
  }

  // A block that no entry leads to is loop free; so is every block that was never connected before.
  lemma UnreferencedIsLoopFree(disk: Disk, chain: seq<BlockId>, index: Index, b: BlockId)
    requires Stored(disk, chain) && b in disk
    requires forall k | k in index :: index[k].block != b
    ensures LoopFree(disk, chain, index, b)
  {
  }

  // The histories that do loop: a block brings a new user, is disconnected, gives way to a rival block
  // at the same height with the same user, which is disconnected too; then the first one is connected again.
  lemma ReconnectAfterRivalLoops(disk: Disk, chain: seq<BlockId>, i0: Index, i1: Index, i2: Index, i3: Index, i4: Index,
                                 b: BlockId, rival: BlockId, u: User)
    requires Connectable(disk, chain, b) && Connectable(disk, chain, rival) && b != rival && |chain| > 1
    requires u in disk[b].users && u in disk[rival].users
    requires Key(u, -1) !in i0 && Key(u, |chain| - 1) !in i0
    requires ConnectEffect(i0, i1, b, disk[b]) && DisconnectEffect(i1, i2, disk[b])
    requires ConnectEffect(i2, i3, rival, disk[rival]) && DisconnectEffect(i3, i4, disk[rival])
    ensures !LoopFree(disk, chain, i4, b)
  {
    var top := |chain| - 1;
    assert Get(i1, Key(u, -1)).Some? && Get(i1, Key(u, top)) == Get(i0, Key(u, top)) == None;
    assert Get(i2, Key(u, -1)) == Get(i1, Key(u, -1));
    assert Get(i3, Key(u, top)) == Get(i2, Key(u, -1));
    assert Get(i4, Key(u, -1)) == Get(i3, Key(u, top)) == Get(i4, Key(u, top));
    assert Returns(disk, chain, i4, b, u, |chain|);
  }

  // Disconnecting the block just connected brings every lookup on the old chain back to its answer.
  lemma DisconnectUndoesConnect(disk: Disk, chain: seq<BlockId>, i0: Index, i1: Index, i2: Index, b: BlockId, u: User,
                                m: nat)
    requires Connectable(disk, chain, b) && Sound(disk, i0) && Agrees(disk, chain, i0) && LoopFree(disk, chain, i0, b)
    requires ConnectEffect(i0, i1, b, disk[b]) && DisconnectEffect(i1, i2, disk[b])
    ensures LookupsRight(disk, chain, i0, u, m) && LookupsRight(disk, chain, i2, u, m)
  {
    ConnectKeepsSound(disk, chain, i0, i1, b);
    ConnectKeepsAgreement(disk, chain, i0, i1, b);
    DisconnectKeeps(disk, chain, i1, i2, b);
    AgreementMakesLookupsRight(disk, chain, i0);
    AgreementMakesLookupsRight(disk, chain, i2);
  }

  // The index after a batch of writes.
  function Batch(index: Index, writes: seq<(Key, Pos)>): Index {
    if writes == [] then index
    else Batch(index, writes[..|writes| - 1])[writes[|writes| - 1].0 := writes[|writes| - 1].1]
  }

  lemma BatchAppend(index: Index, writes: seq<(Key, Pos)>, w: (Key, Pos))
    ensures Batch(index, writes + [w]) == Batch(index, writes)[w.0 := w.1]
  {
    assert (writes + [w])[..|writes|] == writes;
  }

  lemma {:induction false} NewestStored(disk: Disk, chain: seq<BlockId>, b: BlockId, block: Block, u: User, m: int)
    requires Stored(disk, chain) && b !in disk && m < |chain|
    ensures Stored(disk[b := block], chain)
    ensures Newest(disk[b := block], chain, u, m) == Newest(disk, chain, u, m)
    decreases m
  {
    if m > 0 {
      NewestStored(disk, chain, b, block, u, m - 1);
    }
  }

  // A stored block that is on no chain yet changes no answer.
  lemma StoringKeeps(disk: Disk, chain: seq<BlockId>, index: Index, b: BlockId, block: Block)
    requires Stored(disk, chain) && Sound(disk, index) && Agrees(disk, chain, index) && b !in disk
    ensures Stored(disk[b := block], chain) && Sound(disk[b := block], index) && Agrees(disk[b := block], chain, index)
  {
    var after := disk[b := block];
    forall u ensures Points(after, chain, Get(index, Key(u, -1)), Newest(after, chain, u, |chain| - 1)) {
      PointsStored(disk, chain, index, b, block, u, -1, |chain| - 1);
    }
    forall u, h | 1 < h < |chain| && u in after[chain[h]].users ensures Precedes(after, chain, index, u, h) {
      assert u in disk[chain[h]].users;
      assert Precedes(disk, chain, index, u, h);
      PointsStored(disk, chain, index, b, block, u, h - 1, h - 1);
    }
  }

  lemma PointsStored(disk: Disk, chain: seq<BlockId>, index: Index, b: BlockId, block: Block, u: User, k: int, m: int)
    requires Stored(disk, chain) && Sound(disk, index) && b !in disk && m < |chain|
    requires Points(disk, chain, Get(index, Key(u, k)), Newest(disk, chain, u, m))
    ensures Stored(disk[b := block], chain)
    ensures Points(disk[b := block], chain, Get(index, Key(u, k)), Newest(disk[b := block], chain, u, m))
  {
    NewestStored(disk, chain, b, block, u, m);
  }

  lemma OneMoreUser(index: Index, done: Index, after: Index, b: BlockId, block: Block, i: nat)
    requires Distinct(block.users) && block.height > 0 && i < |block.users|
    requires ConnectEffect(index, done, b, Block(block.height, block.users[..i]))
    requires var u, prior := block.users[i], Get(index, Key(block.users[i], -1));
             after == var first := done[Key(u, -1) := Pos(b, i)];
                      if prior.Some? && prior.value.block != b then first[Key(u, block.height - 1) := prior.value]
                        else first
    ensures ConnectEffect(index, after, b, Block(block.height, block.users[..i + 1]))
  {
    var before, more := block.users[..i], block.users[..i + 1];
    assert more == before + [block.users[i]];
    assert forall u :: u in more <==> u in before || u == block.users[i];
    assert block.users[i] !in before;
    assert forall k | 0 <= k < i :: more[k] == before[k];
  }

  lemma OneMoreRestored(index: Index, done: Index, after: Index, block: Block, i: nat)
    requires Distinct(block.users) && block.height > 0 && i < |block.users|
    requires DisconnectEffect(index, done, Block(block.height, block.users[i + 1..]))
    requires var u := block.users[i];
             var saved := Get(done, Key(u, block.height - 1));
             after == if saved.Some? then done[Key(u, -1) := saved.value] else done
    ensures DisconnectEffect(index, after, Block(block.height, block.users[i..]))
  {
    assert block.users[i..] == [block.users[i]] + block.users[i + 1..];
  }
}
