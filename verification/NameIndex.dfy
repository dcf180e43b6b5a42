/**
 The username index as the node keeps it: `GetTransaction`, the check and the
 writes of `ConnectBlock`, `DisconnectBlock`, and a reorganisation made of them.
 */
module NameIndex {
  import opened Arithmetic
  import opened Options
  import opened TxIndex
  import opened NameHistory
  import opened NameSwitch

  // A lookup comes to an end: it leaves the chain at once, or the saved entries lead it down.
  ghost predicate Walkable(disk: Disk, chain: seq<BlockId>, index: Index, u: User)
    requires Stored(disk, chain)
  {
    Key(u, -1) in index && InMainChain(disk, chain, index[Key(u, -1)].block) ==> SavedAgree(disk, chain, index, u)
  }

  // How a lookup ends.
  ghost predicate Ends(disk: Disk, chain: seq<BlockId>, index: Index, u: User, m: nat, o: Outcome) {
    !o.Running? && exists fuel: nat :: o == Lookup(disk, chain, index, u, m, -1, fuel)
  }

  // A registration passes the check when its user is not found, when the one found up to the height of the block
  // is the same or has signed the new one, or when there is none up to that height.
  ghost predicate Admitted(disk: Disk, chain: seq<BlockId>, index: Index, b: BlockId, i: nat,
                           permits: (Pos, Pos) -> bool)
    requires |chain| > 0 && b in disk && i < |disk[b].users|
  {
    var u, height := disk[b].users[i], disk[b].height;
    || Misses(disk, chain, index, u, |chain| - 1)
    || Erases(disk, chain, index, u, height)
    || exists fuel: nat, p :: Lookup(disk, chain, index, u, height, -1, fuel) == Found(p) && permits(p, Pos(b, i))
  }

  ghost predicate Passes(disk: Disk, chain: seq<BlockId>, index: Index, b: BlockId, permits: (Pos, Pos) -> bool)
    requires |chain| > 0 && b in disk
  {
    forall i | 0 <= i < |disk[b].users| :: Admitted(disk, chain, index, b, i, permits)
  }

  // The first registration of a block that does not pass.
  ghost predicate FailsAt(disk: Disk, chain: seq<BlockId>, index: Index, b: BlockId, permits: (Pos, Pos) -> bool,
                          k: nat)
    requires |chain| > 0 && b in disk
  {
    && k < |disk[b].users| && !Admitted(disk, chain, index, b, k, permits)
    && forall i | 0 <= i < k :: Admitted(disk, chain, index, b, i, permits)
  }

  // The blocks of a new branch pass their checks, each against the index that the blocks before it left.
  ghost predicate AllPass(disk: Disk, chain: seq<BlockId>, index: Index, blocks: seq<BlockId>, j: nat,
                          permits: (Pos, Pos) -> bool)
    requires |chain| > 0 && j <= |blocks| && forall b | b in blocks :: b in disk
  {
    forall i | 0 <= i < j :: Passes(disk, chain, Redo(disk, chain, index, blocks, i), blocks[i], permits)
  }

  // Why a branch is refused: the world's answer to the last question, or a block that fails its check.
  ghost predicate Declined(disk: Disk, chain: seq<BlockId>, index: Index, blocks: seq<BlockId>, r: Refusal,
                           permits: (Pos, Pos) -> bool, answer: bool)
    requires |chain| > 0 && forall b | b in blocks :: b in disk
  {
    && r.blocks < blocks && AllPass(disk, chain, index, blocks, |r.blocks|, permits)
    && match r.failing {
      case None => !answer
      case Some(b) =>
        && answer && b == blocks[|r.blocks|]
        && FailsAt(disk, chain, Redo(disk, chain, index, blocks, |r.blocks|), b, permits, r.checked)
    }
  }

  class NameIndex {
    var index: Index
    var disk: Disk
    // `vBlockIndexByHeight`; its last height is `nBestHeight`.
    var chain: seq<BlockId>
    // Whether a registration may follow an older one of the same user: the same transaction or a signed replacement.
    const permits: (Pos, Pos) -> bool
    // Whether reading, undoing and otherwise checking the next block succeeds, and how often that was asked.
    const world: nat -> bool
    var asked: nat

    // What holds at all times, in the middle of a reorganisation too.
    ghost predicate Steady()
      reads `index, `disk, `chain
    {
      Stored(disk, chain) && Sound(disk, index) && forall b | b in disk :: Distinct(disk[b].users)
    }

    ghost predicate Valid()
      reads `index, `disk, `chain
    {
      Steady() && Agrees(disk, chain, index)
    }

    constructor (genesis: BlockId, users: seq<User>, allowed: (Pos, Pos) -> bool, answers: nat -> bool)
      requires Distinct(users)
      ensures Valid() && chain == [genesis] && index == map[] && disk == map[genesis := Block(0, users)]
      ensures permits == allowed && world == answers && asked == 0
    {
      index, disk, chain := map[], map[genesis := Block(0, users)], [genesis];
      permits, world, asked := allowed, answers, 0;
    }

    // A block checked for duplicate usernames is written to disk before it is ever connected.
    method StoreBlock(b: BlockId, block: Block)
      requires Valid() && b !in disk && Distinct(block.users)
      modifies this`disk
      ensures Valid() && disk == old(disk)[b := block]
      ensures LoopFree(disk, chain, index, b)
    {
      StoringKeeps(disk, chain, index, b, block);
      disk := disk[b := block];
      UnreferencedIsLoopFree(disk, chain, index, b);
    }

    // A negative bound means the whole chain.
    method GetTransaction(username: User, maxHeight: int) returns (o: Outcome)
      requires Steady() && Walkable(disk, chain, index, username)
      ensures !o.Running? && Ends(disk, chain, index, username, if maxHeight < 0 then |chain| - 1 else maxHeight, o)
      ensures Agrees(disk, chain, index) ==>
                var m := if maxHeight < 0 then |chain| - 1 else Min(maxHeight, |chain| - 1);
                Answers(disk, chain, username, o, Newest(disk, chain, username, m))
    {
      hide Sound, Agrees, Points, LookupStep, Newest, SavedAgree, Lookup, AllLookupsRight;
      var m: nat := if maxHeight < 0 then |chain| - 1 else maxHeight;
      ghost var fuel := FirstRound(disk, chain, index, username, m);
      ghost var end := Lookup(disk, chain, index, username, m, -1, fuel);
      o := Running(-1);
      while o.Running?
        invariant if o.Running? then Lookup(disk, chain, index, username, m, o.height, fuel) == end else o == end
        invariant !end.Running?
        decreases if o.Running? then 1 + fuel else 0
      {
        LookupUnfolds(disk, chain, index, username, m, o.height, fuel);
        o := LookupStep(disk, chain, index, username, m, o.height);
        fuel := if fuel > 0 then fuel - 1 else 0;
      }
      if Agrees(disk, chain, index) {
        EndIsRight(disk, chain, index, username, m, o);
      }
    }

    // The check of `ConnectBlock` on the registrations of a block, which may erase latest entries.
    method CheckUsers(b: BlockId) returns (ok: bool, ghost checked: nat)
      requires Steady() && b in disk && forall u | u in disk[b].users :: Walkable(disk, chain, index, u)
      modifies this`index
      ensures Steady() && checked <= |disk[b].users|
      ensures index == Erased(old(index), ErasedBy(disk, chain, old(index), disk[b], checked))
      ensures ok <==> Passes(disk, chain, old(index), b, permits)
      ensures ok <==> checked == |disk[b].users|
      ensures !ok ==> FailsAt(disk, chain, old(index), b, permits, checked)
    {
      hide Sound, Erases, Admitted, Erased, Walkable, Ends;
      var block := disk[b];
      NothingErased(disk, chain, index, block);
      checked := 0;
      for i := 0 to |block.users|
        invariant Steady() && checked == i
        invariant index == Erased(old(index), ErasedBy(disk, chain, old(index), block, i))
        invariant forall k | 0 <= k < i :: Admitted(disk, chain, old(index), b, k, permits)
      {
        var u := block.users[i];
        OneMoreChecked(disk, chain, old(index), block, i);
        var o := GetTransaction(u, -1);
        var replaced := NotFound;
        if o.Found? {
          replaced := GetTransaction(u, block.height);
        }
        CheckOutcome(disk, chain, old(index), index, b, i, permits, o, replaced);
        if o.Found? {
          if replaced.Found? {
            if !permits(replaced.pos, Pos(b, i)) {
              return false, checked;
            }
          } else if Key(u, -1) in index {
            ErasedOnce(disk, old(index), ErasedBy(disk, chain, old(index), block, i), u);
            index := index - {Key(u, -1)};
          } else {
            return false, checked;
          }
        }
        checked := checked + 1;
      }
      ok := true;
    }

    // `DisconnectBlock`: users in reverse order get their saved entries back.
    method DisconnectBlock(b: BlockId)
      requires Steady() && b in disk && disk[b].height > 0
      modifies this`index
      ensures index == Restored(old(index), disk[b])
    {
      var block := disk[b];
      var i := |block.users|;
      while i > 0
        invariant 0 <= i <= |block.users|
        invariant DisconnectEffect(old(index), index, Block(block.height, block.users[i..]))
      {
        i := i - 1;
        var u := block.users[i];
        ghost var done := index;
        var oldPos := Get(index, Key(u, block.height - 1));
        if oldPos.Some? {
          index := index[Key(u, -1) := oldPos.value];
        }
        OneMoreRestored(old(index), done, index, block, i);
      }
      assert block.users[0..] == block.users;
      RestoredUnique(old(index), index, block);
    }

    // The batch of writes for a block that passed the check.
    method ListWrites(b: BlockId, block: Block) returns (vPos: seq<(Key, Pos)>)
      ensures Batch(index, vPos) == Entered(index, b, block)
    {
      vPos := [];
      for i := 0 to |block.users|
        invariant Batch(index, vPos) == EnteredUsers(index, b, block, i)
      {
        var u := block.users[i];
        BatchAppend(index, vPos, (Key(u, -1), Pos(b, i)));
        vPos := vPos + [(Key(u, -1), Pos(b, i))];
        var oldPos := Get(index, Key(u, -1));
        if oldPos.Some? && oldPos.value.block != b {
          BatchAppend(index, vPos, (Key(u, block.height - 1), oldPos.value));
          vPos := vPos + [(Key(u, block.height - 1), oldPos.value)];
        }
      }
    }

    method WriteTxIndex(vPos: seq<(Key, Pos)>)
      modifies this`index
      ensures index == Batch(old(index), vPos)
    {
      for i := 0 to |vPos|
        invariant index == Batch(old(index), vPos[..i])
      {
        index := index[vPos[i].0 := vPos[i].1];
        BatchAppend(old(index), vPos[..i], vPos[i]);
        assert vPos[..i + 1] == vPos[..i] + [vPos[i]];
      }
      assert vPos[..|vPos|] == vPos;
    }

    // The index part of `ConnectBlock`: a block that is refused by its check may have lost entries on the way.
    method ConnectBlock(b: BlockId) returns (ok: bool, ghost checked: nat)
      requires Steady() && b in disk && disk[b].height > 0
               && forall u | u in disk[b].users :: Walkable(disk, chain, index, u)
      modifies this`index
      ensures checked <= |disk[b].users|
      ensures ok <==> Passes(disk, chain, old(index), b, permits)
      ensures ok <==> checked == |disk[b].users|
      ensures !ok ==> FailsAt(disk, chain, old(index), b, permits, checked)
      ensures index == if ok then Entered(Checked(disk, chain, old(index), disk[b]), b, disk[b])
                       else Erased(old(index), ErasedBy(disk, chain, old(index), disk[b], checked))
    {
      hide Sound, Erases, Admitted, Passes, FailsAt, Erased, Walkable, Entered;
      ok, checked := CheckUsers(b);
      if ok {
        var vPos := ListWrites(b, disk[b]);
        WriteTxIndex(vPos);
      }
    }

    // Disconnect the blocks from height `n` up. The one that cannot be disconnected is left in place with all below.
    method DisconnectDown(n: nat) returns (ok: bool, ghost to: nat)
      requires Valid() && 1 <= n <= |chain|
      modifies this`index, this`asked
      ensures n <= to <= |chain| && (ok <==> to == n) && index == Undo(disk, chain, old(index), to) && Steady()
      ensures asked == old(asked) + (|chain| - to) + (if ok then 0 else 1)
      ensures if ok then forall q | old(asked) <= q < asked :: world(q) else !world(asked - 1)
    {
      hide Agrees, Sound, Restored, Undo;
      UndoStart(disk, chain, index);
      var h := |chain|;
      while h > n
        invariant n <= h <= |chain| && index == Undo(disk, chain, old(index), h)
        invariant asked == old(asked) + (|chain| - h) && forall q | old(asked) <= q < asked :: world(q)
      {
        UndoRight(disk, chain, old(index), h);
        asked := asked + 1;
        if !world(asked - 1) {
          return false, h;
        }
        h := h - 1;
        DisconnectBlock(chain[h]);
        UndoNext(disk, chain, old(index), h);
      }
      UndoRight(disk, chain, old(index), n);
      return true, n;
    }

    // Connect the blocks of the new branch, each after its check against the old chain.
    method ConnectUp(n: nat, blocks: seq<BlockId>, ghost before: Index) returns (ok: bool, ghost r: Refusal)
      requires Steady() && Branch(disk, chain, n, blocks) && forall b | b in blocks :: b in disk
      requires Sound(disk, before) && Agrees(disk, chain, before) && index == Undo(disk, chain, before, n)
      modifies this`index, this`asked
      ensures ok ==> index == Redo(disk, chain, Undo(disk, chain, before, n), blocks, |blocks|)
      ensures ok ==> asked == old(asked) + |blocks| && forall q | old(asked) <= q < asked :: world(q)
      ensures ok ==> AllPass(disk, chain, old(index), blocks, |blocks|, permits)
      ensures !ok ==>
                Refuses(disk, chain, r) && r.n == n && r.blocks <= blocks
                && index == RefusedIndex(disk, chain, before, r)
      ensures !ok ==> asked == old(asked) + |r.blocks| + 1
                      && Declined(disk, chain, old(index), blocks, r, permits, world(asked - 1))
    {
      hide Agrees, Sound, Undo, Redo, Branch, Erased, Erases, Entered, Halfway, Walkable, Admitted, Passes, FailsAt;
      PrefixStored(disk, chain, n, blocks);
      ghost var start := index;
      RedoStart(disk, chain, start, blocks);
      r := Refusal(n, [], None, 0);
      for j := 0 to |blocks|
        invariant Steady() && index == Redo(disk, chain, start, blocks, j)
        invariant asked == old(asked) + j && forall q | old(asked) <= q < asked :: world(q)
        invariant AllPass(disk, chain, start, blocks, j, permits)
      {
        NewChainStored(disk, chain, n, blocks, j);
        asked := asked + 1;
        if !world(asked - 1) {
          r := Refusal(n, blocks[..j], None, 0);
          RefusedHere(disk, chain, before, n, blocks, j, r);
          return false, r;
        }
        RedoHalfway(disk, chain, before, n, blocks, j);
        forall u | u in disk[blocks[j]].users ensures Walkable(disk, chain, index, u) {
          HalfwayWalks(disk, chain, before, n, index, UsersOf(disk, blocks, j), u);
        }
        ghost var checked;
        ok, checked := ConnectBlock(blocks[j]);
        if !ok {
          r := Refusal(n, blocks[..j], Some(blocks[j]), checked);
          RefusedHere(disk, chain, before, n, blocks, j, r);
          return false, r;
        }
        RedoNext(disk, chain, start, blocks, j);
        UndoRight(disk, chain, before, n);
        RedoSound(disk, chain, start, n, blocks, j + 1);
      }
      return true, r;
    }

    // One reorganisation. The vector is replaced at the end of a successful one; after it all lookups are right if and
    // only if every block was loop free when it was connected. A refused one leaves the vector and has changed the
    // index; all lookups are right then if and only if it was harmless.
    method Reorganise(n: nat, blocks: seq<BlockId>) returns (ok: bool, ghost r: Refusal)
      requires Valid() && Branch(disk, chain, n, blocks) && forall b | b in blocks :: b in disk
      modifies this`index, this`chain, this`asked
      ensures Steady()
      ensures ok ==>
                && chain == NewChain(old(chain), n, blocks, |blocks|)
                && index == Redo(disk, old(chain), Undo(disk, old(chain), old(index), n), blocks, |blocks|)
                && (AllLookupsRight(disk, chain, index)
                    <==> AllFree(disk, old(chain), Undo(disk, old(chain), old(index), n), n, blocks))
                && (AllLookupsRight(disk, chain, index) <==> Valid())
      ensures ok ==>
                && asked == old(asked) + |old(chain)| - n + |blocks| && (forall q | old(asked) <= q < asked :: world(q))
                && AllPass(disk, old(chain), Undo(disk, old(chain), old(index), n), blocks, |blocks|, permits)
      ensures !ok ==>
                && chain == old(chain) && n <= r.n <= |chain|
                && asked == old(asked) + (|chain| - r.n) + |r.blocks| + 1
                && if r.n > n then r == Refusal(r.n, [], None, 0) && !world(asked - 1)
                   else Declined(disk, chain, Undo(disk, chain, old(index), n), blocks, r, permits, world(asked - 1))
      ensures Moves(disk, State(old(chain), old(index)), if ok then Switched(n, blocks) else Refused(r),
                    State(chain, index))
      ensures !ok ==>
                && chain == old(chain) && Refuses(disk, chain, r) && index == RefusedIndex(disk, chain, old(index), r)
                && (AllLookupsRight(disk, chain, index) <==> Harmless(disk, chain, old(index), r))
                && (AllLookupsRight(disk, chain, index) <==> Valid())
    {
      hide Agrees, Sound, Undo, Redo, Branch, RefusedIndex, Harmless, AllFree, AllLookupsRight, NewChain, AllPass;
      hide Declined, Refuses;
      PrefixStored(disk, chain, n, blocks);
      ghost var to;
      ok, to := DisconnectDown(n);
      if !ok {
        r := Refusal(to, [], None, 0);
        RefusedDown(disk, chain, old(index), n, blocks, to);
      } else {
        ok, r := ConnectUp(n, blocks, old(index));
      }
      if ok {
        SwitchExact(disk, chain, old(index), n, blocks);
        chain := ReplaceFrom(n, blocks);
      } else {
        RefusedExact(disk, chain, old(index), r);
      }
    }

    method ReplaceFrom(n: nat, blocks: seq<BlockId>) returns (r: seq<BlockId>)
      requires n <= |chain|
      ensures r == NewChain(chain, n, blocks, |blocks|)
    {
      assert blocks[..|blocks|] == blocks;
      r := chain[..n] + blocks;
    }
  }

  // ---------- a reorganisation ----------

  // In the middle of a switch every lookup comes to an end.
  lemma HalfwayWalks(disk: Disk, chain: seq<BlockId>, index: Index, n: nat, now: Index, connected: set<User>, u: User)
    requires Stored(disk, chain) && 1 <= n <= |chain| && Agrees(disk, chain, index)
    requires Halfway(disk, chain, index, n, now, connected)
    ensures Walkable(disk, chain, now, u)
  {
    hide Newest, LeftLatest, Points;
    if u !in connected {
      forall h | 1 < h < |chain| && u in disk[chain[h]].users ensures Precedes(disk, chain, now, u, h) {
        assert Precedes(disk, chain, index, u, h);
        assert Get(now, Key(u, h - 1)) == Get(index, Key(u, h - 1));
      }
    }
  }

  lemma UndoStart(disk: Disk, chain: seq<BlockId>, index: Index)
    requires Stored(disk, chain)
    ensures Undo(disk, chain, index, |chain|) == index
  {
  }

  lemma UndoNext(disk: Disk, chain: seq<BlockId>, index: Index, h: nat)
    requires Stored(disk, chain) && h < |chain|
    ensures Undo(disk, chain, index, h) == Restored(Undo(disk, chain, index, h + 1), disk[chain[h]])
  {
  }

  lemma RedoStart(disk: Disk, chain: seq<BlockId>, index: Index, blocks: seq<BlockId>)
    requires |chain| > 0 && forall b | b in blocks :: b in disk
    ensures Redo(disk, chain, index, blocks, 0) == index
  {
  }

  lemma RedoNext(disk: Disk, chain: seq<BlockId>, index: Index, blocks: seq<BlockId>, j: nat)
    requires |chain| > 0 && j < |blocks| && forall b | b in blocks :: b in disk
    ensures Redo(disk, chain, index, blocks, j + 1)
         == Entered(Checked(disk, chain, Redo(disk, chain, index, blocks, j), disk[blocks[j]]), blocks[j],
                    disk[blocks[j]])
  {
  }

  // A switch that ends while connecting.
  lemma RefusedHere(disk: Disk, chain: seq<BlockId>, index: Index, n: nat, blocks: seq<BlockId>, j: nat, r: Refusal)
    requires Branch(disk, chain, n, blocks) && (forall b | b in blocks :: b in disk) && j < |blocks|
    requires r.n == n && r.blocks == blocks[..j] && (r.failing.None? || r.failing == Some(blocks[j]))
    requires r.failing.Some? ==> r.checked < |disk[blocks[j]].users|
    ensures Stored(disk, chain) && n <= |chain| && Refuses(disk, chain, r)
    ensures var now := Redo(disk, chain, Undo(disk, chain, index, n), blocks, j);
            RefusedIndex(disk, chain, index, r)
            == if r.failing.None? then now else Erased(now, ErasedBy(disk, chain, now, disk[blocks[j]], r.checked))
  {
    hide Undo, Redo, Erased, Erases;
    assert Extends(disk, chain, n + j, blocks[j]);
    assert forall i | 0 <= i < j :: Extends(disk, chain, n + i, blocks[i]);
    RedoPrefix(disk, chain, Undo(disk, chain, index, n), blocks, j, j);
    ErasedNone(Redo(disk, chain, Undo(disk, chain, index, n), blocks, j));
  }

  // A switch that ends while disconnecting.
  lemma RefusedDown(disk: Disk, chain: seq<BlockId>, index: Index, n: nat, blocks: seq<BlockId>, to: nat)
    requires Branch(disk, chain, n, blocks) && n <= to <= |chain|
    ensures Refuses(disk, chain, Refusal(to, [], None, 0))
    ensures RefusedIndex(disk, chain, index, Refusal(to, [], None, 0)) == Undo(disk, chain, index, to)
  {
    hide Undo, Erased;
    RedoStart(disk, chain, Undo(disk, chain, index, to), []);
    ErasedNone(Undo(disk, chain, index, to));
  }

  lemma {:induction false} RedoPrefix(disk: Disk, chain: seq<BlockId>, index: Index, blocks: seq<BlockId>, j: nat,
                                      i: nat)
    requires |chain| > 0 && i <= j <= |blocks| && forall b | b in blocks :: b in disk
    ensures Redo(disk, chain, index, blocks[..j], i) == Redo(disk, chain, index, blocks, i)
  {
    hide Checked, Entered;
    if i > 0 {
      RedoPrefix(disk, chain, index, blocks, j, i - 1);
    }
  }

  // ---------- lookups in the middle of a reorganisation ----------

  lemma FirstRound(disk: Disk, chain: seq<BlockId>, index: Index, u: User, m: nat) returns (fuel: nat)
    requires Stored(disk, chain) && Sound(disk, index) && Walkable(disk, chain, index, u)
    ensures fuel > 0 && !Lookup(disk, chain, index, u, m, -1, fuel).Running?
  {
    hide Lookup, Newest, SavedAgree;
    var o := LookupStep(disk, chain, index, u, m, -1);
    if o.Running? {
      var g := disk[index[Key(u, -1)].block].height;
      SavedAt(disk, chain, index, u, g);
      fuel := g + 1;
      LookupUnfolds(disk, chain, index, u, m, -1, fuel);
      LookupRight(disk, chain, index, u, m, g - 1, g - 1, g);
    } else {
      fuel := 1;
      LookupUnfolds(disk, chain, index, u, m, -1, 1);
    }
  }

  lemma SavedAt(disk: Disk, chain: seq<BlockId>, index: Index, u: User, g: nat)
    requires Stored(disk, chain) && SavedAgree(disk, chain, index, u) && 1 < g < |chain| && u in disk[chain[g]].users
    ensures Precedes(disk, chain, index, u, g)
  {
  }

  lemma EndIsRight(disk: Disk, chain: seq<BlockId>, index: Index, u: User, m: nat, o: Outcome)
    requires Stored(disk, chain) && Sound(disk, index) && Agrees(disk, chain, index)
             && Ends(disk, chain, index, u, m, o)
    ensures Answers(disk, chain, u, o, Newest(disk, chain, u, Min(m, |chain| - 1)))
  {
    hide Lookup, Newest, Sound, Agrees;
    AgreementMakesLookupsRight(disk, chain, index);
    assert LookupsRight(disk, chain, index, u, m);
    var f: nat :| Answers(disk, chain, u, Lookup(disk, chain, index, u, m, -1, f),
                          Newest(disk, chain, u, Min(m, |chain| - 1)));
    var g: nat :| o == Lookup(disk, chain, index, u, m, -1, g);
    if f <= g {
      FuelAgrees(disk, chain, index, u, m, -1, f, g);
    } else {
      FuelAgrees(disk, chain, index, u, m, -1, g, f);
    }
  }

  // ---------- the check, one user at a time ----------

  lemma NothingErased(disk: Disk, chain: seq<BlockId>, index: Index, block: Block)
    requires |chain| > 0
    ensures Erased(index, ErasedBy(disk, chain, index, block, 0)) == index
  {
    hide Erases;
    assert ErasedBy(disk, chain, index, block, 0) == {};
    ErasedNone(index);
  }

  lemma ErasedOnce(disk: Disk, index: Index, users: set<User>, u: User)
    requires Sound(disk, Erased(index, users))
    ensures Erased(index, users) - {Key(u, -1)} == Erased(index, users + {u}) && Sound(disk, Erased(index, users + {u}))
  {
  }

  // Erasing other users' entries does not change a lookup.
  lemma {:induction false} LookupErased(disk: Disk, chain: seq<BlockId>, index: Index, users: set<User>, u: User,
                                        m: nat, k: int, fuel: nat)
    requires u !in users
    ensures Lookup(disk, chain, Erased(index, users), u, m, k, fuel) == Lookup(disk, chain, index, u, m, k, fuel)
    decreases fuel
  {
    hide Erased;
    if fuel > 0 {
      ErasedGet(index, users, Key(u, k));
      var o := LookupStep(disk, chain, index, u, m, k);
      if o.Running? {
        LookupErased(disk, chain, index, users, u, m, o.height, fuel - 1);
      }
    }
  }

  lemma OneMoreChecked(disk: Disk, chain: seq<BlockId>, index: Index, block: Block, i: nat)
    requires Stored(disk, chain) && Distinct(block.users) && i < |block.users|
             && Walkable(disk, chain, index, block.users[i])
    ensures block.users[i] !in ErasedBy(disk, chain, index, block, i)
    ensures ErasedBy(disk, chain, index, block, i + 1)
         == if Erases(disk, chain, index, block.users[i], block.height)
           then ErasedBy(disk, chain, index, block, i) + {block.users[i]}
            else ErasedBy(disk, chain, index, block, i)
    ensures Walkable(disk, chain, Erased(index, ErasedBy(disk, chain, index, block, i)), block.users[i])
  {
    hide Erases, Erased, Newest, Points;
    var u, users := block.users[i], ErasedBy(disk, chain, index, block, i);
    assert block.users[..i + 1] == block.users[..i] + [u];
    ErasedGet(index, users, Key(u, -1));
    forall h | 1 < h < |chain| && u in disk[chain[h]].users && SavedAgree(disk, chain, index, u)
      ensures Precedes(disk, chain, Erased(index, users), u, h)
    {
      ErasedGet(index, users, Key(u, h - 1));
      SavedAt(disk, chain, index, u, h);
    }
  }

  // What the two lookups of the check say.
  lemma CheckOutcome(disk: Disk, chain: seq<BlockId>, index: Index, now: Index, b: BlockId, i: nat,
                     permits: (Pos, Pos) -> bool, o: Outcome, replaced: Outcome)
    requires Stored(disk, chain) && b in disk && i < |disk[b].users| && Distinct(disk[b].users)
    requires now == Erased(index, ErasedBy(disk, chain, index, disk[b], i))
    requires disk[b].users[i] !in ErasedBy(disk, chain, index, disk[b], i)
    requires Ends(disk, chain, now, disk[b].users[i], |chain| - 1, o)
    requires o.Found? ==> Ends(disk, chain, now, disk[b].users[i], disk[b].height, replaced)
    ensures o.NotFound? ==> !Erases(disk, chain, index, disk[b].users[i], disk[b].height)
    ensures o.NotFound? ==> Admitted(disk, chain, index, b, i, permits)
    ensures o.Found? && replaced.Found? ==>
              && !Erases(disk, chain, index, disk[b].users[i], disk[b].height)
              && (Admitted(disk, chain, index, b, i, permits) <==> permits(replaced.pos, Pos(b, i)))
    ensures o.Found? && !replaced.Found? ==>
              && Erases(disk, chain, index, disk[b].users[i], disk[b].height)
              && Admitted(disk, chain, index, b, i, permits) && Key(disk[b].users[i], -1) in now
  {
    hide Lookup, Erased, ErasedBy;
    var u, height, users := disk[b].users[i], disk[b].height, ErasedBy(disk, chain, index, disk[b], i);
    EndsErased(disk, chain, index, users, u, |chain| - 1, o);
    OneEnd(disk, chain, index, u, |chain| - 1, o);
    if o.Found? {
      EndsErased(disk, chain, index, users, u, height, replaced);
      OneEnd(disk, chain, index, u, height, replaced);
      if !replaced.Found? {
        ErasesMeans(disk, chain, index, u, height);
        ErasedGet(index, users, Key(u, -1));
      }
    }
  }

  lemma EndsErased(disk: Disk, chain: seq<BlockId>, index: Index, users: set<User>, u: User, m: nat, o: Outcome)
    requires u !in users && Ends(disk, chain, Erased(index, users), u, m, o)
    ensures Ends(disk, chain, index, u, m, o)
  {
    hide Lookup, Erased;
    var f: nat :| o == Lookup(disk, chain, Erased(index, users), u, m, -1, f);
    LookupErased(disk, chain, index, users, u, m, -1, f);
  }

  // A lookup has one end.
  lemma OneEnd(disk: Disk, chain: seq<BlockId>, index: Index, u: User, m: nat, o: Outcome)
    requires Ends(disk, chain, index, u, m, o)
    ensures forall fuel: nat ::
              Lookup(disk, chain, index, u, m, -1, fuel).Running?
              || Lookup(disk, chain, index, u, m, -1, fuel) == o
    ensures Finds(disk, chain, index, u, m) <==> o.Found?
    ensures Misses(disk, chain, index, u, m) <==> o.NotFound?
  {
    hide Lookup;
    var f: nat :| o == Lookup(disk, chain, index, u, m, -1, f);
    forall g: nat
      ensures Lookup(disk, chain, index, u, m, -1, g).Running? || Lookup(disk, chain, index, u, m, -1, g) == o
    {
      if !Lookup(disk, chain, index, u, m, -1, g).Running? {
        if f <= g {
          FuelAgrees(disk, chain, index, u, m, -1, f, g);
        } else {
          FuelAgrees(disk, chain, index, u, m, -1, g, f);
        }
      }
    }
  }
}
