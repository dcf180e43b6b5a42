/**
 What a reorganisation does to the username index. `DisconnectBlock` and
 `ConnectBlock` write the index at once, but the height vector is replaced only
 when the whole switch has succeeded; until then, and for good if the switch is
 refused, lookups see the old vector beside the new entries.
 */
module NameSwitch {
  import opened Arithmetic
  import opened Options
  import opened TxIndex

  // ---------- the writes ----------

  // `DisconnectBlock`: users get their saved entries back.
  function Restored(index: Index, block: Block): Index {
    index + map u | u in block.users && Key(u, block.height - 1) in index ::
              Key(u, -1) := index[Key(u, block.height - 1)]
  }

  // `EraseTxIndex` for the latest entries of some users.
  function Erased(index: Index, users: set<User>): Index {
    map k | k in index && !(k.height == -1 && k.user in users) :: index[k]
  }

  // The writes of `ConnectBlock`: latest entries are saved, unless they lead to this very block, and replaced.
  function Entered(index: Index, b: BlockId, block: Block): Index {
    EnteredUsers(index, b, block, |block.users|)
  }

  // The same for the first `n` users of the block.
  function EnteredUsers(index: Index, b: BlockId, block: Block, n: nat): Index
    requires n <= |block.users|
  {
    if n == 0 then index
    else
      var u, done := block.users[n - 1], EnteredUsers(index, b, block, n - 1);
      var first := done[Key(u, -1) := Pos(b, n - 1)];
      if Key(u, -1) in index && index[Key(u, -1)].block != b then first[Key(u, block.height - 1) := index[Key(u, -1)]]
      else first
  }

  lemma RestoredEffect(index: Index, block: Block)
    requires block.height > 0
    ensures DisconnectEffect(index, Restored(index, block), block)
  {
  }

  lemma {:induction false} EnteredUsersEffect(index: Index, b: BlockId, block: Block, n: nat)
    requires Distinct(block.users) && block.height > 0 && n <= |block.users|
    ensures ConnectEffect(index, EnteredUsers(index, b, block, n), b, Block(block.height, block.users[..n]))
  {
    hide ConnectEffect, Distinct;
    if n == 0 {
      NothingEntered(index, b, block.height);
      assert block.users[..0] == [];
    } else {
      EnteredUsersEffect(index, b, block, n - 1);
      OneMoreUser(index, EnteredUsers(index, b, block, n - 1), EnteredUsers(index, b, block, n), b, block, n - 1);
    }
  }

  lemma NothingEntered(index: Index, b: BlockId, height: nat)
    ensures ConnectEffect(index, index, b, Block(height, []))
  {
  }

  lemma EnteredEffect(index: Index, b: BlockId, block: Block)
    requires Distinct(block.users) && block.height > 0
    ensures ConnectEffect(index, Entered(index, b, block), b, block)
  {
    hide ConnectEffect;
    EnteredUsersEffect(index, b, block, |block.users|);
    assert block.users[..|block.users|] == block.users;
  }

  lemma ErasedGet(index: Index, users: set<User>, k: Key)
    ensures Get(Erased(index, users), k) == if k.height == -1 && k.user in users then None else Get(index, k)
  {
  }

  lemma RestoredUnique(index: Index, after: Index, block: Block)
    requires block.height > 0 && DisconnectEffect(index, after, block)
    ensures after == Restored(index, block)
  {
    RestoredEffect(index, block);
    var other := Restored(index, block);
    forall k: Key ensures Get(after, k) == Get(other, k) {
      assert Get(after, Key(k.user, k.height)) == Get(other, Key(k.user, k.height));
    }
    SameGet(after, other);
  }

  lemma SameGet(a: Index, b: Index)
    requires forall k: Key :: Get(a, k) == Get(b, k)
    ensures a == b
  {
    forall k: Key ensures k in a <==> k in b {
      assert Get(a, k) == Get(b, k);
    }
    forall k: Key | k in a ensures a[k] == b[k] {
      assert Get(a, k) == Get(b, k);
    }
  }

  // ---------- the check of `ConnectBlock` ----------

  ghost predicate Finds(disk: Disk, chain: seq<BlockId>, index: Index, u: User, m: nat) {
    exists fuel: nat :: Lookup(disk, chain, index, u, m, -1, fuel).Found?
  }

  ghost predicate Misses(disk: Disk, chain: seq<BlockId>, index: Index, u: User, m: nat) {
    exists fuel: nat :: Lookup(disk, chain, index, u, m, -1, fuel).NotFound?
  }

  // A user found on the chain, but not up to the height of the block, loses the latest entry.
  ghost predicate Erases(disk: Disk, chain: seq<BlockId>, index: Index, u: User, height: nat)
    requires |chain| > 0
  {
    Finds(disk, chain, index, u, |chain| - 1) && Misses(disk, chain, index, u, height)
  }

  // Such a user's latest entry is a registration on the chain above that height.
  lemma ErasesMeans(disk: Disk, chain: seq<BlockId>, index: Index, u: User, height: nat)
    requires Stored(disk, chain) && Erases(disk, chain, index, u, height)
    ensures Key(u, -1) in index && InMainChain(disk, chain, index[Key(u, -1)].block)
    ensures height < disk[index[Key(u, -1)].block].height && u in disk[index[Key(u, -1)].block].users
  {
    hide Lookup;
    var f: nat :| Lookup(disk, chain, index, u, |chain| - 1, -1, f).Found?;
    LookupUnfolds(disk, chain, index, u, |chain| - 1, -1, f);
    var g: nat :| Lookup(disk, chain, index, u, height, -1, g).NotFound?;
    LookupUnfolds(disk, chain, index, u, height, -1, g);
  }

  // The users erased when the first `n` users of a block have been checked.
  ghost function ErasedBy(disk: Disk, chain: seq<BlockId>, index: Index, block: Block, n: nat): set<User>
    requires |chain| > 0 && n <= |block.users|
  {
    set u | u in block.users[..n] && Erases(disk, chain, index, u, block.height)
  }

  ghost function Checked(disk: Disk, chain: seq<BlockId>, index: Index, block: Block): Index
    requires |chain| > 0
  {
    Erased(index, ErasedBy(disk, chain, index, block, |block.users|))
  }

  // Erasing latest entries that lead off a chain keeps the agreement with it.
  lemma ErasedAgrees(disk: Disk, chain: seq<BlockId>, index: Index, users: set<User>)
    requires Stored(disk, chain) && Sound(disk, index) && Agrees(disk, chain, index)
    requires forall u | u in users && Key(u, -1) in index :: !InMainChain(disk, chain, index[Key(u, -1)].block)
    ensures Sound(disk, Erased(index, users)) && Agrees(disk, chain, Erased(index, users))
  {
    var after := Erased(index, users);
    forall u ensures Points(disk, chain, Get(after, Key(u, -1)), Newest(disk, chain, u, |chain| - 1)) {
      ErasedGet(index, users, Key(u, -1));
      assert Points(disk, chain, Get(index, Key(u, -1)), Newest(disk, chain, u, |chain| - 1));
    }
    forall u, h | 1 < h < |chain| && u in disk[chain[h]].users ensures Precedes(disk, chain, after, u, h) {
      ErasedGet(index, users, Key(u, h - 1));
      assert Precedes(disk, chain, index, u, h);
    }
  }

  // What the check erases is off the branch that the block extends.
  lemma CheckedAgrees(disk: Disk, chain: seq<BlockId>, branch: seq<BlockId>, index: Index, b: BlockId)
    requires Stored(disk, chain) && Connectable(disk, branch, b) && Sound(disk, index) && Agrees(disk, branch, index)
    ensures Sound(disk, Checked(disk, chain, index, disk[b]))
            && Agrees(disk, branch, Checked(disk, chain, index, disk[b]))
  {
    hide Agrees, Sound, Erases;
    var users := ErasedBy(disk, chain, index, disk[b], |disk[b].users|);
    forall u | u in users && Key(u, -1) in index ensures !InMainChain(disk, branch, index[Key(u, -1)].block) {
      ErasesMeans(disk, chain, index, u, disk[b].height);
    }
    ErasedAgrees(disk, branch, index, users);
  }

  // ---------- a switch ----------

  // The new branch: stored blocks one above the other from height `n` on, none of them on the old chain.
  ghost predicate Branch(disk: Disk, chain: seq<BlockId>, n: nat, blocks: seq<BlockId>) {
    && Stored(disk, chain) && 1 <= n <= |chain|
    && (forall b | b in disk :: Distinct(disk[b].users))
    && forall j | 0 <= j < |blocks| :: Extends(disk, chain, n + j, blocks[j])
  }

  ghost predicate Extends(disk: Disk, chain: seq<BlockId>, height: nat, b: BlockId) {
    b in disk && disk[b].height == height && !InMainChain(disk, chain, b)
  }

  // The index after the blocks from height `n` up have been disconnected.
  ghost function Undo(disk: Disk, chain: seq<BlockId>, index: Index, n: nat): Index
    requires Stored(disk, chain) && n <= |chain|
    decreases |chain| - n
  {
    if n == |chain| then index else Restored(Undo(disk, chain, index, n + 1), disk[chain[n]])
  }

  // The index after the first `j` blocks of the new branch have been checked and connected.
  ghost function Redo(disk: Disk, chain: seq<BlockId>, index: Index, blocks: seq<BlockId>, j: nat): Index
    requires |chain| > 0 && j <= |blocks| && forall b | b in blocks :: b in disk
  {
    if j == 0 then index
    else Entered(Checked(disk, chain, Redo(disk, chain, index, blocks, j - 1), disk[blocks[j - 1]]), blocks[j - 1],
                 disk[blocks[j - 1]])
  }

  ghost function NewChain(chain: seq<BlockId>, n: nat, blocks: seq<BlockId>, j: nat): seq<BlockId>
    requires n <= |chain| && j <= |blocks|
  {
    chain[..n] + blocks[..j]
  }

  lemma NewChainStored(disk: Disk, chain: seq<BlockId>, n: nat, blocks: seq<BlockId>, j: nat)
    requires Branch(disk, chain, n, blocks) && j <= |blocks|
    ensures Stored(disk, NewChain(chain, n, blocks, j)) && forall b | b in blocks :: b in disk
    ensures j < |blocks| ==>
              && Connectable(disk, NewChain(chain, n, blocks, j), blocks[j])
              && NewChain(chain, n, blocks, j + 1) == NewChain(chain, n, blocks, j) + [blocks[j]]
  {
    forall b | b in blocks ensures b in disk {
      var i :| 0 <= i < |blocks| && blocks[i] == b;
      assert Extends(disk, chain, n + i, blocks[i]);
    }
    assert forall i | 0 <= i < |blocks| :: Extends(disk, chain, n + i, blocks[i]);
  }

  // Disconnecting keeps the index in agreement with what is left of the chain.
  lemma {:induction false} UndoRight(disk: Disk, chain: seq<BlockId>, index: Index, n: nat)
    requires Stored(disk, chain) && 1 <= n <= |chain| && Sound(disk, index) && Agrees(disk, chain, index)
    ensures Sound(disk, Undo(disk, chain, index, n)) && Agrees(disk, chain[..n], Undo(disk, chain, index, n))
    decreases |chain| - n
  {
    hide Agrees, Sound, Restored;
    if n == |chain| {
      assert chain[..n] == chain;
    } else {
      UndoRight(disk, chain, index, n + 1);
      assert chain[..n + 1] == chain[..n] + [chain[n]];
      var mid := Undo(disk, chain, index, n + 1);
      RestoredEffect(mid, disk[chain[n]]);
      DisconnectKeeps(disk, chain[..n], mid, Restored(mid, disk[chain[n]]), chain[n]);
    }
  }

  // What a caller can check before the block is connected.
  ghost predicate FreeAt(disk: Disk, chain: seq<BlockId>, index: Index, n: nat, blocks: seq<BlockId>, j: nat)
    requires Branch(disk, chain, n, blocks) && j < |blocks|
  {
    NewChainStored(disk, chain, n, blocks, j);
    LoopFree(disk, NewChain(chain, n, blocks, j),
             Checked(disk, chain, Redo(disk, chain, index, blocks, j), disk[blocks[j]]), blocks[j])
  }

  // One connect keeps soundness, and the agreement if and only if the block is loop free.
  lemma RedoStep(disk: Disk, chain: seq<BlockId>, index: Index, n: nat, blocks: seq<BlockId>, j: nat)
    requires Branch(disk, chain, n, blocks) && j < |blocks| && forall b | b in blocks :: b in disk
    requires Stored(disk, NewChain(chain, n, blocks, j)) && Stored(disk, NewChain(chain, n, blocks, j + 1))
    requires Sound(disk, Redo(disk, chain, index, blocks, j))
    requires Agrees(disk, NewChain(chain, n, blocks, j), Redo(disk, chain, index, blocks, j))
    ensures Sound(disk, Redo(disk, chain, index, blocks, j + 1))
    ensures Agrees(disk, NewChain(chain, n, blocks, j + 1), Redo(disk, chain, index, blocks, j + 1))
       <==> FreeAt(disk, chain, index, n, blocks, j)
  {
    hide Agrees, Sound, Entered, Checked, LoopFree, NewChain;
    NewChainStored(disk, chain, n, blocks, j);
    var before, c, b := Redo(disk, chain, index, blocks, j), NewChain(chain, n, blocks, j), blocks[j];
    CheckedAgrees(disk, chain, c, before, b);
    var checked := Checked(disk, chain, before, disk[b]);
    EnteredEffect(checked, b, disk[b]);
    ConnectAgreesIff(disk, c, checked, Entered(checked, b, disk[b]), b);
  }

  // As long as the blocks are loop free, the index agrees with the new branch.
  lemma {:induction false} RedoRight(disk: Disk, chain: seq<BlockId>, index: Index, n: nat, blocks: seq<BlockId>,
                                     j: nat)
    requires Branch(disk, chain, n, blocks) && j <= |blocks| && forall b | b in blocks :: b in disk
    requires Stored(disk, chain[..n]) && Sound(disk, index) && Agrees(disk, chain[..n], index)
    requires forall i | 0 <= i < j :: FreeAt(disk, chain, index, n, blocks, i)
    ensures Stored(disk, NewChain(chain, n, blocks, j)) && Sound(disk, Redo(disk, chain, index, blocks, j))
    ensures Agrees(disk, NewChain(chain, n, blocks, j), Redo(disk, chain, index, blocks, j))
  {
    hide Agrees, Sound, FreeAt;
    NewChainStored(disk, chain, n, blocks, j);
    if j == 0 {
      assert NewChain(chain, n, blocks, 0) == chain[..n];
    } else {
      hide Redo;
      RedoRight(disk, chain, index, n, blocks, j - 1);
      RedoStep(disk, chain, index, n, blocks, j - 1);
    }
  }

  lemma {:induction false} RedoSound(disk: Disk, chain: seq<BlockId>, index: Index, n: nat, blocks: seq<BlockId>,
                                     j: nat)
    requires Branch(disk, chain, n, blocks) && j <= |blocks| && (forall b | b in blocks :: b in disk)
             && Sound(disk, index)
    ensures Sound(disk, Redo(disk, chain, index, blocks, j))
  {
    hide Sound, Entered;
    if j > 0 {
      RedoSound(disk, chain, index, n, blocks, j - 1);
      NewChainStored(disk, chain, n, blocks, j - 1);
      var before, b := Redo(disk, chain, index, blocks, j - 1), blocks[j - 1];
      var checked := Checked(disk, chain, before, disk[b]);
      ErasedSound(disk, before, ErasedBy(disk, chain, before, disk[b], |disk[b].users|));
      EnteredEffect(checked, b, disk[b]);
      ConnectKeepsSound(disk, NewChain(chain, n, blocks, j - 1), checked, Entered(checked, b, disk[b]), b);
    }
  }

  lemma ErasedSound(disk: Disk, index: Index, users: set<User>)
    requires Sound(disk, index)
    ensures Sound(disk, Erased(index, users))
  {
  }

  // A wrong saved entry of the branch stays wrong: later connects write other keys.
  lemma BrokenStays(disk: Disk, chain: seq<BlockId>, index: Index, n: nat, blocks: seq<BlockId>, j: nat, u: User,
                    h: nat)
    requires Branch(disk, chain, n, blocks) && j < |blocks| && forall b | b in blocks :: b in disk
    requires Stored(disk, NewChain(chain, n, blocks, j)) && Stored(disk, NewChain(chain, n, blocks, j + 1))
    requires 1 < h < n + j && u in disk[NewChain(chain, n, blocks, j)[h]].users
    requires !Precedes(disk, NewChain(chain, n, blocks, j), Redo(disk, chain, index, blocks, j), u, h)
    ensures u in disk[NewChain(chain, n, blocks, j + 1)[h]].users
    ensures !Precedes(disk, NewChain(chain, n, blocks, j + 1), Redo(disk, chain, index, blocks, j + 1), u, h)
  {
    hide Entered, Newest, Sound, Agrees, NewChain, Branch, Checked;
    PrefixStored(disk, chain, n, blocks);
    NewChainStored(disk, chain, n, blocks, j);
    NewChainShape(chain, n, blocks, j);
    var before, c, b := Redo(disk, chain, index, blocks, j), NewChain(chain, n, blocks, j), blocks[j];
    KeyKept(disk, chain, n, before, blocks, j, u, h - 1);
    NewestExtend(disk, c, b, u, h - 1);
    var e := Get(before, Key(u, h - 1));
    if e.Some? {
      StaysOff(disk, c, b, e.value.block);
    }
  }

  lemma NewChainShape(chain: seq<BlockId>, n: nat, blocks: seq<BlockId>, j: nat)
    requires n <= |chain| && j <= |blocks|
    ensures |NewChain(chain, n, blocks, j)| == n + j
  {
  }

  lemma KeyKept(disk: Disk, chain: seq<BlockId>, n: nat, before: Index, blocks: seq<BlockId>, j: nat, u: User, k: nat)
    requires Branch(disk, chain, n, blocks) && j < |blocks| && k < n + j - 1
    ensures blocks[j] in disk
    ensures Get(Entered(Checked(disk, chain, before, disk[blocks[j]]), blocks[j], disk[blocks[j]]), Key(u, k))
         == Get(before, Key(u, k))
  {
    hide Entered;
    assert Extends(disk, chain, n + j, blocks[j]);
    var b := blocks[j];
    EnteredEffect(Checked(disk, chain, before, disk[b]), b, disk[b]);
    ErasedGet(before, ErasedBy(disk, chain, before, disk[b], |disk[b].users|), Key(u, k));
  }

  lemma {:induction false} BrokenForGood(disk: Disk, chain: seq<BlockId>, index: Index, n: nat, blocks: seq<BlockId>,
                                         j: nat, u: User, h: nat)
    requires Branch(disk, chain, n, blocks) && j <= |blocks| && forall b | b in blocks :: b in disk
    requires Stored(disk, NewChain(chain, n, blocks, j)) && Stored(disk, NewChain(chain, n, blocks, |blocks|))
    requires 1 < h < n + j && u in disk[NewChain(chain, n, blocks, j)[h]].users
    requires !Precedes(disk, NewChain(chain, n, blocks, j), Redo(disk, chain, index, blocks, j), u, h)
    ensures !Agrees(disk, NewChain(chain, n, blocks, |blocks|), Redo(disk, chain, index, blocks, |blocks|))
    decreases |blocks| - j
  {
    hide Precedes, Redo, NewChain;
    NewChainShape(chain, n, blocks, j);
    if j < |blocks| {
      NewChainStored(disk, chain, n, blocks, j + 1);
      BrokenStays(disk, chain, index, n, blocks, j, u, h);
      BrokenForGood(disk, chain, index, n, blocks, j + 1, u, h);
    }
  }

  // A block that is not loop free breaks a saved entry, not a latest one.
  lemma ConnectBreaks(disk: Disk, chain: seq<BlockId>, index: Index, n: nat, blocks: seq<BlockId>, j: nat)
    returns (u: User, h: nat)
    requires Branch(disk, chain, n, blocks) && j < |blocks| && forall b | b in blocks :: b in disk
    requires Stored(disk, NewChain(chain, n, blocks, j)) && Stored(disk, NewChain(chain, n, blocks, j + 1))
    requires Sound(disk, Redo(disk, chain, index, blocks, j))
    requires Agrees(disk, NewChain(chain, n, blocks, j), Redo(disk, chain, index, blocks, j))
    requires !FreeAt(disk, chain, index, n, blocks, j)
    ensures 1 < h < n + j + 1 && u in disk[NewChain(chain, n, blocks, j + 1)[h]].users
    ensures !Precedes(disk, NewChain(chain, n, blocks, j + 1), Redo(disk, chain, index, blocks, j + 1), u, h)
  {
    hide Sound, Entered, Checked, LoopFree, NewChain, Precedes, Points, FreeAt, Branch;
    PrefixStored(disk, chain, n, blocks);
    NewChainStored(disk, chain, n, blocks, j);
    NewChainShape(chain, n, blocks, j + 1);
    RedoStep(disk, chain, index, n, blocks, j);
    forall x ensures Points(disk, NewChain(chain, n, blocks, j + 1),
                            Get(Redo(disk, chain, index, blocks, j + 1), Key(x, -1)),
                            Newest(disk, NewChain(chain, n, blocks, j + 1), x, n + j)) {
      RedoLatest(disk, chain, index, n, blocks, j, x);
    }
    u, h :| 1 < h < n + j + 1 && u in disk[NewChain(chain, n, blocks, j + 1)[h]].users
            && !Precedes(disk, NewChain(chain, n, blocks, j + 1), Redo(disk, chain, index, blocks, j + 1), u, h);
  }

  lemma RedoLatest(disk: Disk, chain: seq<BlockId>, index: Index, n: nat, blocks: seq<BlockId>, j: nat, u: User)
    requires Branch(disk, chain, n, blocks) && j < |blocks| && forall b | b in blocks :: b in disk
    requires Stored(disk, NewChain(chain, n, blocks, j)) && Stored(disk, NewChain(chain, n, blocks, j + 1))
    requires Sound(disk, Redo(disk, chain, index, blocks, j))
    requires Agrees(disk, NewChain(chain, n, blocks, j), Redo(disk, chain, index, blocks, j))
    ensures |NewChain(chain, n, blocks, j + 1)| == n + j + 1
    ensures Points(disk, NewChain(chain, n, blocks, j + 1), Get(Redo(disk, chain, index, blocks, j + 1), Key(u, -1)),
                   Newest(disk, NewChain(chain, n, blocks, j + 1), u, n + j))
  {
    hide Agrees, Sound, Entered, Checked, NewChain, Points;
    NewChainStored(disk, chain, n, blocks, j);
    NewChainShape(chain, n, blocks, j);
    var before, c, b := Redo(disk, chain, index, blocks, j), NewChain(chain, n, blocks, j), blocks[j];
    CheckedAgrees(disk, chain, c, before, b);
    var checked := Checked(disk, chain, before, disk[b]);
    EnteredEffect(checked, b, disk[b]);
    ConnectLatest(disk, c, checked, Entered(checked, b, disk[b]), b, u);
  }

  ghost predicate AllFree(disk: Disk, chain: seq<BlockId>, index: Index, n: nat, blocks: seq<BlockId>)
    requires Branch(disk, chain, n, blocks)
  {
    forall j | 0 <= j < |blocks| :: FreeAt(disk, chain, index, n, blocks, j)
  }

  lemma {:induction false} FirstUnfree(disk: Disk, chain: seq<BlockId>, index: Index, n: nat, blocks: seq<BlockId>,
                                       j: nat) returns (i: nat)
    requires Branch(disk, chain, n, blocks) && j < |blocks| && !FreeAt(disk, chain, index, n, blocks, j)
    ensures i <= j && !FreeAt(disk, chain, index, n, blocks, i)
            && forall k | 0 <= k < i :: FreeAt(disk, chain, index, n, blocks, k)
  {
    hide FreeAt;
    if k :| 0 <= k < j && !FreeAt(disk, chain, index, n, blocks, k) {
      i := FirstUnfree(disk, chain, index, n, blocks, k);
    } else {
      i := j;
    }
  }

  // After a switch that succeeds, all lookups are right if and only if every block was loop free when it was connected.
  lemma SwitchExact(disk: Disk, chain: seq<BlockId>, index: Index, n: nat, blocks: seq<BlockId>)
    requires Branch(disk, chain, n, blocks) && Sound(disk, index) && Agrees(disk, chain, index)
    requires forall b | b in blocks :: b in disk
    ensures var start, after := Undo(disk, chain, index, n), NewChain(chain, n, blocks, |blocks|);
            && Stored(disk, after) && Sound(disk, Redo(disk, chain, start, blocks, |blocks|))
            && (AllLookupsRight(disk, after, Redo(disk, chain, start, blocks, |blocks|))
                <==> AllFree(disk, chain, start, n, blocks))
            && (Agrees(disk, after, Redo(disk, chain, start, blocks, |blocks|))
                <==> AllFree(disk, chain, start, n, blocks))
  {
    hide Agrees, Sound, FreeAt, Redo, NewChain, Undo, AllLookupsRight, Branch;
    PrefixStored(disk, chain, n, blocks);
    var start := Undo(disk, chain, index, n);
    NewChainStored(disk, chain, n, blocks, |blocks|);
    UndoRight(disk, chain, index, n);
    RedoSound(disk, chain, start, n, blocks, |blocks|);
    LookupsRightIff(disk, NewChain(chain, n, blocks, |blocks|), Redo(disk, chain, start, blocks, |blocks|));
    if AllFree(disk, chain, start, n, blocks) {
      RedoRight(disk, chain, start, n, blocks, |blocks|);
    } else {
      var k :| 0 <= k < |blocks| && !FreeAt(disk, chain, start, n, blocks, k);
      var j := FirstUnfree(disk, chain, start, n, blocks, k);
      RedoRight(disk, chain, start, n, blocks, j);
      NewChainStored(disk, chain, n, blocks, j + 1);
      var u, h := ConnectBreaks(disk, chain, start, n, blocks, j);
      BrokenForGood(disk, chain, start, n, blocks, j + 1, u, h);
    }
  }

  lemma PrefixStored(disk: Disk, chain: seq<BlockId>, n: nat, blocks: seq<BlockId>)
    requires Branch(disk, chain, n, blocks)
    ensures 1 <= n <= |chain| && Stored(disk, chain) && Stored(disk, chain[..n])
  {
  }

  // ---------- a switch that is refused ----------

  // What disconnecting down to height `n` leaves as the latest entry of a user: the saved entry of the lowest
  // disconnected registration that has one, or else the entry from before.
  ghost function LeftLatest(disk: Disk, chain: seq<BlockId>, index: Index, n: nat, u: User): Option<Pos>
    requires Stored(disk, chain) && n <= |chain|
    decreases |chain| - n
  {
    if n == |chain| then Get(index, Key(u, -1))
    else if u in disk[chain[n]].users && Key(u, n - 1) in index then Some(index[Key(u, n - 1)])
    else LeftLatest(disk, chain, index, n + 1, u)
  }

  lemma {:induction false} UndoGet(disk: Disk, chain: seq<BlockId>, index: Index, n: nat, u: User, k: int)
    requires Stored(disk, chain) && 1 <= n <= |chain|
    ensures Get(Undo(disk, chain, index, n), Key(u, k))
         == if k == -1 then LeftLatest(disk, chain, index, n, u) else Get(index, Key(u, k))
    decreases |chain| - n
  {
    hide Restored;
    if n < |chain| {
      UndoGet(disk, chain, index, n + 1, u, k);
      UndoGet(disk, chain, index, n + 1, u, n - 1);
      RestoredEffect(Undo(disk, chain, index, n + 1), disk[chain[n]]);
    }
  }

  ghost predicate Registered(disk: Disk, chain: seq<BlockId>, u: User)
    requires Stored(disk, chain)
  {
    Newest(disk, chain, u, |chain| - 1).Some?
  }

  ghost function Users(block: Block): set<User> {
    set u | u in block.users
  }

  // The users of the first `j` blocks.
  ghost function UsersOf(disk: Disk, blocks: seq<BlockId>, j: nat): set<User>
    requires j <= |blocks| && forall b | b in blocks :: b in disk
  {
    if j == 0 then {} else UsersOf(disk, blocks, j - 1) + Users(disk[blocks[j - 1]])
  }

  // In the middle of a switch, seen with the old chain: connected users lead off it, and for all other users
  // nothing but the latest entry has changed.
  ghost predicate Halfway(disk: Disk, chain: seq<BlockId>, index: Index, n: nat, now: Index, connected: set<User>)
    requires Stored(disk, chain) && n <= |chain|
  {
    forall u :: if u in connected then LeadsOff(disk, chain, now, u) else Untouched(disk, chain, index, n, now, u)
  }

  ghost predicate LeadsOff(disk: Disk, chain: seq<BlockId>, now: Index, u: User) {
    Key(u, -1) in now && !InMainChain(disk, chain, now[Key(u, -1)].block)
  }

  ghost predicate Untouched(disk: Disk, chain: seq<BlockId>, index: Index, n: nat, now: Index, u: User)
    requires Stored(disk, chain) && n <= |chain|
  {
    && Get(now, Key(u, -1)) == LeftLatest(disk, chain, index, n, u)
    && forall k: nat :: Get(now, Key(u, k)) == Get(index, Key(u, k))
  }

  lemma UndoHalfway(disk: Disk, chain: seq<BlockId>, index: Index, n: nat)
    requires Stored(disk, chain) && 1 <= n <= |chain|
    ensures Halfway(disk, chain, index, n, Undo(disk, chain, index, n), {})
  {
    hide Undo, LeftLatest;
    forall u ensures Untouched(disk, chain, index, n, Undo(disk, chain, index, n), u) {
      UndoGet(disk, chain, index, n, u, -1);
      forall k: nat ensures Get(Undo(disk, chain, index, n), Key(u, k)) == Get(index, Key(u, k)) {
        UndoGet(disk, chain, index, n, u, k);
      }
    }
  }

  lemma {:induction false} RedoHalfway(disk: Disk, chain: seq<BlockId>, index: Index, n: nat, blocks: seq<BlockId>,
                                       j: nat)
    requires Branch(disk, chain, n, blocks) && j <= |blocks| && forall b | b in blocks :: b in disk
    ensures Stored(disk, chain) && 1 <= n <= |chain|
    ensures Halfway(disk, chain, index, n, Redo(disk, chain, Undo(disk, chain, index, n), blocks, j),
                    UsersOf(disk, blocks, j))
  {
    hide Undo, Entered, Checked, Halfway;
    if j == 0 {
      UndoHalfway(disk, chain, index, n);
    } else {
      RedoHalfway(disk, chain, index, n, blocks, j - 1);
      ConnectHalfway(disk, chain, index, n, Redo(disk, chain, Undo(disk, chain, index, n), blocks, j - 1),
                     UsersOf(disk, blocks, j - 1), blocks, j - 1);
    }
  }

  lemma ConnectHalfway(disk: Disk, chain: seq<BlockId>, index: Index, n: nat, now: Index, connected: set<User>,
                       blocks: seq<BlockId>, j: nat)
    requires Branch(disk, chain, n, blocks) && j < |blocks| && Halfway(disk, chain, index, n, now, connected)
    ensures var b := blocks[j];
            b in disk && Halfway(disk, chain, index, n, Entered(Checked(disk, chain, now, disk[b]), b, disk[b]),
                                 connected + Users(disk[b]))
  {
    hide Entered, LeftLatest;
    assert Extends(disk, chain, n + j, blocks[j]);
    var b := blocks[j];
    var users := ErasedBy(disk, chain, now, disk[b], |disk[b].users|);
    var checked := Checked(disk, chain, now, disk[b]);
    var after := Entered(checked, b, disk[b]);
    EnteredEffect(checked, b, disk[b]);
    forall u ensures if u in connected + Users(disk[b]) then LeadsOff(disk, chain, after, u)
                     else Untouched(disk, chain, index, n, after, u) {
      if u in disk[b].users {
        assert Get(after, Key(u, -1)).Some?;
      } else {
        OthersKept(disk, now, users, checked, after, b, u);
      }
    }
  }

  // Users that the block does not register keep all their entries.
  lemma OthersKept(disk: Disk, now: Index, users: set<User>, checked: Index, after: Index, b: BlockId, u: User)
    requires b in disk && checked == Erased(now, users) && ConnectEffect(checked, after, b, disk[b])
    requires u !in users && u !in disk[b].users
    ensures forall k :: Get(after, Key(u, k)) == Get(now, Key(u, k))
  {
    forall k ensures Get(after, Key(u, k)) == Get(now, Key(u, k)) {
      ErasedGet(now, users, Key(u, k));
      assert Get(after, Key(u, k)) == Get(checked, Key(u, k));
    }
  }

  // The entry that disconnecting leaves a user with is that of the newest registration on the old chain.
  ghost predicate LeftRight(disk: Disk, chain: seq<BlockId>, index: Index, n: nat)
    requires Stored(disk, chain) && n <= |chain|
  {
    forall u, h | n <= h < |chain| && u in disk[chain[h]].users :: LeftRightFor(disk, chain, index, n, u)
  }

  ghost predicate LeftRightFor(disk: Disk, chain: seq<BlockId>, index: Index, n: nat, u: User)
    requires Stored(disk, chain) && n <= |chain|
  {
    Points(disk, chain, LeftLatest(disk, chain, index, n, u), Newest(disk, chain, u, |chain| - 1))
  }

  ghost predicate NoneRegistered(disk: Disk, chain: seq<BlockId>, users: set<User>)
    requires Stored(disk, chain)
  {
    forall u | u in users :: !Registered(disk, chain, u)
  }

  // With users erased that are registered on the old chain, the index agrees with the old chain again if and only
  // if none was erased, none of the connected users is registered there, and the disconnects changed nothing.
  lemma HalfwayAgrees(disk: Disk, chain: seq<BlockId>, index: Index, n: nat, now: Index, connected: set<User>,
                      erased: set<User>)
    requires Stored(disk, chain) && 1 <= n <= |chain| && Sound(disk, index) && Agrees(disk, chain, index)
    requires Halfway(disk, chain, index, n, now, connected) && forall u | u in erased :: Registered(disk, chain, u)
    ensures Agrees(disk, chain, Erased(now, erased))
       <==> erased == {} && NoneRegistered(disk, chain, connected) && LeftRight(disk, chain, index, n)
  {
    hide LeftLatest, Newest, Erased;
    var after := Erased(now, erased);
    if erased == {} && NoneRegistered(disk, chain, connected) && LeftRight(disk, chain, index, n) {
      forall u ensures Points(disk, chain, Get(after, Key(u, -1)), Newest(disk, chain, u, |chain| - 1)) {
        ErasedGet(now, erased, Key(u, -1));
        LatestKept(disk, chain, index, n, now, connected, u);
      }
      forall u, h | 1 < h < |chain| && u in disk[chain[h]].users ensures Precedes(disk, chain, after, u, h) {
        ErasedGet(now, erased, Key(u, h - 1));
        OnChain(disk, chain, u, h);
        assert Precedes(disk, chain, index, u, h);
      }
    }
    if u :| u in erased {
      ErasedGet(now, erased, Key(u, -1));
      MissingDisagrees(disk, chain, after, u);
    }
    if Agrees(disk, chain, after) {
      assert erased == {};
      forall u | u in connected ensures !Registered(disk, chain, u) {
        ErasedGet(now, erased, Key(u, -1));
        assert Points(disk, chain, Get(after, Key(u, -1)), Newest(disk, chain, u, |chain| - 1));
        if Registered(disk, chain, u) {
          RegisteredOn(disk, chain, u);
        }
      }
      forall u, h | n <= h < |chain| && u in disk[chain[h]].users ensures LeftRightFor(disk, chain, index, n, u) {
        OnChain(disk, chain, u, h);
        ErasedGet(now, erased, Key(u, -1));
        assert Points(disk, chain, Get(after, Key(u, -1)), Newest(disk, chain, u, |chain| - 1));
      }
    }
  }

  lemma MissingDisagrees(disk: Disk, chain: seq<BlockId>, index: Index, u: User)
    requires Stored(disk, chain) && Registered(disk, chain, u) && Key(u, -1) !in index
    ensures !Agrees(disk, chain, index)
  {
    assert !Points(disk, chain, Get(index, Key(u, -1)), Newest(disk, chain, u, |chain| - 1));
  }

  lemma OnChain(disk: Disk, chain: seq<BlockId>, u: User, h: nat)
    requires Stored(disk, chain) && 0 < h < |chain| && u in disk[chain[h]].users
    ensures Registered(disk, chain, u)
  {
  }

  lemma RegisteredOn(disk: Disk, chain: seq<BlockId>, u: User)
    requires Stored(disk, chain) && Registered(disk, chain, u)
    ensures var h := Newest(disk, chain, u, |chain| - 1); h.value < |chain| && InMainChain(disk, chain, chain[h.value])
  {
  }

  lemma LatestKept(disk: Disk, chain: seq<BlockId>, index: Index, n: nat, now: Index, connected: set<User>, u: User)
    requires Stored(disk, chain) && 1 <= n <= |chain| && Agrees(disk, chain, index)
    requires Halfway(disk, chain, index, n, now, connected)
    requires NoneRegistered(disk, chain, connected) && LeftRight(disk, chain, index, n)
    ensures Points(disk, chain, Get(now, Key(u, -1)), Newest(disk, chain, u, |chain| - 1))
  {
    hide LeftLatest, Newest;
    if u !in connected {
      if h :| n <= h < |chain| && u in disk[chain[h]].users {
        assert LeftRightFor(disk, chain, index, n, u);
      } else {
        LeftSame(disk, chain, index, n, u);
        assert Points(disk, chain, Get(index, Key(u, -1)), Newest(disk, chain, u, |chain| - 1));
      }
    }
  }

  lemma {:induction false} LeftSame(disk: Disk, chain: seq<BlockId>, index: Index, n: nat, u: User)
    requires Stored(disk, chain) && n <= |chain| && forall h | n <= h < |chain| :: u !in disk[chain[h]].users
    ensures LeftLatest(disk, chain, index, n, u) == Get(index, Key(u, -1))
    decreases |chain| - n
  {
    if n < |chain| {
      LeftSame(disk, chain, index, n + 1, u);
    }
  }

  // ---------- when a refused switch keeps lookups right ----------

  // How a refused switch ended: how far down it disconnected, what it connected, and, when a block was refused by
  // its check, that block and how many of its users had been checked before.
  datatype Refusal = Refusal(n: nat, blocks: seq<BlockId>, failing: Option<BlockId>, checked: nat)

  ghost predicate Refuses(disk: Disk, chain: seq<BlockId>, r: Refusal) {
    && Branch(disk, chain, r.n, r.blocks)
    && (forall b | b in r.blocks :: b in disk)
    && (r.failing.Some? ==>
          && Extends(disk, chain, r.n + |r.blocks|, r.failing.value)
          && r.checked < |disk[r.failing.value].users|)
  }

  // The users whose latest entries the refused block's check has erased.
  ghost function Lost(disk: Disk, chain: seq<BlockId>, now: Index, r: Refusal): set<User>
    requires Refuses(disk, chain, r)
  {
    if r.failing.None? then {} else ErasedBy(disk, chain, now, disk[r.failing.value], r.checked)
  }

  ghost function Connected(disk: Disk, chain: seq<BlockId>, index: Index, r: Refusal): Index
    requires Refuses(disk, chain, r)
  {
    Redo(disk, chain, Undo(disk, chain, index, r.n), r.blocks, |r.blocks|)
  }

  // The index that a refused switch leaves behind.
  ghost function RefusedIndex(disk: Disk, chain: seq<BlockId>, index: Index, r: Refusal): Index
    requires Refuses(disk, chain, r)
  {
    Erased(Connected(disk, chain, index, r), Lost(disk, chain, Connected(disk, chain, index, r), r))
  }

  // No checked user of the refused block has the first registration on the old chain above the height of that block.
  ghost predicate NoneAbove(disk: Disk, chain: seq<BlockId>, r: Refusal)
    requires Refuses(disk, chain, r)
  {
    r.failing.Some? ==>
      forall u | u in disk[r.failing.value].users[..r.checked] ::
        !OnlyAbove(disk, chain, u, disk[r.failing.value].height)
  }

  ghost predicate OnlyAbove(disk: Disk, chain: seq<BlockId>, u: User, height: nat)
    requires Stored(disk, chain)
  {
    Registered(disk, chain, u) && Newest(disk, chain, u, Min(height, |chain| - 1)).None?
  }

  // What can be checked on the old chain, the index from before and the users of the blocks involved.
  ghost predicate Harmless(disk: Disk, chain: seq<BlockId>, index: Index, r: Refusal)
    requires Refuses(disk, chain, r)
  {
    && LeftRight(disk, chain, index, r.n)
    && NoneRegistered(disk, chain, UsersOf(disk, r.blocks, |r.blocks|))
    && NoneAbove(disk, chain, r)
  }

  lemma {:induction false} FuelAgrees(disk: Disk, chain: seq<BlockId>, index: Index, u: User, m: nat, k: int, f: nat,
                                      g: nat)
    requires !Lookup(disk, chain, index, u, m, k, f).Running? && f <= g
    ensures Lookup(disk, chain, index, u, m, k, g) == Lookup(disk, chain, index, u, m, k, f)
    decreases f
  {
    if f > 0 {
      var o := LookupStep(disk, chain, index, u, m, k);
      if o.Running? {
        FuelAgrees(disk, chain, index, u, m, o.height, f - 1, g - 1);
      }
    }
  }

  // When lookups are right, finding and missing are what the scan says.
  lemma FindsIff(disk: Disk, chain: seq<BlockId>, index: Index, u: User, m: nat)
    requires Stored(disk, chain) && AllLookupsRight(disk, chain, index)
    ensures Finds(disk, chain, index, u, m) <==> Newest(disk, chain, u, Min(m, |chain| - 1)).Some?
    ensures Misses(disk, chain, index, u, m) <==> Newest(disk, chain, u, Min(m, |chain| - 1)).None?
  {
    hide Lookup, Newest;
    assert LookupsRight(disk, chain, index, u, m);
    var f: nat :| Answers(disk, chain, u, Lookup(disk, chain, index, u, m, -1, f),
                          Newest(disk, chain, u, Min(m, |chain| - 1)));
    forall g: nat | !Lookup(disk, chain, index, u, m, -1, g).Running?
      ensures Lookup(disk, chain, index, u, m, -1, g) == Lookup(disk, chain, index, u, m, -1, f)
    {
      if f <= g {
        FuelAgrees(disk, chain, index, u, m, -1, f, g);
      } else {
        FuelAgrees(disk, chain, index, u, m, -1, g, f);
      }
    }
  }

  lemma ErasesIff(disk: Disk, chain: seq<BlockId>, index: Index, u: User, height: nat)
    requires Stored(disk, chain) && Sound(disk, index) && Agrees(disk, chain, index)
    ensures Erases(disk, chain, index, u, height) <==> OnlyAbove(disk, chain, u, height)
  {
    hide Newest, Finds, Misses, Agrees, Sound;
    AgreementMakesLookupsRight(disk, chain, index);
    FindsIff(disk, chain, index, u, |chain| - 1);
    FindsIff(disk, chain, index, u, height);
  }

  lemma LostRegistered(disk: Disk, chain: seq<BlockId>, now: Index, r: Refusal, u: User)
    requires Refuses(disk, chain, r) && u in Lost(disk, chain, now, r)
    ensures Registered(disk, chain, u)
  {
    hide Erases, Newest;
    ErasesMeans(disk, chain, now, u, disk[r.failing.value].height);
    OnChain(disk, chain, u, disk[now[Key(u, -1)].block].height);
  }

  // While the index agrees with the old chain, the check erases exactly the users registered only above.
  lemma LostIff(disk: Disk, chain: seq<BlockId>, now: Index, r: Refusal)
    requires Refuses(disk, chain, r) && Sound(disk, now) && Agrees(disk, chain, now)
    ensures Lost(disk, chain, now, r) == {} <==> NoneAbove(disk, chain, r)
  {
    hide Erases, OnlyAbove, Agrees, Sound;
    if r.failing.Some? {
      var block := disk[r.failing.value];
      forall u
        ensures u in Lost(disk, chain, now, r)
           <==> u in block.users[..r.checked] && OnlyAbove(disk, chain, u, block.height)
      {
        ErasesIff(disk, chain, now, u, block.height);
      }
    }
  }

  // After a refused switch all lookups on the unchanged chain are right if and only if the switch was harmless.
  lemma RefusedExact(disk: Disk, chain: seq<BlockId>, index: Index, r: Refusal)
    requires Refuses(disk, chain, r) && Sound(disk, index) && Agrees(disk, chain, index)
    ensures Sound(disk, RefusedIndex(disk, chain, index, r))
    ensures AllLookupsRight(disk, chain, RefusedIndex(disk, chain, index, r)) <==> Harmless(disk, chain, index, r)
    ensures Agrees(disk, chain, RefusedIndex(disk, chain, index, r)) <==> Harmless(disk, chain, index, r)
  {
    hide Agrees, Sound, Redo, Undo, Lost, LeftRight, NoneRegistered, NoneAbove, AllLookupsRight, Erased, Halfway;
    PrefixStored(disk, chain, r.n, r.blocks);
    UndoRight(disk, chain, index, r.n);
    var start, now := Undo(disk, chain, index, r.n), Connected(disk, chain, index, r);
    var users, lost := UsersOf(disk, r.blocks, |r.blocks|), Lost(disk, chain, now, r);
    RedoSound(disk, chain, start, r.n, r.blocks, |r.blocks|);
    ErasedSound(disk, now, lost);
    LookupsRightIff(disk, chain, Erased(now, lost));
    RedoHalfway(disk, chain, index, r.n, r.blocks, |r.blocks|);
    forall u | u in lost ensures Registered(disk, chain, u) {
      LostRegistered(disk, chain, now, r, u);
    }
    HalfwayAgrees(disk, chain, index, r.n, now, users, lost);
    HalfwayAgrees(disk, chain, index, r.n, now, users, {});
    ErasedNone(now);
    if Agrees(disk, chain, now) {
      LostIff(disk, chain, now, r);
    }
  }

  lemma ErasedNone(index: Index)
    ensures Erased(index, {}) == index
  {
  }

  // Above height 1 the condition on the disconnected blocks is plain: none of their users has a saved entry.
  lemma LeftRightIff(disk: Disk, chain: seq<BlockId>, index: Index, n: nat)
    requires Stored(disk, chain) && 2 <= n <= |chain| && Sound(disk, index) && Agrees(disk, chain, index)
    ensures LeftRight(disk, chain, index, n)
       <==> forall u, h | n <= h < |chain| && u in disk[chain[h]].users :: Key(u, h - 1) !in index
  {
    hide Sound, Newest, LeftLatest;
    if h, u :| n <= h < |chain| && u in disk[chain[h]].users && Key(u, h - 1) in index {
      LeftLower(disk, chain, index, n, u, h);
      assert !LeftRightFor(disk, chain, index, n, u);
    }
    if forall u, h | n <= h < |chain| && u in disk[chain[h]].users :: Key(u, h - 1) !in index {
      forall u, h | n <= h < |chain| && u in disk[chain[h]].users ensures LeftRightFor(disk, chain, index, n, u) {
        LeftUnsaved(disk, chain, index, n, u);
        assert Points(disk, chain, Get(index, Key(u, -1)), Newest(disk, chain, u, |chain| - 1));
      }
    }
  }

  lemma {:induction false} LeftUnsaved(disk: Disk, chain: seq<BlockId>, index: Index, n: nat, u: User)
    requires Stored(disk, chain) && n <= |chain|
    requires forall h | n <= h < |chain| && u in disk[chain[h]].users :: Key(u, h - 1) !in index
    ensures LeftLatest(disk, chain, index, n, u) == Get(index, Key(u, -1))
    decreases |chain| - n
  {
    if n < |chain| {
      LeftUnsaved(disk, chain, index, n + 1, u);
    }
  }

  // A saved entry that is given back leads below the registration it was saved for, or off the chain.
  lemma {:induction false} LeftLower(disk: Disk, chain: seq<BlockId>, index: Index, n: nat, u: User, h: nat)
    requires Stored(disk, chain) && 2 <= n <= h < |chain| && Agrees(disk, chain, index)
    requires u in disk[chain[h]].users && Key(u, h - 1) in index
    ensures Registered(disk, chain, u)
    ensures var e := LeftLatest(disk, chain, index, n, u);
            e.Some? && e.value.block != chain[Newest(disk, chain, u, |chain| - 1).value]
    decreases |chain| - n
  {
    OnChain(disk, chain, u, h);
    if u in disk[chain[n]].users && Key(u, n - 1) in index {
      assert Precedes(disk, chain, index, u, n);
      BelowNewest(disk, chain, u, n);
    } else {
      LeftLower(disk, chain, index, n + 1, u, h);
    }
  }

  lemma BelowNewest(disk: Disk, chain: seq<BlockId>, u: User, n: nat)
    requires Stored(disk, chain) && 0 < n < |chain| && u in disk[chain[n]].users
    ensures Newest(disk, chain, u, |chain| - 1).Some? && Newest(disk, chain, u, |chain| - 1).value >= n
    ensures InMainChain(disk, chain, chain[Newest(disk, chain, u, |chain| - 1).value])
  {
  }
}
