/**
 Concrete runs of the username index after which lookups go wrong, each driven
 through its reorganisations.
 */
module NameExamples {
  import opened Options
  import opened TxIndex
  import opened NameSwitch
  import opened NameHistory
  import opened NameIndex

  const USER: User := "u"
  const OTHER: User := "v"

  function Anything(older: Pos, newer: Pos): bool {
    true
  }

  function Nothing(older: Pos, newer: Pos): bool {
    false
  }

  // ---------- one reorganisation ----------

  // A reorganisation in which the world and all checks agree.
  method Switch(m: NameIndex, n: nat, blocks: seq<BlockId>, ghost t: State, ghost seen: set<BlockId>)
    requires m.Valid() && Moves(m.disk, State(m.chain, m.index), Switched(n, blocks), t)
    requires AllPass(m.disk, m.chain, Undo(m.disk, m.chain, m.index, n), blocks, |blocks|, m.permits)
    requires forall q | m.asked <= q < m.asked + (|m.chain| - n) + |blocks| :: m.world(q)
    modifies m`index, m`chain, m`asked
    ensures m.Steady() && State(m.chain, m.index) == t && m.asked == old(m.asked) + (|old(m.chain)| - n) + |blocks|
    ensures EntriesIn(old(m.index), seen) && (forall b | b in blocks :: b !in seen) ==> m.Valid()
  {
    hide Agrees, Sound, Undo, Redo, NewChain, Branch, EntriesIn, AllFree, AllLookupsRight, Passes, FailsAt;
    ghost var s := State(m.chain, m.index);
    if EntriesIn(m.index, seen) && forall b | b in blocks :: b !in seen {
      UnseenSwitchIsSafe(m.disk, s, Switched(n, blocks), t, seen);
      MoveExact(m.disk, s, Switched(n, blocks), t);
    }
    var ok;
    ghost var r;
    ok, r := m.Reorganise(n, blocks);
    if !ok {
      PassedNotDeclined(m.disk, m.chain, Undo(m.disk, m.chain, old(m.index), n), blocks, r, m.permits);
      assert false;
    }
  }

  lemma PassedNotDeclined(disk: Disk, chain: seq<BlockId>, index: Index, blocks: seq<BlockId>, r: Refusal,
                          permits: (Pos, Pos) -> bool)
    requires |chain| > 0 && (forall b | b in blocks :: b in disk)
             && AllPass(disk, chain, index, blocks, |blocks|, permits)
    ensures !Declined(disk, chain, index, blocks, r, permits, true)
  {
    hide Redo, Admitted;
    if r.blocks < blocks {
      assert Passes(disk, chain, Redo(disk, chain, index, blocks, |r.blocks|), blocks[|r.blocks|], permits);
    }
  }

  // ---------- the check of one block ----------

  lemma NobodyPasses(disk: Disk, chain: seq<BlockId>, index: Index, b: BlockId, permits: (Pos, Pos) -> bool)
    requires |chain| > 0 && b in disk && disk[b].users == []
    ensures Passes(disk, chain, index, b, permits)
  {
  }

  lemma OnePasses(disk: Disk, chain: seq<BlockId>, index: Index, b: BlockId, permits: (Pos, Pos) -> bool)
    requires |chain| > 0 && b in disk && |disk[b].users| == 1 && Admitted(disk, chain, index, b, 0, permits)
    ensures Passes(disk, chain, index, b, permits)
  {
    hide Admitted;
  }

  // A user without an entry on the chain is not found.
  lemma UnknownAdmitted(disk: Disk, chain: seq<BlockId>, index: Index, b: BlockId, i: nat, permits: (Pos, Pos) -> bool)
    requires |chain| > 0 && b in disk && i < |disk[b].users|
    requires var k := Key(disk[b].users[i], -1); k in index ==> !InMainChain(disk, chain, index[k].block)
    ensures Admitted(disk, chain, index, b, i, permits)
  {
    assert Lookup(disk, chain, index, disk[b].users[i], |chain| - 1, -1, 1).NotFound?;
  }

  // A user whose latest entry is on the chain, not above the block, is admitted if and only if that is permitted.
  lemma KnownAdmittedIff(disk: Disk, chain: seq<BlockId>, index: Index, b: BlockId, i: nat, permits: (Pos, Pos) -> bool)
    requires |chain| > 0 && b in disk && i < |disk[b].users|
    requires var k := Key(disk[b].users[i], -1);
             && k in index && InMainChain(disk, chain, index[k].block) && disk[index[k].block].height <= disk[b].height
             && index[k].offset < |disk[index[k].block].users| && disk[index[k].block].users[index[k].offset] == k.user
    ensures Admitted(disk, chain, index, b, i, permits) <==> permits(index[Key(disk[b].users[i], -1)], Pos(b, i))
  {
    var u, height := disk[b].users[i], disk[b].height;
    var p := index[Key(u, -1)];
    OneRound(disk, chain, index, u, height, Found(p));
    OneRound(disk, chain, index, u, |chain| - 1, Found(p));
  }

  lemma OneRound(disk: Disk, chain: seq<BlockId>, index: Index, u: User, m: nat, o: Outcome)
    requires LookupStep(disk, chain, index, u, m, -1) == o && !o.Running?
    ensures forall fuel: nat ::
              Lookup(disk, chain, index, u, m, -1, fuel).Running?
              || Lookup(disk, chain, index, u, m, -1, fuel) == o
    ensures Lookup(disk, chain, index, u, m, -1, 1) == o
  {
  }

  // ---------- the writes of one block ----------

  lemma NotErased(disk: Disk, chain: seq<BlockId>, index: Index, u: User, height: nat)
    requires Stored(disk, chain)
    requires Key(u, -1) in index ==>
               var b := index[Key(u, -1)].block; !InMainChain(disk, chain, b) || disk[b].height <= height
    ensures !Erases(disk, chain, index, u, height)
  {
    hide Erases;
    if Erases(disk, chain, index, u, height) {
      ErasesMeans(disk, chain, index, u, height);
    }
  }

  // Connecting one more block, whose check erases nothing.
  lemma NextBlock(disk: Disk, chain: seq<BlockId>, index: Index, blocks: seq<BlockId>, j: nat)
    requires Stored(disk, chain) && j < |blocks| && forall b | b in blocks :: b in disk
    requires forall u | u in disk[blocks[j]].users ::
               !Erases(disk, chain, Redo(disk, chain, index, blocks, j), u, disk[blocks[j]].height)
    ensures Redo(disk, chain, index, blocks, j + 1)
         == Entered(Redo(disk, chain, index, blocks, j), blocks[j], disk[blocks[j]])
    ensures Redo(disk, chain, index, blocks, 0) == index
  {
    hide Erases, Entered, Erased;
    var now, block := Redo(disk, chain, index, blocks, j), disk[blocks[j]];
    assert ErasedBy(disk, chain, now, block, |block.users|) == {};
    ErasedNone(now);
  }

  lemma OneUser(index: Index, b: BlockId, u: User, height: nat)
    ensures Entered(index, b, Block(height, [u]))
         == var first := index[Key(u, -1) := Pos(b, 0)];
            if Key(u, -1) in index && index[Key(u, -1)].block != b then first[Key(u, height - 1) := index[Key(u, -1)]]
            else first
  {
    assert EnteredUsers(index, b, Block(height, [u]), 0) == index;
  }

  lemma NoUser(index: Index, b: BlockId, height: nat)
    ensures Entered(index, b, Block(height, [])) == index
  {
  }

  lemma UndoNone(disk: Disk, chain: seq<BlockId>, index: Index)
    requires Stored(disk, chain)
    ensures Undo(disk, chain, index, |chain|) == index
  {
  }

  lemma UndoOne(disk: Disk, chain: seq<BlockId>, index: Index, n: nat)
    requires Stored(disk, chain) && n < |chain|
    ensures Undo(disk, chain, index, n) == Restored(Undo(disk, chain, index, n + 1), disk[chain[n]])
  {
  }

  lemma RestoredUser(index: Index, u: User, height: nat)
    ensures Restored(index, Block(height, [u]))
         == if Key(u, height - 1) in index then index[Key(u, -1) := index[Key(u, height - 1)]] else index
  {
  }

  lemma RestoredNone(index: Index, height: nat)
    ensures Restored(index, Block(height, [])) == index
  {
  }

  // ---------- whole switches ----------

  // A switch leads to the next state, and its blocks pass their checks.
  ghost predicate Takes(disk: Disk, s: State, step: Step, t: State, permits: (Pos, Pos) -> bool) {
    && step.Switched? && Moves(disk, s, step, t)
    && AllPass(disk, s.chain, Undo(disk, s.chain, s.index, step.n), step.blocks, |step.blocks|, permits)
  }

  // A switch to a single block of a single user.
  lemma TakesOne(disk: Disk, s: State, b: BlockId, u: User, t: State, permits: (Pos, Pos) -> bool)
    requires var n := |s.chain|; b in disk && Branch(disk, s.chain, n, [b]) && disk[b] == Block(n, [u])
    requires Key(u, -1) in s.index ==> Sound(disk, s.index) && permits(s.index[Key(u, -1)], Pos(b, 0))
    requires t == State(s.chain + [b], Entered(s.index, b, disk[b]))
    ensures Takes(disk, s, Switched(|s.chain|, [b]), t, permits)
  {
    hide Redo, Undo, Entered, Admitted, Erases, Lookup;
    assert Extends(disk, s.chain, |s.chain|, [b][0]);
    UndoNone(disk, s.chain, s.index);
    assert NewChain(s.chain, |s.chain|, [b], 1) == s.chain + [b];
    RedoStart(disk, s.chain, s.index, [b]);
    NotErased(disk, s.chain, s.index, u, disk[b].height);
    NextBlock(disk, s.chain, s.index, [b], 0);
    if Key(u, -1) in s.index && InMainChain(disk, s.chain, s.index[Key(u, -1)].block) {
      KnownAdmittedIff(disk, s.chain, s.index, b, 0, permits);
    } else {
      UnknownAdmitted(disk, s.chain, s.index, b, 0, permits);
    }
  }

  lemma TakesNobody(disk: Disk, s: State, b: BlockId, t: State, permits: (Pos, Pos) -> bool)
    requires var n := |s.chain|; b in disk && Branch(disk, s.chain, n, [b]) && disk[b] == Block(n, [])
    requires t == State(s.chain + [b], s.index)
    ensures Takes(disk, s, Switched(|s.chain|, [b]), t, permits)
  {
    hide Redo, Undo, Entered, Admitted;
    assert Extends(disk, s.chain, |s.chain|, [b][0]);
    UndoNone(disk, s.chain, s.index);
    assert NewChain(s.chain, |s.chain|, [b], 1) == s.chain + [b];
    RedoStart(disk, s.chain, s.index, [b]);
    NextBlock(disk, s.chain, s.index, [b], 0);
    NoUser(s.index, b, |s.chain|);
  }

  // An index whose blocks are all stored and none connected.
  method Loaded(disk: Disk, ids: seq<BlockId>, permits: (Pos, Pos) -> bool, world: nat -> bool) returns (m: NameIndex)
    requires 0 in disk && disk[0] == Block(0, []) && (forall b | b in disk :: b == 0 || b in ids)
    requires 0 !in ids && (forall i, j | 0 <= i < j < |ids| :: ids[i] != ids[j])
    requires forall b | b in ids :: b in disk && Distinct(disk[b].users)
    ensures fresh(m) && m.Valid() && m.disk == disk && State(m.chain, m.index) == State([0], map[])
    ensures m.permits == permits && m.world == world && m.asked == 0
  {
    hide Agrees, Sound, Stored;
    m := new NameIndex(0, [], permits, world);
    for i := 0 to |ids|
      invariant fresh(m) && m.Valid() && m.chain == [0] && m.index == map[] && m.asked == 0
      invariant m.permits == permits && m.world == world
      invariant forall b :: b in m.disk <==> b == 0 || b in ids[..i]
      invariant forall b | b in m.disk :: b in disk && m.disk[b] == disk[b]
    {
      m.StoreBlock(ids[i], disk[ids[i]]);
      assert ids[..i + 1] == ids[..i] + [ids[i]];
    }
    assert ids[..|ids|] == ids;
  }

  // ---------- a lookup that never ends ----------

  // Blocks 2 and 3 are rivals at height 2 and register the same user. The chain goes to 2, to 3 and 4, and with 5 and 6
  // back to 2, longer every time.
  function RivalDisk(): Disk {
    map[0 := Block(0, []), 1 := Block(1, []), 2 := Block(2, [USER]), 3 := Block(2, [USER]),
        4 := Block(3, []), 5 := Block(3, []), 6 := Block(4, [])]
  }

  ghost function RivalSteps(): seq<Step> {
    [Switched(1, [1]), Switched(2, [2]), Switched(2, [3, 4]), Switched(2, [2, 5, 6])]
  }

  ghost function RivalStates(): seq<State> {
    var first: Index := map[Key(USER, -1) := Pos(2, 0)];
    var rival: Index := map[Key(USER, -1) := Pos(3, 0), Key(USER, 1) := Pos(2, 0)];
    var back: Index := map[Key(USER, -1) := Pos(2, 0), Key(USER, 1) := Pos(2, 0)];
    [State([0], map[]), State([0, 1], map[]), State([0, 1, 2], first), State([0, 1, 3, 4], rival),
     State([0, 1, 2, 5, 6], back)]
  }

  lemma RivalForthWrites()
    ensures var disk, s, t, blocks := RivalDisk(), RivalStates()[2], RivalStates()[3], [3, 4];
            && Stored(disk, s.chain) && (forall b | b in blocks :: b in disk)
            && Undo(disk, s.chain, s.index, 2) == s.index
            && Redo(disk, s.chain, s.index, blocks, 0) == s.index
            && Redo(disk, s.chain, s.index, blocks, 1) == Redo(disk, s.chain, s.index, blocks, 2) == t.index
  {
    hide Entered, Redo, Undo, Restored, Erases;
    var disk, s, t, blocks := RivalDisk(), RivalStates()[2], RivalStates()[3], [3, 4];
    UndoNone(disk, s.chain, s.index);
    UndoOne(disk, s.chain, s.index, 2);
    RestoredUser(s.index, USER, 2);
    NotErased(disk, s.chain, s.index, USER, 2);
    RedoStart(disk, s.chain, s.index, blocks);
    NextBlock(disk, s.chain, s.index, blocks, 0);
    OneUser(s.index, 3, USER, 2);
    assert Redo(disk, s.chain, s.index, blocks, 1) == t.index;
    NextBlock(disk, s.chain, s.index, blocks, 1);
    NoUser(t.index, 4, 3);
  }

  lemma RivalBlocks()
    ensures var disk := RivalDisk();
            && (forall b | b in disk :: b <= 6 && Distinct(disk[b].users)) && (forall b: BlockId | b <= 6 :: b in disk)
            && disk[0] == Block(0, []) && disk[1] == Block(1, []) && disk[2] == disk[3] == Block(2, [USER])
            && disk[4] == disk[5] == Block(3, []) && disk[6] == Block(4, [])
  {
  }

  lemma RivalShapes()
    ensures var disk, states, forth, back := RivalDisk(), RivalStates(), [3, 4], [2, 5, 6];
            && Branch(disk, states[2].chain, 2, forth) && (forall b | b in forth :: b in disk)
            && Branch(disk, states[3].chain, 2, back) && (forall b | b in back :: b in disk)
            && NewChain(states[2].chain, 2, forth, 2) == states[3].chain
            && NewChain(states[3].chain, 2, back, 3) == states[4].chain
  {
    hide RivalDisk, Distinct;
    RivalBlocks();
  }

  lemma RivalForth()
    ensures Takes(RivalDisk(), RivalStates()[2], RivalSteps()[2], RivalStates()[3], Anything)
  {
    hide Redo, Undo, Admitted, Branch, NewChain, Passes;
    var disk, s, t, blocks := RivalDisk(), RivalStates()[2], RivalStates()[3], [3, 4];
    RivalShapes();
    RivalForthWrites();
    KnownAdmittedIff(disk, s.chain, s.index, 3, 0, Anything);
    OnePasses(disk, s.chain, s.index, 3, Anything);
    NobodyPasses(disk, s.chain, t.index, 4, Anything);
    assert forall i | 0 <= i < 2 :: Passes(disk, s.chain, Redo(disk, s.chain, s.index, blocks, i), blocks[i], Anything);
  }

  lemma RivalBackUndo()
    ensures var disk, s, t := RivalDisk(), RivalStates()[3], RivalStates()[4];
            Stored(disk, s.chain) && Undo(disk, s.chain, s.index, 2) == t.index
  {
    hide Undo, Restored;
    var disk, s := RivalDisk(), RivalStates()[3];
    UndoNone(disk, s.chain, s.index);
    UndoOne(disk, s.chain, s.index, 3);
    RestoredNone(s.index, 3);
    UndoOne(disk, s.chain, s.index, 2);
    RestoredUser(s.index, USER, 2);
  }

  lemma RivalBackWrites()
    ensures var disk, s, t, blocks := RivalDisk(), RivalStates()[3], RivalStates()[4], [2, 5, 6];
            && Stored(disk, s.chain) && (forall b | b in blocks :: b in disk)
            && forall j | 0 <= j <= 3 :: Redo(disk, s.chain, t.index, blocks, j) == t.index
  {
    hide Entered, Redo, Erases;
    var disk, s, t, blocks := RivalDisk(), RivalStates()[3], RivalStates()[4], [2, 5, 6];
    NotErased(disk, s.chain, t.index, USER, 2);
    RedoStart(disk, s.chain, t.index, blocks);
    NextBlock(disk, s.chain, t.index, blocks, 0);
    OneUser(t.index, 2, USER, 2);
    assert Redo(disk, s.chain, t.index, blocks, 1) == t.index;
    NextBlock(disk, s.chain, t.index, blocks, 1);
    NoUser(t.index, 5, 3);
    NextBlock(disk, s.chain, t.index, blocks, 2);
    NoUser(t.index, 6, 4);
  }

  lemma RivalBack()
    ensures Takes(RivalDisk(), RivalStates()[3], RivalSteps()[3], RivalStates()[4], Anything)
  {
    hide Redo, Undo, Admitted, Branch, NewChain, Passes;
    var disk, s, t, blocks := RivalDisk(), RivalStates()[3], RivalStates()[4], [2, 5, 6];
    RivalShapes();
    RivalBackUndo();
    RivalBackWrites();
    UnknownAdmitted(disk, s.chain, t.index, 2, 0, Anything);
    OnePasses(disk, s.chain, t.index, 2, Anything);
    NobodyPasses(disk, s.chain, t.index, 5, Anything);
    NobodyPasses(disk, s.chain, t.index, 6, Anything);
    assert forall i | 0 <= i < 3 :: Passes(disk, s.chain, Redo(disk, s.chain, t.index, blocks, i), blocks[i], Anything);
  }

  lemma RivalStart()
    ensures Takes(RivalDisk(), RivalStates()[0], RivalSteps()[0], RivalStates()[1], Anything)
    ensures Takes(RivalDisk(), RivalStates()[1], RivalSteps()[1], RivalStates()[2], Anything)
  {
    hide Takes, Entered, RivalDisk, Distinct;
    RivalBlocks();
    var disk := RivalDisk();
    assert Branch(disk, [0], 1, [1]) && Branch(disk, [0, 1], 2, [2]);
    TakesNobody(disk, RivalStates()[0], 1, RivalStates()[1], Anything);
    OneUser(map[], 2, USER, 2);
    TakesOne(disk, RivalStates()[1], 2, USER, RivalStates()[2], Anything);
  }

  lemma RivalRing()
    ensures var disk, s := RivalDisk(), RivalStates()[4];
            && Stored(disk, s.chain) && Sound(disk, s.index) && Ring(disk, s.chain, s.index, USER, 2)
            && Points(disk, s.chain, Get(s.index, Key(USER, -1)), Newest(disk, s.chain, USER, 4))
  {
    var disk, chain := RivalDisk(), [0, 1, 2, 5, 6];
    assert Newest(disk, chain, USER, 2) == Some(2) && Newest(disk, chain, USER, 3) == Some(2);
  }

  lemma RivalHistory()
    ensures History(RivalDisk(), RivalStates(), RivalSteps()) && !NothingTwice(RivalSteps())
  {
    hide Moves, AllPass, Undo, NothingTwice;
    RivalStart();
    RivalForth();
    RivalBack();
    assert Stored(RivalDisk(), [0]);
    RivalTwice();
  }

  lemma RivalTwice()
    ensures !NothingTwice(RivalSteps())
  {
    assert 2 in BlocksOf(RivalSteps()[1]) && 2 in BlocksOf(RivalSteps()[3]);
    assert !Apart(RivalSteps()[1], RivalSteps()[3]);
  }

  method RivalRun() returns (m: NameIndex)
    ensures fresh(m) && m.disk == RivalDisk() && State(m.chain, m.index) == RivalStates()[4]
  {
    hide Agrees, Sound, Stored, Moves, AllPass, Undo, RivalDisk, EntriesIn;
    RivalStored();
    m := Loaded(RivalDisk(), [1, 2, 3, 4, 5, 6], Anything, _ => true);
    RivalStart();
    Switch(m, 1, [1], RivalStates()[1], {});
    Switch(m, 2, [2], RivalStates()[2], {});
    RivalForth();
    Switch(m, 2, [3, 4], RivalStates()[3], {2});
    RivalBack();
    Switch(m, 2, [2, 5, 6], RivalStates()[4], {});
  }

  // The last switch connects a block for the second time, and then the lookup of the user at height 1 never ends.
  method RivalNeverEnds() returns (m: NameIndex)
    ensures fresh(m) && m.disk == RivalDisk() && State(m.chain, m.index) == RivalStates()[4]
    ensures History(m.disk, RivalStates(), RivalSteps()) && !NothingTwice(RivalSteps())
    ensures NeverEnds(m.disk, m.chain, m.index, USER, 1)
  {
    hide Sound, Stored, RivalDisk, Ring, Newest, NeverEnds, History, NothingTwice, Points;
    m := RivalRun();
    RivalHistory();
    RivalRing();
    RingBreaksLookup(RivalDisk(), RivalStates()[4].chain, RivalStates()[4].index, USER, 1);
  }

  lemma RivalStored()
    ensures var disk := RivalDisk();
            && 0 in disk && disk[0] == Block(0, []) && (forall b | b in disk :: b == 0 || b in [1, 2, 3, 4, 5, 6])
            && (forall b | b in [1, 2, 3, 4, 5, 6] :: b in disk && Distinct(disk[b].users))
    ensures forall i | 0 <= i < 2 :: EntriesIn(RivalStates()[i].index, {})
    ensures EntriesIn(RivalStates()[2].index, {2})
  {
  }

  // ---------- a refused switch that loses a registration ----------

  // The user registers at heights 1 and 2. A switch disconnects block 2, connects block 3 and is refused at block 5.
  function RefusedDisk(): Disk {
    map[0 := Block(0, []), 1 := Block(1, [USER]), 2 := Block(2, [USER]), 3 := Block(2, []), 5 := Block(3, [])]
  }

  ghost function RefusedSteps(): seq<Step> {
    [Switched(1, [1]), Switched(2, [2]), Refused(Refusal(2, [3], None, 0))]
  }

  ghost function RefusedStates(): seq<State> {
    var one: Index := map[Key(USER, -1) := Pos(1, 0)];
    var two: Index := map[Key(USER, -1) := Pos(2, 0), Key(USER, 1) := Pos(1, 0)];
    var after: Index := map[Key(USER, -1) := Pos(1, 0), Key(USER, 1) := Pos(1, 0)];
    [State([0], map[]), State([0, 1], one), State([0, 1, 2], two), State([0, 1, 2], after)]
  }

  // The fifth block to be read or checked, which is block 5, is refused.
  predicate FifthRefused(asked: nat) {
    asked != 4
  }

  lemma RefusedBlocks()
    ensures var disk := RefusedDisk();
            && (forall b | b in disk :: Distinct(disk[b].users)) && (forall b | b in {0, 1, 2, 3, 5} :: b in disk)
            && disk[0] == Block(0, []) && disk[1] == Block(1, [USER]) && disk[2] == Block(2, [USER])
            && disk[3] == Block(2, []) && disk[5] == Block(3, [])
  {
  }

  lemma RefusedStart()
    ensures Takes(RefusedDisk(), RefusedStates()[0], RefusedSteps()[0], RefusedStates()[1], Anything)
    ensures Takes(RefusedDisk(), RefusedStates()[1], RefusedSteps()[1], RefusedStates()[2], Anything)
  {
    hide Takes, Entered, RefusedDisk, Distinct;
    RefusedBlocks();
    var disk, states := RefusedDisk(), RefusedStates();
    assert Branch(disk, [0], 1, [1]) && Branch(disk, [0, 1], 2, [2]);
    OneUser(map[], 1, USER, 1);
    TakesOne(disk, states[0], 1, USER, states[1], Anything);
    OneUser(states[1].index, 2, USER, 2);
    TakesOne(disk, states[1], 2, USER, states[2], Anything);
  }

  lemma RefusedLast()
    ensures var disk, s, t := RefusedDisk(), RefusedStates()[2], RefusedStates()[3];
            && Branch(disk, s.chain, 2, [3, 5]) && Moves(disk, s, RefusedSteps()[2], t)
  {
    hide Entered, Redo, Undo, Restored, Erases, Erased, RefusedDisk, Distinct;
    RefusedBlocks();
    var disk, s, t := RefusedDisk(), RefusedStates()[2], RefusedStates()[3];
    assert Branch(disk, s.chain, 2, [3, 5]) && Branch(disk, s.chain, 2, [3]);
    UndoNone(disk, s.chain, s.index);
    UndoOne(disk, s.chain, s.index, 2);
    RestoredUser(s.index, USER, 2);
    assert Undo(disk, s.chain, s.index, 2) == t.index;
    RedoStart(disk, s.chain, t.index, [3]);
    NextBlock(disk, s.chain, t.index, [3], 0);
    NoUser(t.index, 3, 2);
    ErasedNone(t.index);
  }

  // Nobody is registered by the blocks of the branch, so that only the world can refuse it.
  lemma OnlyTheWorld(index: Index, r: Refusal, permits: (Pos, Pos) -> bool, answer: bool)
    requires (forall b | b in [3, 5] :: b in RefusedDisk())
             && Declined(RefusedDisk(), [0, 1, 2], index, [3, 5], r, permits, answer)
    ensures !answer && r.failing.None? && (r.blocks == [] || r.blocks == [3])
  {
    hide Redo, Admitted, AllPass;
    assert RefusedDisk()[3].users == [] && RefusedDisk()[5].users == [];
    assert r.blocks == [3, 5][..|r.blocks|];
    assert [3, 5][..1] == [3] && [3, 5][..0] == [];
  }

  // What the world refuses leads to one state.
  lemma SameMove(disk: Disk, s: State, r: Refusal, t: State, t': State)
    requires r.failing.None? && Moves(disk, s, Refused(Refusal(r.n, r.blocks, None, 0)), t)
             && Moves(disk, s, Refused(r), t')
    ensures t == t'
  {
    hide Redo, Undo, Erased;
  }

  lemma RefusedStored()
    ensures var disk := RefusedDisk();
            && 0 in disk && disk[0] == Block(0, []) && (forall b | b in disk :: b == 0 || b in [1, 2, 3, 5])
            && (forall b | b in [1, 2, 3, 5] :: b in disk && Distinct(disk[b].users))
    ensures EntriesIn(RefusedStates()[0].index, {}) && EntriesIn(RefusedStates()[1].index, {1})
  {
  }

  lemma RefusedEnd()
    ensures var disk, s := RefusedDisk(), RefusedStates()[3];
            && Stored(disk, s.chain) && Newest(disk, s.chain, USER, 2) == Some(2)
            && Walkable(disk, s.chain, s.index, USER)
            && LookupStep(disk, s.chain, s.index, USER, 2, -1) == Found(Pos(1, 0))
  {
    var disk, s := RefusedDisk(), RefusedStates()[3];
    assert Newest(disk, s.chain, USER, 1) == Some(1);
  }

  lemma RefusedHistory()
    ensures History(RefusedDisk(), RefusedStates(), RefusedSteps()) && NothingTwice(RefusedSteps())
  {
    hide Moves, AllPass;
    var steps := RefusedSteps();
    RefusedStart();
    RefusedLast();
    assert Apart(steps[0], steps[1]) && Apart(steps[0], steps[2]) && Apart(steps[1], steps[2]);
  }

  method RefusedRun() returns (m: NameIndex)
    ensures fresh(m) && m.Steady() && m.disk == RefusedDisk() && State(m.chain, m.index) == RefusedStates()[3]
  {
    hide Agrees, Sound, Stored, Moves, AllPass, Undo, Redo, RefusedDisk, EntriesIn, Declined, Branch, AllFree;
    hide AllLookupsRight, Refuses, RefusedIndex, Harmless, NewChain;
    RefusedStored();
    m := Loaded(RefusedDisk(), [1, 2, 3, 5], Anything, FifthRefused);
    RefusedStart();
    Switch(m, 1, [1], RefusedStates()[1], {});
    Switch(m, 2, [2], RefusedStates()[2], {1});
    RefusedLast();
    ghost var start := Undo(m.disk, m.chain, m.index, 2);
    var ok;
    ghost var r;
    ok, r := m.Reorganise(2, [3, 5]);
    assert !ok by { assert !FifthRefused(4); }
    OnlyTheWorld(start, r, Anything, m.world(m.asked - 1));
    SameMove(m.disk, RefusedStates()[2], r, RefusedStates()[3], State(m.chain, m.index));
  }

  // No block is connected twice, the chain still ends with block 2, and the lookup finds block 1.
  method RefusedFindsOlder() returns (m: NameIndex, o: Outcome)
    ensures fresh(m) && m.disk == RefusedDisk() && State(m.chain, m.index) == RefusedStates()[3]
    ensures History(m.disk, RefusedStates(), RefusedSteps()) && NothingTwice(RefusedSteps())
    ensures Stored(m.disk, m.chain) && Newest(m.disk, m.chain, USER, 2) == Some(2) && o == Found(Pos(1, 0))
  {
    hide Agrees, Sound, Stored, RefusedDisk, Newest, History, NothingTwice, Lookup, Walkable;
    m := RefusedRun();
    RefusedEnd();
    o := m.GetTransaction(USER, -1);
    OneRound(m.disk, m.chain, m.index, USER, 2, Found(Pos(1, 0)));
    RefusedHistory();
  }

  // ---------- a refused block whose check erases an entry ----------

  // Block 1 registers one user and block 2 another; both stand in the rival block 4 at height 1, in the other order. No
  // replacement is permitted.
  function ErasingDisk(): Disk {
    map[0 := Block(0, []), 1 := Block(1, [OTHER]), 2 := Block(2, [USER]), 4 := Block(1, [USER, OTHER]),
        6 := Block(2, []), 7 := Block(3, [])]
  }

  ghost function ErasingRefusal(): Refusal {
    Refusal(1, [], Some(4), 1)
  }

  ghost function ErasingSteps(): seq<Step> {
    [Switched(1, [1]), Switched(2, [2]), Refused(ErasingRefusal())]
  }

  ghost function ErasingStates(): seq<State> {
    var one: Index := map[Key(OTHER, -1) := Pos(1, 0)];
    var two: Index := map[Key(OTHER, -1) := Pos(1, 0), Key(USER, -1) := Pos(2, 0)];
    [State([0], map[]), State([0, 1], one), State([0, 1, 2], two), State([0, 1, 2], one)]
  }

  lemma ErasingBlocks()
    ensures var disk := ErasingDisk();
            && (forall b | b in disk :: Distinct(disk[b].users)) && (forall b | b in {0, 1, 2, 4, 6, 7} :: b in disk)
            && disk[0] == Block(0, []) && disk[1] == Block(1, [OTHER]) && disk[2] == Block(2, [USER])
            && disk[4] == Block(1, [USER, OTHER]) && disk[6] == Block(2, []) && disk[7] == Block(3, [])
  {
  }

  lemma ErasingStart()
    ensures Takes(ErasingDisk(), ErasingStates()[0], ErasingSteps()[0], ErasingStates()[1], Nothing)
    ensures Takes(ErasingDisk(), ErasingStates()[1], ErasingSteps()[1], ErasingStates()[2], Nothing)
  {
    hide Takes, Entered, ErasingDisk, Distinct;
    ErasingBlocks();
    var disk, states := ErasingDisk(), ErasingStates();
    assert Branch(disk, [0], 1, [1]) && Branch(disk, [0, 1], 2, [2]);
    OneUser(map[], 1, OTHER, 1);
    TakesOne(disk, states[0], 1, OTHER, states[1], Nothing);
    OneUser(states[1].index, 2, USER, 2);
    TakesOne(disk, states[1], 2, USER, states[2], Nothing);
  }

  lemma ErasingUndo()
    ensures var disk, s := ErasingDisk(), ErasingStates()[2];
            Stored(disk, s.chain) && Undo(disk, s.chain, s.index, 1) == s.index
  {
    hide Restored, Undo;
    var disk, s := ErasingDisk(), ErasingStates()[2];
    UndoNone(disk, s.chain, s.index);
    UndoOne(disk, s.chain, s.index, 2);
    RestoredUser(s.index, USER, 2);
    UndoOne(disk, s.chain, s.index, 1);
    RestoredUser(s.index, OTHER, 1);
  }

  // The check of block 4 finds the first user above its height only, and the second user at its height.
  lemma ErasingCheck()
    ensures var disk, s := ErasingDisk(), ErasingStates()[2];
            && Erases(disk, s.chain, s.index, USER, 1) && ErasedBy(disk, s.chain, s.index, disk[4], 1) == {USER}
            && Admitted(disk, s.chain, s.index, 4, 0, Nothing) && !Admitted(disk, s.chain, s.index, 4, 1, Nothing)
  {
    var disk, s := ErasingDisk(), ErasingStates()[2];
    assert Lookup(disk, s.chain, s.index, USER, 2, -1, 1) == Found(Pos(2, 0));
    assert Lookup(disk, s.chain, s.index, USER, 1, 1, 1) == NotFound;
    assert Lookup(disk, s.chain, s.index, USER, 1, -1, 2) == NotFound;
    hide Erases, Lookup, Admitted;
    assert disk[4].users[..1] == [USER];
    ErasingAdmits();
    KnownAdmittedIff(disk, s.chain, s.index, 4, 1, Nothing);
  }

  lemma ErasingAdmits()
    requires Erases(ErasingDisk(), [0, 1, 2], ErasingStates()[2].index, USER, 1)
    ensures Admitted(ErasingDisk(), [0, 1, 2], ErasingStates()[2].index, 4, 0, Nothing)
  {
    hide Erases, Lookup;
  }

  lemma ErasingLast()
    ensures var disk, s, t := ErasingDisk(), ErasingStates()[2], ErasingStates()[3];
            && Branch(disk, s.chain, 1, [4, 6, 7]) && Moves(disk, s, ErasingSteps()[2], t)
  {
    hide Undo, Erases, Lookup, Admitted, ErasedBy, Redo, ErasingDisk, Distinct;
    ErasingBlocks();
    var disk, s, t := ErasingDisk(), ErasingStates()[2], ErasingStates()[3];
    assert Branch(disk, s.chain, 1, [4, 6, 7]) && Branch(disk, s.chain, 1, []) && Extends(disk, s.chain, 1, 4);
    ErasingUndo();
    ErasingCheck();
    RedoStart(disk, s.chain, s.index, []);
    assert Erased(s.index, {USER}) == t.index;
  }

  // The branch is refused, and at its first block.
  lemma DeclinedAtFour(r: Refusal, answer: bool)
    requires forall b | b in [4, 6, 7] :: b in ErasingDisk()
    ensures var disk, s := ErasingDisk(), ErasingStates()[2];
            && !AllPass(disk, s.chain, s.index, [4, 6, 7], 3, Nothing)
            && (answer && r.n == 1 && Declined(disk, s.chain, s.index, [4, 6, 7], r, Nothing, answer) ==>
                r == ErasingRefusal())
  {
    hide Admitted, Erases, ErasedBy;
    var disk, s := ErasingDisk(), ErasingStates()[2];
    ErasingCheck();
    assert disk[4].users == [USER, OTHER];
    assert !Passes(disk, s.chain, s.index, 4, Nothing);
    RedoStart(disk, s.chain, s.index, [4, 6, 7]);
    assert [4, 6, 7][0] == 4;
  }

  lemma ErasingStored()
    ensures var disk := ErasingDisk();
            && 0 in disk && disk[0] == Block(0, []) && (forall b | b in disk :: b == 0 || b in [1, 2, 4, 6, 7])
            && (forall b | b in [1, 2, 4, 6, 7] :: b in disk && Distinct(disk[b].users))
    ensures EntriesIn(ErasingStates()[0].index, {}) && EntriesIn(ErasingStates()[1].index, {1})
  {
  }

  lemma ErasingEnd()
    ensures var disk, s := ErasingDisk(), ErasingStates()[3];
            && Stored(disk, s.chain) && Newest(disk, s.chain, USER, 2) == Some(2)
            && Walkable(disk, s.chain, s.index, USER)
            && LookupStep(disk, s.chain, s.index, USER, 2, -1) == NotFound
  {
  }

  lemma ErasingHistory()
    ensures History(ErasingDisk(), ErasingStates(), ErasingSteps()) && NothingTwice(ErasingSteps())
  {
    hide Moves, AllPass, Undo;
    var steps := ErasingSteps();
    ErasingStart();
    ErasingLast();
    assert Apart(steps[0], steps[1]) && Apart(steps[0], steps[2]) && Apart(steps[1], steps[2]);
  }

  method ErasingRun() returns (m: NameIndex)
    ensures fresh(m) && m.Steady() && m.disk == ErasingDisk() && State(m.chain, m.index) == ErasingStates()[3]
  {
    hide Agrees, Sound, Stored, Moves, AllPass, Undo, Redo, ErasingDisk, EntriesIn, Declined, Branch, AllFree;
    hide AllLookupsRight, Refuses, RefusedIndex, Harmless, NewChain;
    ErasingStored();
    m := Loaded(ErasingDisk(), [1, 2, 4, 6, 7], Nothing, _ => true);
    ErasingStart();
    Switch(m, 1, [1], ErasingStates()[1], {});
    Switch(m, 2, [2], ErasingStates()[2], {1});
    ErasingLast();
    ErasingUndo();
    var ok;
    ghost var r;
    ok, r := m.Reorganise(1, [4, 6, 7]);
    DeclinedAtFour(r, true);
    SameEnd(m.disk, ErasingStates()[2], r, ErasingStates()[3], State(m.chain, m.index));
  }

  // The entry of the user is gone, although block 2 is still on the chain.
  method ErasingLosesUser() returns (m: NameIndex, o: Outcome)
    ensures fresh(m) && m.disk == ErasingDisk() && State(m.chain, m.index) == ErasingStates()[3]
    ensures History(m.disk, ErasingStates(), ErasingSteps()) && NothingTwice(ErasingSteps())
    ensures Stored(m.disk, m.chain) && Newest(m.disk, m.chain, USER, 2) == Some(2) && o == NotFound
  {
    hide Agrees, Sound, Stored, ErasingDisk, Newest, History, NothingTwice, Lookup, Walkable;
    m := ErasingRun();
    ErasingEnd();
    o := m.GetTransaction(USER, -1);
    OneRound(m.disk, m.chain, m.index, USER, 2, NotFound);
    ErasingHistory();
  }

  lemma SameEnd(disk: Disk, s: State, r: Refusal, t: State, t': State)
    requires Moves(disk, s, Refused(r), t) && Moves(disk, s, Refused(r), t')
    ensures t == t'
  {
    hide RefusedIndex;
  }
}
