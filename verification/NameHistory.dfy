/**
 Whole histories of the username index: any sequence of reorganisations, each of
 which succeeds or is refused on the way.
 */
module NameHistory {
  import opened TxIndex
  import opened NameSwitch

  datatype Step = Switched(n: nat, blocks: seq<BlockId>) | Refused(r: Refusal)

  datatype State = State(chain: seq<BlockId>, index: Index)

  // A switch moves chain and index, a refused one the index alone.
  ghost predicate Moves(disk: Disk, s: State, step: Step, t: State) {
    match step
    case Switched(n, blocks) =>
      && Branch(disk, s.chain, n, blocks) && (forall b | b in blocks :: b in disk)
      && t.chain == NewChain(s.chain, n, blocks, |blocks|)
      && t.index == Redo(disk, s.chain, Undo(disk, s.chain, s.index, n), blocks, |blocks|)
    case Refused(r) =>
      Refuses(disk, s.chain, r) && t.chain == s.chain && t.index == RefusedIndex(disk, s.chain, s.index, r)
  }

  // What can be checked of a step beforehand: every block is loop free, or the refusal is harmless.
  ghost predicate Safe(disk: Disk, s: State, step: Step) {
    match step
    case Switched(n, blocks) =>
      Branch(disk, s.chain, n, blocks) && AllFree(disk, s.chain, Undo(disk, s.chain, s.index, n), n, blocks)
    case Refused(r) =>
      Refuses(disk, s.chain, r) && Harmless(disk, s.chain, s.index, r)
  }

  ghost predicate Right(disk: Disk, s: State) {
    Stored(disk, s.chain) && Sound(disk, s.index) && Agrees(disk, s.chain, s.index)
  }

  // All lookups on the chain of a state terminate with the right answers.
  ghost predicate Answering(disk: Disk, s: State) {
    Stored(disk, s.chain) && AllLookupsRight(disk, s.chain, s.index)
  }

  // One step from a right state is answered rightly if and only if it is safe.
  lemma MoveExact(disk: Disk, s: State, step: Step, t: State)
    requires Right(disk, s) && Moves(disk, s, step, t)
    ensures Right(disk, t) <==> Safe(disk, s, step)
    ensures Answering(disk, t) <==> Safe(disk, s, step)
  {
    hide Sound, Agrees, AllLookupsRight, AllFree, Harmless, Undo, Redo, NewChain, RefusedIndex, Branch;
    match step {
      case Switched(n, blocks) =>
        PrefixStored(disk, s.chain, n, blocks);
        SwitchExact(disk, s.chain, s.index, n, blocks);
      case Refused(r) =>
        RefusedExact(disk, s.chain, s.index, r);
    }
  }

  // A history from the genesis block alone.
  ghost predicate History(disk: Disk, states: seq<State>, steps: seq<Step>) {
    && |states| == |steps| + 1
    && |states[0].chain| == 1 && Stored(disk, states[0].chain) && states[0].index == map[]
    && forall i | 0 <= i < |steps| :: MovesAt(disk, states, steps, i)
  }

  ghost predicate MovesAt(disk: Disk, states: seq<State>, steps: seq<Step>, i: nat)
    requires i < |steps| && |states| == |steps| + 1
  {
    Moves(disk, states[i], steps[i], states[i + 1])
  }

  lemma StartIsRight(disk: Disk, s: State)
    requires |s.chain| == 1 && Stored(disk, s.chain) && s.index == map[]
    ensures Right(disk, s)
  {
  }

  lemma RightAnswers(disk: Disk, s: State)
    requires Right(disk, s)
    ensures Answering(disk, s)
  {
    hide AllLookupsRight;
    AgreementMakesLookupsRight(disk, s.chain, s.index);
  }

  lemma {:induction false} SafeUpTo(disk: Disk, states: seq<State>, steps: seq<Step>, n: nat)
    requires History(disk, states, steps) && n <= |steps|
    requires forall i | 0 <= i < n :: Safe(disk, states[i], steps[i])
    ensures Right(disk, states[n]) && Answering(disk, states[n])
  {
    hide Right, Moves, Safe, Answering;
    if n == 0 {
      StartIsRight(disk, states[0]);
    } else {
      SafeUpTo(disk, states, steps, n - 1);
      assert MovesAt(disk, states, steps, n - 1);
      MoveExact(disk, states[n - 1], steps[n - 1], states[n]);
    }
    RightAnswers(disk, states[n]);
  }

  lemma {:induction false} AnsweringUpTo(disk: Disk, states: seq<State>, steps: seq<Step>, n: nat)
    requires History(disk, states, steps) && n <= |steps|
    requires forall i | 0 <= i <= n :: Answering(disk, states[i])
    ensures forall i | 0 <= i < n :: Safe(disk, states[i], steps[i])
  {
    hide Right, Moves, Safe, Answering;
    if n > 0 {
      AnsweringUpTo(disk, states, steps, n - 1);
      SafeUpTo(disk, states, steps, n - 1);
      assert MovesAt(disk, states, steps, n - 1);
      MoveExact(disk, states[n - 1], steps[n - 1], states[n]);
    }
  }

  // Along every history, lookups are right after every switch, successful or refused, if and only if every step was
  // safe.
  lemma HistoriesExact(disk: Disk, states: seq<State>, steps: seq<Step>)
    requires History(disk, states, steps)
    ensures (forall i | 0 <= i <= |steps| :: Answering(disk, states[i]))
            <==> forall i | 0 <= i < |steps| :: Safe(disk, states[i], steps[i])
  {
    hide Safe, Answering, MovesAt, Stored;
    if forall i | 0 <= i < |steps| :: Safe(disk, states[i], steps[i]) {
      forall n | 0 <= n <= |steps| ensures Answering(disk, states[n]) {
        SafeUpTo(disk, states, steps, n);
      }
    }
    if forall i | 0 <= i <= |steps| :: Answering(disk, states[i]) {
      AnsweringUpTo(disk, states, steps, |steps|);
    }
  }

  // ---------- histories that connect nothing twice ----------

  ghost function BlocksOf(step: Step): seq<BlockId> {
    match step
    case Switched(_, blocks) => blocks
    case Refused(r) => r.blocks
  }

  ghost predicate NothingTwice(steps: seq<Step>) {
    forall i, j | 0 <= i < j < |steps| :: Apart(steps[i], steps[j])
  }

  ghost predicate Apart(a: Step, b: Step) {
    forall x | x in BlocksOf(a) :: x !in BlocksOf(b)
  }

  // The blocks connected in the first `n` steps.
  ghost function Seen(steps: seq<Step>, n: nat): set<BlockId>
    requires n <= |steps|
  {
    if n == 0 then {} else Seen(steps, n - 1) + Members(BlocksOf(steps[n - 1]))
  }

  ghost function Members(blocks: seq<BlockId>): set<BlockId> {
    set b | b in blocks
  }

  lemma {:induction false} SeenBefore(steps: seq<Step>, n: nat, b: BlockId)
    requires n <= |steps| && b in Seen(steps, n)
    ensures exists i :: 0 <= i < n && b in BlocksOf(steps[i])
  {
    if b !in BlocksOf(steps[n - 1]) {
      SeenBefore(steps, n - 1, b);
    }
  }

  // Every entry leads to one of the blocks.
  ghost predicate EntriesIn(index: Index, blocks: set<BlockId>) {
    forall k | k in index :: index[k].block in blocks
  }

  lemma {:induction false} UndoEntries(disk: Disk, chain: seq<BlockId>, index: Index, n: nat, blocks: set<BlockId>)
    requires Stored(disk, chain) && n <= |chain| && EntriesIn(index, blocks)
    ensures EntriesIn(Undo(disk, chain, index, n), blocks)
    decreases |chain| - n
  {
    hide EntriesIn, Restored;
    if n < |chain| {
      UndoEntries(disk, chain, index, n + 1, blocks);
      RestoredEntries(Undo(disk, chain, index, n + 1), disk[chain[n]], blocks);
    }
  }

  lemma RestoredEntries(index: Index, block: Block, blocks: set<BlockId>)
    requires EntriesIn(index, blocks)
    ensures EntriesIn(Restored(index, block), blocks)
  {
  }

  lemma {:induction false} EnteredEntries(index: Index, b: BlockId, block: Block, n: nat, blocks: set<BlockId>)
    requires n <= |block.users| && EntriesIn(index, blocks)
    ensures EntriesIn(EnteredUsers(index, b, block, n), blocks + {b})
  {
    if n > 0 {
      EnteredEntries(index, b, block, n - 1, blocks);
    }
  }

  lemma {:induction false} RedoEntries(disk: Disk, chain: seq<BlockId>, index: Index, blocks: seq<BlockId>, j: nat,
                                       seen: set<BlockId>)
    requires |chain| > 0 && j <= |blocks| && (forall b | b in blocks :: b in disk) && EntriesIn(index, seen)
    ensures EntriesIn(Redo(disk, chain, index, blocks, j), seen + Members(blocks[..j]))
  {
    if j > 0 {
      RedoEntries(disk, chain, index, blocks, j - 1, seen);
      var before, b := Redo(disk, chain, index, blocks, j - 1), blocks[j - 1];
      var checked := Checked(disk, chain, before, disk[b]);
      assert EntriesIn(checked, seen + Members(blocks[..j - 1]));
      EnteredEntries(checked, b, disk[b], |disk[b].users|, seen + Members(blocks[..j - 1]));
      assert blocks[..j] == blocks[..j - 1] + [b];
      assert seen + Members(blocks[..j - 1]) + {b} == seen + Members(blocks[..j]);
    }
  }

  // Blocks that were never connected before are loop free, whatever the checks erase.
  lemma UnseenFree(disk: Disk, chain: seq<BlockId>, index: Index, n: nat, blocks: seq<BlockId>, seen: set<BlockId>,
                   j: nat)
    requires Branch(disk, chain, n, blocks) && (forall b | b in blocks :: b in disk) && EntriesIn(index, seen)
    requires j < |blocks| && blocks[j] !in seen
    ensures FreeAt(disk, chain, index, n, blocks, j)
  {
    hide Redo, LoopFree, NewChain;
    NewChainStored(disk, chain, n, blocks, j);
    RedoEntries(disk, chain, index, blocks, j, seen);
    forall i | 0 <= i < j ensures blocks[i] != blocks[j] {
      assert Extends(disk, chain, n + i, blocks[i]) && Extends(disk, chain, n + j, blocks[j]);
    }
    assert blocks[j] !in blocks[..j];
    var checked := Checked(disk, chain, Redo(disk, chain, index, blocks, j), disk[blocks[j]]);
    UnreferencedIsLoopFree(disk, NewChain(chain, n, blocks, j), checked, blocks[j]);
  }

  lemma StepEntries(disk: Disk, s: State, step: Step, t: State, seen: set<BlockId>)
    requires Stored(disk, s.chain) && Moves(disk, s, step, t) && EntriesIn(s.index, seen)
    ensures EntriesIn(t.index, seen + Members(BlocksOf(step)))
  {
    hide Undo, Redo, Branch, NewChain;
    var n := if step.Switched? then step.n else step.r.n;
    var blocks := BlocksOf(step);
    PrefixStored(disk, s.chain, n, blocks);
    UndoEntries(disk, s.chain, s.index, n, seen);
    RedoEntries(disk, s.chain, Undo(disk, s.chain, s.index, n), blocks, |blocks|, seen);
    assert blocks[..|blocks|] == blocks;
  }

  lemma UnseenSwitchIsSafe(disk: Disk, s: State, step: Step, t: State, seen: set<BlockId>)
    requires Right(disk, s) && Moves(disk, s, step, t) && EntriesIn(s.index, seen) && step.Switched?
    requires forall b | b in step.blocks :: b !in seen
    ensures Safe(disk, s, step)
  {
    hide Undo, Redo, NewChain, FreeAt, Sound, Agrees, Branch;
    PrefixStored(disk, s.chain, step.n, step.blocks);
    UndoEntries(disk, s.chain, s.index, step.n, seen);
    forall j | 0 <= j < |step.blocks|
      ensures FreeAt(disk, s.chain, Undo(disk, s.chain, s.index, step.n), step.n, step.blocks, j)
    {
      UnseenFree(disk, s.chain, Undo(disk, s.chain, s.index, step.n), step.n, step.blocks, seen, j);
    }
  }

  // In every history that connects no block twice and whose refused switches are harmless, every lookup of every user
  // at every height terminates with the answer of the scan, after every switch.
  lemma {:induction false} HistoriesKeepLookupsRight(disk: Disk, states: seq<State>, steps: seq<Step>, n: nat)
    requires History(disk, states, steps) && NothingTwice(steps) && n <= |steps|
    requires forall i | 0 <= i < |steps| && steps[i].Refused? :: Safe(disk, states[i], steps[i])
    ensures EntriesIn(states[n].index, Seen(steps, n)) && Right(disk, states[n]) && Answering(disk, states[n])
  {
    hide Right, Moves, Safe, Answering, Apart, EntriesIn;
    if n == 0 {
      StartIsRight(disk, states[0]);
      NoEntries();
    } else {
      HistoriesKeepLookupsRight(disk, states, steps, n - 1);
      assert MovesAt(disk, states, steps, n - 1);
      var s, step, t, seen := states[n - 1], steps[n - 1], states[n], Seen(steps, n - 1);
      RightIsStored(disk, s);
      StepEntries(disk, s, step, t, seen);
      if step.Switched? {
        forall b | b in step.blocks ensures b !in seen {
          NotSeen(steps, n - 1, b);
        }
        UnseenSwitchIsSafe(disk, s, step, t, seen);
      }
      MoveExact(disk, s, step, t);
    }
    RightAnswers(disk, states[n]);
  }

  lemma NoEntries()
    ensures EntriesIn(map[], {})
  {
  }

  lemma RightIsStored(disk: Disk, s: State)
    requires Right(disk, s)
    ensures Stored(disk, s.chain)
  {
  }

  lemma NotSeen(steps: seq<Step>, n: nat, b: BlockId)
    requires NothingTwice(steps) && n < |steps| && b in BlocksOf(steps[n])
    ensures b !in Seen(steps, n)
  {
    if b in Seen(steps, n) {
      SeenBefore(steps, n, b);
    }
  }
}
