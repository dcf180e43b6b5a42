/**
 From the node to its name index: the switches that chain selection attempts, in
 any run of accepted blocks, are a history of the username index.
 */
module NodeHistory {
  import opened BlockTree
  import opened ChainSelection
  import opened NameHistory
  import opened NameSwitch
  import opened Options
  import opened SwitchLog
  import opened TxIndex

  // The blocks of the tree are stored, each at its own height, and nobody is registered twice in a block.
  ghost predicate Keeps(disk: Disk, t: Tree) {
    && (forall h | h in t :: h in disk && disk[h].height == t[h].height)
    && (forall b | b in disk :: Distinct(disk[b].users))
  }

  // What an attempt does to the name index. When a block is refused while it is connected, `why` says how many of its
  // users had passed the check before one did not; it is absent when the block was refused for another reason.
  ghost function StepOf(disk: Disk, chain: seq<Hash>, a: Attempt, why: Option<nat>): Step {
    if Succeeds(chain, a) then Switched(a.n, a.blocks)
    else if a.done < Above(chain, a) then Refused(Refusal(|chain| - a.done, [], None, 0))
    else RefusedConnect(disk, a, a.done - Above(chain, a), why)
  }

  ghost function RefusedConnect(disk: Disk, a: Attempt, j: nat, why: Option<nat>): Step {
    if j >= |a.blocks| then Refused(Refusal(a.n, a.blocks, None, 0))
    else if why.Some? && a.blocks[j] in disk && why.value < |disk[a.blocks[j]].users|
    then Refused(Refusal(a.n, a.blocks[..j], Some(a.blocks[j]), why.value))
    else Refused(Refusal(a.n, a.blocks[..j], None, 0))
  }

  // The steps begin when the genesis block is connected.
  ghost function StepsOf(disk: Disk, attempts: seq<Attempt>, why: nat -> Option<nat>): seq<Step> {
    if attempts == [] then []
    else
      var k := |attempts| - 1;
      var chain := ChainAfter(attempts[..k]);
      StepsOf(disk, attempts[..k], why) + if chain == [] then [] else [StepOf(disk, chain, attempts[k], why(k))]
  }

  // The state that a step leads to.
  ghost function After(disk: Disk, s: State, step: Step): State {
    match step
    case Switched(n, blocks) =>
      if Branch(disk, s.chain, n, blocks) && forall b | b in blocks :: b in disk then
        State(NewChain(s.chain, n, blocks, |blocks|),
              Redo(disk, s.chain, Undo(disk, s.chain, s.index, n), blocks, |blocks|))
      else s
    case Refused(r) =>
      if Refuses(disk, s.chain, r) then State(s.chain, RefusedIndex(disk, s.chain, s.index, r)) else s
  }

  ghost function StatesOf(disk: Disk, genesis: Hash, steps: seq<Step>): (states: seq<State>)
    ensures |states| == |steps| + 1
  {
    if steps == [] then [State([genesis], map[])]
    else
      var k := |steps| - 1;
      var states := StatesOf(disk, genesis, steps[..k]);
      states + [After(disk, states[k], steps[k])]
  }

  // ---------- one attempt ----------

  lemma ChainStored(disk: Disk, t: Tree, chain: seq<Hash>)
    requires Keeps(disk, t) && Linked(t, chain)
    ensures Stored(disk, chain)
  {
  }

  // The blocks of an attempt are a new branch of the chain.
  lemma AttemptBranches(disk: Disk, t: Tree, chain: seq<Hash>, a: Attempt)
    requires Keeps(disk, t) && Linked(t, chain) && Sensible(t, chain, a) && chain != []
    ensures Branch(disk, chain, a.n, a.blocks) && forall b | b in a.blocks :: b in disk
  {
    var q := chain[..a.n] + a.blocks;
    ChainStored(disk, t, chain);
    forall j | 0 <= j < |a.blocks| ensures Extends(disk, chain, a.n + j, a.blocks[j]) {
      assert q[a.n + j] == a.blocks[j];
      if a.n + j < |chain| && chain[a.n + j] == a.blocks[j] {
        SharedPrefix(t, chain, q, a.n + j);
      }
    }
  }

  lemma ShorterBranch(disk: Disk, chain: seq<Hash>, n: nat, blocks: seq<Hash>, j: nat)
    requires Branch(disk, chain, n, blocks) && j <= |blocks| && forall b | b in blocks :: b in disk
    ensures Branch(disk, chain, n, blocks[..j]) && (forall b | b in blocks[..j] :: b in disk)
    ensures j < |blocks| ==> Extends(disk, chain, n + j, blocks[j])
  {
    assert forall i | 0 <= i < j :: blocks[..j][i] == blocks[i];
  }

  // The step of an attempt can be made, and it leads to the chain of the attempt.
  lemma StepMoves(disk: Disk, t: Tree, world: World, from: nat, s: State, a: Attempt, why: Option<nat>)
    requires Keeps(disk, t) && Linked(t, s.chain) && Sensible(t, s.chain, a) && Answered(world, from, s.chain, a)
    ensures var step := StepOf(disk, s.chain, a, why);
            Moves(disk, s, step, After(disk, s, step)) && After(disk, s, step).chain == Moved(s.chain, a)
  {
    hide Keeps, Linked, Branch, Undo, Redo, RefusedIndex, Extends;
    NotEmpty(t, s.chain);
    AttemptBranches(disk, t, s.chain, a);
    var step := StepOf(disk, s.chain, a, why);
    if Succeeds(s.chain, a) {
      assert a.blocks[..|a.blocks|] == a.blocks;
    } else if a.done < Above(s.chain, a) {
      UndoneBranch(disk, s.chain, a.n, a.blocks, |s.chain| - a.done);
    } else {
      ShorterBranch(disk, s.chain, a.n, a.blocks, a.done - Above(s.chain, a));
    }
  }

  lemma NotEmpty(t: Tree, chain: seq<Hash>)
    requires Linked(t, chain)
    ensures chain != []
  {
  }

  // A switch that gets no further than disconnecting.
  lemma UndoneBranch(disk: Disk, chain: seq<Hash>, n: nat, blocks: seq<Hash>, to: nat)
    requires Branch(disk, chain, n, blocks) && n <= to <= |chain|
    ensures Branch(disk, chain, to, [])
  {
  }

  // ---------- whole runs ----------

  lemma {:induction false} RunIsHistory(disk: Disk, t: Tree, genesis: Hash, world: World, attempts: seq<Attempt>,
                                        why: nat -> Option<nat>)
    requires Keeps(disk, t) && WellFormed(t, genesis) && Tells(t, world, attempts) && ChainAfter(attempts) != []
    ensures var steps := StepsOf(disk, attempts, why);
            var states := StatesOf(disk, genesis, steps);
            History(disk, states, steps) && states[|steps|].chain == ChainAfter(attempts)
    decreases |attempts|
  {
    hide Keeps, WellFormed, Moves, Linked, Moved, Answered, Sensible, After, StepOf;
    var k := |attempts| - 1;
    var rest, a := attempts[..k], attempts[k];
    if ChainAfter(rest) == [] {
      NoSteps(disk, t, world, rest, why);
      FirstChain(disk, t, genesis, a);
    } else {
      RunIsHistory(disk, t, genesis, world, rest, why);
      ChainLinked(t, world, rest);
      OneMoreAttempt(disk, t, genesis, world, rest, a, why);
      assert attempts == rest + [a];
    }
  }

  lemma OneMoreAttempt(disk: Disk, t: Tree, genesis: Hash, world: World, rest: seq<Attempt>, a: Attempt,
                       why: nat -> Option<nat>)
    requires Keeps(disk, t) && Linked(t, ChainAfter(rest)) && Sensible(t, ChainAfter(rest), a)
    requires Answered(world, |LogOf(rest)|, ChainAfter(rest), a) && ChainAfter(rest) != []
    requires var steps := StepsOf(disk, rest, why);
             var states := StatesOf(disk, genesis, steps);
             History(disk, states, steps) && states[|steps|].chain == ChainAfter(rest)
    ensures var steps := StepsOf(disk, rest + [a], why);
            var states := StatesOf(disk, genesis, steps);
            History(disk, states, steps) && states[|steps|].chain == ChainAfter(rest + [a])
  {
    hide Keeps, Moves, Linked, Moved, Answered, Sensible, After, StepOf, LogOf, History;
    assert (rest + [a])[..|rest|] == rest;
    var steps := StepsOf(disk, rest, why);
    var states := StatesOf(disk, genesis, steps);
    var step := StepOf(disk, ChainAfter(rest), a, why(|rest|));
    StepMoves(disk, t, world, |LogOf(rest)|, states[|steps|], a, why(|rest|));
    OneMoreMove(disk, states, steps, step, After(disk, states[|steps|], step));
    assert (steps + [step])[..|steps|] == steps;
  }

  lemma {:induction false} NoSteps(disk: Disk, t: Tree, world: World, attempts: seq<Attempt>, why: nat -> Option<nat>)
    requires Tells(t, world, attempts) && ChainAfter(attempts) == []
    ensures StepsOf(disk, attempts, why) == []
  {
    if attempts != [] {
      NoSteps(disk, t, world, attempts[..|attempts| - 1], why);
    }
  }

  // The first chain is the genesis block.
  lemma FirstChain(disk: Disk, t: Tree, genesis: Hash, a: Attempt)
    requires Keeps(disk, t) && WellFormed(t, genesis) && Sensible(t, [], a) && Moved([], a) != []
    ensures Moved([], a) == [genesis] && Stored(disk, [genesis])
  {
    assert [][..0] + a.blocks == a.blocks;
    assert a.blocks == [a.blocks[0]] && t[a.blocks[0]].pprev.None?;
  }

  lemma OneMoreMove(disk: Disk, states: seq<State>, steps: seq<Step>, step: Step, s: State)
    requires History(disk, states, steps) && Moves(disk, states[|steps|], step, s)
    ensures History(disk, states + [s], steps + [step])
  {
    hide Moves;
    forall i | 0 <= i < |steps + [step]| ensures MovesAt(disk, states + [s], steps + [step], i) {
      if i < |steps| {
        assert MovesAt(disk, states, steps, i);
      }
    }
  }

  // A node in any state that a run of accepted blocks can reach: whatever the blocks were refused for, its switches
  // are a history of the name index that ends with its main chain, and all lookups were right after every one of them
  // if and only if every one was safe.
  lemma NodeHistoriesExact(node: ChainState, disk: Disk, why: nat -> Option<nat>)
    requires node.Valid() && node.Traced() && node.pindexBest.Some? && Keeps(disk, node.mapBlockIndex)
    ensures var steps := StepsOf(disk, node.attempts, why);
            var states := StatesOf(disk, node.genesis, steps);
            && History(disk, states, steps) && states[|steps|].chain == node.PathTo(node.pindexBest)
            && ((forall i | 0 <= i <= |steps| :: Answering(disk, states[i]))
                <==> forall i | 0 <= i < |steps| :: Safe(disk, states[i], steps[i]))
  {
    hide Tells, ChainAfter, LogOf, WellFormed, Path, History, Keeps, StepsOf, StatesOf, Safe, Answering;
    var p := node.PathTo(node.pindexBest);
    assert p != [];
    RunIsHistory(disk, node.mapBlockIndex, node.genesis, node.world, node.attempts, why);
    HistoriesExact(disk, StatesOf(disk, node.genesis, StepsOf(disk, node.attempts, why)),
                   StepsOf(disk, node.attempts, why));
  }
}
