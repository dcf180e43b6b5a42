/**
 What the node asks about its blocks while it switches chains, what is answered,
 and the chains that follow from the answers.
 */
module SwitchLog {
  import opened BlockTree

  // What `ConnectBlock` reports: success, a broken network rule, or a run-time error.
  datatype Verdict = Connected | Invalid | SystemError

  // A block that is to be connected, or disconnected.
  datatype Ask = Ask(block: Hash, connect: bool)

  type World = (nat, Ask) -> Verdict

  // The blocks that broke a rule when they were to be connected, and those that were connected.
  ghost function Broken(world: World, log: seq<Ask>): set<Hash> {
    set i | 0 <= i < |log| && log[i].connect && world(i, log[i]).Invalid? :: log[i].block
  }

  ghost function Accepted(world: World, log: seq<Ask>): set<Hash> {
    set i | 0 <= i < |log| && log[i].connect && world(i, log[i]).Connected? :: log[i].block
  }

  // Some of the verdicts from `from` on is not a success.
  ghost predicate Refused(world: World, log: seq<Ask>, from: nat) {
    exists i: nat :: from <= i < |log| && !world(i, log[i]).Connected?
  }

  // After `before` the log has questions about the first blocks of `v`.
  ghost predicate Asked(before: seq<Ask>, log: seq<Ask>, v: seq<Hash>, connect: bool) {
    before <= log && |log| <= |before| + |v|
      && forall i | |before| <= i < |log| :: log[i] == Ask(v[i - |before|], connect)
  }

  // Some questions were asked in order: all of them, with good answers, or as many as it takes to get a bad one.
  ghost predicate Halts(world: World, before: seq<Ask>, log: seq<Ask>, total: nat, ok: bool) {
    && before <= log && (ok <==> !Refused(world, log, |before|))
    && if ok then |log| == |before| + total else |log| > |before| && !Refused(world, log[..|log| - 1], |before|)
  }

  lemma HaltsMeans(world: World, before: seq<Ask>, log: seq<Ask>, total: nat, ok: bool)
    requires Halts(world, before, log, total, ok)
    ensures before <= log && (ok <==> !Refused(world, log, |before|))
  {
  }

  // Two parts of a switch, one after the other.
  lemma HaltsJoin(world: World, start: seq<Ask>, half: seq<Ask>, log: seq<Ask>, down: seq<Hash>, up: seq<Hash>,
                  ok: bool)
    requires Halts(world, start, half, |down|, true) && Halts(world, half, log, |up|, ok)
    requires Asked(start, half, down, false) && Asked(half, log, up, true)
    ensures Halts(world, start, log, |down| + |up|, ok) && InTurn(start, log, down, up)
  {
    hide Asked, Refused;
    RefusedJoin(world, start, half, log);
    if !ok {
      RefusedJoin(world, start, half, log[..|log| - 1]);
    }
  }

  lemma NotRefused(world: World, log: seq<Ask>)
    ensures !Refused(world, log, |log|)
  {
  }

  lemma AskedOne(world: World, log: seq<Ask>, a: Ask, from: nat)
    requires from <= |log|
    ensures Refused(world, log + [a], from) <==> Refused(world, log, from) || !world(|log|, a).Connected?
    ensures Broken(world, log + [a])
         == Broken(world, log) + if a.connect && world(|log|, a).Invalid? then {a.block} else {}
    ensures Accepted(world, log + [a])
         == Accepted(world, log) + if a.connect && world(|log|, a).Connected? then {a.block} else {}
  {
    var more := log + [a];
    assert forall i | 0 <= i < |log| :: more[i] == log[i];
    assert more[|log|] == a;
  }

  lemma RefusedJoin(world: World, a: seq<Ask>, b: seq<Ask>, c: seq<Ask>)
    requires a <= b <= c
    ensures a <= c
    ensures Refused(world, c, |a|) <==> Refused(world, b, |a|) || Refused(world, c, |b|)
  {
  }

  // First the blocks to disconnect, then those to connect, each in turn.
  ghost predicate InTurn(before: seq<Ask>, log: seq<Ask>, down: seq<Hash>, up: seq<Hash>) {
    || Asked(before, log, down, false)
    || exists half :: Asked(before, half, down, false) && |half| == |before| + |down| && Asked(half, log, up, true)
  }

  // ---------- attempts to switch ----------

  // To keep the first `n` blocks of the chain and connect others above them; `done` questions had a good answer.
  datatype Attempt = Attempt(n: nat, blocks: seq<Hash>, done: nat)

  // All that has to be asked: the blocks to disconnect from the tip down, then those to connect from the fork up.
  ghost function Plan(chain: seq<Hash>, a: Attempt): seq<Ask> {
    seq(Above(chain, a) + |a.blocks|, i requires 0 <= i < Above(chain, a) + |a.blocks| =>
      if i < Above(chain, a) then Ask(chain[|chain| - 1 - i], false) else Ask(a.blocks[i - Above(chain, a)], true))
  }

  ghost function Above(chain: seq<Hash>, a: Attempt): nat {
    if a.n <= |chain| then |chain| - a.n else 0
  }

  ghost predicate Succeeds(chain: seq<Hash>, a: Attempt) {
    a.n <= |chain| && a.done == |Plan(chain, a)|
  }

  // What was asked: everything, or all up to the first bad answer.
  ghost function Questions(chain: seq<Hash>, a: Attempt): seq<Ask> {
    if a.done < |Plan(chain, a)| then Plan(chain, a)[..a.done + 1] else Plan(chain, a)
  }

  ghost predicate Answered(world: World, from: nat, chain: seq<Hash>, a: Attempt) {
    var plan := Plan(chain, a);
    && a.done <= |plan| && (forall i | 0 <= i < a.done :: world(from + i, plan[i]).Connected?)
    && (a.done < |plan| ==> !world(from + a.done, plan[a.done]).Connected?)
  }

  ghost function Moved(chain: seq<Hash>, a: Attempt): seq<Hash> {
    if Succeeds(chain, a) then chain[..a.n] + a.blocks else chain
  }

  // The chain after some attempts from none, and all that was asked in them.
  ghost function ChainAfter(attempts: seq<Attempt>): seq<Hash> {
    if attempts == [] then [] else Moved(ChainAfter(attempts[..|attempts| - 1]), attempts[|attempts| - 1])
  }

  ghost function LogOf(attempts: seq<Attempt>): seq<Ask> {
    if attempts == [] then []
    else LogOf(attempts[..|attempts| - 1]) + Questions(ChainAfter(attempts[..|attempts| - 1]), attempts[|attempts| - 1])
  }

  // The blocks of an attempt lead from the fork to another chain of the tree; the first is for the genesis block alone.
  ghost predicate Sensible(t: Tree, chain: seq<Hash>, a: Attempt) {
    && a.n <= |chain| && a.blocks != [] && Linked(t, chain[..a.n] + a.blocks)
    && (if chain == [] then |a.blocks| == 1 else a.n > 0)
    && (a.n < |chain| ==> chain[a.n] != a.blocks[0])
  }

  ghost predicate Tells(t: Tree, world: World, attempts: seq<Attempt>) {
    attempts != [] ==>
      var rest, a := attempts[..|attempts| - 1], attempts[|attempts| - 1];
      && Tells(t, world, rest) && Sensible(t, ChainAfter(rest), a)
      && Answered(world, |LogOf(rest)|, ChainAfter(rest), a)
  }

  // One more attempt.
  lemma TellsMore(t: Tree, world: World, attempts: seq<Attempt>, a: Attempt)
    requires Tells(t, world, attempts)
    requires Sensible(t, ChainAfter(attempts), a) && Answered(world, |LogOf(attempts)|, ChainAfter(attempts), a)
    ensures Tells(t, world, attempts + [a])
    ensures ChainAfter(attempts + [a]) == Moved(ChainAfter(attempts), a)
    ensures LogOf(attempts + [a]) == LogOf(attempts) + Questions(ChainAfter(attempts), a)
  {
    hide Sensible, Answered, Questions, Moved;
    assert (attempts + [a])[..|attempts|] == attempts;
  }

  lemma LinkedExtend(t: Tree, hash: Hash, entry: BlockIndex, p: seq<Hash>)
    requires hash !in t && Linked(t, p)
    ensures Linked(t[hash := entry], p)
  {
  }

  // A new entry changes nothing about what was attempted before.
  lemma {:induction false} TellsExtend(t: Tree, world: World, attempts: seq<Attempt>, hash: Hash, entry: BlockIndex)
    requires hash !in t && Tells(t, world, attempts)
    ensures Tells(t[hash := entry], world, attempts)
  {
    hide Linked, Answered;
    if attempts != [] {
      var rest, a := attempts[..|attempts| - 1], attempts[|attempts| - 1];
      TellsExtend(t, world, rest, hash, entry);
      LinkedExtend(t, hash, entry, ChainAfter(rest)[..a.n] + a.blocks);
    }
  }

  // The chain is one of the tree, from its root.
  lemma {:induction false} ChainLinked(t: Tree, world: World, attempts: seq<Attempt>)
    requires Tells(t, world, attempts)
    ensures ChainAfter(attempts) == [] || Linked(t, ChainAfter(attempts))
  {
    hide Linked, Answered;
    if attempts != [] {
      ChainLinked(t, world, attempts[..|attempts| - 1]);
    }
  }

  // From the asked sequences of a switch to its attempt.
  lemma AttemptMade(world: World, before: seq<Ask>, log: seq<Ask>, down: seq<Hash>, up: seq<Hash>, chain: seq<Hash>,
                    n: nat, ok: bool)
    requires n <= |chain| && |down| == |chain| - n && (forall j | 0 <= j < |down| :: down[j] == chain[|chain| - 1 - j])
    requires InTurn(before, log, down, up) && Halts(world, before, log, |down| + |up|, ok)
    ensures |log| >= |before| + if ok then 0 else 1
    ensures var a := Attempt(n, up, |log| - |before| - if ok then 0 else 1);
            && log == before + Questions(chain, a) && Answered(world, |before|, chain, a)
            && (Succeeds(chain, a) <==> ok)
  {
    hide Plan, InTurn, Halts;
    HaltsAt(world, before, log, |down| + |up|, ok);
    var a := Attempt(n, up, |log| - |before| - if ok then 0 else 1);
    PlanLength(chain, a);
    LogIsPlanned(before, log, down, up, chain, a);
    assert log == before + log[|before|..];
    assert Questions(chain, a) == log[|before|..];
    forall k | 0 <= k < a.done ensures world(|before| + k, Plan(chain, a)[k]).Connected? {
      assert log[|before| + k] == Plan(chain, a)[k];
    }
  }

  lemma PlanLength(chain: seq<Hash>, a: Attempt)
    ensures |Plan(chain, a)| == Above(chain, a) + |a.blocks|
  {
  }

  // The answers to all questions, or to all but the last one, were good.
  lemma HaltsAt(world: World, before: seq<Ask>, log: seq<Ask>, total: nat, ok: bool)
    requires Halts(world, before, log, total, ok)
    ensures before <= log && if ok then |log| == |before| + total else |log| > |before|
    ensures forall i | |before| <= i < |log| - (if ok then 0 else 1) :: world(i, log[i]).Connected?
    ensures !ok ==> !world(|log| - 1, log[|log| - 1]).Connected?
  {
    if !ok {
      forall i | |before| <= i < |log| - 1 ensures world(i, log[i]).Connected? {
        assert log[..|log| - 1][i] == log[i];
      }
    }
  }

  lemma LogIsPlanned(before: seq<Ask>, log: seq<Ask>, down: seq<Hash>, up: seq<Hash>, chain: seq<Hash>, a: Attempt)
    requires a.n <= |chain| && |down| == |chain| - a.n
             && (forall j | 0 <= j < |down| :: down[j] == chain[|chain| - 1 - j])
    requires up == a.blocks && InTurn(before, log, down, up)
    ensures before <= log && |log| <= |before| + |Plan(chain, a)|
    ensures forall i | |before| <= i < |log| :: log[i] == Plan(chain, a)[i - |before|]
  {
  }
}
