/**
 The administrators' accumulator: membership is an equation between modular powers.
 User names are mapped to exponents; the accumulator is a base raised to the exponents
 of all members, and a member's witness the base raised to all the others'.
 */
module Accumulator {
  import opened Arithmetic
  import opened Options

  // ---------- modular powers ----------

  function Mod(n: nat, d: nat): (r: nat)
    requires d > 0
    ensures r < d
  {
    QuotTimes(n, d);
    n - Times(Quot(n, d), d)
  }

  function Pow(b: nat, e: nat): nat {
    if e == 0 then 1 else Times(b, Pow(b, e - 1))
  }

  function ModPow(b: nat, e: nat, m: nat): nat
    requires m > 0
  {
    Mod(Pow(b, e), m)
  }

  lemma TimesLaws(a: nat, b: nat, c: nat)
    ensures Times(a, b) == Times(b, a) && Times(a, Times(b, c)) == Times(Times(a, b), c)
    ensures Times(a + b, c) == Times(a, c) + Times(b, c)
  {
  }

  lemma ModShift(k: nat, z: nat, d: nat)
    requires d > 0
    ensures Mod(Times(k, d) + z, d) == Mod(z, d)
  {
    hide Times, Quot;
    var q := Quot(z, d);
    QuotTimes(z, d);
    TimesLaws(k, q, d);
    QuotIs(Times(k, d) + z, d, k + q, z - Times(q, d));
  }

  // Reducing a factor first does not change a product modulo d.
  lemma ModTimes(a: nat, b: nat, d: nat)
    requires d > 0
    ensures Mod(Times(Mod(a, d), b), d) == Mod(Times(a, b), d)
  {
    hide Times, Quot, Mod;
    var q := Quot(a, d);
    ModParts(a, d);
    TimesLaws(Times(q, d), Mod(a, d), b);
    TimesLaws(q, d, b);
    TimesLaws(d, b, 0);
    TimesLaws(q, b, d);
    ModShift(Times(q, b), Times(Mod(a, d), b), d);
  }

  lemma ModParts(a: nat, d: nat)
    requires d > 0
    ensures a == Times(Quot(a, d), d) + Mod(a, d)
  {
    hide Times, Quot;
    QuotTimes(a, d);
  }

  lemma {:induction false} ModBase(a: nat, e: nat, d: nat)
    requires d > 0
    ensures ModPow(Mod(a, d), e, d) == ModPow(a, e, d)
  {
    hide Times, Mod;
    if e > 0 {
      var x, y := Pow(Mod(a, d), e - 1), Pow(a, e - 1);
      ModBase(a, e - 1, d);
      ModTimes(a, x, d);
      TimesLaws(a, x, 0);
      ModTimes(x, a, d);
      ModTimes(y, a, d);
      TimesLaws(a, y, 0);
    }
  }

  lemma {:induction false} PowAdd(b: nat, e: nat, f: nat)
    ensures Pow(b, e + f) == Times(Pow(b, e), Pow(b, f))
  {
    hide Times;
    TimesStep(0, Pow(b, f));
    if e > 0 {
      PowAdd(b, e - 1, f);
      TimesLaws(b, Pow(b, e - 1), Pow(b, f));
    }
  }

  lemma {:induction false} PowPow(b: nat, e: nat, f: nat)
    ensures Pow(Pow(b, e), f) == Pow(b, Times(e, f))
  {
    hide Times;
    TimesLaws(e, f, 0);
    TimesStep(0, e);
    if f > 0 {
      PowPow(b, e, f - 1);
      TimesStep(f - 1, e);
      TimesLaws(e, f - 1, 0);
      PowAdd(b, e, Times(e, f - 1));
    }
  }

  // Raising twice is raising to the product, so the order of exponents does not matter.
  lemma RaiseTwice(b: nat, e: nat, f: nat, m: nat)
    requires m > 0
    ensures ModPow(ModPow(b, e, m), f, m) == ModPow(b, Times(e, f), m)
  {
    hide Times, Mod, Pow;
    ModBase(Pow(b, e), f, m);
    PowPow(b, e, f);
  }

  lemma RaiseCommutes(b: nat, e: nat, f: nat, m: nat)
    requires m > 0
    ensures ModPow(ModPow(b, e, m), f, m) == ModPow(ModPow(b, f, m), e, m)
  {
    hide Times, ModPow;
    RaiseTwice(b, e, f, m);
    RaiseTwice(b, f, e, m);
    TimesLaws(e, f, 0);
  }

  // ---------- membership ----------

  // `isAdmin`: a registered user with a witness, which is given, whose power is the accumulator.
  predicate IsAdmin(registered: bool, wit: Option<nat>, prime: nat, accumulator: nat, m: nat)
    requires m > 0
  {
    wit.Some? && registered && ModPow(wit.value, prime, m) == accumulator
  }

  datatype Member = Member(prime: nat, wit: nat)

  datatype Group = Group(accumulator: nat, members: seq<Member>)

  // Admit a member: the old accumulator is the witness, and everyone else's witness is raised.
  function Admit(g: Group, prime: nat, m: nat): Group
    requires m > 0
  {
    Group(ModPow(g.accumulator, prime, m),
          seq(|g.members|, i requires 0 <= i < |g.members| =>
            g.members[i].(wit := ModPow(g.members[i].wit, prime, m)))
          + [Member(prime, g.accumulator)])
  }

  function AdmitAll(g: Group, primes: seq<nat>, m: nat): Group
    requires m > 0
  {
    if primes == [] then g else Admit(AdmitAll(g, primes[..|primes| - 1], m), primes[|primes| - 1], m)
  }

  ghost predicate AllVerify(g: Group, m: nat)
    requires m > 0
  {
    forall i | 0 <= i < |g.members| :: IsAdmin(true, Some(g.members[i].wit), g.members[i].prime, g.accumulator, m)
  }

  lemma AdmitVerifies(g: Group, prime: nat, m: nat)
    requires m > 0 && AllVerify(g, m)
    ensures AllVerify(Admit(g, prime, m), m)
  {
    hide ModPow;
    var h := Admit(g, prime, m);
    forall i | 0 <= i < |h.members|
      ensures IsAdmin(true, Some(h.members[i].wit), h.members[i].prime, h.accumulator, m)
    {
      if i < |g.members| {
        RaiseCommutes(g.members[i].wit, prime, g.members[i].prime, m);
      }
    }
  }

  // After any sequence of admissions every member verifies, and the accumulator is the base raised to all exponents.
  lemma {:induction false} EveryMemberVerifies(base: nat, primes: seq<nat>, m: nat)
    requires m > 0
    ensures var g := AdmitAll(Group(base, []), primes, m);
            && AllVerify(g, m) && |g.members| == |primes|
            && (forall i | 0 <= i < |primes| :: g.members[i].prime == primes[i])
            && g.accumulator == Raised(base, primes, m)
  {
    hide ModPow;
    if primes != [] {
      var front := primes[..|primes| - 1];
      EveryMemberVerifies(base, front, m);
      AdmitVerifies(AdmitAll(Group(base, []), front, m), primes[|primes| - 1], m);
    }
  }

  // A base raised through exponents one after the other.
  function Raised(base: nat, primes: seq<nat>, m: nat): nat
    requires m > 0
  {
    if primes == [] then base else ModPow(Raised(base, primes[..|primes| - 1], m), primes[|primes| - 1], m)
  }

  // Exponents may be taken out of the sequence and applied last.
  lemma {:induction false} RaisedLast(base: nat, primes: seq<nat>, i: nat, m: nat)
    requires m > 0 && i < |primes|
    ensures Raised(base, primes, m) == ModPow(Raised(base, primes[..i] + primes[i + 1..], m), primes[i], m)
    decreases |primes|
  {
    hide ModPow;
    var last := |primes| - 1;
    var others := primes[..i] + primes[i + 1..];
    if i < last {
      RaisedLast(base, primes[..last], i, m);
      assert primes[..last][..i] + primes[..last][i + 1..] == others[..|others| - 1];
      RaiseCommutes(Raised(base, others[..|others| - 1], m), primes[i], primes[last], m);
    } else {
      assert others == primes[..last];
    }
  }

  lemma TakenOut(qs: seq<nat>, i: nat)
    requires i < |qs|
    ensures multiset(qs[..i] + qs[i + 1..]) == multiset(qs) - multiset{qs[i]}
  {
    assert qs == qs[..i] + [qs[i]] + qs[i + 1..];
  }

  // The order in which exponents are applied does not matter.
  lemma {:induction false} RaisedAnyOrder(base: nat, ps: seq<nat>, qs: seq<nat>, m: nat)
    requires m > 0 && multiset(ps) == multiset(qs)
    ensures Raised(base, ps, m) == Raised(base, qs, m)
    decreases |ps|
  {
    hide ModPow;
    if ps == [] {
      assert |multiset(qs)| == 0;
    } else {
      var last := |ps| - 1;
      var i := Position(ps, qs);
      TakenOut(ps, last);
      TakenOut(qs, i);
      assert ps[..last] + ps[last + 1..] == ps[..last];
      RaisedAnyOrder(base, ps[..last], qs[..i] + qs[i + 1..], m);
      RaisedLast(base, qs, i, m);
    }
  }

  // Where the last element of one sequence is in a permutation of it.
  lemma Position(ps: seq<nat>, qs: seq<nat>) returns (i: nat)
    requires ps != [] && multiset(ps) == multiset(qs)
    ensures i < |qs| && qs[i] == ps[|ps| - 1]
  {
    assert ps[|ps| - 1] in multiset(ps);
    i :| 0 <= i < |qs| && qs[i] == ps[|ps| - 1];
  }

  // A witness raised through everyone else's exponents, in any order, passes the check.
  lemma WitnessPasses(base: nat, primes: seq<nat>, prime: nat, others: seq<nat>, m: nat)
    requires m > 0 && multiset(others) + multiset{prime} == multiset(primes)
    ensures IsAdmin(true, Some(Raised(base, others, m)), prime, Raised(base, primes, m), m)
  {
    hide ModPow;
    var all := others + [prime];
    assert all[..|all| - 1] == others;
    RaisedAnyOrder(base, all, primes, m);
  }

  // ---------- who is refused ----------

  // Powers step by one factor, so the exponent counts the factors.
  lemma ModPowSteps(b: nat, e: nat, m: nat)
    requires m > 0
    ensures ModPow(b, 0, m) == Mod(1, m)
    ensures ModPow(b, e + 1, m) == Mod(Times(b, ModPow(b, e, m)), m)
  {
    hide Mod, Times;
    ModTimes(Pow(b, e), b, m);
    TimesLaws(b, Pow(b, e), 0);
    TimesLaws(b, ModPow(b, e, m), 0);
  }

  // Nobody outside the chain and nobody without a witness is an administrator, whatever the accumulator. Everyone else
  // is for exactly one accumulator, which witness and exponent determine.
  lemma OneAccumulator(registered: bool, wit: Option<nat>, prime: nat, m: nat) returns (a: nat)
    requires m > 0
    ensures a < m && forall b :: IsAdmin(registered, wit, prime, b, m) <==> registered && wit.Some? && b == a
  {
    hide ModPow;
    a := if wit.Some? then ModPow(wit.value, prime, m) else 0;
    ModPowBelow(if wit.Some? then wit.value else 0, prime, m);
  }

  lemma ModPowBelow(b: nat, e: nat, m: nat)
    requires m > 0
    ensures ModPow(b, e, m) < m
  {
  }

  // A member whose witness was last updated after k admissions passes the check after all of them
  // if and only if the accumulator is what it was then.
  lemma StaleWitness(base: nat, primes: seq<nat>, k: nat, i: nat, registered: bool, m: nat)
    requires m > 0 && i < k <= |primes|
    ensures var before, now := AdmitAll(Group(base, []), primes[..k], m), AdmitAll(Group(base, []), primes, m);
            && |before.members| == k
            && (IsAdmin(registered, Some(before.members[i].wit), primes[i], now.accumulator, m)
                <==> registered && now.accumulator == before.accumulator)
  {
    hide ModPow, Admit, AdmitAll;
    EveryMemberVerifies(base, primes[..k], m);
    var before := AdmitAll(Group(base, []), primes[..k], m);
    assert IsAdmin(true, Some(before.members[i].wit), before.members[i].prime, before.accumulator, m);
  }
}
