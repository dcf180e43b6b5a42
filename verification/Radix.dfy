/**
 Numbers as digit sequences, least significant digit first, and the change of base
 that keeps the zeros above the number.
 */
module Radix {
  import opened Arithmetic

  // All digits below the base.
  predicate InBase(b: nat, ds: seq<nat>) {
    forall i | 0 <= i < |ds| :: ds[i] < b
  }

  // No zero at the top.
  predicate Minimal(ds: seq<nat>) {
    ds == [] || ds[|ds| - 1] != 0
  }

  function Value(b: nat, ds: seq<nat>): nat {
    if ds == [] then 0 else ds[0] + Times(Value(b, ds[1..]), b)
  }

  lemma ValueCons(b: nat, d: nat, ds: seq<nat>)
    ensures Value(b, [d] + ds) == d + Times(Value(b, ds), b)
  {
    assert ([d] + ds)[1..] == ds;
  }

  function Rest(n: nat, b: nat): (q: nat)
    requires b > 1
    ensures n > 0 ==> q < n
  {
    if n > 0 then QuotSmaller(n, b); Quot(n, b) else 0
  }

  function Lowest(n: nat, b: nat): (r: nat)
    requires b > 1
    ensures r < b && n == r + Times(Rest(n, b), b)
  {
    QuotTimes(n, b);
    TimesStep(0, b);
    n - Times(Rest(n, b), b)
  }

  function Digits(b: nat, n: nat): (ds: seq<nat>)
    requires b > 1
    ensures InBase(b, ds) && Minimal(ds) && (n > 0 ==> ds != [])
  {
    TimesStep(0, b);
    if n == 0 then [] else [Lowest(n, b)] + Digits(b, Rest(n, b))
  }

  function Zeros(k: nat): (z: seq<nat>)
    ensures |z| == k && forall i | 0 <= i < k :: z[i] == 0
  {
    seq(k, _ => 0)
  }

  // How many zeros are at the top.
  ghost function TopZeros(ds: seq<nat>): (k: nat)
    ensures k <= |ds|
  {
    if Minimal(ds) then 0 else 1 + TopZeros(ds[..|ds| - 1])
  }

  lemma {:induction false} TopZerosSplit(ds: seq<nat>)
    ensures var m := |ds| - TopZeros(ds); Minimal(ds[..m]) && forall i | m <= i < |ds| :: ds[i] == 0
  {
    if Minimal(ds) {
      assert ds[..|ds|] == ds;
    } else {
      var front := ds[..|ds| - 1];
      TopZerosSplit(front);
      var m := |ds| - TopZeros(ds);
      assert front[..m] == ds[..m];
      forall i | m <= i < |ds| ensures ds[i] == 0 {
        assert i < |front| ==> front[i] == ds[i];
      }
    }
  }

  lemma {:induction false} ValueDigits(b: nat, n: nat)
    requires b > 1
    ensures Value(b, Digits(b, n)) == n
  {
    if n > 0 {
      ValueDigits(b, Rest(n, b));
      assert Digits(b, n)[1..] == Digits(b, Rest(n, b));
    }
  }

  lemma {:induction false} DigitsValue(b: nat, ds: seq<nat>)
    requires b > 1 && InBase(b, ds) && Minimal(ds)
    ensures Digits(b, Value(b, ds)) == ds
  {
    if ds != [] {
      var v := Value(b, ds[1..]);
      DigitsValue(b, ds[1..]);
      DivideBack(b, ds[0], v);
      if v == 0 {
        assert ds[1..] == [];
        assert ds == [ds[0]];
      }
    }
  }

  lemma DivideBack(b: nat, d: nat, v: nat)
    requires d < b && b > 1
    ensures var n := d + Times(v, b); Lowest(n, b) == d && Rest(n, b) == v && (n == 0 ==> d == 0 && v == 0)
  {
    hide Times, Quot;
    QuotIs(d + Times(v, b), b, v, d);
    TimesStep(0, b);
    TimesGrows(v, v, 1, b);
    TimesStep(0, v);
  }

  lemma {:induction false} ValueZeros(b: nat, ds: seq<nat>, k: nat)
    ensures Value(b, ds + Zeros(k)) == Value(b, ds)
    decreases |ds|, k
  {
    if ds != [] {
      ValueZeros(b, ds[1..], k);
      assert (ds + Zeros(k))[1..] == ds[1..] + Zeros(k);
    } else if k > 0 {
      ValueZeros(b, [], k - 1);
      assert ds + Zeros(k) == Zeros(k) && Zeros(k)[1..] == Zeros(k - 1) == [] + Zeros(k - 1);
    }
  }

  lemma {:induction false} TopZerosOf(ds: seq<nat>, k: nat)
    requires Minimal(ds)
    ensures TopZeros(ds + Zeros(k)) == k
  {
    var all := ds + Zeros(k);
    if k > 0 {
      assert all[..|all| - 1] == ds + Zeros(k - 1);
      TopZerosOf(ds, k - 1);
    } else {
      assert all == ds;
    }
  }

  // The same number in another base, under as many zeros.
  ghost function Convert(from: nat, to: nat, ds: seq<nat>): (r: seq<nat>)
    requires to > 1
    ensures InBase(to, r)
  {
    Digits(to, Value(from, ds)) + Zeros(TopZeros(ds))
  }

  // Nothing is lost: changing back restores every digit sequence.
  lemma ConvertBack(a: nat, b: nat, ds: seq<nat>)
    requires a > 1 && b > 1 && InBase(a, ds)
    ensures Convert(b, a, Convert(a, b, ds)) == ds
  {
    TopZerosSplit(ds);
    var k := TopZeros(ds);
    var d := ds[..|ds| - k];
    var n := Value(a, ds);
    assert ds == d + Zeros(k);
    ValueZeros(a, d, k);
    DigitsValue(a, d);
    ValueZeros(b, Digits(b, n), k);
    ValueDigits(b, n);
    TopZerosOf(Digits(b, n), k);
  }
}
