/**
 Proof-of-work targets: the compact form in which block headers carry them
 (`CBigNum::SetCompact`, `GetCompact`), the rules that set the next target, and
 the work a target stands for.
 */
module CompactTarget {
  import opened Arithmetic

  // ---------- powers of 256 ----------

  function Base(k: nat): (b: nat)
    ensures b > 0
  {
    if k == 0 then 1 else 256 * Base(k - 1)
  }

  lemma {:induction false} BaseAdd(a: nat, b: nat)
    ensures Base(a + b) == Times(Base(a), Base(b))
  {
    hide Times;
    TimesStep(0, Base(b));
    if a > 0 {
      BaseAdd(a - 1, b);
      Times256(Base(a - 1), Base(b));
    }
  }

  lemma {:induction false} BaseGrows(a: nat, b: nat)
    requires a <= b
    ensures Base(a) <= Base(b)
    decreases b
  {
    if a < b {
      BaseGrows(a, b - 1);
    }
  }

  lemma SmallBases()
    ensures Base(0) == 1 && Base(1) == 256 && Base(2) == 0x10000 && Base(3) == 0x1000000
  {
  }

  // ---------- the compact form ----------

  // `BN_num_bytes`.
  function NumBytes(m: nat): nat {
    if m == 0 then 0 else 1 + NumBytes(m / 256)
  }

  lemma {:induction false} NumBytesBounds(m: nat)
    ensures m < Base(NumBytes(m)) && (m > 0 ==> Base(NumBytes(m) - 1) <= m)
  {
    if m > 0 {
      NumBytesBounds(m / 256);
      var s := NumBytes(m);
      if m / 256 > 0 {
        assert Base(s - 1) == 256 * Base(s - 2);
      }
    }
  }

  // `m` shifted so that `size` bytes become three.
  function Shifted(m: nat, size: nat): nat {
    if size <= 3 then Times(m, Base(3 - size)) else Quot(m, Base(size - 3))
  }

  // The three most significant bytes.
  function Word(m: nat): nat {
    Shifted(m, NumBytes(m))
  }

  // Size and mantissa after the sign bit was made room for.
  function Exponent(m: nat): nat {
    if Word(m) >= 0x800000 then NumBytes(m) + 1 else NumBytes(m)
  }

  function Mantissa(m: nat): nat {
    if Word(m) >= 0x800000 then Word(m) / 256 else Word(m)
  }

  function GetCompact(n: int): nat {
    var m := Magnitude(n);
    Mantissa(m) + (if n < 0 then 0x800000 else 0) + Exponent(m) % 256 * 0x1000000
  }

  // The number that a size and a mantissa stand for.
  function Scaled(size: nat, word: nat): nat {
    if size <= 3 then Quot(word, Base(3 - size)) else Times(word, Base(size - 3))
  }

  function SetCompact(c: nat): int {
    Signed(c / 0x800000 % 2 == 1, Scaled(c / 0x1000000, c % 0x800000))
  }

  // The target that survives the encoding: m without what is below its unit.
  function Unit(m: nat): (u: nat)
    ensures u > 0
  {
    if Exponent(m) <= 3 then 1 else Base(Exponent(m) - 3)
  }

  function Round(m: nat): nat {
    Times(Quot(m, Unit(m)), Unit(m))
  }

  lemma WordBounds(m: nat)
    ensures Word(m) < 0x1000000 && (m > 0 ==> Word(m) >= 0x10000)
  {
    hide Times, Quot, NumBytes, Base;
    NumBytesBounds(m);
    SmallBases();
    var s := NumBytes(m);
    if s <= 3 {
      BaseAdd(s, 3 - s);
      TimesGrows(m + 1, Base(s), Base(3 - s), Base(3 - s));
      TimesStep(m, Base(3 - s));
      if m > 0 {
        BaseAdd(s - 1, 3 - s);
        TimesGrows(Base(s - 1), m, Base(3 - s), Base(3 - s));
      }
    } else {
      BaseAdd(3, s - 3);
      QuotIff(m, Base(s - 3), 0x1000000);
      BaseAdd(2, s - 3);
      QuotIff(m, Base(s - 3), 0x10000);
    }
  }

  // What the encoding stores, in one formula for every size.
  lemma Parts(m: nat)
    ensures Mantissa(m) < 0x800000 && (m > 0 ==> Mantissa(m) >= 0x8000)
    ensures Mantissa(m) == Shifted(m, Exponent(m))
  {
    WordBounds(m);
    if Word(m) >= 0x800000 {
      ShiftMore(m, NumBytes(m));
    }
  }

  lemma ShiftMore(m: nat, s: nat)
    ensures Shifted(m, s) / 256 == Shifted(m, s + 1)
  {
    hide Times, Quot;
    if s <= 2 {
      Times256(m, Base(2 - s));
    } else if s == 3 {
      SmallBases();
      TimesStep(0, m);
      QuotByte(m);
    } else {
      QuotQuot(m, Base(s - 3));
    }
  }

  lemma ExponentBounds(m: nat)
    ensures 2 * m < Base(Exponent(m))
    ensures if m == 0 then Exponent(m) == 0 else Exponent(m) > 0 && Base(Exponent(m) - 1) <= 2 * m
  {
    Parts(m);
    SmallBases();
    if m > 0 {
      ShiftedBounds(m, Exponent(m));
    }
  }

  lemma ShiftedBounds(m: nat, e: nat)
    requires m > 0 && 0x8000 <= Shifted(m, e) < 0x800000
    ensures e > 0 && Base(e - 1) <= 2 * m < Base(e)
  {
    hide Times, Quot, Base;
    SmallBases();
    if e == 0 {
      TimesGrows(1, m, 0x1000000, 0x1000000);
      TimesStep(0, 0x1000000);
    } else if e <= 3 {
      var b := Base(3 - e);
      BaseAdd(e, 3 - e);
      BaseAdd(e - 1, 3 - e);
      TimesTwo(m, b);
      if 2 * m >= Base(e) {
        TimesGrows(Base(e), 2 * m, b, b);
      }
      if 2 * m + 1 <= Base(e - 1) {
        TimesGrows(2 * m + 1, Base(e - 1), b, b);
        TimesStep(2 * m, b);
      }
    } else {
      var b := Base(e - 3);
      BaseAdd(3, e - 3);
      BaseAdd(2, e - 3);
      QuotIff(m, b, 0x800000);
      QuotIff(m, b, 0x8000);
      TimesTwo(0x800000, b);
      TimesTwo(0x8000, b);
    }
  }

  // The bounds determine the exponent.
  lemma ExponentIs(m: nat, e: nat)
    requires 0 < e && Base(e - 1) <= 2 * m < Base(e)
    ensures Exponent(m) == e
  {
    hide Exponent, Base;
    ExponentBounds(m);
    SmallBases();
    if Exponent(m) < e {
      BaseGrows(Exponent(m), e - 1);
    } else if Exponent(m) > e {
      BaseGrows(e, Exponent(m) - 1);
    }
  }

  lemma ExponentGrows(a: nat, b: nat)
    requires a <= b
    ensures Exponent(a) <= Exponent(b)
  {
    hide Exponent, Base;
    ExponentBounds(a);
    ExponentBounds(b);
    if Exponent(a) > Exponent(b) {
      BaseGrows(Exponent(b), Exponent(a) - 1);
    }
  }

  // Rounding keeps the exponent and the mantissa, and loses less than one part in 2^15.
  lemma RoundKeepsParts(m: nat)
    ensures Round(m) <= m && Exponent(Round(m)) == Exponent(m) && Mantissa(Round(m)) == Mantissa(m)
    ensures m > 0 ==> (m - Round(m)) * 0x8000 < m && Base(Exponent(m) - 1) <= 2 * Round(m)
  {
    hide Times, Quot, Base, Exponent, Mantissa;
    Parts(m);
    ExponentBounds(m);
    QuotTimes(m, Unit(m));
    var e := Exponent(m);
    if e <= 3 {
      TimesStep(0, Quot(m, 1));
      assert Round(m) == m;
    } else {
      var u := Base(e - 3);
      var w := Quot(m, u);
      BaseAdd(2, e - 3);
      SmallBases();
      TimesGrows(0x8000, w, u, u);
      TimesTwo(0x8000, u);
      Times32768(u);
      ExponentIs(Times(w, u), e);
      Parts(Times(w, u));
      QuotTimes(w, u);
    }
  }

  lemma Times32768(u: nat)
    ensures Times(0x8000, u) == 0x8000 * u
  {
  }

  // What decoding an encoding gives: the rounded number with its sign, exactly when the size fits its byte.
  lemma RoundTrip(n: int)
    ensures SetCompact(GetCompact(n)) == Signed(n < 0, Round(Magnitude(n))) <==> Exponent(Magnitude(n)) <= 255
  {
    hide Exponent, Mantissa, Round, Scaled, SetCompact;
    var m := Magnitude(n);
    Parts(m);
    ScaledParts(m);
    DecodeParts(Exponent(m) % 256, Mantissa(m), n < 0);
    if Exponent(m) > 255 {
      ScaledShrinks(m, Exponent(m) % 256);
    }
  }

  lemma DecodeParts(size: nat, word: nat, negative: bool)
    requires size < 256 && word < 0x800000
    ensures SetCompact(word + (if negative then 0x800000 else 0) + size * 0x1000000)
         == Signed(negative, Scaled(size, word))
  {
    hide Scaled;
    FieldParts(size, word, if negative then 1 else 0);
  }

  lemma FieldParts(size: nat, word: nat, sign: nat)
    requires word < 0x800000 && sign <= 1
    ensures var c := word + sign * 0x800000 + size * 0x1000000;
            c / 0x1000000 == size && c / 0x800000 % 2 == sign && c % 0x800000 == word
  {
    var c := word + sign * 0x800000 + size * 0x1000000;
    assert c / 0x800000 == 2 * size + sign;
  }

  lemma ScaledParts(m: nat)
    ensures Scaled(Exponent(m), Mantissa(m)) == Round(m)
  {
    hide Times, Quot, Exponent, Mantissa, Base;
    Parts(m);
    SmallBases();
    var e := Exponent(m);
    if e <= 3 {
      QuotTimes(m, Base(3 - e));
      QuotTimes(m, 1);
      TimesStep(0, Quot(m, 1));
    }
  }

  lemma ScaledShrinks(m: nat, size: nat)
    requires size < 256 <= Exponent(m)
    ensures Scaled(size, Mantissa(m)) < Round(m)
  {
    ExponentBounds(m);
    hide Times, Quot, Exponent, Mantissa, Round;
    ScaledParts(m);
    Parts(m);
    SmallBases();
    var w, e := Mantissa(m), Exponent(m);
    TimesStep(0, w);
    if size <= 3 {
      BaseGrows(1, e - 3);
      TimesGrows(w, w, 256, Base(e - 3));
      Times256(w, 1);
      QuotTimes(w, Base(3 - size));
      TimesGrows(Quot(w, Base(3 - size)), Quot(w, Base(3 - size)), 1, Base(3 - size));
      TimesStep(0, Quot(w, Base(3 - size)));
      TimesStep(0, 256 * w);
    } else {
      BaseGrows(size - 2, e - 3);
      TimesGrows(w, w, Base(size - 2), Base(e - 3));
      Times256(w, Base(size - 3));
      TimesGrows(1, w, 1, Base(size - 3));
      TimesStep(1, 1);
    }
  }

  // Encoding again gives the same header field.
  lemma Stable(n: int)
    requires Exponent(Magnitude(n)) <= 255
    ensures GetCompact(SetCompact(GetCompact(n))) == GetCompact(n)
    ensures Round(Round(Magnitude(n))) == Round(Magnitude(n))
  {
    hide Exponent, Mantissa, Round, Scaled, SetCompact;
    var m := Magnitude(n);
    RoundTrip(n);
    RoundKeepsParts(m);
    ScaledParts(m);
    ScaledParts(Round(m));
  }

  lemma RoundMonotone(a: nat, b: nat)
    requires a <= b
    ensures Round(a) <= Round(b)
  {
    hide Exponent, Mantissa, Base, Times, Quot;
    ExponentGrows(a, b);
    RoundKeepsParts(a);
    RoundKeepsParts(b);
    if Exponent(a) < Exponent(b) {
      ExponentBounds(a);
      ExponentBounds(b);
      BaseGrows(Exponent(a), Exponent(b) - 1);
    } else {
      var u := Unit(a);
      QuotIff(a, u, Quot(a, u));
      QuotIff(b, u, Quot(a, u));
      TimesGrows(Quot(a, u), Quot(b, u), u, u);
    }
  }

  // The smallest power of 256 whose size does not fit its byte decodes to zero.
  lemma SizeOverflows()
    ensures Exponent(Base(255)) == 256 && SetCompact(GetCompact(Base(255))) == 0 < Round(Base(255))
  {
    hide Exponent, Mantissa, Round, Scaled, SetCompact, Base;
    var m := Base(255);
    BaseSteps(255);
    ExponentIs(m, 256);
    RoundKeepsParts(m);
    OversizeDecodes(m, false);
  }

  lemma BaseSteps(k: nat)
    ensures Base(k + 1) == 256 * Base(k)
  {
  }

  // With size 256 nothing is left of the mantissa.
  lemma OversizeDecodes(m: nat, negative: bool)
    requires Exponent(m) == 256
    ensures SetCompact(GetCompact(Signed(negative, m))) == 0
  {
    hide Exponent, Mantissa, SetCompact, Base, Times, Quot;
    Parts(m);
    ExponentBounds(m);
    assert Magnitude(Signed(negative, m)) == m && (Signed(negative, m) < 0 <==> negative && m > 0);
    DecodeParts(0, Mantissa(m), Signed(negative, m) < 0);
    SmallBases();
    QuotIff(Mantissa(m), 0x1000000, 1);
    TimesStep(0, 0x1000000);
  }

  // Fields of every size, of either sign and with digits below the unit, and what they are encoded as again.
  lemma CompactValues()
    ensures SetCompact(0x01fedcba) == -0x7e && GetCompact(-0x7e) == 0x01fe0000
    ensures SetCompact(0x02123456) == 0x1234 && GetCompact(0x1234) == 0x02123400
    ensures SetCompact(0x03123456) == 0x123456 && GetCompact(0x123456) == 0x03123456
    ensures SetCompact(0x04923456) == -0x12345600 && GetCompact(-0x12345600) == 0x04923456
    ensures SetCompact(0x05009234) == 0x92340000 && GetCompact(0x92340000) == 0x05009234
    ensures GetCompact(0x80) == 0x02008000
  {
    SmallBases();
    assert NumBytes(0x7e) == 1 && NumBytes(0x80) == 1 && NumBytes(0x1234) == 2 && NumBytes(0x123456) == 3;
    assert NumBytes(0x12345600) == 4 && NumBytes(0x92340000) == 4;
  }
}
