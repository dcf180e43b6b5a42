/**
 Base58 text for byte strings, with and without a checksum, and the big-number byte
 format (`setvch`, `getvch`) it goes through.
 */
module Base58 {
  import opened Arithmetic
  import opened ByteStrings
  import opened Options
  import opened Radix
  import opened Sequences

  // ---------- big numbers as bytes ----------

  // Least significant byte first; the top bit of the last byte is the sign.
  function Setvch(vch: Bytes): int {
    if vch == [] then 0
    else
      var last := |vch| - 1;
      Signed(vch[last] >= 128, Value(256, vch[..last] + [vch[last] % 128]))
  }

  function Getvch(n: int): Bytes {
    var ds := Digits(256, Magnitude(n));
    if ds == [] then []
    else
      var padded := if ds[|ds| - 1] >= 128 then ds + [0] else ds;
      if n < 0 then padded[|padded| - 1 := padded[|padded| - 1] + 128] else padded
  }

  lemma SetvchGetvch(n: int)
    ensures Setvch(Getvch(n)) == n
  {
    var m := Magnitude(n);
    var ds := Digits(256, m);
    ValueDigits(256, m);
    if ds != [] {
      var padded := if ds[|ds| - 1] >= 128 then ds + [0] else ds;
      ValueZeros(256, ds, 1);
      assert Zeros(1) == [0];
      var vch, last := Getvch(n), |padded| - 1;
      assert vch[..last] + [vch[last] % 128] == padded;
    }
  }

  // ---------- the alphabet ----------

  const ALPHABET: string := Run('1', 9) + Run('A', 8) + Run('J', 5) + Run('P', 11) + Run('a', 11) + Run('m', 14)

  function Run(first: char, n: nat): (s: string)
    requires first as int + n < 128
    ensures |s| == n && forall i | 0 <= i < n :: s[i] as int == first as int + i
  {
    if n == 0 then [] else Run(first, n - 1) + [(first as int + n - 1) as char]
  }

  // `strchr` on the alphabet, from position i on: 58 when the character is not there.
  function Find(c: char, i: nat): (k: nat)
    requires i <= 58
    ensures i <= k <= 58
    decreases 58 - i
  {
    if i == 58 || ALPHABET[i] == c then i else Find(c, i + 1)
  }

  lemma {:induction false} FindHits(c: char, i: nat)
    requires i <= 58
    ensures Find(c, i) < 58 ==> ALPHABET[Find(c, i)] == c
    decreases 58 - i
  {
    if i < 58 && ALPHABET[i] != c {
      FindHits(c, i + 1);
    }
  }

  lemma {:induction false} FindIsFirst(c: char, i: nat, j: nat)
    requires i <= j < 58 && ALPHABET[j] == c
    ensures Find(c, i) <= j
    decreases 58 - i
  {
    if i < j && ALPHABET[i] != c {
      FindIsFirst(c, i + 1, j);
    }
  }

  function Code(k: nat): nat {
    if k < 9 then 49 + k else if k < 17 then 56 + k else if k < 22 then 57 + k
    else if k < 33 then 58 + k else if k < 44 then 64 + k else 65 + k
  }

  lemma AlphabetCodes(k: nat)
    requires k < 58
    ensures ALPHABET[k] as int == Code(k)
  {
    hide Run;
  }

  ghost predicate Alphanumeric(c: char) {
    '0' <= c <= '9' || 'A' <= c <= 'Z' || 'a' <= c <= 'z'
  }

  // Exactly the digits and letters other than 0, O, I and l, in the order of their codes.
  lemma AlphabetIs(c: char)
    ensures |ALPHABET| == 58 && forall i, j | 0 <= i < j < 58 :: ALPHABET[i] < ALPHABET[j]
    ensures c in ALPHABET <==> Alphanumeric(c) && c != '0' && c != 'O' && c != 'I' && c != 'l'
  {
    hide Run;
    AlphabetCodes(0);
    forall i, j | 0 <= i < j < 58 ensures ALPHABET[i] < ALPHABET[j] {
      AlphabetCodes(i);
      AlphabetCodes(j);
    }
    if Alphanumeric(c) && c != '0' && c != 'O' && c != 'I' && c != 'l' {
      var n := c as int;
      var k := if n < 58 then n - 49 else if n < 73 then n - 56 else if n < 79 then n - 57
               else if n < 91 then n - 58 else if n < 108 then n - 64 else n - 65;
      AlphabetCodes(k);
      assert ALPHABET[k] == c;
    }
    if c in ALPHABET {
      var i :| 0 <= i < 58 && ALPHABET[i] == c;
      AlphabetCodes(i);
    }
  }

  // No character occurs twice.
  lemma FindsItself(k: nat)
    requires k < 58
    ensures Find(ALPHABET[k], 0) == k
  {
    hide Find;
    var j := Find(ALPHABET[k], 0);
    FindIsFirst(ALPHABET[k], 0, k);
    FindHits(ALPHABET[k], 0);
    AlphabetCodes(k);
    AlphabetCodes(j);
  }

  lemma FindsOne(c: char)
    ensures Find(c, 0) == 0 <==> c == '1'
  {
    hide Find;
    AlphabetCodes(0);
    FindsItself(0);
    FindHits(c, 0);
  }

  // ---------- encoding ----------

  function Chars(ds: seq<nat>): (s: string)
    requires InBase(58, ds)
    ensures |s| == |ds| && forall i | 0 <= i < |s| :: s[i] == ALPHABET[ds[i]]
  {
    seq(|ds|, i requires 0 <= i < |ds| => ALPHABET[ds[i]])
  }

  predicate Alphabetic(s: string) {
    forall i | 0 <= i < |s| :: Find(s[i], 0) < 58
  }

  function Indices(s: string): (ds: seq<nat>)
    requires Alphabetic(s)
    ensures |ds| == |s| && InBase(58, ds)
  {
    seq(|s|, i requires 0 <= i < |s| => Find(s[i], 0))
  }

  lemma IndicesChars(ds: seq<nat>)
    requires InBase(58, ds)
    ensures Alphabetic(Chars(ds)) && Indices(Chars(ds)) == ds
  {
    forall i | 0 <= i < |ds| ensures Find(Chars(ds)[i], 0) == ds[i] {
      FindsItself(ds[i]);
    }
  }

  lemma CharsIndices(s: string)
    requires Alphabetic(s)
    ensures Chars(Indices(s)) == s
  {
    hide Find;
    forall i | 0 <= i < |s| ensures Chars(Indices(s))[i] == s[i] {
      FindHits(s[i], 0);
    }
  }

  // The number of zeros at the front is that at the top of the reversal.
  lemma LeadingZeros(ds: seq<nat>, k: nat)
    requires k <= |ds| && (forall i | 0 <= i < k :: ds[i] == 0) && (k < |ds| ==> ds[k] != 0)
    ensures TopZeros(Reverse(ds)) == k
  {
    var rest := Reverse(ds[k..]);
    assert Reverse(ds) == rest + Zeros(k);
    TopZerosOf(rest, k);
  }

  // The text of a byte string: the same number in base 58, under as many zeros.
  ghost function Encoded(data: Bytes): string {
    Chars(Reverse(Convert(256, 58, Reverse<nat>(data))))
  }

  // A number read from its most significant digit on.
  ghost function Read(b: nat, ds: seq<nat>): nat {
    if ds == [] then 0 else Times(Read(b, ds[..|ds| - 1]), b) + ds[|ds| - 1]
  }

  lemma {:induction false} ReadReversed(b: nat, ds: seq<nat>)
    ensures Read(b, ds) == Value(b, Reverse(ds))
  {
    hide Times;
    if ds != [] {
      var front, last := ds[..|ds| - 1], ds[|ds| - 1];
      ReadReversed(b, front);
      assert ds == front + [last];
      ReverseAppend(front, last);
      ValueCons(b, last, Reverse(front));
    }
  }

  // The text stands for the number that the bytes stand for, both read from the left, and begins with as many ones as
  // there are zero bytes in front.
  lemma EncodedNumber(data: Bytes)
    ensures Alphabetic(Encoded(data)) && Read(58, Indices(Encoded(data))) == Read(256, data)
    ensures TopZeros(Reverse(Indices(Encoded(data)))) == TopZeros(Reverse<nat>(data))
  {
    hide Digits, Value, TopZeros, Find, Chars, Reverse, Read, Indices, Alphabetic;
    var ds := Reverse<nat>(data);
    var digits, zeros := Digits(58, Value(256, ds)), TopZeros(ds);
    IndicesChars(Reverse(Convert(256, 58, ds)));
    ReadReversed(58, Reverse(Convert(256, 58, ds)));
    ReadReversed(256, data);
    ReverseReverse(Convert(256, 58, ds));
    ValueZeros(58, digits, zeros);
    ValueDigits(58, Value(256, ds));
    TopZerosOf(digits, zeros);
  }

  method EncodeBase58(data: Bytes) returns (str: string)
    ensures str == Encoded(data)
  {
    hide Digits, Value, TopZeros, Find, Chars, Reverse, Setvch;
    BigNumber(data);
    var vchTmp: Bytes := Reverse<nat>(data) + [0];
    var bn := Setvch(vchTmp);
    var digits := DivideOut(bn);
    digits := AppendZeros(digits, data);
    assert digits == Convert(256, 58, Reverse<nat>(data));
    str := Chars(Reverse(digits));
  }

  // Divide by 58 until nothing is left.
  method DivideOut(n: nat) returns (digits: seq<nat>)
    ensures digits == Digits(58, n)
  {
    hide Digits;
    var bn := n;
    digits := [];
    while bn > 0
      invariant digits + Digits(58, bn) == Digits(58, n)
    {
      NextDigit(bn);
      digits := digits + [bn % 58];
      bn := bn / 58;
    }
    NextDigit(0);
  }

  // One zero for each zero byte in front.
  method AppendZeros(digits: seq<nat>, data: Bytes) returns (r: seq<nat>)
    ensures r == digits + Zeros(TopZeros(Reverse<nat>(data)))
  {
    hide TopZeros, Reverse;
    r := digits;
    var p := 0;
    while p < |data| && data[p] == 0
      invariant 0 <= p <= |data| && (forall i | 0 <= i < p :: data[i] == 0) && r == digits + Zeros(p)
    {
      r := r + [0];
      p := p + 1;
    }
    LeadingZeros(data, p);
  }

  lemma BigNumber(data: Bytes)
    ensures Setvch(Reverse<nat>(data) + [0]) == Value(256, Reverse<nat>(data))
  {
    var ds := Reverse<nat>(data);
    assert (ds + [0])[..|ds|] + [0] == ds + Zeros(1);
    ValueZeros(256, ds, 1);
  }

  lemma NextDigit(n: nat)
    ensures Digits(58, n) == if n == 0 then [] else [n % 58] + Digits(58, n / 58)
  {
    if n > 0 {
      assert Rest(n, 58) == n / 58;
      QuotTimes(n, 58);
    }
  }

  // ---------- decoding ----------

  predicate IsSpace(c: char) {
    c == ' ' || 9 <= c as int <= 13
  }

  // A C string ends before its first null character.
  function CString(str: string): (psz: string)
    ensures psz <= str && '\0' !in psz
  {
    if str == [] || str[0] == '\0' then [] else [str[0]] + CString(str[1..])
  }

  // The first position from i on that holds no white space.
  function SkipSpaces(s: string, i: nat): (k: nat)
    requires i <= |s|
    ensures i <= k <= |s| && (forall j | i <= j < k :: IsSpace(s[j])) && (k < |s| ==> !IsSpace(s[k]))
    decreases |s| - i
  {
    if i < |s| && IsSpace(s[i]) then SkipSpaces(s, i + 1) else i
  }

  // The first position from i on that holds no character of the alphabet.
  ghost function AlphabetEnd(s: string, i: nat): (k: nat)
    requires i <= |s|
    ensures i <= k <= |s| && (forall j | i <= j < k :: Find(s[j], 0) < 58) && (k < |s| ==> Find(s[k], 0) == 58)
    decreases |s| - i
  {
    hide Find;
    if i < |s| && Find(s[i], 0) < 58 then AlphabetEnd(s, i + 1) else i
  }

  // The bytes of a text: the same number in base 256, under as many zeros.
  ghost function BytesOf(s: string): Bytes
    requires Alphabetic(s)
  {
    Reverse(Convert(58, 256, Reverse(Indices(s))))
  }

  // White space around the text is ignored.
  ghost function Decoded(str: string): Option<Bytes> {
    hide Find, CString, SkipSpaces, AlphabetEnd, BytesOf;
    var psz := CString(str);
    var from := SkipSpaces(psz, 0);
    var to := AlphabetEnd(psz, from);
    if SkipSpaces(psz, to) == |psz| then Some(BytesOf(psz[from..to])) else None
  }

  method DecodeBase58(str: string) returns (vchRet: Option<Bytes>)
    ensures vchRet == Decoded(str)
  {
    hide Find, CString, SkipSpaces, AlphabetEnd, BytesOf;
    var psz := CString(str);
    var from := SkipSpaces(psz, 0);
    var bn, to := ReadNumber(psz, from);
    if to < |psz| && SkipSpaces(psz, to) != |psz| {
      return None;
    }
    var bytes := WriteNumber(psz, from, bn, to);
    return Some(bytes);
  }

  // Convert the text to a number, most significant digit first, up to the first other character.
  method ReadNumber(psz: string, from: nat) returns (bn: nat, to: nat)
    requires from <= |psz|
    ensures to == AlphabetEnd(psz, from) && Alphabetic(psz[from..to])
    ensures bn == Value(58, Reverse(Indices(psz[from..to])))
  {
    hide Find, Value, AlphabetEnd, Indices, Reverse, Alphabetic;
    EmptyNumber();
    bn, to := 0, from;
    while to < |psz|
      invariant from <= to <= |psz| && Alphabetic(psz[from..to]) && AlphabetEnd(psz, to) == AlphabetEnd(psz, from)
      invariant bn == Value(58, Reverse(Indices(psz[from..to])))
    {
      var c := Find(psz[to], 0);
      EndStep(psz, to);
      if c == 58 {
        return;
      }
      assert psz[from..to + 1] == psz[from..to] + [psz[to]];
      NumberStep(psz[from..to], psz[to]);
      bn := bn * 58 + c;
      to := to + 1;
    }
    EndStep(psz, to);
  }

  lemma EmptyNumber()
    ensures Alphabetic("") && Value(58, Reverse(Indices(""))) == 0
  {
  }

  lemma EndStep(s: string, i: nat)
    requires i <= |s|
    ensures AlphabetEnd(s, i) == if i < |s| && Find(s[i], 0) < 58 then AlphabetEnd(s, i + 1) else i
  {
  }

  lemma NumberStep(s: string, c: char)
    requires Alphabetic(s) && Find(c, 0) < 58
    ensures Alphabetic(s + [c])
    ensures Value(58, Reverse(Indices(s + [c]))) == Value(58, Reverse(Indices(s))) * 58 + Find(c, 0)
  {
    hide Find, Value, Reverse, Indices;
    IndicesAppend(s, c);
    ReverseAppend(Indices(s), Find(c, 0));
    ValueCons(58, Find(c, 0), Reverse(Indices(s)));
  }

  lemma IndicesAppend(s: string, c: char)
    requires Alphabetic(s) && Find(c, 0) < 58
    ensures Alphabetic(s + [c]) && Indices(s + [c]) == Indices(s) + [Find(c, 0)]
  {
  }

  // Take the bytes of the number without its sign byte and restore the zeros in front.
  method WriteNumber(psz: string, from: nat, bn: nat, ghost to: nat) returns (bytes: Bytes)
    requires from <= to <= |psz| && to == AlphabetEnd(psz, from) && Alphabetic(psz[from..to])
    requires bn == Value(58, Reverse(Indices(psz[from..to])))
    ensures bytes == BytesOf(psz[from..to])
  {
    hide Find, Value, AlphabetEnd, Digits, Getvch, TopZeros, BytesOf, Indices, Reverse, BigEndian, Alphabetic;
    var vchTmp := Getvch(bn);
    var last := |vchTmp| - 1;
    TrimmedBytes(bn);
    if |vchTmp| >= 2 && vchTmp[last] == 0 && vchTmp[last - 1] >= 128 {
      vchTmp := vchTmp[..last];
    }
    var nLeadingZeros := CountOnes(psz, from, to);
    BytesAre(psz[from..to], vchTmp, nLeadingZeros);
    bytes := BigEndian(vchTmp, nLeadingZeros);
  }

  method CountOnes(psz: string, from: nat, ghost to: nat) returns (n: nat)
    requires from <= to <= |psz| && to == AlphabetEnd(psz, from) && Alphabetic(psz[from..to])
    ensures n == TopZeros(Reverse(Indices(psz[from..to])))
  {
    hide Find, AlphabetEnd, TopZeros, Indices, Reverse, Alphabetic;
    n := 0;
    while from + n < |psz| && psz[from + n] == '1'
      invariant from + n <= to && forall i | from <= i < from + n :: psz[i] == '1'
    {
      FindsOne(psz[from + n]);
      n := n + 1;
    }
    LeadingOnes(psz[from..to], n);
  }

  // The bytes of a number, most significant first, under some zeros.
  function BigEndian(vch: Bytes, zeros: nat): Bytes {
    Reverse<nat>(vch + Zeros(zeros))
  }

  lemma BytesAre(s: string, vch: Bytes, zeros: nat)
    requires Alphabetic(s) && TopZeros(Reverse(Indices(s))) == zeros
             && Digits(256, Value(58, Reverse(Indices(s)))) == vch
    ensures BytesOf(s) == BigEndian(vch, zeros)
  {
    hide Value, Digits, TopZeros, Indices, Reverse;
  }

  lemma TrimmedBytes(n: nat)
    ensures var v := Getvch(n);
            var last := |v| - 1;
            Digits(256, n) == if |v| >= 2 && v[last] == 0 && v[last - 1] >= 128 then v[..last] else v
  {
    var ds := Digits(256, n);
    if ds != [] && ds[|ds| - 1] >= 128 {
      assert (ds + [0])[..|ds|] == ds;
    }
  }

  lemma LeadingOnes(s: string, k: nat)
    requires Alphabetic(s) && k <= |s| && (forall i | 0 <= i < k :: s[i] == '1') && (k < |s| ==> s[k] != '1')
    ensures TopZeros(Reverse(Indices(s))) == k
  {
    hide Find, TopZeros;
    forall i | 0 <= i < |s| ensures Indices(s)[i] == 0 <==> s[i] == '1' {
      FindsOne(s[i]);
    }
    LeadingZeros(Indices(s), k);
  }

  // ---------- round trips ----------

  lemma DecodesText(s: string)
    requires Alphabetic(s)
    ensures Decoded(s) == Some(BytesOf(s))
  {
    Spaced("", s, "");
    assert "" + s + "" == s;
  }

  lemma FindCode(c: char)
    requires Find(c, 0) < 58
    ensures c as int >= 49
  {
    hide Find;
    FindHits(c, 0);
    AlphabetCodes(Find(c, 0));
  }

  lemma SkipTo(s: string, i: nat, k: nat)
    requires i <= k <= |s| && (forall j | i <= j < k :: IsSpace(s[j])) && (k < |s| ==> !IsSpace(s[k]))
    ensures SkipSpaces(s, i) == k
  {
    hide SkipSpaces;
    var r := SkipSpaces(s, i);
  }

  lemma EndTo(s: string, i: nat, k: nat)
    requires i <= k <= |s| && (forall j | i <= j < k :: Find(s[j], 0) < 58) && (k < |s| ==> Find(s[k], 0) == 58)
    ensures AlphabetEnd(s, i) == k
  {
    hide AlphabetEnd, Find;
    var r := AlphabetEnd(s, i);
  }

  lemma {:induction false} WholeCString(s: string)
    requires '\0' !in s
    ensures CString(s) == s
  {
    if s != [] {
      WholeCString(s[1..]);
    }
  }

  // White space before and after does not change what a text stands for.
  lemma Spaced(a: string, s: string, b: string)
    requires Alphabetic(s) && (forall i | 0 <= i < |a| :: IsSpace(a[i])) && (forall i | 0 <= i < |b| :: IsSpace(b[i]))
    ensures Decoded(a + s + b) == Some(BytesOf(s))
  {
    hide Find, CString, SkipSpaces, AlphabetEnd, BytesOf;
    var t := a + s + b;
    forall i | 0 <= i < |t| ensures t[i] != '\0' && (Find(t[i], 0) < 58 <==> |a| <= i < |a| + |s|) {
      if Find(t[i], 0) < 58 {
        FindCode(t[i]);
      }
    }
    WholeCString(t);
    var from := if s == "" then |t| else |a|;
    var to := if s == "" then |t| else |a| + |s|;
    if s != "" {
      FindCode(t[|a|]);
    }
    SkipTo(t, 0, from);
    EndTo(t, from, to);
    SkipTo(t, to, |t|);
    assert t[from..to] == s;
  }

  // Nothing else is accepted.
  lemma OnlySpaced(t: string) returns (a: string, s: string, b: string)
    requires Decoded(t).Some?
    ensures CString(t) == a + s + b && (forall i | 0 <= i < |a| :: IsSpace(a[i]))
            && (forall i | 0 <= i < |b| :: IsSpace(b[i]))
    ensures Alphabetic(s) && Decoded(t) == Some(BytesOf(s))
  {
    hide Find, CString, SkipSpaces, AlphabetEnd, BytesOf;
    var psz := CString(t);
    var from := SkipSpaces(psz, 0);
    var to := AlphabetEnd(psz, from);
    a, s, b := psz[..from], psz[from..to], psz[to..];
    assert psz == a + s + b;
  }

  // Every byte string comes back from its text, zeros in front included.
  lemma DecodeEncode(data: Bytes)
    ensures Alphabetic(Encoded(data)) && Decoded(Encoded(data)) == Some(data)
  {
    hide Find, Decoded, Convert, Chars, Indices, Reverse;
    var ds := Convert(256, 58, Reverse<nat>(data));
    IndicesChars(Reverse(ds));
    DecodesText(Encoded(data));
    ReverseReverse(ds);
    ConvertBack(256, 58, Reverse<nat>(data));
    ReverseReverse<nat>(data);
  }

  // Every text over the alphabet is the text of the bytes it stands for.
  lemma EncodeDecode(s: string)
    requires Alphabetic(s)
    ensures Decoded(s).Some? && Encoded(Decoded(s).value) == s
  {
    hide Find, Decoded, Convert, Chars, Indices, Reverse;
    DecodesText(s);
    var ds := Reverse(Indices(s));
    ReverseReverse(Convert(58, 256, ds));
    ConvertBack(58, 256, ds);
    ReverseReverse(Indices(s));
    CharsIndices(s);
  }

  // ---------- with a checksum ----------

  // The first four bytes of the hash of a byte string.
  ghost predicate Checks(checksum: Bytes -> Bytes) {
    forall d :: |checksum(d)| == 4
  }

  ghost function EncodedCheck(vchIn: Bytes, checksum: Bytes -> Bytes): string {
    Encoded(vchIn + checksum(vchIn))
  }

  ghost function DecodedCheck(str: string, checksum: Bytes -> Bytes): Option<Bytes> {
    var r := Decoded(str);
    if r.None? || |r.value| < 4 then None
    else
      var n := |r.value| - 4;
      if checksum(r.value[..n]) == r.value[n..] then Some(r.value[..n]) else None
  }

  method EncodeBase58Check(vchIn: Bytes, checksum: Bytes -> Bytes) returns (str: string)
    ensures str == EncodedCheck(vchIn, checksum) == Encoded(vchIn + checksum(vchIn))
  {
    str := EncodeBase58(vchIn + checksum(vchIn));
  }

  // On failure the result is empty.
  method DecodeBase58Check(str: string, checksum: Bytes -> Bytes) returns (ok: bool, vchRet: Bytes)
    ensures ok <==> DecodedCheck(str, checksum).Some?
    ensures vchRet == if ok then DecodedCheck(str, checksum).value else []
  {
    hide Decoded;
    var r := DecodeBase58(str);
    if r.None? || |r.value| < 4 {
      return false, [];
    }
    var n := |r.value| - 4;
    if checksum(r.value[..n]) != r.value[n..] {
      return false, [];
    }
    return true, r.value[..n];
  }

  // The checked forms: every byte string comes back, and each text that is accepted, but for white space, is
  // the one text of its bytes.
  lemma CheckRoundTrip(vchIn: Bytes, checksum: Bytes -> Bytes)
    requires Checks(checksum)
    ensures DecodedCheck(EncodedCheck(vchIn, checksum), checksum) == Some(vchIn)
  {
    hide Encoded, Decoded;
    var all := vchIn + checksum(vchIn);
    DecodeEncode(all);
    assert all[..|vchIn|] == vchIn && all[|vchIn|..] == checksum(vchIn);
  }

  lemma CheckUnique(s: string, checksum: Bytes -> Bytes)
    requires Alphabetic(s) && DecodedCheck(s, checksum).Some?
    ensures EncodedCheck(DecodedCheck(s, checksum).value, checksum) == s
  {
    hide Encoded, Decoded;
    EncodeDecode(s);
    var all := Decoded(s).value;
    var n := |all| - 4;
    assert all[..n] + all[n..] == all;
  }

  class Base58Data {
    const checksum: Bytes -> Bytes
    var nVersion: Byte
    var vchData: Bytes

    constructor (sum: Bytes -> Bytes)
      ensures checksum == sum && nVersion == 0 && vchData == []
    {
      checksum, nVersion, vchData := sum, 0, [];
    }

    // Accepts exactly the texts of at least a version byte; anything else resets the object.
    method SetString(str: string) returns (ok: bool)
      modifies this
      ensures ok <==> DecodedCheck(str, checksum).Some? && DecodedCheck(str, checksum).value != []
      ensures ok ==> DecodedCheck(str, checksum) == Some([nVersion] + vchData)
      ensures !ok ==> nVersion == 0 && vchData == []
    {
      hide DecodedCheck;
      var _, vchTemp := DecodeBase58Check(str, checksum);
      if vchTemp == [] {
        vchData, nVersion := [], 0;
        return false;
      }
      assert vchTemp == [vchTemp[0]] + vchTemp[1..];
      nVersion, vchData := vchTemp[0], vchTemp[1..];
      return true;
    }

    method ToString() returns (str: string)
      ensures str == EncodedCheck([nVersion] + vchData, checksum)
    {
      str := EncodeBase58Check([nVersion] + vchData, checksum);
    }

    // Reading back what was written restores version and data.
    method Reread(other: Base58Data) returns (ok: bool)
      requires Checks(checksum) && other.checksum == checksum && other != this
      modifies other
      ensures ok && other.nVersion == nVersion && other.vchData == vchData
    {
      hide DecodedCheck, EncodedCheck;
      var str := ToString();
      CheckRoundTrip([nVersion] + vchData, checksum);
      ok := other.SetString(str);
      assert ([nVersion] + vchData)[1..] == vchData && ([other.nVersion] + other.vchData)[1..] == other.vchData;
      assert ([nVersion] + vchData)[0] == nVersion && ([other.nVersion] + other.vchData)[0] == other.nVersion;
    }
  }
}
