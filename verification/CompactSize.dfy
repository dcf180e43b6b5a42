/**
 Counts on the wire and on disk: one byte for small ones, otherwise a marker and two, four or
 eight bytes (`WriteCompactSize`, `ReadCompactSize`).
 */
module CompactSize {
  import opened ByteStrings
  import opened Options

  // `GetSizeOfCompactSize`.
  function SizeOf(n: nat): nat {
    if n < 253 then 1 else if n <= 0xFFFF then 3 else if n <= 0xFFFF_FFFF then 5 else 9
  }

  function Write(n: nat): Bytes {
    if n < 253 then [n]
    else if n <= 0xFFFF then [253] + LittleEndian(n, 2)
    else if n <= 0xFFFF_FFFF then [254] + LittleEndian(n, 4)
    else [255] + LittleEndian(n, 8)
  }

  // The count and what comes after it; `None` where the program throws.
  function Read(b: Bytes): Option<(nat, Bytes)> {
    if b == [] then None
    else
      var k := if b[0] < 253 then 0 else if b[0] == 253 then 2 else if b[0] == 254 then 4 else 8;
      if |b| < 1 + k then None
      else
        var n: nat := if k == 0 then b[0] else Number(b[1..1 + k]);
        if n > MAX_SIZE then None else Some((n, b[1 + k..]))
  }

  // A count is read back with what follows it, unless it is too large, and takes the bytes it is said to take.
  lemma ReadWrite(n: nat, rest: Bytes)
    requires n < 0x1_0000_0000_0000_0000
    ensures Read(Write(n) + rest) == if n <= MAX_SIZE then Some((n, rest)) else None
    ensures |Write(n)| == SizeOf(n)
  {
    hide Number, LittleEndian;
    var b := Write(n) + rest;
    if n >= 253 {
      var k := if n <= 0xFFFF then 2 else if n <= 0xFFFF_FFFF then 4 else 8;
      FitsWidth(n, k);
      NumberBack(n, k);
      assert b[1..1 + k] == LittleEndian(n, k);
    }
    assert b[SizeOf(n)..] == rest;
  }
}
