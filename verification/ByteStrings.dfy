/** Bytes as the numbers they stand for, and numbers as bytes in the order of the wire. */
module ByteStrings {
  type Byte = x: nat | x < 256
  type Bytes = seq<Byte>

  // The longest message, string or vector that is read.
  const MAX_SIZE: nat := 0x02000000

  // The lowest `k` bytes of a number, least significant first.
  function LittleEndian(n: nat, k: nat): (b: Bytes)
    ensures |b| == k
  {
    if k == 0 then [] else [n % 256] + LittleEndian(n / 256, k - 1)
  }

  function Number(b: Bytes): nat {
    if b == [] then 0 else b[0] + 256 * Number(b[1..])
  }

  ghost predicate Fits(n: nat, k: nat) {
    if k == 0 then n == 0 else Fits(n / 256, k - 1)
  }

  lemma {:induction false} NumberBack(n: nat, k: nat)
    requires Fits(n, k)
    ensures Number(LittleEndian(n, k)) == n
  {
    if k > 0 {
      NumberBack(n / 256, k - 1);
      assert LittleEndian(n, k)[1..] == LittleEndian(n / 256, k - 1);
    }
  }

  lemma FitsWidth(n: nat, k: nat)
    requires (k == 2 && n <= 0xFFFF) || (k == 4 && n <= 0xFFFF_FFFF) || (k == 8 && n < 0x1_0000_0000_0000_0000)
    ensures Fits(n, k)
  {
    assert Fits(n, k) == Fits(n / 256 / 256, k - 2);
    if k > 2 {
      var m := n / 256 / 256;
      assert Fits(m, k - 2) == Fits(m / 256 / 256, k - 4);
      if k > 4 {
        var l := m / 256 / 256;
        assert Fits(l, 4) == Fits(l / 256 / 256, 2);
        assert Fits(l / 256 / 256, 2) == (l / 256 / 256 / 256 / 256 == 0);
      }
    }
  }
}
