/** Bytes as numbers. */
module ByteArithmetic {
  lemma WideSum(a: bv8, b: bv8)
    ensures (a as bv9 + b as bv9) as int == a as int + b as int
    ensures (a as bv9 + b as bv9) & 255 == (a + b) as bv9
  {
  }

  lemma LowByte(wide: bv9)
    ensures (wide & 255) as int == wide as int % 256
  {
  }

  lemma Widened(b: bv8)
    ensures b as bv9 as int == b as int
  {
  }

  /** Bytes are added modulo 256. */
  lemma AddBytes(a: bv8, b: bv8)
    ensures (a + b) as int == (a as int + b as int) % 256
  {
    WideSum(a, b);
    LowByte(a as bv9 + b as bv9);
    Widened(a + b);
  }

  /** There is a byte for every number below 256. */
  lemma {:induction false} ByteOf(n: nat) returns (b: bv8)
    requires n < 256
    ensures b as int == n
  {
    if n == 0 {
      b := 0;
    } else {
      var c := ByteOf(n - 1);
      AddBytes(c, 1);
      b := c + 1;
    }
  }

  lemma SameByte(b: bv8, c: bv8)
    requires b as int == c as int
    ensures b == c
  {
  }

  lemma FromByte(b: bv8, n: nat)
    requires b as int == n
    ensures n as bv8 == b
  {
  }

  lemma ThereAndBack(n: nat)
    requires n < 256
    ensures (n as bv8) as int == n
  {
    var b := ByteOf(n);
    FromByte(b, n);
  }
}
