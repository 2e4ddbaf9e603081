/** Bitwise operators on non-negative integers, and big-endian fields of byte strings. */
module Bits {
  type byte = x: int | 0 <= x < 256

  type Bytes = seq<byte>

  function Pow2(k: nat): (r: nat)
    ensures r > 0
  {
    if k == 0 then 1 else 2 * Pow2(k - 1)
  }

  function And(a: nat, b: nat): (r: nat)
    ensures r <= a && r <= b
  {
    if a == 0 || b == 0 then 0
    else (if a % 2 == 1 && b % 2 == 1 then 1 else 0) + 2 * And(a / 2, b / 2)
  }

  function Or(a: nat, b: nat): (r: nat)
    decreases a + b
  {
    if a == 0 then b else if b == 0 then a
    else (if a % 2 == 1 || b % 2 == 1 then 1 else 0) + 2 * Or(a / 2, b / 2)
  }

  // Exclusive or of the low k bits.
  function XorBits(a: nat, b: nat, k: nat): (r: nat)
    ensures r < Pow2(k)
  {
    if k == 0 then 0 else (if a % 2 == b % 2 then 0 else 1) + 2 * XorBits(a / 2, b / 2, k - 1)
  }

  function Xor(a: byte, b: byte): (r: byte)
  {
    Pow2Byte();
    XorBits(a, b, 8)
  }

  lemma Pow2Byte()
    ensures Pow2(8) == 256
  {
    assert Pow2(4) == 16;
  }

  lemma {:induction false} XorBitsTwice(a: nat, b: nat, k: nat)
    requires a < Pow2(k)
    ensures XorBits(XorBits(a, b, k), b, k) == a
  {
    if k > 0 {
      XorBitsTwice(a / 2, b / 2, k - 1);
      var rest := XorBits(a / 2, b / 2, k - 1);
      var bit := if a % 2 == b % 2 then 0 else 1;
      assert XorBits(a, b, k) == bit + 2 * rest;
      assert (bit + 2 * rest) / 2 == rest && (bit + 2 * rest) % 2 == bit;
    }
  }

  lemma XorTwice(a: byte, b: byte)
    ensures Xor(Xor(a, b), b) == a
  {
    Pow2Byte();
    XorBitsTwice(a, b, 8);
  }

  lemma MulAtLeast(m: nat, d: nat)
    requires d >= 1
    ensures m * d >= m
  {
    assert m * d == m * (d - 1) + m;
  }

  // Quotient and remainder are determined by their defining equation.
  lemma DivModUnique(a: int, m: int, q: int, r: int)
    requires 0 <= r < m
    requires a == m * q + r
    ensures a % m == r && a / m == q
  {
    var d := a / m - q;
    assert m * d == r - a % m by {
      assert m * (a / m) + a % m == m * q + r;
      assert m * d == m * (a / m) - m * q;
    }
    if d >= 1 {
      MulAtLeast(m, d);
    } else if d <= -1 {
      assert m * d == -(m * -d);
      MulAtLeast(m, -d);
    }
  }

  lemma ModHalf(a: nat, m: nat)
    requires m > 0
    ensures a % (2 * m) == a % 2 + 2 * ((a / 2) % m)
  {
    var q := (a / 2) / m;
    assert a / 2 == m * q + (a / 2) % m;
    assert a == (2 * m) * q + (a % 2 + 2 * ((a / 2) % m)) by {
      assert (2 * m) * q == 2 * (m * q);
    }
    DivModUnique(a, 2 * m, q, a % 2 + 2 * ((a / 2) % m));
  }

  lemma AndOdd(a: nat, b: nat)
    requires b % 2 == 1
    ensures And(a, b) == a % 2 + 2 * And(a / 2, b / 2)
  {
  }

  function LowBits(a: nat, k: nat): nat {
    if k == 0 then 0 else a % 2 + 2 * LowBits(a / 2, k - 1)
  }

  lemma {:induction false} LowBitsIsMod(a: nat, k: nat)
    ensures LowBits(a, k) == a % Pow2(k)
  {
    if k > 0 {
      LowBitsIsMod(a / 2, k - 1);
      ModHalf(a, Pow2(k - 1));
    }
  }

  lemma {:induction false} AndIsLowBits(a: nat, k: nat, h: nat)
    requires h + 1 == Pow2(k)
    ensures And(a, h) == LowBits(a, k)
  {
    if k > 0 {
      AndIsLowBits(a / 2, k - 1, h / 2);
      AndOdd(a, h);
    }
  }

  // Masking with 2^k - 1 keeps the low k bits.
  lemma AndLowBits(a: nat, k: nat)
    ensures And(a, Pow2(k) - 1) == a % Pow2(k)
  {
    AndIsLowBits(a, k, Pow2(k) - 1);
    LowBitsIsMod(a, k);
  }

  // A value below 2^k and a multiple of 2^k have no bit in common.
  lemma {:induction false} OrDisjoint(net: nat, i: nat, k: nat)
    requires net % Pow2(k) == 0 && i < Pow2(k)
    ensures Or(net, i) == net + i
  {
    if k > 0 && net > 0 && i > 0 {
      ModHalf(net, Pow2(k - 1));
      OrDisjoint(net / 2, i / 2, k - 1);
    }
  }

  lemma {:induction false} Pow2Add(a: nat, b: nat)
    ensures Pow2(a + b) == Pow2(a) * Pow2(b)
  {
    if a > 0 {
      Pow2Add(a - 1, b);
      assert Pow2(a) * Pow2(b) == 2 * (Pow2(a - 1) * Pow2(b));
    }
  }

  lemma Pow2Word()
    ensures Pow2(32) == 0x1_0000_0000
  {
    hide Pow2;
    Pow2Byte();
    Pow2Add(8, 8);
    Pow2Add(16, 16);
  }

  lemma {:induction false} OrBound(a: nat, b: nat, k: nat)
    requires a < Pow2(k) && b < Pow2(k)
    ensures Or(a, b) < Pow2(k)
  {
    if k > 0 && a > 0 && b > 0 {
      OrBound(a / 2, b / 2, k - 1);
    }
  }

  function Be16(n: int): (r: Bytes)
    requires 0 <= n < 0x1_0000
    ensures |r| == 2 && r[0] as int * 256 + r[1] as int == n
  {
    [n / 256, n % 256]
  }

  function Be32(n: int): (r: Bytes)
    requires 0 <= n < 0x1_0000_0000
    ensures |r| == 4 && U16(r, 0) * 0x1_0000 + U16(r, 2) == n
  {
    Be16(n / 0x1_0000) + Be16(n % 0x1_0000)
  }

  // The big-endian 16-bit field at offset i.
  function U16(s: Bytes, i: nat): (n: nat)
    requires i + 2 <= |s|
    ensures n < 0x1_0000
  {
    s[i] as int * 256 + s[i + 1] as int
  }

  function U32(s: Bytes, i: nat): (n: nat)
    requires i + 4 <= |s|
    ensures n < 0x1_0000_0000
  {
    U16(s, i) * 0x1_0000 + U16(s, i + 2)
  }

  lemma {:induction false} AndPow2(a: nat, k: nat)
    requires a < 2 * Pow2(k)
    ensures And(a, Pow2(k)) != 0 <==> a >= Pow2(k)
  {
    if k > 0 && a > 0 {
      AndPow2(a / 2, k - 1);
      AndDouble(a, Pow2(k - 1));
    }
  }

  lemma AndDouble(a: nat, k: nat)
    requires k > 0
    ensures And(a, 2 * k) == 2 * And(a / 2, k)
  {
    var b := 2 * k;
    assert b % 2 == 0 && b / 2 == k;
    if a > 0 {
      assert And(a, b) == 2 * And(a / 2, b / 2);
    }
  }

  // Testing the top bit of a byte.
  lemma HighBit(b: byte)
    ensures And(b, 0x80) != 0 <==> b >= 128
  {
    Pow2Byte();
    AndPow2(b, 7);
  }

  // Setting the top bit of a number that fits below it.
  lemma {:induction false} OrTopBit(i: nat, k: nat)
    requires i < Pow2(k)
    ensures Or(Pow2(k), i) == Pow2(k) + i
  {
    DivModUnique(Pow2(k), Pow2(k), 1, 0);
    OrDisjoint(Pow2(k), i, k);
  }

  function Be64(n: int): (r: Bytes)
    requires 0 <= n < 0x1_0000_0000_0000_0000
    ensures |r| == 8 && U64(r) == n
  {
    Be32(n / 0x1_0000_0000) + Be32(n % 0x1_0000_0000)
  }

  function U64(s: Bytes): nat
    requires |s| == 8
  {
    U32(s, 0) * 0x1_0000_0000 + U32(s, 4)
  }

  // The wrap-around of a wide register does not reach its low bits.
  lemma WrapAround(x: nat, m: nat, n: nat)
    requires m > 0 && n > 0
    ensures (x % (m * n)) % m == x % m
  {
    var q, r := x / (m * n), x % (m * n);
    var a, b := r / m, r % m;
    assert x == m * (n * q + a) + b by {
      assert x == m * n * q + r;
      assert r == m * a + b;
      assert m * (n * q + a) == m * n * q + m * a;
    }
    DivModUnique(x, m, n * q + a, b);
  }

  lemma ModNext(a: nat, m: nat)
    requires m > 1
    ensures (a + 1) % m == if a % m + 1 == m then 0 else a % m + 1
  {
    var q, r := a / m, a % m;
    assert a == m * q + r;
    if r + 1 == m {
      assert m * (q + 1) == m * q + m;
      DivModUnique(a + 1, m, q + 1, 0);
    } else {
      DivModUnique(a + 1, m, q, r + 1);
    }
  }

  // The bit of weight 2^i.
  predicate Bit(n: nat, i: nat) {
    if i == 0 then n % 2 == 1 else Bit(n / 2, i - 1)
  }

  lemma {:induction false} BitOfZero(i: nat)
    ensures !Bit(0, i)
  {
    if i > 0 {
      BitOfZero(i - 1);
    }
  }

  lemma {:induction false} AndBits(a: nat, b: nat, i: nat)
    ensures Bit(And(a, b), i) <==> Bit(a, i) && Bit(b, i)
  {
    if a == 0 || b == 0 {
      BitOfZero(i);
    } else if i > 0 {
      AndBits(a / 2, b / 2, i - 1);
    }
  }

  lemma {:induction false} OrBits(a: nat, b: nat, i: nat)
    ensures Bit(Or(a, b), i) <==> Bit(a, i) || Bit(b, i)
  {
    if a == 0 || b == 0 {
      BitOfZero(i);
    } else if i > 0 {
      OrBits(a / 2, b / 2, i - 1);
    }
  }

  lemma {:induction false} XorBitsAt(a: nat, b: nat, k: nat, i: nat)
    requires i < k
    ensures Bit(XorBits(a, b, k), i) <==> Bit(a, i) != Bit(b, i)
  {
    if i > 0 {
      XorBitsAt(a / 2, b / 2, k - 1, i - 1);
    }
  }

  // Exclusive or of two bytes, bit by bit.
  lemma XorLaw(a: byte, b: byte, i: nat)
    requires i < 8
    ensures Bit(Xor(a, b), i) <==> Bit(a, i) != Bit(b, i)
  {
    XorBitsAt(a, b, 8, i);
  }
}
