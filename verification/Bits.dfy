/** Machine integers as plain numbers: bytes, 32-bit wrap-around and the bitwise AND. */
module Bits {
  type byte = x: int | 0 <= x < 0x100

  // One more than the largest UINT32.
  const U32 := 0x1_0000_0000

  /** The value an unsigned 32-bit register holds after an operation whose exact result is `x`. */
  function Wrap32(x: int): (r: nat)
    ensures r < U32
    ensures 0 <= x < U32 ==> r == x
    ensures -U32 <= x < 0 ==> r == x + U32
    ensures U32 <= x < 2 * U32 ==> r == x - U32
  {
    x % U32
  }

  lemma WrapStep(x: nat)
    ensures Wrap32(Wrap32(x) + 1) == Wrap32(x + 1)
  {
  }

  function Pow2(k: nat): (r: nat)
    ensures r >= 1
  {
    if k == 0 then 1 else 2 * Pow2(k - 1)
  }

  /** Bitwise AND, least significant bit first. */
  function And(a: nat, b: nat): (r: nat)
    ensures r <= a && r <= b
  {
    if a == 0 || b == 0 then 0
    else 2 * And(a / 2, b / 2) + if a % 2 == 1 && b % 2 == 1 then 1 else 0
  }

  lemma {:induction false} AndCommutes(a: nat, b: nat)
    ensures And(a, b) == And(b, a)
  {
    if a != 0 && b != 0 {
      AndCommutes(a / 2, b / 2);
    }
  }

  lemma {:induction false} AndSelf(a: nat)
    ensures And(a, a) == a
  {
    if a != 0 {
      AndSelf(a / 2);
    }
  }

  predicate Bit(a: nat, k: nat) {
    if k == 0 then a % 2 == 1 else Bit(a / 2, k - 1)
  }

  /** A bit of the AND is set when it is in both. */
  lemma {:induction false} AndBit(a: nat, b: nat, k: nat)
    ensures Bit(And(a, b), k) <==> Bit(a, k) && Bit(b, k)
  {
    if a == 0 || b == 0 {
      NoBit(k);
    } else if k != 0 {
      AndBit(a / 2, b / 2, k - 1);
    }
  }

  lemma {:induction false} NoBit(k: nat)
    ensures !Bit(0, k)
  {
    if k != 0 {
      NoBit(k - 1);
    }
  }

  /** Masking with 2^k - 1 is the remainder modulo 2^k: why the queues may use a mask for an index. */
  lemma {:induction false} AndMask(x: nat, k: nat)
    ensures And(x, Pow2(k) - 1) == x % Pow2(k)
  {
    hide And, Pow2;
    if k == 0 {
      AndNothing(x);
    } else {
      AndMask(x / 2, k - 1);
      Doubles(k);
      MaskDoubled(x, Pow2(k - 1));
    }
  }

  lemma MaskDoubled(x: nat, m: nat)
    requires m >= 1 && And(x / 2, m - 1) == x / 2 % m
    ensures And(x, 2 * m - 1) == x % (2 * m)
  {
    hide And;
    AndOdd(x, m - 1);
    HalfMod(x, m);
  }

  lemma AndNothing(x: nat)
    ensures And(x, 0) == 0 && Pow2(0) == 1
  {
  }

  lemma Doubles(k: nat)
    requires k > 0
    ensures Pow2(k) == 2 * Pow2(k - 1)
  {
  }

  // An odd mask keeps the last bit.
  lemma AndOdd(x: nat, y: nat)
    ensures And(x, 2 * y + 1) == 2 * And(x / 2, y) + x % 2
  {
    assert (2 * y + 1) / 2 == y;
  }

  lemma HalfMod(x: nat, m: nat)
    requires m >= 1
    ensures x % (2 * m) == 2 * ((x / 2) % m) + x % 2
  {
    var q := x / 2 / m;
    var r := x / 2 % m;
    assert x / 2 == m * q + r;
    assert x == 2 * m * q + (2 * r + x % 2);
    ModUnique(x, 2 * m, q, 2 * r + x % 2);
  }

  /** Division with remainder has one answer. */
  lemma ModUnique(x: int, n: nat, q: int, r: nat)
    requires n > 0 && r < n && x == n * q + r
    ensures x % n == r && x / n == q
  {
    var q' := x / n;
    assert n * q - n * q' == n * (q - q');
    MulGrows(n, q - q');
  }

  lemma MulGrows(n: nat, d: int)
    ensures d >= 1 ==> n * d >= n
    ensures d <= -1 ==> n * d <= 0 - n
  {
    if d >= 1 {
      assert n * d == n + n * (d - 1);
    } else if d <= -1 {
      assert n * d == 0 - n + n * (d + 1);
    }
  }

  lemma AndByte(a: byte, mask: byte)
    requires mask == 0xFF
    ensures And(a, mask) == a && And(mask, a) == a && And(a, a) == a
  {
    var k := 8;
    Pow2Eight(k);
    AndMask(a, k);
    AndCommutes(a, mask);
    AndSelf(a);
  }

  lemma Pow2Eight(k: nat)
    requires k == 8
    ensures Pow2(k) == 256
  {
    assert Pow2(k - 7) == 2 && Pow2(k - 6) == 4 && Pow2(k - 5) == 8;
    assert Pow2(k - 4) == 16 && Pow2(k - 3) == 32 && Pow2(k - 2) == 64;
  }
}
