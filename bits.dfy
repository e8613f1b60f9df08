/** Bitwise AND and OR on naturals, bit by bit, and the facts that turn the
    masks and shifts of the decoder into arithmetic. */
module BitArithmetic {

  /** `a & b` on naturals, bit by bit. */
  function BitAnd(a: nat, b: nat): nat
  {
    if a == 0 || b == 0 then 0
    else 2 * BitAnd(a / 2, b / 2) + (if a % 2 == 1 && b % 2 == 1 then 1 else 0)
  }

  /** Masking with 2^k - 1 for k from one to seven keeps the low k bits. */
  lemma {:induction false} LowBitsMask(x: nat)
    ensures BitAnd(x, 1) == x % 2
    ensures BitAnd(x, 3) == x % 4
    ensures BitAnd(x, 7) == x % 8
    ensures BitAnd(x, 15) == x % 16
    ensures BitAnd(x, 31) == x % 32
    ensures BitAnd(x, 63) == x % 64
    ensures BitAnd(x, 127) == x % 128
  {
    if x > 0 {
      var h := x / 2;
      LowBitsMask(h);
      assert BitAnd(x, 1) == 2 * BitAnd(h, 0) + x % 2;
      assert BitAnd(x, 3) == 2 * BitAnd(h, 1) + x % 2;
      assert BitAnd(x, 7) == 2 * BitAnd(h, 3) + x % 2;
      assert BitAnd(x, 15) == 2 * BitAnd(h, 7) + x % 2;
      assert BitAnd(x, 31) == 2 * BitAnd(h, 15) + x % 2;
      assert BitAnd(x, 63) == 2 * BitAnd(h, 31) + x % 2;
      assert BitAnd(x, 127) == 2 * BitAnd(h, 63) + x % 2;
      HalveModulus(x, 2);
      HalveModulus(x, 4);
      HalveModulus(x, 8);
      HalveModulus(x, 16);
      HalveModulus(x, 32);
      HalveModulus(x, 64);
    }
  }

  /** The remainder by `2p` is twice the remainder of the half by `p`, plus
      the low bit. */
  lemma HalveModulus(x: nat, p: nat)
    requires p > 0
    ensures x % (2 * p) == 2 * ((x / 2) % p) + x % 2
  {
    var k := (x / 2) / p;
    var m := (x / 2) % p;
    assert x / 2 == k * p + m;
    assert x == 2 * (x / 2) + x % 2;
    assert x == k * (2 * p) + (2 * m + x % 2);
    DivModUnique(x, 2 * p, k, 2 * m + x % 2);
  }

  /** A quotient and remainder that rebuild `x` are the Euclidean ones. */
  lemma DivModUnique(x: int, d: int, a: int, r: int)
    requires d > 0 && 0 <= r < d && x == a * d + r
    ensures x / d == a && x % d == r
  {
    var t := a - x / d;
    assert x == (x / d) * d + x % d;
    assert t * d == a * d - (x / d) * d;
    assert t * d == x % d - r;
    if t >= 1 {
      MulAtLeast(t, d);
    }
  }

  lemma MulAtLeast(t: int, d: int)
    requires t >= 1 && d > 0
    ensures t * d >= d
  {
    assert t * d == (t - 1) * d + d;
  }

  /** `a | b` on naturals, bit by bit. */
  function BitOr(a: nat, b: nat): nat
    decreases a + b
  {
    if a == 0 then b
    else if b == 0 then a
    else 2 * BitOr(a / 2, b / 2) + (if a % 2 == 1 || b % 2 == 1 then 1 else 0)
  }
  lemma BitOrDouble(x: nat, y: nat, c: nat)
    requires c < 2
    ensures BitOr(2 * x, 2 * y + c) == 2 * BitOr(x, y) + c
  {
    if x != 0 && 2 * y + c != 0 {
      assert (2 * x) / 2 == x && (2 * y + c) / 2 == y;
    }
  }
  lemma BitOrLowBit(m: nat, h: nat)
    requires h < 2
    ensures BitOr(m, h) == if h == 1 then m + 1 - m % 2 else m
  {
    if m != 0 && h != 0 {
      assert BitOr(m / 2, 0) == m / 2;
    }
  }
  lemma BitOrShift2(x: nat, l: nat)
    ensures BitOr(x * 4, l) == 4 * BitOr(x, l / 4) + l % 4
  {
    var l1 := l / 2;
    assert BitOr(x * 4, l) == 2 * BitOr(x * 2, l1) + l % 2 by {
      assert x * 4 == 2 * (x * 2) && l == 2 * l1 + l % 2;
      BitOrDouble(x * 2, l1, l % 2);
    }
    assert BitOr(x * 2, l1) == 2 * BitOr(x, l1 / 2) + l1 % 2 by {
      assert l1 == 2 * (l1 / 2) + l1 % 2;
      BitOrDouble(x, l1 / 2, l1 % 2);
    }
  }

  lemma LowSevenBits(l: nat)
    ensures l / 16 == (l / 4) / 4 && l / 64 == (l / 16) / 4 && l / 128 == (l / 64) / 2
    ensures l % 4 + 4 * ((l / 4) % 4) + 16 * ((l / 16) % 4) + 64 * ((l / 64) % 2) == l % 128
  {
  }

  lemma BitOrShift7(m: nat, l: nat)
    ensures BitOr(m * 128, l) == 128 * BitOr(m, l / 128) + l % 128
  {
    LowSevenBits(l);
    assert m * 128 == (m * 32) * 4 && m * 32 == (m * 8) * 4 && m * 8 == (m * 2) * 4;
    BitOrShift2(m * 32, l);
    BitOrShift2(m * 8, l / 4);
    BitOrShift2(m * 2, l / 16);
    BitOrDouble(m, l / 128, (l / 64) % 2);
  }
}
