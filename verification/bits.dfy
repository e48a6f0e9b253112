/** Ruby's integer bit operators, restricted to the non-negative Integers the
    message parser applies them to: `<<`, `>>`, `|` and `&`.  `|` and `&` are
    defined bit by bit, so that the arithmetic reading the parser relies on
    (`(hi << k) | lo == hi * 2^k + lo` when `lo` fits in `k` bits, and
    `b & 0xf == b % 16`) is a proved fact rather than an assumption. */
module Bits {

  function Pow2(k: nat): (r: nat)
    ensures r >= 1
  {
    if k == 0 then 1 else 2 * Pow2(k - 1)
  }

  /** Ruby `a << k` on a non-negative Integer (no width, no wrap-around),
      one bit at a time. */
  function ShiftLeft(a: nat, k: nat): (r: nat)
    ensures r == a * Pow2(k)
    decreases k
  {
    if k == 0 then a
    else
      var r := ShiftLeft(2 * a, k - 1);
      assert r == a * (2 * Pow2(k - 1));
      r
  }

  /** Ruby `a >> k` on a non-negative Integer, one bit at a time. */
  function ShiftRight(a: nat, k: nat): (r: nat)
    ensures r == a / Pow2(k)
    decreases k
  {
    if k == 0 then a
    else
      DivModDoubling(a, Pow2(k - 1));
      ShiftRight(a / 2, k - 1)
  }

  /** Ruby `a | b`, least significant bit first: at least each operand and
      at most their sum. */
  function Or(a: nat, b: nat): (r: nat)
    ensures a <= r && b <= r && r <= a + b
    decreases a + b
  {
    if a == 0 then b
    else if b == 0 then a
    else 2 * Or(a / 2, b / 2) + (if a % 2 == 1 || b % 2 == 1 then 1 else 0)
  }

  /** Ruby `a & b`, least significant bit first: at most each operand. */
  function And(a: nat, b: nat): (r: nat)
    ensures r <= a && r <= b
    decreases a + b
  {
    if a == 0 || b == 0 then 0
    else 2 * And(a / 2, b / 2) + (if a % 2 == 1 && b % 2 == 1 then 1 else 0)
  }

  lemma Pow2Add(a: nat, b: nat)
    ensures Pow2(a + b) == Pow2(a) * Pow2(b)
  {
    if a > 0 {
      Pow2Add(a - 1, b);
    }
  }

  /** Shifting `hi` left by `k` leaves `k` zero bits, so or-ing in a value
      that fits in `k` bits is plain addition. */
  lemma {:induction false} OrShiftedLow(hi: nat, lo: nat, k: nat)
    requires lo < Pow2(k)
    ensures Or(ShiftLeft(hi, k), lo) == hi * Pow2(k) + lo
  {
    var x := hi * Pow2(k);
    if k == 0 {
      assert lo == 0;
    } else if hi == 0 || lo == 0 {
      assert x == 0 || lo == 0;
    } else {
      var p := Pow2(k - 1);
      assert x == 2 * (hi * p);
      assert x / 2 == hi * p && x % 2 == 0;
      assert lo / 2 < p;
      OrShiftedLow(hi, lo / 2, k - 1);
      assert Or(x, lo) == 2 * (hi * p + lo / 2) + lo % 2;
    }
  }

  lemma MulAtLeast(d: nat, z: nat)
    requires z >= 1
    ensures d * z >= d
  {
    if z > 1 {
      MulAtLeast(d, z - 1);
      assert d * z == d * (z - 1) + d;
    }
  }

  lemma MulGap(d: nat, x: nat, y: nat)
    requires x < y
    ensures d * y >= d * x + d
  {
    var z := y - x;
    assert d * y == d * x + d * z;
    MulAtLeast(d, z);
  }

  /** Quotient and remainder are the unique `s`, `r` with `a == d * s + r`
      and `0 <= r < d`. */
  lemma DivModUnique(a: nat, d: nat, s: nat, r: nat)
    requires d >= 1 && r < d && a == d * s + r
    ensures a / d == s && a % d == r
  {
    var s', r' := a / d, a % d;
    assert a == d * s' + r';
    if s' < s {
      MulGap(d, s', s);
    } else if s < s' {
      MulGap(d, s, s');
    }
  }

  lemma DivModDoubling(a: nat, p: nat)
    requires p >= 1
    ensures a / (2 * p) == (a / 2) / p
    ensures a % (2 * p) == 2 * ((a / 2) % p) + a % 2
  {
    var q := a / 2;
    var t := q % p;
    var s := q / p;
    assert a == 2 * q + a % 2;
    assert q == p * s + t;
    assert a == (2 * p) * s + (2 * t + a % 2);
    DivModUnique(a, 2 * p, s, 2 * t + a % 2);
  }

  /** Masking with `2^k - 1` keeps the low `k` bits. */
  lemma {:induction false} AndLowMask(a: nat, k: nat)
    ensures And(a, Pow2(k) - 1) == a % Pow2(k)
  {
    if k == 0 {
    } else if a == 0 {
    } else {
      var p := Pow2(k - 1);
      var m := Pow2(k) - 1;
      assert m == 2 * (p - 1) + 1;
      assert m / 2 == p - 1 && m % 2 == 1;
      AndLowMask(a / 2, k - 1);
      DivModDoubling(a, p);
      assert And(a, m) == 2 * And(a / 2, p - 1) + a % 2;
    }
  }

  /** The powers of two the parser's nibble split and 16-bit fields use. */
  lemma Pow2Small()
    ensures Pow2(4) == 0x10 && Pow2(8) == 0x100 && Pow2(16) == 0x1_0000
  {
    assert Pow2(4) == 0x10;
    assert Pow2(8) == 0x100;
    Pow2Add(8, 8);
  }

  lemma Pow2Of32()
    ensures Pow2(32) == 0x1_0000_0000
  {
    Pow2Small();
    Pow2Add(16, 16);
  }

  lemma Pow2Of64()
    ensures Pow2(64) == 0x1_0000_0000_0000_0000
  {
    Pow2Of32();
    Pow2Add(32, 32);
  }

  /** `a >> 4` and `a & 0xf` are the quotient and remainder by 16. */
  lemma NibbleSplit(a: nat)
    ensures ShiftRight(a, 4) == a / 16 && And(a, 0xf) == a % 16
  {
    Pow2Small();
    AndLowMask(a, 4);
  }
}
