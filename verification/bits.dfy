/** Integer models of the C bit operations the drivers use on non-negative
    values: `&` against a low mask and the byte type. */
module Bits {

  /** An `unsigned char`. */
  type Byte = b: int | 0 <= b < 0x100

  function Pow2(n: nat): (r: nat)
    ensures r >= 1
  {
    if n == 0 then 1 else 2 * Pow2(n - 1)
  }

  /** C's bitwise `&` on two non-negative integers, one bit at a time from
      the least significant end. */
  function And(a: nat, b: nat): (r: nat)
    ensures r <= a && r <= b
    decreases a
  {
    if a == 0 || b == 0 then 0
    else 2 * And(a / 2, b / 2) + (if a % 2 == 1 && b % 2 == 1 then 1 else 0)
  }

  /** Division with remainder is unique: any decomposition of `x` into
      `d * q + r` with `0 <= r < d` is the one `/` and `%` compute. */
  lemma ModUnique(x: int, d: int, q: int, r: int)
    requires d > 0
    requires x == d * q + r
    requires 0 <= r < d
    ensures x / d == q && x % d == r
  {
    var q0, r0 := x / d, x % d;
    assert d * q0 + r0 == d * q + r;
    if q0 > q {
      assert d * (q0 - q) == r - r0;
      MulPositive(d, q0 - q);
      assert false;
    } else if q0 < q {
      assert d * (q - q0) == r0 - r;
      MulPositive(d, q - q0);
      assert false;
    }
  }

  /** A positive multiple of `d` is at least `d`. */
  lemma MulPositive(d: int, m: int)
    requires d > 0 && m >= 1
    ensures d * m >= d
  {
  }

  /** The low `s` bits of `x`, collected one at a time from the least
      significant end. */
  function LowBits(x: nat, s: nat): nat
  {
    if s == 0 then 0 else 2 * LowBits(x / 2, s - 1) + x % 2
  }

  /** Masking with `2^s - 1` collects the low `s` bits. */
  lemma {:induction false} AndLowMask(x: nat, s: nat)
    ensures And(x, Pow2(s) - 1) == LowBits(x, s)
  {
    if s > 0 {
      var m := Pow2(s - 1) - 1;
      var b := Pow2(s) - 1;
      assert b == 2 * m + 1;
      assert b % 2 == 1 && b / 2 == m;
      AndLowMask(x / 2, s - 1);
      assert And(x / 2, m) == LowBits(x / 2, s - 1);
      if x == 0 {
        assert LowBits(x, s) == 2 * LowBits(x / 2, s - 1);
      } else {
        assert And(x, b) == 2 * And(x / 2, m) + x % 2;
      }
    }
  }

  /** The low `s` bits are what remains of `x` after whole multiples of
      `2^s`. */
  lemma {:induction false} LowBitsSplit(x: nat, s: nat) returns (q: int)
    ensures x == Pow2(s) * q + LowBits(x, s) && LowBits(x, s) < Pow2(s)
  {
    if s == 0 {
      q := x;
    } else {
      q := LowBitsSplit(x / 2, s - 1);
      var p := Pow2(s - 1);
      assert x / 2 == p * q + LowBits(x / 2, s - 1);
      assert Pow2(s) * q == 2 * (p * q);
    }
  }

  /** Masking with `2^s - 1` keeps the low `s` bits: it is the remainder
      modulo `2^s`. This is what makes `(h + 1) & (N - 1)` a wrap-around
      for a power-of-two `N`. */
  lemma MaskIsMod(x: nat, s: nat)
    ensures And(x, Pow2(s) - 1) == x % Pow2(s)
  {
    AndLowMask(x, s);
    var q := LowBitsSplit(x, s);
    ModUnique(x, Pow2(s), q, LowBits(x, s));
  }

  /** Stepping a reduced index by one and reducing again is the same as
      reducing the stepped index. */
  lemma ModSucc(a: int, n: int)
    requires n > 0
    ensures (a % n + 1) % n == (a + 1) % n
  {
    var q := a / n;
    assert a == n * q + a % n;
    if a % n + 1 == n {
      assert a + 1 == n * (q + 1) + 0;
      ModUnique(a + 1, n, q + 1, 0);
      ModUnique(n, n, 1, 0);
    } else {
      ModUnique(a + 1, n, q, a % n + 1);
      ModUnique(a % n + 1, n, 0, a % n + 1);
    }
  }

  /** The slot reached `i` steps after `h` lies `i mod n` steps after it. */
  lemma SlotOffset(h: int, i: int, n: int)
    requires n > 0
    ensures ((h + i) % n - h) % n == i % n
  {
    var a := (h + i) / n;
    assert h + i == n * a + (h + i) % n;
    var iq := i / n;
    assert i == n * iq + i % n;
    assert (h + i) % n - h == n * (iq - a) + i % n;
    ModUnique((h + i) % n - h, n, iq - a, i % n);
  }

  /** Fewer than `n` steps apart never land on the same slot. */
  lemma SlotsDistinct(h: int, k: int, i: int, n: int)
    requires n > 0 && 0 < i - k < n
    ensures (h + k) % n != (h + i) % n
  {
    var a := (h + i) / n;
    var b := (h + k) / n;
    assert h + i == n * a + (h + i) % n;
    assert h + k == n * b + (h + k) % n;
    if (h + k) % n == (h + i) % n {
      assert i - k == n * (a - b) + 0;
      ModUnique(i - k, n, a - b, 0);
      ModUnique(i - k, n, 0, i - k);
      assert false;
    }
  }

  /** Every slot `j` of a ring of `n` slots is reached from `h` by exactly
      one step count in any window of `n` consecutive counts. */
  lemma SlotReached(h: int, j: int, n: int, lo: int) returns (i: int)
    requires n > 0 && 0 <= j < n
    ensures lo <= i < lo + n && (h + i) % n == j
  {
    var b := j - h - lo;
    var q := b / n;
    assert b == n * q + b % n;
    i := lo + b % n;
    assert h + i == n * (-q) + j;
    ModUnique(h + i, n, -q, j);
  }

  /** Reducing before adding does not change the reduced sum. */
  lemma ModAddMod(c: int, p: int, n: int)
    requires n > 0
    ensures (c % n + p) % n == (c + p) % n
  {
    var q := c / n;
    assert c == n * q + c % n;
    var t := (c % n + p) / n;
    var u := (c % n + p) % n;
    assert c % n + p == n * t + u;
    assert c + p == n * (q + t) + u;
    ModUnique(c + p, n, q + t, u);
  }
}
