/**
 Bit operations on natural numbers. The source computes addresses and masks with Go's
 `&`, `|`, `<<` and `>>` on unsigned integers; here `&` and `|` are defined bit by bit and a
 shift by k places is a multiplication or a division by `Pow2(k)`.
 */
module Bits {

  function Pow2(k: nat): (r: nat)
    ensures r > 0
  {
    if k == 0 then 1 else 2 * Pow2(k - 1)
  }

  /** x << k, without a width. */
  function Shl(x: nat, k: nat): nat {
    if k == 0 then x else 2 * Shl(x, k - 1)
  }

  /** x >> k. */
  function Shr(x: nat, k: nat): nat {
    DivNonnegative(x, Pow2(k));
    x / Pow2(k)
  }

  lemma DivNonnegative(x: nat, n: nat)
    requires n > 0
    ensures x / n >= 0
  {
  }

  function And(x: nat, y: nat): nat {
    if x == 0 || y == 0 then 0
    else 2 * And(x / 2, y / 2) + (if x % 2 == 1 && y % 2 == 1 then 1 else 0)
  }

  function Or(x: nat, y: nat): nat
    decreases x
  {
    if x == 0 then y
    else 2 * Or(x / 2, y / 2) + (if x % 2 == 1 || y % 2 == 1 then 1 else 0)
  }

  /** One step of `&` against an odd mask. */
  lemma AndOdd(x: nat, p: nat)
    requires p > 0
    ensures And(x, 2 * p - 1) == 2 * And(x / 2, p - 1) + x % 2
  {
    assert (2 * p - 1) / 2 == p - 1 && (2 * p - 1) % 2 == 1;
  }

  /** One step of `&` against an even mask. */
  lemma AndEven(x: nat, m: nat)
    ensures And(x, 2 * m) == 2 * And(x / 2, m)
  {
    assert (2 * m) / 2 == m && (2 * m) % 2 == 0;
  }

  /** Masking with k low ones keeps the remainder modulo 2^k. */
  lemma {:induction false} AndLowOnes(x: nat, k: nat)
    ensures And(x, Pow2(k) - 1) == x % Pow2(k)
  {
    if k > 0 {
      var p := Pow2(k - 1);
      assert Pow2(k) == 2 * p;
      AndLowOnes(x / 2, k - 1);
      AndOdd(x, p);
      ModDouble(x, p);
    }
  }

  lemma Pow2Values()
    ensures Pow2(0) == 1 && Pow2(8) == 0x100 && Pow2(16) == 0x1_0000
    ensures Pow2(24) == 0x100_0000 && Pow2(32) == 0x1_0000_0000
  {
  }

  lemma AndLowByte(x: nat)
    ensures And(x, 0xFF) == x % 0x100
  {
    AndLowOnes(x, 8);
    Pow2Values();
  }

  /** The remainder by 2p is assembled from the remainder of the half and the lowest bit. */
  lemma ModDouble(x: nat, p: nat)
    requires p > 0
    ensures x % (2 * p) == 2 * ((x / 2) % p) + x % 2
  {
    var q, r := (x / 2) / p, (x / 2) % p;
    assert x == (2 * p) * q + (2 * r + x % 2) by {
      assert x / 2 == p * q + r;
      assert x == 2 * (x / 2) + x % 2;
      assert 2 * (p * q) == (2 * p) * q;
    }
    ModUnique(x, 2 * p, q, 2 * r + x % 2);
  }

  lemma ModUnique(x: nat, n: nat, q: nat, r: nat)
    requires n > 0 && r < n && x == n * q + r
    ensures x % n == r && x / n == q
  {
    var q', r' := x / n, x % n;
    var d := q - q';
    assert n * d == r' - r by {
      assert n * q + r == n * q' + r';
      assert n * (q - q') == n * q - n * q';
    }
    if d > 0 {
      MulGrows(n, d);
    } else if d < 0 {
      MulGrows(n, -d);
    }
  }

  lemma MulGrows(n: int, d: int)
    requires n > 0 && d > 0
    ensures n * d >= n
  {
    assert n * d == n * (d - 1) + n;
  }

  /** Masking a w-bit number with all but its j lowest ones rounds down to a multiple of 2^j. */
  lemma {:induction false} AndHighOnes(x: nat, w: nat, j: nat)
    requires j <= w && x < Pow2(w)
    ensures Pow2(w) >= Pow2(j)
    ensures And(x, Pow2(w) - Pow2(j)) == x - x % Pow2(j)
  {
    if j == 0 {
      AndLowOnes(x, w);
      SmallMod(x, Pow2(w));
    } else {
      AndHighOnes(x / 2, w - 1, j - 1);
      AndEven(x, Pow2(w - 1) - Pow2(j - 1));
      ModDouble(x, Pow2(j - 1));
    }
  }

  lemma SmallMod(x: nat, n: nat)
    requires x < n
    ensures x % n == x
  {
  }

  /** Disjoint bit fields: `|` of a field shifted up by k places and a k-bit number is their sum. */
  lemma {:induction false} OrDisjoint(hi: nat, lo: nat, k: nat)
    requires lo < Pow2(k)
    ensures Or(Shl(hi, k), lo) == Shl(hi, k) + lo
  {
    if k == 0 {
      OrZero(hi);
    } else {
      OrDisjoint(hi, lo / 2, k - 1);
      OrEven(Shl(hi, k - 1), lo);
    }
  }

  lemma OrEven(h: nat, y: nat)
    ensures Or(2 * h, y) == 2 * Or(h, y / 2) + y % 2
  {
    assert (2 * h) / 2 == h && (2 * h) % 2 == 0;
  }

  lemma {:induction false} OrZero(x: nat)
    ensures Or(x, 0) == x
  {
    if x != 0 {
      OrZero(x / 2);
    }
  }

  /** A common shift moves out of `&`. */
  lemma {:induction false} AndShift(x: nat, y: nat, k: nat)
    ensures And(Shl(x, k), Shl(y, k)) == Shl(And(x, y), k)
  {
    if k > 0 {
      AndShift(x, y, k - 1);
      AndEven(Shl(x, k), Shl(y, k - 1));
    }
  }

  lemma ShlValues(x: nat)
    ensures Shl(x, 0) == x && Shl(x, 8) == x * 0x100
    ensures Shl(x, 16) == x * 0x1_0000 && Shl(x, 24) == x * 0x100_0000 && Shl(x, 32) == x * 0x1_0000_0000
  {
    ShlByte(x, 0);
    ShlByte(x, 8);
    ShlByte(x, 16);
    ShlByte(x, 24);
  }

  lemma ShlByte(x: nat, k: nat)
    ensures Shl(x, k + 8) == 0x100 * Shl(x, k)
  {
    assert Shl(x, k + 2) == 4 * Shl(x, k);
    assert Shl(x, k + 4) == 4 * Shl(x, k + 2);
    assert Shl(x, k + 6) == 4 * Shl(x, k + 4);
    assert Shl(x, k + 8) == 4 * Shl(x, k + 6);
  }
}
