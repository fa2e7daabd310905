/** Bitwise operators and powers of two on natural numbers of any width. */
module Bits {
  function Pow2(n: nat): (p: nat)
    ensures p > 0
  {
    if n == 0 then 1 else 2 * Pow2(n - 1)
  }

  /** Bit i of a word, the lowest being bit 0. */
  predicate HasBit(x: nat, i: nat) {
    if i == 0 then x % 2 == 1 else HasBit(x / 2, i - 1)
  }

  lemma BitsOfNibble(x: nat, i: nat)
    ensures HasBit(x, i)
         == if i == 0 then x % 2 == 1
            else if i == 1 then x / 2 % 2 == 1
            else if i == 2 then x / 4 % 2 == 1
            else if i == 3 then x / 8 % 2 == 1
            else HasBit(x / 0x10, i - 4)
  {
    var x1 := x / 2;
    var x2 := x1 / 2;
    var x3 := x2 / 2;
    var x4 := x3 / 2;
    assert x2 == x / 4 && x3 == x / 8 && x4 == x / 0x10;
    if i > 0 {
      assert HasBit(x, i) == HasBit(x1, i - 1);
      if i > 1 {
        assert HasBit(x1, i - 1) == HasBit(x2, i - 2);
        if i > 2 {
          assert HasBit(x2, i - 2) == HasBit(x3, i - 3);
          assert i > 3 ==> HasBit(x3, i - 3) == HasBit(x4, i - 4);
        }
      }
    }
  }
  lemma {:induction false} NoBits(i: nat)
    ensures !HasBit(0, i)
  {
    if i > 0 {
      NoBits(i - 1);
    }
  }

  function And(x: nat, y: nat): nat
    decreases x
  {
    if x == 0 then 0 else (if x % 2 == 1 && y % 2 == 1 then 1 else 0) + 2 * And(x / 2, y / 2)
  }

  function Or(x: nat, y: nat): nat
    decreases x + y
  {
    if x == 0 && y == 0 then 0
    else (if x % 2 == 1 || y % 2 == 1 then 1 else 0) + 2 * Or(x / 2, y / 2)
  }

  function Xor(x: nat, y: nat): nat
    decreases x + y
  {
    if x == 0 && y == 0 then 0
    else (if x % 2 != y % 2 then 1 else 0) + 2 * Xor(x / 2, y / 2)
  }

  lemma {:induction false} XorZero(x: nat, y: nat)
    ensures Xor(x, y) == 0 <==> x == y
    decreases x + y
  {
    if x + y > 0 {
      XorZero(x / 2, y / 2);
    }
  }

  lemma {:induction false} OrZero(x: nat, y: nat)
    ensures Or(x, y) == 0 <==> x == 0 && y == 0
    decreases x + y
  {
    if x + y > 0 {
      OrZero(x / 2, y / 2);
    }
  }

  /** Masking never sets a bit that the mask lacks. */
  lemma {:induction false} AndBound(x: nat, y: nat)
    ensures And(x, y) <= x && And(x, y) <= y
    decreases x
  {
    if x > 0 {
      AndBound(x / 2, y / 2);
    }
  }

  lemma AndOddMask(x: nat, m: nat)
    requires m > 0
    ensures And(x, 2 * m - 1) == x % 2 + 2 * And(x / 2, m - 1)
  {
    var mask := 2 * m - 1;
    assert mask % 2 == 1 && mask / 2 == m - 1;
  }

  /** Masking with 2^n - 1 is reduction modulo 2^n. */
  lemma {:induction false} AndLowMask(x: nat, n: nat)
    ensures And(x, Pow2(n) - 1) == x % Pow2(n)
  {
    if n == 0 {
      AndBound(x, 0);
    } else {
      var m := Pow2(n - 1);
      AndLowMask(x / 2, n - 1);
      AndOddMask(x, m);
      HalveMod(x, m);
    }
  }

  lemma HalveMod(x: nat, m: nat)
    requires m > 0
    ensures x % (2 * m) == x % 2 + 2 * ((x / 2) % m)
  {
    var q, r := (x / 2) / m, (x / 2) % m;
    assert x == q * (2 * m) + (x % 2 + 2 * r) by {
      assert x == 2 * (x / 2) + x % 2;
      assert x / 2 == q * m + r;
      assert 2 * (q * m) == q * (2 * m);
    }
    DivideExactly(x, 2 * m, q, x % 2 + 2 * r);
  }

  lemma AtLeastOnce(k: nat, d: nat)
    requires k >= 1
    ensures k * d >= d
  {
    assert (k - 1) * d >= 0;
  }

  lemma MulAssociates(a: int, b: int, c: int)
    ensures (a * b) * c == a * (b * c)
  {
  }

  lemma MulDistributes(a: int, b: int, c: int)
    ensures (a + b) * c == a * c + b * c
    ensures (a - b) * c == a * c - b * c
  {
  }

  lemma MulMonotone(a: int, b: int, c: nat)
    requires a <= b
    ensures a * c <= b * c
  {
    MulDistributes(b, a, c);
    assert (b - a) * c >= 0;
  }

  lemma DivideExactly(x: int, d: nat, q: int, r: nat)
    requires x == q * d + r && r < d
    ensures x % d == r && x / d == q
  {
    var q', r' := x / d, x % d;
    assert x == q' * d + r';
    if q > q' {
      assert (q - q') * d == q * d - q' * d;
      AtLeastOnce(q - q', d);
      assert false;
    } else if q' > q {
      assert (q' - q) * d == q' * d - q * d;
      AtLeastOnce(q' - q, d);
      assert false;
    }
  }

  lemma SmallMod(x: nat, m: nat)
    requires x < m
    ensures x % m == x
  {
    DivideExactly(x, m, 0, x);
  }

  lemma {:induction false} Pow2Add(m: nat, n: nat)
    ensures Pow2(m + n) == Pow2(m) * Pow2(n)
  {
    if m > 0 {
      Pow2Add(m - 1, n);
      assert m + n - 1 == (m - 1) + n;
    }
  }
}
