/** Powers of two, shifts and bitwise operators on natural numbers.
 */
module Bits {

  function Pow2(n: nat): (p: nat)
    ensures p >= 1
  {
    if n == 0 then 1 else 2 * Pow2(n - 1)
  }

  lemma {:induction false} Pow2Add(a: nat, b: nat)
    ensures Pow2(a + b) == Pow2(a) * Pow2(b)
    decreases a
  {
    if a > 0 {
      Pow2Add(a - 1, b);
      assert Pow2(a + b) == 2 * (Pow2(a - 1) * Pow2(b));
    }
  }

  lemma {:induction false} Pow2Monotone(a: nat, b: nat)
    requires a <= b
    ensures Pow2(a) <= Pow2(b)
    ensures a < b ==> 2 * Pow2(a) <= Pow2(b)
    decreases b - a
  {
    if a + 1 < b {
      Pow2Monotone(a + 1, b);
    }
  }

  lemma Pow2Values()
    ensures Pow2(8) == 0x100 && Pow2(16) == 0x1_0000 && Pow2(24) == 0x100_0000 && Pow2(32) == 0x1_0000_0000
    ensures Pow2(31) == 0x8000_0000
  {
    assert Pow2(4) == 16;
    Pow2Add(4, 4);
    Pow2Add(8, 8);
    Pow2Add(8, 16);
    Pow2Add(16, 16);
    assert 2 * Pow2(31) == Pow2(32);
  }

  // ---------------------------------------------------------------- right shift

  function Shr(x: nat, n: nat): (r: nat)
    ensures r <= x
  {
    if n == 0 then x else Shr(x / 2, n - 1)
  }

  lemma {:induction false} ShrNext(x: nat, n: nat)
    ensures Shr(x, n + 1) == Shr(x, n) / 2
    decreases n
  {
    if n > 0 {
      ShrNext(x / 2, n - 1);
    }
  }

  lemma {:induction false} ShrTwice(x: nat, a: nat, b: nat)
    ensures Shr(x, a + b) == Shr(Shr(x, a), b)
    decreases a
  {
    if a > 0 {
      ShrTwice(x / 2, a - 1, b);
    }
  }

  /** Shifting right is flooring division by a power of two. */
  lemma {:induction false} ShrBound(x: nat, n: nat, m: nat)
    ensures m <= Shr(x, n) <==> m * Pow2(n) <= x
    decreases n
  {
    if n > 0 {
      ShrBound(x / 2, n - 1, m);
      var p := m * Pow2(n - 1);
      assert m * Pow2(n) == 2 * p;
      assert p <= x / 2 <==> 2 * p <= x;
    }
  }

  lemma {:induction false} ShrIsDiv(x: nat, n: nat)
    ensures Shr(x, n) == x / Pow2(n)
  {
    ShrBound(x, n, Shr(x, n));
    ShrBound(x, n, Shr(x, n) + 1);
    DivUnique(x, Pow2(n), Shr(x, n));
  }

  lemma {:induction false} ShrMultiple(q: nat, n: nat)
    ensures Shr(q * Pow2(n), n) == q
    decreases n
  {
    if n > 0 {
      ShrMultiple(q, n - 1);
      assert q * Pow2(n) == 2 * (q * Pow2(n - 1));
    } else {
      assert q * 1 == q;
    }
  }

  lemma DivUnique(x: nat, d: nat, q: nat)
    requires d > 0 && q * d <= x < (q + 1) * d
    ensures x / d == q
  {
    assert (q + 1) * d == q * d + d;
    var r := x - q * d;
    assert x == q * d + r && 0 <= r < d;
    var q1 := x / d;
    assert x == q1 * d + x % d;
    if q1 > q {
      MulLe(q + 1, q1, d);
    } else if q1 < q {
      MulLe(q1 + 1, q, d);
    }
  }

  lemma MulLe(a: int, b: int, c: nat)
    requires a <= b
    ensures a * c <= b * c
  {
  }

  lemma {:induction false} ShrSmall(x: nat, n: nat, w: nat)
    requires n <= w && x < Pow2(w)
    ensures Shr(x, n) < Pow2(w - n)
    decreases n
  {
    if n > 0 {
      ShrSmall(x / 2, n - 1, w - 1);
    }
  }

  // ---------------------------------------------------------------- bitwise operators

  function Or(x: nat, y: nat): nat {
    if x == 0 && y == 0 then 0
    else 2 * Or(x / 2, y / 2) + (if x % 2 == 1 || y % 2 == 1 then 1 else 0)
  }

  function And(x: nat, y: nat): (r: nat)
    ensures r <= x && r <= y
  {
    if x == 0 || y == 0 then 0
    else 2 * And(x / 2, y / 2) + (if x % 2 == 1 && y % 2 == 1 then 1 else 0)
  }

  /** Or-ing a multiple of 2^n with a number below 2^n adds them. */
  lemma {:induction false} OrDisjoint(high: nat, low: nat, n: nat)
    requires low < Pow2(n)
    ensures Or(high * Pow2(n), low) == high * Pow2(n) + low
    ensures Or(low, high * Pow2(n)) == high * Pow2(n) + low
    decreases n
  {
    if n == 0 {
      assert high * Pow2(n) == high;
      OrZero(high);
    } else {
      var p := high * Pow2(n - 1);
      assert high * Pow2(n) == 2 * p;
      OrDisjoint(high, low / 2, n - 1);
      OrStep(p, low);
    }
  }

  lemma OrStep(p: nat, low: nat)
    ensures Or(2 * p, low) == 2 * Or(p, low / 2) + low % 2
    ensures Or(low, 2 * p) == 2 * Or(low / 2, p) + low % 2
  {
  }

  lemma {:induction false} OrZero(x: nat)
    ensures Or(x, 0) == x && Or(0, x) == x
    decreases x
  {
    if x > 0 {
      OrZero(x / 2);
    }
  }
}
