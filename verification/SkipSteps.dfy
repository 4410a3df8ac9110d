/** How many steps the walk of `getAncestor` takes. From a height of `e` bits to any height below it takes at
    most e * e steps, and from 2^e - 1 to height 2 more than a quarter of that: the walk is quadratic in the
    number of bits, not linear.
 */
module SkipSteps {
  import opened Bits
  import opened BlockTree

  // ---------------------------------------------------------------- skips and clearing the lowest bit

  /** How heights skip, and how a number loses its lowest one. */
  datatype Walk = Walk(skip: nat -> nat, clear: nat -> nat)

  /** Of an odd number the last bit is cleared, of an even one that of its half. */
  ghost predicate Clears(k: Walk, m: nat) {
    k.clear(2 * m + 1) == 2 * m && (m > 0 ==> k.clear(2 * m) == 2 * k.clear(m) && k.clear(m) < m)
  }

  /** An even height skips by clearing its lowest one, an odd one by clearing two of those before the last. */
  ghost predicate Skips(k: Walk, h: nat) {
    k.skip(h) == if h < 2 then 0 else if h % 2 == 1 then k.clear(k.clear(h - 1)) + 1 else k.clear(h)
  }

  ghost predicate Lawful(k: Walk) {
    GoesDown(k.skip) && k.clear(0) == 0 && (forall m: nat :: Clears(k, m)) && forall h: nat :: Skips(k, h)
  }

  /** That is how the source's do. */
  lemma SourceIsLawful()
    ensures Lawful(Walk(SkipHeight, InvertLowestOne))
  {
    var k := Walk(SkipHeight, InvertLowestOne);
    forall m: nat ensures Clears(k, m) {
      SourceClears(m);
    }
  }

  lemma SourceClears(m: nat)
    ensures InvertLowestOne(2 * m + 1) == 2 * m
    ensures m > 0 ==> InvertLowestOne(2 * m) == 2 * InvertLowestOne(m)
  {
    AndSelf(m);
    assert (2 * m + 1) / 2 == m && (2 * m) / 2 == m;
    if m > 0 {
      assert (2 * m - 1) / 2 == m - 1 && (2 * m) % 2 == 0;
    }
  }

  /** The number of ones. */
  function Ones(x: nat): nat {
    if x == 0 then 0 else x % 2 + Ones(x / 2)
  }

  lemma {:induction false} AndSelf(x: nat)
    ensures And(x, x) == x
    decreases x
  {
    if x > 0 {
      AndSelf(x / 2);
    }
  }

  lemma ClearSteps(k: Walk, m: nat)
    requires Lawful(k)
    ensures k.clear(2 * m + 1) == 2 * m
    ensures m > 0 ==> k.clear(2 * m) == 2 * k.clear(m) && k.clear(m) < m
  {
    assert Clears(k, m);
  }

  /** Clearing takes one of the ones away. */
  lemma {:induction false} ClearOnes(k: Walk, x: nat)
    requires Lawful(k) && x > 0
    ensures Ones(k.clear(x)) == Ones(x) - 1
    decreases x
  {
    var m := x / 2;
    ClearSteps(k, m);
    if x % 2 == 1 {
      assert x == 2 * m + 1 && (2 * m) / 2 == m;
    } else {
      assert x == 2 * m;
      ClearOnes(k, m);
      OnesDouble(k.clear(m));
    }
  }

  lemma OnesDouble(x: nat)
    ensures Ones(2 * x) == Ones(x) && Ones(2 * x + 1) == Ones(x) + 1
  {
    assert (2 * x) / 2 == x && (2 * x + 1) / 2 == x;
  }

  lemma {:induction false} OnesBound(x: nat, e: nat)
    requires x < Pow2(e)
    ensures Ones(x) <= e
    decreases e
  {
    if e > 0 && x > 0 {
      OnesBound(x / 2, e - 1);
    }
  }

  /** Clearing acts on the low part alone while there is a one in it. */
  lemma {:induction false} ClearLow(k: Walk, a: nat, e: nat, x: nat)
    requires Lawful(k) && 0 < x < Pow2(e)
    ensures k.clear(a * Pow2(e) + x) == a * Pow2(e) + k.clear(x)
    decreases e
  {
    var b, m := a * Pow2(e - 1), x / 2;
    assert a * Pow2(e) == 2 * b;
    if m > 0 {
      ClearLow(k, a, e - 1, m);
    }
    ClearLowStep(k, b, m, x);
  }

  lemma ClearLowStep(k: Walk, b: nat, m: nat, x: nat)
    requires Lawful(k)
    requires x > 0 && m == x / 2 && (m > 0 ==> k.clear(b + m) == b + k.clear(m))
    ensures k.clear(2 * b + x) == 2 * b + k.clear(x)
  {
    ClearSteps(k, b + m);
    ClearSteps(k, m);
    if x % 2 == 1 {
      assert 2 * b + x == 2 * (b + m) + 1 && x == 2 * m + 1;
    } else {
      assert 2 * b + x == 2 * (b + m) && x == 2 * m;
    }
  }

  /** Otherwise on the high part. */
  lemma {:induction false} ClearHigh(k: Walk, a: nat, e: nat)
    requires Lawful(k) && a > 0
    ensures k.clear(a * Pow2(e)) == k.clear(a) * Pow2(e)
    decreases e
  {
    if e > 0 {
      ClearHigh(k, a, e - 1);
      ClearHighStep(k, a, Pow2(e - 1), k.clear(a));
    } else {
      assert a * 1 == a;
    }
  }

  lemma ClearHighStep(k: Walk, a: nat, p: nat, c: nat)
    requires Lawful(k) && a > 0 && p > 0 && k.clear(a * p) == c * p
    ensures k.clear(a * (2 * p)) == c * (2 * p)
  {
    MulPositive(a, p);
    ClearSteps(k, a * p);
    TwiceFactor(a, p);
    TwiceFactor(c, p);
  }

  lemma TwiceFactor(a: nat, p: nat)
    ensures a * (2 * p) == 2 * (a * p)
  {
  }

  lemma MulPositive(a: nat, p: nat)
    requires a > 0 && p > 0
    ensures a * p > 0
  {
  }

  // ---------------------------------------------------------------- skips within a block

  ghost predicate ClearsBelow(k: Walk, mid: nat, x: nat) {
    k.clear(mid + x) == mid + k.clear(x)
  }

  /** `low` starts a block of heights and `mid` its upper half of `size` heights. */
  ghost predicate Block(k: Walk, low: nat, mid: nat, size: nat)
    requires Lawful(k)
  {
    && low % 2 == 0 && mid == low + size && size > 0 && (size == 1 || mid % 2 == 0)
    && k.clear(mid) == low && forall x: nat :: 0 < x < size ==> ClearsBelow(k, mid, x)
  }

  lemma BlockAt(k: Walk, b: nat, e: nat)
    requires Lawful(k)
    ensures Block(k, 2 * b * Pow2(e), (2 * b + 1) * Pow2(e), Pow2(e))
  {
    var size, mid := Pow2(e), (2 * b + 1) * Pow2(e);
    ClearSteps(k, b);
    ClearHigh(k, 2 * b + 1, e);
    NextMultiple(2 * b, size);
    EvenMultiple(b, size);
    if e > 0 {
      EvenMultiple(Pow2(e - 1), 2 * b + 1);
    }
    forall x: nat | 0 < x < size ensures ClearsBelow(k, mid, x) {
      ClearLow(k, 2 * b + 1, e, x);
    }
  }

  lemma NextMultiple(q: nat, p: nat)
    ensures (q + 1) * p == q * p + p
  {
  }

  lemma EvenMultiple(b: nat, p: nat)
    ensures 2 * b * p == 2 * (b * p) && p * (2 * b) == 2 * (b * p) && (2 * b * p) % 2 == 0
  {
  }

  /** From an even height above the middle the skip clears one bit. */
  lemma SkipEven(k: Walk, low: nat, mid: nat, size: nat, x: nat)
    requires Lawful(k) && Block(k, low, mid, size) && 0 < x < size && x % 2 == 0
    ensures k.skip(mid + x) == mid + k.clear(x)
  {
    assert ClearsBelow(k, mid, x);
    SkipEvenIs(k, mid + x);
  }

  lemma SkipEvenIs(k: Walk, h: nat)
    requires Lawful(k) && h % 2 == 0 && h > 0
    ensures k.skip(h) == k.clear(h)
  {
    assert Skips(k, h);
  }

  /** Two bits of `mid + y` cleared: both above the middle, or the result is at most `low`. */
  lemma ClearTwice(k: Walk, low: nat, mid: nat, size: nat, y: nat)
    requires Lawful(k) && Block(k, low, mid, size) && y < size
    ensures var c := k.clear(k.clear(mid + y));
            if Ones(y) >= 2 then
              && k.clear(y) > 0 && c == mid + k.clear(k.clear(y))
              && Ones(k.clear(k.clear(y))) == Ones(y) - 2
            else c <= low
  {
    ClearSteps(k, low);
    if y > 0 {
      assert ClearsBelow(k, mid, y);
      ClearSteps(k, y);
      ClearOnes(k, y);
      var z := k.clear(y);
      NoOnes(z);
      if z > 0 {
        assert ClearsBelow(k, mid, z);
        ClearOnes(k, z);
      }
    }
  }

  lemma {:induction false} NoOnes(x: nat)
    ensures Ones(x) == 0 <==> x == 0
    decreases x
  {
    if x > 0 {
      NoOnes(x / 2);
    }
  }

  /** One more than an even number has one more one. */
  lemma OnesNext(y: nat)
    requires y % 2 == 0
    ensures Ones(y + 1) == Ones(y) + 1
  {
    OnesDouble(y / 2);
    assert y == 2 * (y / 2);
  }

  lemma EvenStaysEven(k: Walk, y: nat)
    requires Lawful(k) && y % 2 == 0
    ensures k.clear(y) % 2 == 0
  {
    if y > 0 {
      var m := y / 2;
      EvenCleared(k, m);
      assert y == 2 * m;
    }
  }

  lemma EvenCleared(k: Walk, m: nat)
    requires Lawful(k) && m > 0
    ensures k.clear(2 * m) % 2 == 0
  {
    ClearSteps(k, m);
    EvenNumber(k.clear(m), k.clear(2 * m));
  }

  lemma EvenNumber(m: nat, c: nat)
    requires c == 2 * m
    ensures c % 2 == 0
  {
  }

  /** From an odd height the skip clears the two lowest bits above the last. */
  lemma SkipOdd(k: Walk, low: nat, mid: nat, size: nat, x: nat)
    requires Lawful(k) && Block(k, low, mid, size) && x < size && x % 2 == 1
    ensures Ones(x - 1) == Ones(x) - 1
    ensures var s := k.skip(mid + x);
            s <= low + 1 || (s > mid && s - mid < x && Ones(s - mid) == Ones(x) - 2)
  {
    var y := x - 1;
    OnesNext(y);
    ClearTwice(k, low, mid, size, y);
    if Ones(y) >= 2 {
      EvenStaysEven(k, y);
      EvenStaysEven(k, k.clear(y));
      OnesNext(k.clear(k.clear(y)));
    }
    SkipOddIs(k, mid, x);
  }

  lemma SkipOddIs(k: Walk, mid: nat, x: nat)
    requires Lawful(k) && mid % 2 == 0 && x % 2 == 1
    ensures k.skip(mid + x) == if mid + x < 2 then 0 else k.clear(k.clear(mid + (x - 1))) + 1
  {
    assert Skips(k, mid + x);
  }

  // ---------------------------------------------------------------- from the upper half to the lower

  /** An odd height takes its skip whenever that is not too low. */
  lemma OddTakesSkip(k: Walk, h: nat, to: nat)
    requires Lawful(k) && h % 2 == 1 && to < h && k.skip(h) >= to
    ensures NextHeight(k.skip, h, to) == k.skip(h)
  {
    assert Skips(k, h) && Skips(k, h - 1);
    ClearSteps(k, k.clear(h - 1));
  }

  /** The ones of the odd number below an even one. */
  lemma OnesBelowTwo(m: nat)
    ensures Ones(4 * m + 1) == Ones(m) + 1 && Ones(4 * m + 2) == Ones(m) + 1
  {
    OnesDouble(m);
    OnesDouble(2 * m);
    OnesDouble(2 * m + 1);
  }

  lemma OnesBelowFour(m: nat)
    ensures Ones(8 * m + 3) == Ones(m) + 2 && Ones(8 * m + 4) == Ones(m) + 1
  {
    OnesDouble(m);
    OnesDouble(2 * m);
    OnesDouble(2 * m + 1);
    OnesDouble(4 * m + 1);
    OnesDouble(4 * m + 2);
  }

  lemma ClearTwo(k: Walk, m: nat)
    requires Lawful(k)
    ensures k.clear(4 * m + 2) == 4 * m
  {
    ClearSteps(k, m);
    ClearSteps(k, 2 * m + 1);
    ClearOdd(k, 2 * m);
  }

  lemma ClearOdd(k: Walk, y: nat)
    requires Lawful(k) && y % 2 == 0
    ensures k.clear(y + 1) == y
  {
    ClearSteps(k, y / 2);
    assert y + 1 == 2 * (y / 2) + 1;
  }

  lemma ClearFour(k: Walk, m: nat)
    requires Lawful(k)
    ensures k.clear(8 * m + 4) == 8 * m
  {
    ClearTwo(k, m);
    ClearSteps(k, 4 * m + 2);
  }

  lemma ClearEight(k: Walk, v: nat)
    requires Lawful(k) && v > 0
    ensures k.clear(8 * v) <= 8 * v - 8
  {
    ClearSteps(k, v);
    ClearDoubled(k, 2 * v, 2 * k.clear(v));
    ClearDoubled(k, 4 * v, 4 * k.clear(v));
  }

  lemma ClearDoubled(k: Walk, u: nat, c: nat)
    requires Lawful(k) && u > 0 && k.clear(u) == c
    ensures k.clear(2 * u) == 2 * c
  {
    ClearSteps(k, u);
  }

  lemma EighthsSkip(k: Walk, v: nat)
    requires Lawful(k) && v > 0
    ensures k.clear(8 * v) - 2 < 8 * v - 8 == k.clear(k.clear(8 * v - 2))
  {
    ClearEight(k, v);
    ClearTwo(k, 2 * v - 1);
    ClearFour(k, v - 1);
  }

  lemma TwoCase(x: nat)
    requires x % 4 == 2
    ensures Ones(x - 1) == Ones(x)
  {
    var m := x / 4;
    OnesBelowTwo(m);
    assert x == 4 * m + 2;
  }

  lemma FourCase(x: nat)
    requires x % 8 == 4
    ensures Ones(x - 1) == Ones(x) + 1
  {
    var m := x / 8;
    OnesBelowFour(m);
    assert x == 8 * m + 4;
  }

  lemma EightCase(k: Walk, x: nat)
    requires Lawful(k) && x > 0 && x % 8 == 0
    ensures k.clear(x) - 2 < x - 8 == k.clear(k.clear(x - 2))
  {
    var v := x / 8;
    EighthsSkip(k, v);
    assert x == 8 * v;
  }

  /** When an even height forgoes its skip for that of the height below, that one clears as much. */
  lemma SkipBelowClears(k: Walk, x: nat)
    requires Lawful(k) && x > 0 && x % 2 == 0
    ensures || Ones(x - 1) <= Ones(x) + 1
            || k.clear(k.clear(x - 2)) + 1 >= k.clear(x) - 2
  {
    if x % 4 == 2 {
      TwoCase(x);
    } else if x % 8 == 4 {
      FourCase(x);
    } else {
      EightCase(k, x);
    }
  }

  lemma StepOnce(k: Walk, h: nat, to: nat)
    requires Lawful(k) && to < h
    ensures Steps(k.skip, h, to) == 1 + Steps(k.skip, NextHeight(k.skip, h, to), to)
  {
  }

  /** A height forgoes its skip only when that is too low, or when the skip below leads further. */
  lemma NextIs(k: Walk, h: nat, to: nat)
    requires Lawful(k) && to < h
    ensures var s, p := k.skip(h), k.skip(h - 1);
            NextHeight(k.skip, h, to) == s || (NextHeight(k.skip, h, to) == h - 1 && (s < to || (p < s - 2 && p >= to)))
  {
  }

  /** Where an even height above the middle gets within two rounds. */
  lemma EvenRounds(k: Walk, low: nat, mid: nat, size: nat, to: nat, x: nat) returns (n: nat, rounds: nat)
    requires Lawful(k) && Block(k, low, mid, size) && low <= to < mid && 0 < x < size && x % 2 == 0
    ensures to <= n < mid + x && Steps(k.skip, mid + x, to) == rounds + Steps(k.skip, n, to) && 1 <= rounds <= 2
    ensures n >= mid ==> Ones(n - mid) <= Ones(x) - 1
  {
    SkipEven(k, low, mid, size, x);
    ClearOnes(k, x);
    n, rounds := EvenRoundsAt(k, low, mid, size, to, x, k.clear(x), mid + x);
  }

  lemma EvenRoundsAt(k: Walk, low: nat, mid: nat, size: nat, to: nat, x: nat, c: nat, h: nat)
      returns (n: nat, rounds: nat)
    requires Lawful(k)
    requires Block(k, low, mid, size) && low <= to < mid && 0 < x < size && x % 2 == 0 && h == mid + x
    requires c == k.clear(x) && k.skip(h) == mid + c && Ones(c) == Ones(x) - 1
    ensures to <= n < h && Steps(k.skip, h, to) == rounds + Steps(k.skip, n, to) && 1 <= rounds <= 2
    ensures n >= mid ==> Ones(n - mid) <= Ones(x) - 1
  {
    n, rounds := NextHeight(k.skip, h, to), 1;
    StepOnce(k, h, to);
    NextIs(k, h, to);
    if n != mid + c {
      n := SecondRound(k, low, mid, size, to, x, h - 1, c);
      rounds := 2;
    }
  }

  lemma SecondRound(k: Walk, low: nat, mid: nat, size: nat, to: nat, x: nat, h: nat, c: nat) returns (n: nat)
    requires Lawful(k)
    requires Block(k, low, mid, size) && low <= to < mid && 0 < x < size && x % 2 == 0 && h == mid + (x - 1)
    requires c == k.clear(x) && to <= k.skip(h) < mid + c - 2
    ensures n == k.skip(h) && to <= n < h && Steps(k.skip, h, to) == 1 + Steps(k.skip, n, to)
    ensures n >= mid ==> Ones(n - mid) <= Ones(x) - 1
  {
    n := k.skip(h);
    OddTakesSkip(k, h, to);
    StepOnce(k, h, to);
    BelowClears(k, low, mid, size, x, n, c);
  }

  lemma BelowClears(k: Walk, low: nat, mid: nat, size: nat, x: nat, s: nat, c: nat)
    requires Lawful(k) && Block(k, low, mid, size) && 0 < x < size && x % 2 == 0 && s == k.skip(mid + (x - 1))
    requires c == k.clear(x) && s < mid + c - 2
    ensures s >= mid ==> Ones(s - mid) <= Ones(x) - 1
  {
    SkipOdd(k, low, mid, size, x - 1);
    SkipBelowClears(k, x);
    if s >= mid {
      BelowIs(k, low, mid, size, x, s);
    }
  }

  lemma BelowIs(k: Walk, low: nat, mid: nat, size: nat, x: nat, s: nat)
    requires Lawful(k)
    requires Block(k, low, mid, size) && 0 < x < size && x % 2 == 0 && s == k.skip(mid + (x - 1)) && s >= mid
    ensures s == mid + k.clear(k.clear(x - 2)) + 1
  {
    SkipIsTwice(k, mid, x - 2, s);
    TwiceIs(k, low, mid, size, x - 2, s - 1);
  }

  lemma SkipIsTwice(k: Walk, mid: nat, y: nat, s: nat)
    requires Lawful(k) && mid % 2 == 0 && y % 2 == 0 && mid > 0 && s == k.skip(mid + (y + 1))
    ensures s == k.clear(k.clear(mid + y)) + 1
  {
    SkipOddIs(k, mid, y + 1);
  }

  lemma TwiceIs(k: Walk, low: nat, mid: nat, size: nat, y: nat, c: nat)
    requires Lawful(k)
    requires Block(k, low, mid, size) && y + 2 < size && c == k.clear(k.clear(mid + y)) && c + 1 >= mid
    ensures c == mid + k.clear(k.clear(y))
  {
    ClearTwice(k, low, mid, size, y);
  }

  /** The walk takes at most `rest` steps from every height below `mid`. */
  ghost predicate Near(k: Walk, to: nat, mid: nat, rest: nat)
    requires Lawful(k)
  {
    forall h: nat :: to <= h < mid ==> Steps(k.skip, h, to) <= rest
  }

  /** From the upper half of a block the walk gets to the lower half in at most two rounds for each one above
      the middle, and one more. */
  lemma {:induction false} Cross(k: Walk, low: nat, mid: nat, size: nat, to: nat, x: nat, rest: nat)
    requires Lawful(k) && Block(k, low, mid, size) && low <= to < mid && x < size && Near(k, to, mid, rest)
    ensures Steps(k.skip, mid + x, to) <= rest + 2 * Ones(x) + 1
    decreases x
  {
    var n, rounds := Rounds(k, low, mid, size, to, x);
    if n >= mid {
      Cross(k, low, mid, size, to, n - mid, rest);
    }
  }

  lemma Rounds(k: Walk, low: nat, mid: nat, size: nat, to: nat, x: nat) returns (n: nat, rounds: nat)
    requires Lawful(k) && Block(k, low, mid, size) && low <= to < mid && x < size
    ensures to <= n < mid + x && Steps(k.skip, mid + x, to) == rounds + Steps(k.skip, n, to) && rounds <= 2
    ensures n < mid ==> rounds <= 2 * Ones(x) + 1
    ensures n >= mid ==> Ones(n - mid) <= Ones(x) - 1
  {
    if x > 0 && x % 2 == 0 {
      n, rounds := EvenRounds(k, low, mid, size, to, x);
      SomeOne(x);
    } else {
      n := OddRound(k, low, mid, size, to, x);
      rounds := 1;
    }
  }

  lemma OddRound(k: Walk, low: nat, mid: nat, size: nat, to: nat, x: nat) returns (n: nat)
    requires Lawful(k)
    requires Block(k, low, mid, size) && low <= to < mid && x < size && (x == 0 || x % 2 == 1)
    ensures to <= n < mid + x && Steps(k.skip, mid + x, to) == 1 + Steps(k.skip, n, to)
    ensures n >= mid ==> x > 0 && Ones(n - mid) <= Ones(x) - 1
  {
    var h := mid + x;
    n := NextHeight(k.skip, h, to);
    StepOnce(k, h, to);
    if x > 0 {
      SkipOdd(k, low, mid, size, x);
      OddLands(k, low, mid, h, k.skip(h), n, x);
    }
  }

  lemma OddLands(k: Walk, low: nat, mid: nat, h: nat, s: nat, n: nat, x: nat)
    requires Lawful(k)
    requires low + 1 <= mid && h == mid + x && x > 0 && (n == s || n == h - 1) && Ones(x - 1) == Ones(x) - 1
    requires s <= low + 1 || (s > mid && Ones(s - mid) == Ones(x) - 2)
    ensures n >= mid && !(n == s == mid) ==> Ones(n - mid) <= Ones(x) - 1
    ensures n == mid ==> Ones(n - mid) <= Ones(x) - 1
  {
    SomeOne(x);
  }

  lemma SomeOne(x: nat)
    requires x > 0
    ensures Ones(x) >= 1
  {
    NoOnes(x);
  }

  // ---------------------------------------------------------------- the bound

  /** Within a block of 2^e heights the walk takes at most e * e steps. */
  lemma {:induction false} StepsInBlock(k: Walk, b: nat, e: nat, h: nat, to: nat)
    requires Lawful(k) && b * Pow2(e) <= to <= h < (b + 1) * Pow2(e)
    ensures Steps(k.skip, h, to) <= e * e
    decreases e
  {
    if e == 0 {
      assert h == to by { assert Pow2(0) == 1; }
    } else {
      var mid, size := (2 * b + 1) * Pow2(e - 1), Pow2(e - 1);
      Halves(b, size);
      SquareGrows(e);
      if h < mid {
        StepsInBlock(k, 2 * b, e - 1, h, to);
      } else if to >= mid {
        StepsInBlock(k, 2 * b + 1, e - 1, h, to);
      } else {
        forall g: nat | to <= g < mid ensures Steps(k.skip, g, to) <= (e - 1) * (e - 1) {
          StepsInBlock(k, 2 * b, e - 1, g, to);
        }
        CrossBlock(k, b, e - 1, h, to, mid);
      }
    }
  }

  lemma CrossBlock(k: Walk, b: nat, e: nat, h: nat, to: nat, mid: nat)
    requires Lawful(k)
    requires mid == (2 * b + 1) * Pow2(e) && 2 * b * Pow2(e) <= to < mid <= h < mid + Pow2(e) && Near(k, to, mid, e * e)
    ensures Steps(k.skip, h, to) <= (e + 1) * (e + 1)
  {
    BlockAt(k, b, e);
    CrossAt(k, 2 * b * Pow2(e), mid, e, h, to, e * e);
    SquareGrows(e + 1);
  }

  lemma CrossAt(k: Walk, low: nat, mid: nat, e: nat, h: nat, to: nat, rest: nat)
    requires Lawful(k)
    requires Block(k, low, mid, Pow2(e)) && low <= to < mid <= h < mid + Pow2(e) && Near(k, to, mid, rest)
    ensures Steps(k.skip, h, to) <= rest + 2 * e + 1
  {
    Cross(k, low, mid, Pow2(e), to, h - mid, rest);
    OnesBound(h - mid, e);
  }

  lemma SquareGrows(e: nat)
    requires e > 0
    ensures (e - 1) * (e - 1) + 2 * (e - 1) + 1 == e * e
  {
  }

  lemma Halves(b: nat, p: nat)
    ensures b * (2 * p) == 2 * b * p && (b + 1) * (2 * p) == (2 * b + 2) * p && (2 * b + 2) * p == (2 * b + 1) * p + p
  {
  }

  /** From a height of `e` bits to any lower one `getAncestor` takes at most e * e rounds. */
  lemma StepsBound(h: nat, to: nat, e: nat)
    requires to <= h < Pow2(e)
    ensures GoesDown(SkipHeight) && Steps(SkipHeight, h, to) <= e * e
  {
    SourceIsLawful();
    assert 0 * Pow2(e) == 0 && (0 + 1) * Pow2(e) == Pow2(e);
    StepsInBlock(Walk(SkipHeight, InvertLowestOne), 0, e, h, to);
  }

  // ---------------------------------------------------------------- the bound is of the right order

  /** One less has at most one one less. */
  lemma {:induction false} OnesBelow(x: nat)
    requires x > 0
    ensures Ones(x - 1) >= Ones(x) - 1
    decreases x
  {
    var z := x / 2;
    if x % 2 == 1 {
      OnesNext(x - 1);
    } else {
      assert x == 2 * z && x - 1 == 2 * (z - 1) + 1;
      OnesDouble(z);
      OnesDouble(z - 1);
      OnesBelow(z);
    }
  }

  /** On the way to height 2 a round takes at most two ones away, and leaves the upper half only from its
      lowest height, to the one below. */
  lemma SlowRound(k: Walk, mid: nat, size: nat, x: nat) returns (n: nat)
    requires Lawful(k) && Block(k, 0, mid, size) && mid > 2 && x < size
    ensures 2 <= n < mid + x && Steps(k.skip, mid + x, 2) == 1 + Steps(k.skip, n, 2)
    ensures if x == 0 then n == mid - 1 else n >= mid && Ones(n - mid) >= Ones(x) - 2
  {
    var h := mid + x;
    n := NextHeight(k.skip, h, 2);
    StepOnce(k, h, 2);
    NextIs(k, h, 2);
    if x == 0 {
      SkipEvenIs(k, mid);
    } else {
      OnesBelow(x);
      SlowSkip(k, mid, size, x);
    }
  }

  /** Above the middle a skip is too low, or takes at most two ones away. */
  lemma SlowSkip(k: Walk, mid: nat, size: nat, x: nat)
    requires Lawful(k) && Block(k, 0, mid, size) && mid > 2 && 0 < x < size
    ensures var s := k.skip(mid + x); s < 2 || (s >= mid && Ones(s - mid) >= Ones(x) - 2)
  {
    if x % 2 == 1 {
      SkipOdd(k, 0, mid, size, x);
    } else {
      SkipEven(k, 0, mid, size, x);
      ClearOnes(k, x);
    }
  }

  lemma {:induction false} Slow(k: Walk, mid: nat, size: nat, x: nat)
    requires Lawful(k) && Block(k, 0, mid, size) && mid > 2 && x < size
    ensures 2 * Steps(k.skip, mid + x, 2) >= Ones(x) + 2 + 2 * Steps(k.skip, mid - 1, 2)
    decreases x
  {
    var n := SlowRound(k, mid, size, x);
    if x > 0 {
      Slow(k, mid, size, n - mid);
    }
  }

  lemma {:induction false} AllOnes(e: nat)
    ensures Ones(Pow2(e) - 1) == e
    decreases e
  {
    if e > 0 {
      AllOnes(e - 1);
      OnesDouble(Pow2(e - 1) - 1);
    }
  }

  lemma {:induction false} SlowSteps(k: Walk, e: nat)
    requires Lawful(k) && e >= 2
    ensures 4 * Steps(k.skip, Pow2(e) - 1, 2) >= e * e
    decreases e
  {
    var mid := Pow2(e - 1);
    Pow2Monotone(1, e - 1);
    if e == 2 {
      StepOnce(k, Pow2(e) - 1, 2);
    } else {
      SlowSteps(k, e - 1);
      SlowHalf(k, e - 1, mid);
      Quarter(e, Steps(k.skip, Pow2(e) - 1, 2), Steps(k.skip, mid - 1, 2));
    }
  }

  lemma SlowHalf(k: Walk, e: nat, mid: nat)
    requires Lawful(k) && e >= 2 && mid == Pow2(e)
    ensures 2 * Steps(k.skip, 2 * mid - 1, 2) >= e + 2 + 2 * Steps(k.skip, mid - 1, 2)
  {
    FirstBlock(k, e);
    Pow2Monotone(2, e);
    Slow(k, mid, mid, mid - 1);
    AllOnes(e);
    assert mid + (mid - 1) == 2 * mid - 1;
  }

  lemma Quarter(e: nat, g: nat, f: nat)
    requires e > 0 && 2 * g >= e + 1 + 2 * f && 4 * f >= (e - 1) * (e - 1)
    ensures 4 * g >= e * e
  {
    SquareGrows(e);
  }

  lemma FirstBlock(k: Walk, e: nat)
    requires Lawful(k)
    ensures Block(k, 0, Pow2(e), Pow2(e))
  {
    BlockAt(k, 0, e);
    assert 2 * 0 * Pow2(e) == 0 && (2 * 0 + 1) * Pow2(e) == Pow2(e);
  }

  /** From 2^e - 1 down to height 2 it takes at least a quarter of e * e rounds. */
  lemma StepsSlow(e: nat)
    requires e >= 2
    ensures GoesDown(SkipHeight) && Pow2(e) > 2 && 4 * Steps(SkipHeight, Pow2(e) - 1, 2) >= e * e
  {
    SourceIsLawful();
    Pow2Monotone(2, e);
    SlowSteps(Walk(SkipHeight, InvertLowestOne), e);
  }
}
