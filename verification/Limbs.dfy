/** Unsigned integers as little-endian arrays of 32 bit limbs, updated in place by carry and
    shift loops, for any width. Each operator is proved against the integer it represents.
 */
module Limbs {
  import opened Bits

  type Limb = x: int | 0 <= x < 0x1_0000_0000
  const BASE: int := 0x1_0000_0000

  /** The weight of limb `i`, 2^(32 i). */
  function Weight(i: nat): (w: nat)
    ensures w >= 1
  {
    if i == 0 then 1 else BASE * Weight(i - 1)
  }

  /** The number held by the first `i` limbs. */
  function Prefix(s: seq<Limb>, i: nat): nat
    requires i <= |s|
  {
    if i == 0 then 0 else Prefix(s, i - 1) + s[i - 1] * Weight(i - 1)
  }

  function Value(s: seq<Limb>): nat {
    Prefix(s, |s|)
  }

  // ---------------------------------------------------------------- values

  lemma {:induction false} WeightIsPow2(i: nat)
    ensures Weight(i) == Pow2(32 * i)
    decreases i
  {
    if i > 0 {
      WeightIsPow2(i - 1);
      Pow2Values();
      Pow2Add(32, 32 * (i - 1));
    }
  }

  lemma {:induction false} WeightAdd(a: nat, b: nat)
    ensures Weight(a + b) == Weight(a) * Weight(b)
    decreases a
  {
    if a > 0 {
      WeightAdd(a - 1, b);
      Assoc(BASE, Weight(a - 1), Weight(b));
    }
  }

  lemma Assoc(a: int, b: int, c: int)
    ensures a * (b * c) == (a * b) * c
  {
  }

  lemma {:induction false} PrefixSame(s: seq<Limb>, t: seq<Limb>, i: nat)
    requires i <= |s| && i <= |t| && forall j :: 0 <= j < i ==> s[j] == t[j]
    ensures Prefix(s, i) == Prefix(t, i)
    decreases i
  {
    if i > 0 {
      PrefixSame(s, t, i - 1);
    }
  }

  lemma {:induction false} PrefixBound(s: seq<Limb>, i: nat)
    requires i <= |s|
    ensures Prefix(s, i) < Weight(i)
    decreases i
  {
    if i > 0 {
      PrefixBound(s, i - 1);
      TopLimb(s[i - 1], Weight(i - 1));
    }
  }

  lemma TopLimb(x: Limb, w: nat)
    requires w >= 1
    ensures w + x * w <= BASE * w
  {
    MulLe(x + 1, BASE, w);
    assert (x + 1) * w == x * w + w;
  }

  /** A value below `m` that differs from `total` by multiples of `m` is the remainder. */
  lemma IsRemainder(total: int, v: int, q: int, m: nat)
    requires m > 0 && 0 <= v < m && total == v + q * m
    ensures total % m == v
  {
    var q1 := total / m;
    assert total == q1 * m + total % m;
    assert (q + 1) * m == q * m + m;
    assert (q1 + 1) * m == q1 * m + m;
    if q1 > q {
      MulLe(q + 1, q1, m);
    } else if q1 < q {
      MulLe(q1 + 1, q, m);
    }
  }

  /** Limbs decide the order from the top: the first difference settles it. */
  lemma {:induction false} HigherDecides(s: seq<Limb>, t: seq<Limb>, i: nat, n: nat)
    requires i < n <= |s| && n <= |t| && s[i] < t[i] && forall j :: i < j < n ==> s[j] == t[j]
    ensures Prefix(s, n) < Prefix(t, n)
    decreases n
  {
    if n == i + 1 {
      PrefixBound(s, i);
      LimbGap(s[i], t[i], Weight(i));
    } else {
      HigherDecides(s, t, i, n - 1);
    }
  }

  lemma LimbGap(x: Limb, y: Limb, w: nat)
    requires x < y
    ensures x * w + w <= y * w
  {
    MulLe(x + 1, y, w);
    assert (x + 1) * w == x * w + w;
  }

  // ---------------------------------------------------------------- comparison

  /** `compareTo`. */
  method CompareTo(a: array<Limb>, b: array<Limb>) returns (r: int)
    requires a.Length == b.Length
    ensures r == -1 || r == 0 || r == 1
    ensures r == -1 <==> Value(a[..]) < Value(b[..])
    ensures r == 1 <==> Value(a[..]) > Value(b[..])
  {
    var n := a.Length;
    var i := n;
    while i > 0
      invariant 0 <= i <= n && forall j :: i <= j < n ==> a[j] == b[j]
    {
      i := i - 1;
      if a[i] < b[i] {
        HigherDecides(a[..], b[..], i, n);
        return -1;
      }
      if a[i] > b[i] {
        HigherDecides(b[..], a[..], i, n);
        return 1;
      }
    }
    PrefixSame(a[..], b[..], n);
    r := 0;
  }

  // ---------------------------------------------------------------- addition

  /** One carry step: the low limb and the carry together weigh what went in. */
  lemma CarrySplit(n: nat, w: nat)
    ensures (n % BASE) * w + (n / BASE) * (BASE * w) == n * w
  {
    var q, r := n / BASE, n % BASE;
    assert n == q * BASE + r;
    assert q * (BASE * w) == (q * BASE) * w;
    assert (q * BASE) * w + r * w == (q * BASE + r) * w;
  }

  /** `operator+=`, modulo 2^(32 n). */
  method AddAssign(pn: array<Limb>, b: seq<Limb>)
    requires pn.Length == |b|
    modifies pn
    ensures Value(pn[..]) == (old(Value(pn[..])) + Value(b)) % Weight(pn.Length)
  {
    var n := pn.Length;
    ghost var was := pn[..];
    var carry: nat, i := 0, 0;
    while i < n
      invariant 0 <= i <= n && carry <= 1
      invariant forall j :: i <= j < n ==> pn[j] == was[j]
      invariant Prefix(pn[..], i) + carry * Weight(i) == Prefix(was, i) + Prefix(b, i)
    {
      var sum: nat := carry + pn[i] + b[i];
      ghost var before := pn[..];
      AddStep(Prefix(before, i), Prefix(was, i), Prefix(b, i), carry, was[i], b[i], Weight(i));
      pn[i] := sum % BASE;
      PrefixSame(before, pn[..], i);
      carry := sum / BASE;
      i := i + 1;
    }
    PrefixBound(pn[..], n);
    IsRemainder(Value(was) + Value(b), Value(pn[..]), carry, Weight(n));
  }

  lemma AddStep(p: nat, x: nat, y: nat, carry: nat, a: Limb, b: Limb, w: nat)
    requires p + carry * w == x + y
    ensures var s := carry + a + b; p + (s % BASE) * w + (s / BASE) * (BASE * w) == x + a * w + (y + b * w)
  {
    var s: nat := carry + a + b;
    CarrySplit(s, w);
    assert s * w == carry * w + a * w + b * w;
  }

  // ---------------------------------------------------------------- complement and negation

  function Complement(s: seq<Limb>): (r: seq<Limb>)
    ensures |r| == |s|
  {
    seq(|s|, i requires 0 <= i < |s| => BASE - 1 - s[i])
  }

  lemma {:induction false} ComplementPrefix(s: seq<Limb>, i: nat)
    requires i <= |s|
    ensures Prefix(s, i) + Prefix(Complement(s), i) == Weight(i) - 1
    decreases i
  {
    if i > 0 {
      ComplementPrefix(s, i - 1);
      ComplementLimb(s[i - 1], Weight(i - 1));
    }
  }

  lemma ComplementLimb(x: Limb, w: nat)
    ensures x * w + (BASE - 1 - x) * w == BASE * w - w
  {
    var y: int := x;
    assert (BASE - 1 - y) * w == BASE * w - w - y * w;
  }

  /** `operator~`. */
  method Not(b: seq<Limb>) returns (r: array<Limb>)
    ensures fresh(r) && r.Length == |b| && Value(r[..]) == Weight(|b|) - 1 - Value(b)
  {
    r := new Limb[|b|](_ => 0);
    var i := 0;
    while i < |b|
      invariant 0 <= i <= |b| && forall j :: 0 <= j < i ==> r[j] == BASE - 1 - b[j]
    {
      r[i] := BASE - 1 - b[i];
      i := i + 1;
    }
    ComplementPrefix(b, |b|);
    PrefixSame(r[..], Complement(b), |b|);
  }

  /** `operator++`. */
  method Increment(pn: array<Limb>)
    modifies pn
    ensures Value(pn[..]) == (old(Value(pn[..])) + 1) % Weight(pn.Length)
  {
    var n := pn.Length;
    ghost var was := pn[..];
    var i := 0;
    while i < n && pn[i] == BASE - 1
      invariant 0 <= i <= n
      invariant forall j :: 0 <= j < i ==> pn[j] == 0 && was[j] == BASE - 1
      invariant forall j :: i <= j < n ==> pn[j] == was[j]
    {
      pn[i] := 0;
      i := i + 1;
    }
    ZeroPrefix(pn[..], i);
    FullPrefix(was, i);
    PrefixBound(was, n);
    if i < n {
      ghost var before := pn[..];
      pn[i] := pn[i] + 1;
      PrefixSame(before, pn[..], i);
      RaisedLimb(was, pn[..], i, n);
      IsRemainder(Value(was) + 1, Value(pn[..]), 0, Weight(n)) by { PrefixBound(pn[..], n); }
    } else {
      IsRemainder(Value(was) + 1, 0, 1, Weight(n));
    }
  }

  lemma {:induction false} ZeroPrefix(s: seq<Limb>, i: nat)
    requires i <= |s| && forall j :: 0 <= j < i ==> s[j] == 0
    ensures Prefix(s, i) == 0
    decreases i
  {
    if i > 0 {
      ZeroPrefix(s, i - 1);
    }
  }

  lemma {:induction false} FullPrefix(s: seq<Limb>, i: nat)
    requires i <= |s| && forall j :: 0 <= j < i ==> s[j] == BASE - 1
    ensures Prefix(s, i) == Weight(i) - 1
    decreases i
  {
    if i > 0 {
      FullPrefix(s, i - 1);
      var w := Weight(i - 1);
      assert (BASE - 1) * w == BASE * w - w;
    }
  }

  /** Raising limb `i` over a full prefix adds one. */
  lemma {:induction false} RaisedLimb(was: seq<Limb>, s: seq<Limb>, i: nat, n: nat)
    requires i < n <= |was| == |s| && s[i] == was[i] as int + 1
    requires Prefix(s, i) == 0 && Prefix(was, i) == Weight(i) - 1
    requires forall j :: i < j < n ==> s[j] == was[j]
    ensures Prefix(s, n) == Prefix(was, n) + 1
    decreases n
  {
    if n == i + 1 {
      assert (was[i] + 1) * Weight(i) == was[i] * Weight(i) + Weight(i);
    } else {
      RaisedLimb(was, s, i, n - 1);
    }
  }

  /** Unary `operator-`: complement, then increment. */
  method Negate(b: seq<Limb>) returns (r: array<Limb>)
    ensures fresh(r) && r.Length == |b|
    ensures Value(r[..]) == if Value(b) == 0 then 0 else Weight(|b|) - Value(b)
  {
    ghost var v, m := Value(b), Weight(|b|);
    PrefixBound(b, |b|);
    r := Not(b);
    if v == 0 {
      IsRemainder(m, 0, 1, m);
    } else {
      IsRemainder(m - v, m - v, 0, m);
    }
    Increment(r);
  }

  /** `operator-=`, which adds the two's complement: the difference, wrapping below zero. */
  method SubAssign(pn: array<Limb>, b: seq<Limb>)
    requires pn.Length == |b|
    modifies pn
    ensures Value(pn[..]) == old(Value(pn[..])) - Value(b) + if old(Value(pn[..])) < Value(b) then Weight(|b|) else 0
  {
    PrefixBound(b, |b|);
    PrefixBound(pn[..], |b|);
    ghost var a, v, m := Value(pn[..]), Value(b), Weight(|b|);
    var neg := Negate(b);
    NegatedSum(a, v, m, Value(neg[..]));
    AddAssign(pn, neg[..]);
  }

  /** Adding a negated number subtracts it. */
  lemma NegatedSum(a: nat, v: nat, m: nat, x: nat)
    requires a < m && v < m && x == if v == 0 then 0 else m - v
    ensures (a + x) % m == a - v + if a < v then m else 0
  {
    if v == 0 || a < v {
      IsRemainder(a + x, a + x, 0, m);
    } else {
      IsRemainder(a + x, a - v, 1, m);
    }
  }

  // ---------------------------------------------------------------- multiplication by a limb

  /** `operator*=(uint32_t)`, modulo 2^(32 n). */
  method MulAssign(pn: array<Limb>, f: Limb)
    modifies pn
    ensures Value(pn[..]) == (old(Value(pn[..])) * f) % Weight(pn.Length)
  {
    var n := pn.Length;
    ghost var was := pn[..];
    var carry: nat, i := 0, 0;
    while i < n
      invariant 0 <= i <= n && carry < BASE
      invariant forall j :: i <= j < n ==> pn[j] == was[j]
      invariant Prefix(pn[..], i) + carry * Weight(i) == Prefix(was, i) * f
    {
      ProductFits(carry, f, pn[i]);
      var t: nat := carry + f * pn[i];
      ghost var before := pn[..];
      MulStep(Prefix(before, i), Prefix(was, i), carry, was[i], f, Weight(i));
      pn[i] := t % BASE;
      PrefixSame(before, pn[..], i);
      carry := t / BASE;
      i := i + 1;
    }
    PrefixBound(pn[..], n);
    IsRemainder(Value(was) * f, Value(pn[..]), carry, Weight(n));
  }

  /** The 64 bit intermediate product cannot overflow, and its carry is a limb again. */
  lemma ProductFits(carry: nat, f: Limb, x: Limb)
    requires carry < BASE
    ensures 0 <= f * x && carry + f * x < BASE * BASE && (carry + f * x) / BASE < BASE
  {
    assert f * x <= (BASE - 1) * (BASE - 1) by {
      MulLe(f, BASE - 1, x);
      MulLe(x, BASE - 1, BASE - 1);
    }
  }

  lemma MulStep(p: nat, x: nat, carry: nat, a: Limb, f: Limb, w: nat)
    requires p + carry * w == x * f && 0 <= f * a
    ensures var t: nat := carry + f * a; p + (t % BASE) * w + (t / BASE) * (BASE * w) == (x + a * w) * f
  {
    var t: nat := carry + f * a;
    CarrySplit(t, w);
    assert t * w == carry * w + (f * a) * w;
    assert (f * a) * w == (a * w) * f;
    assert (x + a * w) * f == x * f + (a * w) * f;
  }

  // ---------------------------------------------------------------- bit length

  /** Testing one bit, `pn[pos] & 1 << nbits`. */
  predicate TestBit(x: nat, b: nat) {
    And(x, Pow2(b)) != 0
  }

  /** Below 2^(b+1), bit `b` is set exactly from 2^b on. */
  lemma {:induction false} TopBit(x: nat, b: nat)
    requires x < 2 * Pow2(b)
    ensures TestBit(x, b) <==> x >= Pow2(b)
    decreases b
  {
    if b > 0 {
      TopBit(x / 2, b - 1);
    }
  }

  /** `v` has exactly `b` significant bits. */
  ghost predicate HasBits(v: nat, b: nat) {
    v < Pow2(b) && (b > 0 ==> Pow2(b - 1) <= v)
  }

  /** `bits`: the position of the highest set bit plus one, or zero. */
  method BitCount(a: array<Limb>) returns (b: nat)
    ensures HasBits(Value(a[..]), b) && b <= 32 * a.Length
  {
    Pow2Values();
    var pos := a.Length;
    while pos > 0
      invariant 0 <= pos <= a.Length && forall j :: pos <= j < a.Length ==> a[j] == 0
    {
      pos := pos - 1;
      if a[pos] != 0 {
        var nbits := 31;
        while nbits > 0
          invariant 0 <= nbits <= 31 && a[pos] < Pow2(nbits + 1)
        {
          TopBit(a[pos], nbits);
          if TestBit(a[pos], nbits) {
            BitsAt(a[..], pos, nbits);
            return 32 * pos + nbits + 1;
          }
          nbits := nbits - 1;
        }
        BitsAt(a[..], pos, 0);
        return 32 * pos + 1;
      }
    }
    ZeroAbove(a[..], 0, a.Length);
    b := 0;
  }

  lemma {:induction false} ZeroAbove(s: seq<Limb>, i: nat, n: nat)
    requires i <= n <= |s| && forall j :: i <= j < n ==> s[j] == 0
    ensures Prefix(s, n) == Prefix(s, i)
    decreases n
  {
    if n > i {
      ZeroAbove(s, i, n - 1);
    }
  }

  lemma BitsAt(s: seq<Limb>, pos: nat, nbits: nat)
    requires pos < |s| && nbits <= 31 && Pow2(nbits) <= s[pos] < Pow2(nbits + 1)
    requires forall j :: pos < j < |s| ==> s[j] == 0
    ensures HasBits(Value(s), 32 * pos + nbits + 1)
  {
    ZeroAbove(s, pos + 1, |s|);
    PrefixBound(s, pos);
    WeightIsPow2(pos);
    Pow2Add(nbits, 32 * pos);
    Pow2Add(nbits + 1, 32 * pos);
    Scaled(Prefix(s, pos), s[pos], Weight(pos), Pow2(nbits), Pow2(nbits + 1));
  }

  lemma Scaled(pre: nat, x: nat, w: nat, lo: nat, hi: nat)
    requires pre < w && lo <= x < hi
    ensures lo * w <= pre + x * w < hi * w
  {
    MulLe(lo, x, w);
    MulLe(x + 1, hi, w);
    assert (x + 1) * w == x * w + w;
  }

  // ---------------------------------------------------------------- left shift

  /** The two parts into which shifting by `s` < 32 splits a limb. */
  function Low(x: Limb, s: nat): Limb {
    x * Pow2(s) % BASE
  }

  function High(x: Limb, s: nat): nat
    requires s <= 32
  {
    var d := Pow2(32 - s);
    DivNonneg(x, d);
    x / d
  }

  lemma DivNonneg(x: nat, d: nat)
    requires d > 0
    ensures x / d >= 0
  {
  }

  /** Low and high part weigh what the limb weighs after the shift; the low part is a
      multiple of 2^s and the high part is below 2^s. */
  lemma SplitLimb(x: Limb, s: nat)
    requires s < 32
    ensures x * Pow2(s) == High(x, s) * BASE + Low(x, s)
    ensures High(x, s) < Pow2(s)
    ensures Low(x, s) == (x % Pow2(32 - s)) * Pow2(s)
    ensures Low(x, s) + Pow2(s) <= BASE
  {
    Pow2Values();
    Pow2Add(32 - s, s);
    SplitBy(x, Pow2(s), Pow2(32 - s));
  }

  lemma SplitBy(x: Limb, p: nat, d: nat)
    requires p >= 1 && d >= 1 && d * p == BASE
    ensures x * p == (x / d) * BASE + x * p % BASE && x / d < p
    ensures x * p % BASE == (x % d) * p && (x % d) * p + p <= BASE
  {
    var q, r := x / d, x % d;
    ShiftedParts(q, r, d, p);
    IsRemainder(x * p, r * p, q, BASE);
    QuotientSmall(x, p, d);
  }

  lemma QuotientSmall(x: nat, p: nat, d: nat)
    requires d >= 1 && x < d * p
    ensures x / d < p
  {
    var q := x / d;
    assert x == q * d + x % d;
    if q >= p {
      MulLe(p, q, d);
    }
  }

  lemma ShiftedParts(q: nat, r: nat, d: nat, p: nat)
    requires r < d
    ensures (q * d + r) * p == q * (d * p) + r * p
    ensures r * p + p <= d * p
  {
    assert (q * d + r) * p == (q * d) * p + r * p;
    assert (q * d) * p == q * (d * p);
    MulLe(r + 1, d, p);
    assert (r + 1) * p == r * p + p;
  }

  /** After limbs `0..i` of `a` went through the loop, limbs below `i + k` are final and the
      next one holds the pending high part. */
  ghost predicate Shifted(s: seq<Limb>, a: seq<Limb>, k: nat, sh: nat, i: nat)
    requires sh < 32
  {
    && |s| == |a| && i <= |a|
    && (forall j :: 0 <= j < k && j < |s| ==> s[j] == 0)
    && (forall j :: i + k < j < |s| ==> s[j] == 0)
    && (i + k < |s| ==> s[i + k] == if i == 0 then 0 else High(a[i - 1], sh))
    && (i + k <= |s| ==>
          Prefix(s, i + k) + (if i == 0 then 0 else High(a[i - 1], sh)) * Weight(i + k)
          == Prefix(a, i) * (Pow2(sh) * Weight(k)))
  }

  /** `operator<<=`, modulo 2^(32 n). */
  method ShiftLeft(pn: array<Limb>, shift: nat)
    modifies pn
    ensures Value(pn[..]) == (old(Value(pn[..])) * Pow2(shift)) % Weight(pn.Length)
  {
    var n := pn.Length;
    var a := pn[..];
    Clear(pn);
    var k, sh := shift / 32, shift % 32;
    ShiftedStart(pn[..], a, k, sh);
    var i := 0;
    while i < n
      invariant 0 <= i <= n
      invariant Shifted(pn[..], a, k, sh, Done(n, k, i))
    {
      ShiftLeftLimb(pn, a, k, sh, i);
      i := i + 1;
    }
    ShiftedEnd(pn[..], a, k, sh, shift);
  }

  /** How many of the first `i` limbs are not shifted out. */
  function Done(n: nat, k: nat, i: nat): nat {
    if i + k <= n then i else if k <= n then n - k else 0
  }

  method Clear(pn: array<Limb>)
    modifies pn
    ensures forall j :: 0 <= j < pn.Length ==> pn[j] == 0
  {
    var z := 0;
    while z < pn.Length
      invariant 0 <= z <= pn.Length && forall j :: 0 <= j < z ==> pn[j] == 0
    {
      pn[z] := 0;
      z := z + 1;
    }
  }

  /** The body of the left-shift loop for limb `i`. */
  method ShiftLeftLimb(pn: array<Limb>, a: seq<Limb>, k: nat, sh: nat, i: nat)
    requires pn.Length == |a| && i < |a| && sh < 32 && Shifted(pn[..], a, k, sh, Done(|a|, k, i))
    modifies pn
    ensures Shifted(pn[..], a, k, sh, Done(|a|, k, i + 1))
  {
    if i + k >= pn.Length {
      return;
    }
    ghost var before, pending := pn[..], if i == 0 then 0 else High(a[i - 1], sh);
    PendingSmall(a, i, sh);
    OrLow(a[i], pending, sh);
    OrZero(High(a[i], sh));
    if i + k + 1 < pn.Length && sh != 0 {
      OrInto(pn, i + k + 1, High(a[i], sh));
    }
    OrInto(pn, i + k, Low(a[i], sh));
    ShiftedStep(before, pn[..], a, k, sh, i);
  }

  /** `pn[at] |= v`. */
  method OrInto(pn: array<Limb>, at: nat, v: nat)
    requires at < pn.Length && Or(pn[at], v) < BASE
    modifies pn
    ensures pn[..] == old(pn[..])[at := Or(old(pn[at]), v)]
  {
    pn[at] := Or(pn[at], v);
  }

  lemma PendingSmall(a: seq<Limb>, i: nat, sh: nat)
    requires i < |a| && sh < 32
    ensures (if i == 0 then 0 else High(a[i - 1], sh)) < Pow2(sh) && (sh == 0 ==> High(a[i], sh) == 0)
  {
    if i > 0 {
      SplitLimb(a[i - 1], sh);
    }
    if sh == 0 {
      SplitLimb(a[i], 0);
    }
  }

  lemma OrLow(x: Limb, pending: nat, sh: nat)
    requires sh < 32 && pending < Pow2(sh)
    ensures Or(pending, Low(x, sh)) == pending + Low(x, sh) < BASE
    ensures High(x, sh) < BASE
  {
    SplitLimb(x, sh);
    OrDisjoint(x % Pow2(32 - sh), pending, sh);
    Pow2Monotone(sh, 32);
    Pow2Values();
  }

  lemma ShiftedStart(s: seq<Limb>, a: seq<Limb>, k: nat, sh: nat)
    requires sh < 32 && |s| == |a| && forall j :: 0 <= j < |s| ==> s[j] == 0
    ensures Shifted(s, a, k, sh, 0)
  {
    if k <= |s| {
      ZeroPrefix(s, k);
    }
  }

  lemma ShiftedStep(before: seq<Limb>, s: seq<Limb>, a: seq<Limb>, k: nat, sh: nat, i: nat)
    requires sh < 32 && i < |a| == |s| && i + k < |s| && Shifted(before, a, k, sh, i)
    requires s[i + k] == (if i == 0 then 0 else High(a[i - 1], sh)) + Low(a[i], sh)
    requires i + k + 1 < |s| ==> s[i + k + 1] == High(a[i], sh)
    requires forall j :: 0 <= j < |s| && j != i + k && j != i + k + 1 ==> s[j] == before[j]
    ensures Shifted(s, a, k, sh, i + 1)
  {
    var pending := if i == 0 then 0 else High(a[i - 1], sh);
    PrefixSame(before, s, i + k);
    SplitLimb(a[i], sh);
    WeightAdd(i, k);
    ShlStep(Prefix(before, i + k), Prefix(a, i), pending, a[i], High(a[i], sh), Low(a[i], sh), Pow2(sh), Weight(i),
            Weight(k), Weight(i + k));
  }

  lemma ShlStep(p: nat, x: nat, pending: nat, a: Limb, hi: nat, lo: Limb, d: nat, wi: nat, wk: nat, w: nat)
    requires w == wi * wk && a * d == hi * BASE + lo
    requires p + pending * w == x * (d * wk)
    ensures p + (pending + lo) * w + hi * (BASE * w) == (x + a * wi) * (d * wk)
  {
    assert (pending + lo) * w == pending * w + lo * w;
    assert hi * (BASE * w) == (hi * BASE) * w;
    assert (hi * BASE) * w + lo * w == (hi * BASE + lo) * w;
    assert (a * d) * (wi * wk) == (a * wi) * (d * wk) by { Swap4(a, d, wi, wk); }
    assert (x + a * wi) * (d * wk) == x * (d * wk) + (a * wi) * (d * wk);
  }

  lemma Swap4(a: int, b: int, c: int, d: int)
    ensures (a * b) * (c * d) == (a * c) * (b * d)
  {
    assert (a * b) * (c * d) == a * (b * (c * d));
    assert b * (c * d) == c * (b * d) by { Rotate(b, c, d); }
    assert a * (c * (b * d)) == (a * c) * (b * d);
  }

  lemma Rotate(b: int, c: int, d: int)
    ensures b * (c * d) == c * (b * d)
  {
    assert b * (c * d) == (b * c) * d;
    assert c * (b * d) == (c * b) * d;
  }

  lemma {:induction false} SplitPrefix(a: seq<Limb>, m: nat, n: nat) returns (rest: nat)
    requires m <= n <= |a|
    ensures Prefix(a, n) == Prefix(a, m) + rest * Weight(m)
    decreases n
  {
    if n == m {
      rest := 0;
    } else {
      var r := SplitPrefix(a, m, n - 1);
      rest := r + a[n - 1] * Weight(n - 1 - m);
      WeightAdd(n - 1 - m, m);
      Assoc(a[n - 1], Weight(n - 1 - m), Weight(m));
      assert (r + a[n - 1] * Weight(n - 1 - m)) * Weight(m)
             == r * Weight(m) + (a[n - 1] * Weight(n - 1 - m)) * Weight(m);
    }
  }

  lemma ShiftedEnd(s: seq<Limb>, a: seq<Limb>, k: nat, sh: nat, shift: nat)
    requires shift == 32 * k + sh && sh < 32 && |s| == |a|
    requires Shifted(s, a, k, sh, if k <= |a| then |a| - k else 0)
    ensures Value(s) == (Value(a) * Pow2(shift)) % Weight(|s|)
  {
    var n := |s|;
    WeightIsPow2(k);
    Pow2Add(sh, 32 * k);
    PrefixBound(s, n);
    if k <= n {
      var m := n - k;
      var rest := SplitPrefix(a, m, n);
      var hi := if m == 0 then 0 else High(a[m - 1], sh);
      WeightAdd(m, k);
      ShlEnd(Value(s), hi, Prefix(a, m), rest, Value(a), Pow2(sh), Weight(m), Weight(k), Weight(n));
      IsRemainder(Value(a) * Pow2(shift), Value(s), hi + rest * Pow2(sh), Weight(n));
    } else {
      ZeroPrefix(s, n);
      WeightAdd(k - n, n);
      Assoc(Value(a) * Pow2(sh), Weight(k - n), Weight(n));
      Assoc(Value(a), Pow2(sh), Weight(k));
      IsRemainder(Value(a) * Pow2(shift), 0, (Value(a) * Pow2(sh)) * Weight(k - n), Weight(n));
    }
  }

  lemma ShlEnd(v: nat, hi: nat, low: nat, rest: nat, all: nat, d: nat, wm: nat, wk: nat, w: nat)
    requires w == wm * wk && v + hi * w == low * (d * wk) && all == low + rest * wm
    ensures all * (d * wk) == v + (hi + rest * d) * w
  {
    assert (low + rest * wm) * (d * wk) == low * (d * wk) + (rest * wm) * (d * wk);
    Swap4(rest, wm, d, wk);
    assert (hi + rest * d) * w == hi * w + (rest * d) * w;
  }
}
