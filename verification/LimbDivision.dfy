/** Right shift and the shift-subtract division of `arith_uint256.cpp`.
 */
module LimbDivision {
  import opened Bits
  import opened Limbs

  // ---------------------------------------------------------------- right shift

  /** The number held by limbs `k..i`. */
  function Window(a: seq<Limb>, k: nat, i: nat): nat
    requires i <= |a|
  {
    if i <= k then 0 else Window(a, k, i - 1) + a[i - 1] * Weight(i - 1 - k)
  }

  lemma {:induction false} SplitWindow(a: seq<Limb>, k: nat, i: nat)
    requires k <= i <= |a|
    ensures Prefix(a, i) == Prefix(a, k) + Window(a, k, i) * Weight(k)
    decreases i
  {
    if i > k {
      SplitWindow(a, k, i - 1);
      WeightAdd(i - 1 - k, k);
      AddScaled(Window(a, k, i - 1), a[i - 1], Weight(i - 1 - k), Weight(k));
    }
  }

  lemma AddScaled(v: nat, x: nat, u: nat, w: nat)
    ensures (v + x * u) * w == v * w + x * (u * w)
  {
    Assoc(x, u, w);
    assert (v + x * u) * w == v * w + (x * u) * w;
  }

  /** After limbs `0..i` of `a` went through the loop. */
  ghost predicate ShiftedDown(s: seq<Limb>, a: seq<Limb>, k: nat, sh: nat, i: nat)
    requires sh < 32
  {
    && |s| == |a| && i <= |a|
    && (i <= k ==> forall t :: 0 <= t < |s| ==> s[t] == 0)
    && (i > k ==>
          && (forall t :: i - k <= t < |s| ==> s[t] == 0)
          && s[i - k - 1] == a[i - 1] / Pow2(sh)
          && Pow2(sh) * Prefix(s, i - k) + a[k] % Pow2(sh) == Window(a, k, i))
  }

  /** `operator>>=`. */
  method ShiftRight(pn: array<Limb>, shift: nat)
    modifies pn
    ensures Value(pn[..]) == old(Value(pn[..])) / Pow2(shift)
  {
    var n := pn.Length;
    var a := pn[..];
    Clear(pn);
    var k, sh := shift / 32, shift % 32;
    var i := 0;
    while i < n
      invariant 0 <= i <= n && ShiftedDown(pn[..], a, k, sh, i)
    {
      ShiftRightLimb(pn, a, k, sh, i);
      i := i + 1;
    }
    ShiftedDownEnd(pn[..], a, k, sh, shift);
  }

  /** The body of the right-shift loop for limb `i`. */
  method ShiftRightLimb(pn: array<Limb>, a: seq<Limb>, k: nat, sh: nat, i: nat)
    requires pn.Length == |a| && i < |a| && sh < 32 && ShiftedDown(pn[..], a, k, sh, i)
    modifies pn
    ensures ShiftedDown(pn[..], a, k, sh, i + 1)
  {
    ghost var before := pn[..];
    HalfLimb(a[i], sh);
    if i - k - 1 >= 0 && sh != 0 {
      OrHigh(a[i], a[i - 1], sh);
      pn[i - k - 1] := Or(pn[i - k - 1], a[i] * Pow2(32 - sh) % BASE);
    }
    if i - k >= 0 {
      OrZero(a[i] / Pow2(sh));
      pn[i - k] := Or(pn[i - k], a[i] / Pow2(sh));
      if i == k {
        FirstDown(pn[..], a, k, sh);
      } else {
        ShiftedDownStep(before, pn[..], a, k, sh, i);
      }
    }
  }

  lemma HalfLimb(x: Limb, sh: nat)
    ensures 0 <= x / Pow2(sh) < BASE && x == (x / Pow2(sh)) * Pow2(sh) + x % Pow2(sh)
  {
    HalfBy(x, Pow2(sh));
  }

  lemma HalfBy(x: Limb, d: nat)
    requires d >= 1
    ensures 0 <= x / d < BASE && x == (x / d) * d + x % d
  {
    DivNonneg(x, d);
    MulLe(1, d, BASE);
    QuotientSmall(x, BASE, d);
  }

  /** The bits coming in from the limb above land above those already there. */
  lemma OrHigh(x: Limb, below: Limb, sh: nat)
    requires 0 < sh < 32
    ensures x * Pow2(32 - sh) % BASE == (x % Pow2(sh)) * Pow2(32 - sh)
    ensures 0 <= below / Pow2(sh)
    ensures Or(below / Pow2(sh), (x % Pow2(sh)) * Pow2(32 - sh))
            == below / Pow2(sh) + (x % Pow2(sh)) * Pow2(32 - sh) < BASE
  {
    Pow2Values();
    Pow2Add(sh, 32 - sh);
    OrHighBy(x, below, 32 - sh, Pow2(sh), Pow2(32 - sh));
  }

  lemma OrHighBy(x: Limb, below: Limb, n: nat, d: nat, e: nat)
    requires d > 0 && e == Pow2(n) && d * e == BASE
    ensures x * e % BASE == (x % d) * e
    ensures 0 <= below / d && Or(below / d, (x % d) * e) == below / d + (x % d) * e < BASE
  {
    SplitBy(x, e, d);
    QuotientSmall(below, e, d);
    DivNonneg(below, d);
    OrParts(x % d, below / d, n, e);
  }

  lemma OrParts(high: nat, low: nat, n: nat, e: nat)
    requires e == Pow2(n) && low < e && high * e + e <= BASE
    ensures Or(low, high * e) == low + high * e < BASE
  {
    OrDisjoint(high, low, n);
  }

  lemma FirstDown(s: seq<Limb>, a: seq<Limb>, k: nat, sh: nat)
    requires sh < 32 && k < |a| == |s| && s[0] == a[k] / Pow2(sh) && forall t :: 1 <= t < |s| ==> s[t] == 0
    ensures ShiftedDown(s, a, k, sh, k + 1)
  {
    HalfLimb(a[k], sh);
    assert Prefix(s, 1) == Prefix(s, 0) + s[0] * Weight(0) == s[0];
    assert Window(a, k, k + 1) == Window(a, k, k) + a[k] * Weight(0) == a[k];
    assert Pow2(sh) * s[0] == s[0] * Pow2(sh);
  }

  lemma ShiftedDownStep(before: seq<Limb>, s: seq<Limb>, a: seq<Limb>, k: nat, sh: nat, i: nat)
    requires sh < 32 && k < i < |a| == |s| && ShiftedDown(before, a, k, sh, i)
    requires s[i - k - 1] == a[i - 1] / Pow2(sh) + (if sh == 0 then 0 else (a[i] % Pow2(sh)) * Pow2(32 - sh))
    requires s[i - k] == a[i] / Pow2(sh)
    requires forall t :: 0 <= t < |s| && t != i - k - 1 && t != i - k ==> s[t] == before[t]
    ensures ShiftedDown(s, a, k, sh, i + 1)
  {
    var d, e := Pow2(sh), Pow2(32 - sh);
    assert d * e == BASE by {
      Pow2Values();
      Pow2Add(sh, 32 - sh);
    }
    HalfLimb(a[i], sh);
    DownEquation(before, s, a, k, i, d, e, a[i] % d, a[k] % d);
  }

  /** The equation of the invariant for one more limb. */
  lemma DownEquation(before: seq<Limb>, s: seq<Limb>, a: seq<Limb>, k: nat, i: nat, d: nat, e: nat, r: nat, c: nat)
    requires k < i < |a| == |s| == |before| && d * e == BASE && d * Prefix(before, i - k) + c == Window(a, k, i)
    requires s[i - k - 1] == before[i - k - 1] + r * e && a[i] == s[i - k] * d + r
    requires forall t :: 0 <= t < i - k - 1 ==> s[t] == before[t]
    ensures d * Prefix(s, i + 1 - k) + c == Window(a, k, i + 1)
  {
    var j := i - k;
    PrefixSame(before, s, j - 1);
    var p, prev, w := Prefix(s, j - 1), before[j - 1], Weight(j - 1);
    assert Prefix(before, j) == p + prev * w;
    assert Prefix(s, j + 1) == p + s[j - 1] * w + s[j] * (BASE * w);
    ShrStep(p, prev, s[j], r, d, e, w, c, Window(a, k, i));
  }

  lemma ShrStep(p: nat, prev: nat, q: nat, r: nat, d: nat, e: nat, w: nat, c: nat, v: nat)
    requires d * e == BASE && d * (p + prev * w) + c == v
    ensures d * (p + (prev + r * e) * w + q * (BASE * w)) + c == v + (q * d + r) * (BASE * w)
  {
    var b := BASE * w;
    assert (prev + r * e) * w == prev * w + (r * e) * w;
    assert d * (p + (prev * w + (r * e) * w) + q * b) == d * (p + prev * w) + d * ((r * e) * w) + d * (q * b);
    assert d * ((r * e) * w) == r * b by {
      assert d * ((r * e) * w) == (d * (r * e)) * w;
      Rotate(d, r, e);
      assert (r * (d * e)) * w == r * ((d * e) * w);
    }
    assert d * (q * b) == (q * d) * b;
    assert (q * d + r) * b == (q * d) * b + r * b;
  }

  lemma ShiftedDownEnd(s: seq<Limb>, a: seq<Limb>, k: nat, sh: nat, shift: nat)
    requires shift == 32 * k + sh && sh < 32 && ShiftedDown(s, a, k, sh, |a|)
    ensures Value(s) == Value(a) / Pow2(shift)
  {
    var n, d := |a|, Pow2(sh);
    WeightIsPow2(k);
    Pow2Add(sh, 32 * k);
    if n <= k {
      ZeroPrefix(s, n);
      PrefixBound(a, n);
      WeightAdd(k - n, n);
      TooSmall(Value(a), Weight(n), Weight(k - n), d, Pow2(shift));
    } else {
      ZeroAbove(s, n - k, n);
      SplitWindow(a, k, n);
      PrefixBound(a, k);
      ShrEnd(Value(s), a[k] % d, Prefix(a, k), d, Weight(k), Value(a));
    }
  }

  lemma TooSmall(v: nat, w: nat, u: nat, d: nat, p: nat)
    requires v < w && u >= 1 && d >= 1 && p == d * (u * w)
    ensures v / p == 0
  {
    MulLe(1, u, w);
    MulLe(1, d, u * w);
    DivUnique(v, p, 0);
  }

  lemma ShrEnd(v: nat, c: nat, low: nat, d: nat, w: nat, all: nat)
    requires c < d && low < w && all == low + (d * v + c) * w
    ensures all / (d * w) == v
  {
    var m := d * w;
    assert (d * v + c) * w == (d * v) * w + c * w;
    assert (d * v) * w == v * m by { Rotate(d, v, w); assert (d * v) * w == d * (v * w); }
    MulLe(c + 1, d, w);
    assert (c + 1) * w == c * w + w;
    assert (v + 1) * m == v * m + m;
    DivUnique(all, m, v);
  }

  // ---------------------------------------------------------------- division

  /** All bits of `s` below position `b` are clear. */
  ghost predicate LowBitsZero(s: seq<Limb>, b: nat) {
    && (forall t :: 0 <= t < |s| && t < b / 32 ==> s[t] == 0)
    && (b / 32 < |s| ==> s[b / 32] % Pow2(b % 32) == 0)
  }

  /** `pn[shift / 32] |= 1 << (shift & 31)` on a number with no bit at or below that one. */
  method SetBit(pn: array<Limb>, shift: nat)
    requires shift < 32 * pn.Length && LowBitsZero(pn[..], shift + 1)
    modifies pn
    ensures Value(pn[..]) == old(Value(pn[..])) + Pow2(shift)
    ensures LowBitsZero(pn[..], shift)
  {
    var j, b := shift / 32, shift % 32;
    ghost var was := pn[..];
    OrBit(was, shift);
    pn[j] := Or(pn[j], Pow2(b));
    BitAdded(was, pn[..], j, b, shift);
  }

  lemma OrBit(s: seq<Limb>, shift: nat)
    requires shift < 32 * |s| && LowBitsZero(s, shift + 1)
    ensures var x, b := s[shift / 32], shift % 32;
            && Or(x, Pow2(b)) == x + Pow2(b) < BASE
            && (x + Pow2(b)) % Pow2(b) == 0
  {
    var x, b := s[shift / 32], shift % 32;
    if b == 31 {
      assert (shift + 1) / 32 == shift / 32 + 1;
    } else {
      assert (shift + 1) / 32 == shift / 32 && (shift + 1) % 32 == b + 1;
    }
    OrBitLimb(x, b);
  }

  lemma OrBitLimb(x: Limb, b: nat)
    requires b < 32 && (b == 31 ==> x == 0) && (b < 31 ==> x % Pow2(b + 1) == 0)
    ensures Or(x, Pow2(b)) == x + Pow2(b) < BASE && (x + Pow2(b)) % Pow2(b) == 0
  {
    if b == 31 {
      Pow2Values();
      OrZero(Pow2(31));
    } else {
      var q := x / Pow2(b + 1);
      assert x == q * Pow2(b + 1);
      OrDisjoint(q, Pow2(b), b + 1);
      Pow2Values();
      Pow2Add(31 - b, b + 1);
      BitFits(x, q, Pow2(31 - b), Pow2(b));
    }
  }

  lemma BitFits(x: Limb, q: nat, m: nat, p: nat)
    requires p >= 1 && x == q * (2 * p) && m * (2 * p) == BASE
    ensures x + p < BASE && (x + p) % p == 0
  {
    if q >= m {
      MulLe(m, q, 2 * p);
    }
    MulLe(q + 1, m, 2 * p);
    assert (q + 1) * (2 * p) == q * (2 * p) + 2 * p;
    OddMultiple(x, q, p);
  }

  lemma OddMultiple(x: nat, q: nat, p: nat)
    requires p >= 1 && x == q * (2 * p)
    ensures (x + p) % p == 0
  {
    assert q * (2 * p) == (2 * q) * p;
    assert (2 * q + 1) * p == (2 * q) * p + p;
    IsRemainder(x + p, 0, 2 * q + 1, p);
  }

  lemma BitAdded(was: seq<Limb>, s: seq<Limb>, j: nat, b: nat, shift: nat)
    requires shift == 32 * j + b && b < 32 && j < |was| == |s| && LowBitsZero(was, shift + 1)
    requires s[j] == was[j] + Pow2(b) && s[j] % Pow2(b) == 0 && forall t :: 0 <= t < |s| && t != j ==> s[t] == was[t]
    ensures Value(s) == Value(was) + Pow2(shift) && LowBitsZero(s, shift)
  {
    assert shift / 32 == j && shift % 32 == b;
    assert (shift + 1) / 32 >= j;
    Pow2Add(b, 32 * j);
    WeightIsPow2(j);
    RaisedBy(was, s, j, Pow2(b), |s|);
  }

  lemma {:induction false} RaisedBy(was: seq<Limb>, s: seq<Limb>, j: nat, d: nat, n: nat)
    requires j < n <= |was| == |s| && s[j] == was[j] + d && forall t :: 0 <= t < n && t != j ==> s[t] == was[t]
    ensures Prefix(s, n) == Prefix(was, n) + d * Weight(j)
    decreases n
  {
    if n == j + 1 {
      PrefixSame(was, s, j);
      assert (was[j] + d) * Weight(j) == was[j] * Weight(j) + d * Weight(j);
    } else {
      RaisedBy(was, s, j, d, n - 1);
    }
  }

  /** The division invariant with `shift` quotient bits still to decide: what was removed so
      far is accounted for, and the remainder is below twice the shifted divisor. */
  ghost predicate Dividing(total: nat, divisor: nat, quotient: nat, rest: nat, bits: nat) {
    total == rest + quotient * divisor && rest < divisor * Pow2(bits)
  }

  lemma DivideStart(total: nat, divisor: nat, nb: nat, db: nat)
    requires HasBits(total, nb) && HasBits(divisor, db) && 0 < db <= nb
    ensures divisor * Pow2(nb - db) < Pow2(nb)
    ensures Dividing(total, divisor, 0, total, nb - db + 1)
  {
    var p := Pow2(nb - db);
    Pow2Add(db, nb - db);
    MulLe(divisor + 1, Pow2(db), p);
    assert (divisor + 1) * p == divisor * p + p;
    MulLe(Pow2(db - 1), divisor, 2 * p);
    assert Pow2(db) == 2 * Pow2(db - 1);
    assert Pow2(db - 1) * (2 * p) == Pow2(db) * p;
    assert Pow2(nb - db + 1) == 2 * p;
  }

  lemma DivideStep(total: nat, divisor: nat, quotient: nat, rest: nat, shift: nat)
    requires Dividing(total, divisor, quotient, rest, shift + 1)
    ensures var d := divisor * Pow2(shift);
            && (rest >= d ==> Dividing(total, divisor, quotient + Pow2(shift), rest - d, shift))
            && (rest < d ==> Dividing(total, divisor, quotient, rest, shift))
  {
    var p := Pow2(shift);
    assert divisor * (2 * p) == 2 * (divisor * p);
    assert (quotient + p) * divisor == quotient * divisor + divisor * p;
  }

  lemma DivideEnd(total: nat, divisor: nat, quotient: nat, rest: nat)
    requires divisor > 0 && Dividing(total, divisor, quotient, rest, 0)
    ensures quotient == total / divisor && rest == total % divisor
  {
    assert divisor * 1 == divisor;
    assert (quotient + 1) * divisor == quotient * divisor + divisor;
    DivUnique(total, divisor, quotient);
    IsRemainder(total, rest, quotient, divisor);
  }

  lemma HalveShifted(divisor: nat, shift: nat)
    requires shift > 0
    ensures divisor * Pow2(shift) / Pow2(1) == divisor * Pow2(shift - 1)
  {
    var x := divisor * Pow2(shift - 1);
    assert divisor * Pow2(shift) == 2 * x;
    assert Pow2(1) == 2;
  }

  /** `operator/=`: the floor quotient, or failure (after the value was cleared) when the
      divisor is zero. */
  method DivAssign(pn: array<Limb>, b: seq<Limb>) returns (ok: bool)
    requires pn.Length == |b|
    modifies pn
    ensures ok <==> Value(b) != 0
    ensures ok ==> Value(pn[..]) == old(Value(pn[..])) / Value(b)
    ensures !ok ==> Value(pn[..]) == 0
  {
    ghost var total, divisor := Value(pn[..]), Value(b);
    var div := Copy(b);
    var num := Copy(pn[..]);
    Clear(pn);
    ZeroPrefix(pn[..], pn.Length);
    var nb := BitCount(num);
    var db := BitCount(div);
    ok := db != 0;
    if !ok {
      return;
    }
    if db > nb {
      ShorterIsSmaller(total, divisor, nb, db);
      return;
    }
    DivideAligned(pn, num, div, nb, db);
  }

  lemma ShorterIsSmaller(total: nat, divisor: nat, nb: nat, db: nat)
    requires HasBits(total, nb) && HasBits(divisor, db) && nb < db
    ensures total / divisor == 0
  {
    Pow2Monotone(nb, db - 1);
    DivUnique(total, divisor, 0);
  }

  /** Align the divisor with the dividend, then subtract bit by bit. */
  method DivideAligned(pn: array<Limb>, num: array<Limb>, div: array<Limb>, nb: nat, db: nat)
    requires pn != num && pn != div && num != div && pn.Length == num.Length == div.Length
    requires HasBits(Value(num[..]), nb) && HasBits(Value(div[..]), db) && 0 < db <= nb <= 32 * pn.Length
    requires forall j :: 0 <= j < pn.Length ==> pn[j] == 0
    modifies pn, num, div
    ensures Value(pn[..]) == old(Value(num[..])) / old(Value(div[..]))
  {
    ghost var total, divisor := Value(num[..]), Value(div[..]);
    DivideStart(total, divisor, nb, db);
    var shift := nb - db;
    NoOverflow(divisor * Pow2(shift), nb, pn.Length);
    ShiftLeft(div, shift);
    ZeroPrefix(pn[..], pn.Length);
    ZeroLowBits(pn[..], shift + 1);
    ghost var rest := DivideLoop(pn, num, div, shift, total, divisor);
    DivideEnd(total, divisor, Value(pn[..]), rest);
  }

  lemma ZeroLowBits(s: seq<Limb>, b: nat)
    requires forall j :: 0 <= j < |s| ==> s[j] == 0
    ensures LowBitsZero(s, b)
  {
    var d: nat := Pow2(b % 32);
    assert 0 % d == 0;
  }

  lemma NoOverflow(v: nat, nb: nat, n: nat)
    requires v < Pow2(nb) && nb <= 32 * n
    ensures v % Weight(n) == v
  {
    WeightIsPow2(n);
    Pow2Monotone(nb, 32 * n);
    IsRemainder(v, v, 0, Weight(n));
  }

  method Copy(s: seq<Limb>) returns (r: array<Limb>)
    ensures fresh(r) && r[..] == s
  {
    r := new Limb[|s|](i requires 0 <= i < |s| => s[i]);
  }

  /** The shift-subtract loop. */
  method DivideLoop(pn: array<Limb>, num: array<Limb>, div: array<Limb>, shift0: nat, ghost total: nat,
                    ghost divisor: nat)
    returns (ghost rest: nat)
    requires pn != num && pn != div && num != div && pn.Length == num.Length == div.Length && shift0 < 32 * pn.Length
    requires Value(div[..]) == divisor * Pow2(shift0)
    requires Dividing(total, divisor, Value(pn[..]), Value(num[..]), shift0 + 1)
    requires LowBitsZero(pn[..], shift0 + 1)
    modifies pn, num, div
    ensures Dividing(total, divisor, Value(pn[..]), rest, 0)
  {
    var shift: int := shift0;
    while shift >= 0
      invariant -1 <= shift <= shift0
      invariant shift >= 0 ==> Value(div[..]) == divisor * Pow2(shift)
      invariant Dividing(total, divisor, Value(pn[..]), Value(num[..]), shift + 1)
      invariant LowBitsZero(pn[..], shift + 1)
    {
      DivideStep(total, divisor, Value(pn[..]), Value(num[..]), shift);
      var c := CompareTo(num, div);
      if c >= 0 {
        Subtract(num, div);
        SetBit(pn, shift);
      } else {
        FewerLowBits(pn[..], shift);
      }
      ShiftRight(div, 1);
      if shift > 0 {
        HalveShifted(divisor, shift);
      }
      shift := shift - 1;
    }
    rest := Value(num[..]);
  }

  method Subtract(num: array<Limb>, div: array<Limb>)
    requires num != div && num.Length == div.Length && Value(num[..]) >= Value(div[..])
    modifies num
    ensures Value(num[..]) == old(Value(num[..])) - Value(div[..])
  {
    ghost var x, y := Value(num[..]), Value(div[..]);
    PrefixBound(num[..], num.Length);
    SubAssign(num, div[..]);
    IsRemainder(x - y, x - y, 0, Weight(num.Length));
  }

  lemma FewerLowBits(s: seq<Limb>, b: nat)
    requires LowBitsZero(s, b + 1)
    ensures LowBitsZero(s, b)
  {
    if b / 32 < |s| {
      var x, r := s[b / 32], b % 32;
      if r == 31 {
        assert (b + 1) / 32 == b / 32 + 1;
        assert x == 0;
      } else {
        assert (b + 1) / 32 == b / 32 && (b + 1) % 32 == r + 1;
        StillMultiple(x, Pow2(r));
      }
    }
  }

  lemma StillMultiple(x: nat, p: nat)
    requires p >= 1 && x % (2 * p) == 0
    ensures x % p == 0
  {
    var q := x / (2 * p);
    assert x == q * (2 * p) == (2 * q) * p;
    IsRemainder(x, 0, 2 * q, p);
  }
}
