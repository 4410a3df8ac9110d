/** Proof-of-work targets: the work a target stands for, the range check and retargeting,
    from `consensus.cpp` and `ChainManager::caculateChainWork`.
 */
module Difficulty {
  import opened Basics
  import opened Bits
  import opened Limbs
  import opened LimbDivision
  import opened Compact

  const LIMIT: int := 0xFFFF_FFFF_FFFF_FFFF_FFFF_FFFF_FFFF_FFFF_FFFF_FFFF_FFFF_FFFF_FFFF_FFFF_FFFF
  const LIMIT_LIMBS: seq<Limb> := [BASE - 1, BASE - 1, BASE - 1, BASE - 1, BASE - 1, BASE - 1, BASE - 1, 0xFFFF]
  const CYCLE: int := 1209600
  const CYCLE_BLOCKS: int := 2016

  lemma LimitValue()
    ensures Value(LIMIT_LIMBS) == LIMIT
  {
    FullPrefix(LIMIT_LIMBS, 7);
    assert Weight(7) == 0x1_0000_0000_0000_0000_0000_0000_0000_0000_0000_0000_0000_0000_0000_0000;
    assert Prefix(LIMIT_LIMBS, 8) == Prefix(LIMIT_LIMBS, 7) + 0xFFFF * Weight(7);
  }

  // ---------------------------------------------------------------- work

  /** A target that is neither negative nor zero nor overflowing. */
  predicate Usable(bits: U32) {
    !Negative(bits) && Target(bits) != 0 && !Overflow(bits)
  }

  /** The expected number of hashes for a target. */
  function Work(bits: U32): nat {
    if Usable(bits) then Quotient(TWO256, Target(bits) + 1) else 0
  }

  function Quotient(x: nat, d: nat): (q: nat)
    requires d > 0
  {
    DivNonneg(x, d);
    x / d
  }

  /** `target + 1` cannot wrap to zero: no compact stands for 2^256 - 1. */
  lemma TargetNotFull(bits: U32)
    ensures Target(bits) + 1 < TWO256
  {
    WordBound(bits);
    if Size(bits) > 3 {
      var k := 8 * (Size(bits) - 3);
      var half := Word(bits) * Pow2(k - 1);
      assert Exact(bits) == 2 * half;
      EvenRemainder(half);
    }
  }

  lemma EvenRemainder(half: nat)
    ensures (2 * half) % TWO256 != TWO256 - 1
  {
    var q := 2 * half / TWO256;
    assert 2 * half == q * TWO256 + (2 * half) % TWO256;
  }

  /** 2^256 / (t + 1) computed without representing 2^256. */
  lemma WorkFormula(t: nat, m: nat)
    requires 1 <= t && t + 1 < m
    ensures 0 <= (m - 1 - t) / (t + 1) && (m - 1 - t) / (t + 1) + 1 == m / (t + 1) < m
  {
    var d := t + 1;
    var q, r := (m - d) / d, (m - d) % d;
    DivNonneg(m - d, d);
    assert m - d == q * d + r;
    assert (q + 1) * d == q * d + d && (q + 2) * d == q * d + 2 * d;
    DivUnique(m, d, q + 1);
    MulLe(2, d, q + 1);
  }

  lemma WorkPositive(bits: U32)
    requires Usable(bits)
    ensures Work(bits) >= 1
  {
    TargetNotFull(bits);
    WorkFormula(Target(bits), TWO256);
  }

  /** Harder targets stand for at least as much work. */
  lemma WorkAntitone(a: U32, b: U32)
    requires Usable(a) && Usable(b) && Target(a) <= Target(b)
    ensures Work(a) >= Work(b)
  {
    QuotientAntitone(TWO256, Target(a) + 1, Target(b) + 1);
  }

  lemma QuotientAntitone(x: nat, d: nat, e: nat)
    requires 0 < d <= e
    ensures x / d >= x / e
  {
    var p, q := x / d, x / e;
    assert x == p * d + x % d && x == q * e + x % e;
    assert (p + 1) * d == p * d + d;
    if p < q {
      MulLe(p + 1, q, d);
      DivNonneg(x, e);
      MulLe(d, e, q);
    }
  }

  method Number(b: nat) returns (r: array<Limb>)
    requires b < BASE * BASE
    ensures fresh(r) && r.Length == 8 && Value(r[..]) == b
  {
    r := new Limb[8](_ => 0);
    Assign(r, b);
  }

  /** `equalTo(uint64_t)` against zero. */
  method IsZero(a: array<Limb>) returns (zero: bool)
    ensures zero <==> Value(a[..]) == 0
  {
    var i := a.Length;
    while i > 0
      invariant 0 <= i <= a.Length && forall j :: i <= j < a.Length ==> a[j] == 0
    {
      i := i - 1;
      if a[i] != 0 {
        HigherDecides(seq(a.Length, _ => 0), a[..], i, a.Length);
        return false;
      }
    }
    ZeroPrefix(a[..], a.Length);
    zero := true;
  }

  /** `caculateChainWork`: `~target / (target + 1) + 1`, or zero for an unusable target. */
  method ChainWork(bits: U32) returns (work: array<Limb>)
    ensures work.Length == 8 && Value(work[..]) == Work(bits)
  {
    var target := new Limb[8](_ => 0);
    var negative, overflow := SetCompact(target, bits);
    var zero := IsZero(target);
    if negative || zero || overflow {
      work := Number(0);
      return;
    }
    work := WorkOfTarget(target[..], bits);
  }

  method WorkOfTarget(target: seq<Limb>, ghost bits: U32) returns (work: array<Limb>)
    requires |target| == 8 && Usable(bits) && Value(target) == Target(bits)
    ensures work.Length == 8 && Value(work[..]) == Quotient(TWO256, Target(bits) + 1)
  {
    ghost var t := Target(bits);
    TargetNotFull(bits);
    WorkFormula(t, TWO256);
    Weight8();
    IsRemainder(t + 1, t + 1, 0, TWO256);
    IsRemainder(TWO256 / (t + 1), TWO256 / (t + 1), 0, TWO256);
    var one := Number(1);
    var divisor := Copy(target);
    AddAssign(divisor, one[..]);
    work := Not(target);
    var ok := DivAssign(work, divisor[..]);
    assert ok;
    AddAssign(work, one[..]);
  }

  // ---------------------------------------------------------------- range check

  /** The range check of `validProofOfWork`. */
  predicate InRange(bits: U32) {
    Usable(bits) && Target(bits) <= LIMIT
  }

  /** A target has work if and only if it reads as a positive number of 256 bits. */
  lemma UsableIff(bits: U32)
    ensures Usable(bits) <==> 0 < Reading(bits) < TWO256
    ensures Work(bits) > 0 <==> 0 < Reading(bits) < TWO256
    ensures Usable(bits) ==> Target(bits) == Reading(bits)
  {
    NegativeIff(bits);
    OverflowExact(bits);
    if Usable(bits) {
      WorkPositive(bits);
    }
  }

  /** The work is the greatest number of hashes whose product with the target plus one is within 2^256. */
  lemma WorkExact(bits: U32)
    requires 0 < Reading(bits) < TWO256
    ensures Work(bits) * (Reading(bits) + 1) <= TWO256 < (Work(bits) + 1) * (Reading(bits) + 1)
  {
    UsableIff(bits);
    Floors(TWO256, Reading(bits) + 1);
  }

  lemma Floors(x: nat, d: nat)
    requires d > 0
    ensures x / d * d <= x < (x / d + 1) * d
  {
    assert x == x / d * d + x % d;
  }

  /** The range check passes if and only if the bits read as a number from 1 to the limit. */
  lemma InRangeIff(bits: U32)
    ensures InRange(bits) <==> 0 < Reading(bits) <= LIMIT
  {
    UsableIff(bits);
  }

  /** So no bits with the sign set pass, whatever their mantissa. */
  lemma SignedNotInRange(bits: U32)
    requires bits % 0x100_0000 >= 0x80_0000
    ensures !InRange(bits) && Work(bits) == 0
  {
    UsableIff(bits);
    SignAndMantissa(bits);
    SignedMagnitude(bits);
  }

  lemma SignedReading(m: int, p: nat)
    requires m <= 0
    ensures m * p <= 0
  {
  }

  lemma SignedMagnitude(bits: U32)
    requires SignedMantissa(bits) <= 0
    ensures Reading(bits) <= 0
  {
    var m, size := SignedMantissa(bits), bits / 0x100_0000;
    if size > 3 {
      SignedReading(m, Pow2(8 * (size - 3)));
    } else {
      DivNonneg(-m, Pow2(8 * (3 - size)));
    }
  }

  /** `validProofOfWork`. */
  method ValidProofOfWork(hash: array<Limb>, bits: U32) returns (ok: bool)
    requires hash.Length == 8
    ensures ok <==> InRange(bits) && Value(hash[..]) <= Target(bits)
  {
    var target := new Limb[8](_ => 0);
    var negative, overflow := SetCompact(target, bits);
    var zero := IsZero(target);
    var limit := Copy(LIMIT_LIMBS);
    LimitValue();
    var c := CompareTo(target, limit);
    if negative || zero || overflow || c > 0 {
      return false;
    }
    c := CompareTo(hash, target);
    ok := c <= 0;
  }

  // ---------------------------------------------------------------- retargeting

  /** The clamped timespan: the difference of two timestamps as an unsigned 32 bit number,
      kept within a quarter and four times the cycle. Time running backwards counts as the
      longest timespan. */
  function Timespan(last: int, first: int): (r: nat)
    ensures CYCLE / 4 <= r <= 4 * CYCLE
    ensures CYCLE / 4 <= last - first <= 4 * CYCLE ==> r == last - first
    ensures 0 <= last - first <= CYCLE / 4 ==> r == CYCLE / 4
    ensures 4 * CYCLE <= last - first < 0x1_0000_0000 ==> r == 4 * CYCLE
    ensures -0x8000_0000 <= last - first < 0 ==> r == 4 * CYCLE
  {
    var diff := (last - first) % 0x1_0000_0000;
    if diff < CYCLE / 4 then CYCLE / 4 else if diff > 4 * CYCLE then 4 * CYCLE else diff
  }

  /** Time running backwards wraps around first. */
  lemma TimespanWraps(last: int, first: int)
    requires -0x1_0000_0000 < last - first < 0
    ensures var d := 0x1_0000_0000 + last - first;
            Timespan(last, first) == if d <= CYCLE / 4 then CYCLE / 4 else if d >= 4 * CYCLE then 4 * CYCLE else d
  {
    var d := 0x1_0000_0000 + last - first;
    assert (last - first) % 0x1_0000_0000 == d;
  }

  function Min(a: nat, b: nat): nat {
    if a <= b then a else b
  }

  /** The new target as the limbs compute it, with the product cut to 256 bits. */
  function NewTarget(prior: nat, timespan: nat): (r: nat)
    ensures r <= LIMIT
  {
    Min(LIMIT, prior * timespan % TWO256 / CYCLE)
  }

  /** The new target retargeting is meant to yield. */
  function IdealTarget(prior: nat, timespan: nat): (r: nat)
    ensures r <= LIMIT
  {
    Min(LIMIT, prior * timespan / CYCLE)
  }

  /** `calculateNextWorkTarget` once the first block of the cycle is known. */
  method CalculateNextWorkTarget(last: Header, first: Header) returns (c: U32)
    ensures c == NextBits(last, first)
  {
    var diff: nat := (last.time - first.time) % 0x1_0000_0000;
    if diff < CYCLE / 4 {
      diff := CYCLE / 4;
    }
    if diff > 4 * CYCLE {
      diff := 4 * CYCLE;
    }
    c := ScaleBits(last.bits, diff);
  }

  method ScaleBits(bits: U32, diff: Limb) returns (c: U32)
    ensures c == NewBits(Target(bits), diff)
  {
    var bnNew := new Limb[8](_ => 0);
    var _, _ := SetCompact(bnNew, bits);
    ScaleTarget(bnNew, diff);
    EncodeFits(NewTarget(Target(bits), diff));
    c := GetCompact(bnNew, false);
  }

  /** Multiply, divide, and cap at the limit. */
  method ScaleTarget(bnNew: array<Limb>, diff: Limb)
    requires bnNew.Length == 8
    modifies bnNew
    ensures Value(bnNew[..]) == NewTarget(old(Value(bnNew[..])), diff)
  {
    Weight8();
    MulAssign(bnNew, diff);
    var cycle := Number(CYCLE);
    var _ := DivAssign(bnNew, cycle[..]);
    Cap(bnNew);
  }

  method Cap(bnNew: array<Limb>)
    requires bnNew.Length == 8
    modifies bnNew
    ensures Value(bnNew[..]) == Min(LIMIT, old(Value(bnNew[..])))
  {
    var limit := Copy(LIMIT_LIMBS);
    LimitValue();
    var c := CompareTo(bnNew, limit);
    if c > 0 {
      forall i | 0 <= i < 8 { bnNew[i] := limit[i]; }
      assert bnNew[..] == LIMIT_LIMBS;
    }
  }

  /** The bits `calculateNextWorkTarget` emits. */
  function NewBits(prior: nat, timespan: nat): U32 {
    EncodeFits(NewTarget(prior, timespan));
    Encode(NewTarget(prior, timespan), false)
  }

  function NextBits(last: Header, first: Header): U32 {
    NewBits(Target(last.bits), Timespan(last.time, first.time))
  }

  /** The next bits stand for the old target of the last block, scaled by the clamped time it took and
      rounded, if that product does not wrap. */
  lemma NextBitsScale(last: Header, first: Header, d: nat, p: nat)
    requires 0 < Reading(last.bits) < TWO256 && d == last.time - first.time && CYCLE / 4 <= d <= 4 * CYCLE
    requires p == Reading(last.bits) * d < TWO256
    ensures Target(NextBits(last, first)) == Rounded(p / CYCLE)
  {
    UsableIff(last.bits);
    NotCapped(p);
    ScaledBits(Target(last.bits), d);
    assert NextBits(last, first) == NewBits(Target(last.bits), d);
  }

  lemma ScaledBits(prior: nat, timespan: nat)
    requires prior < TWO256 && prior * timespan < TWO256
    ensures 0 <= prior * timespan / CYCLE < TWO256
    ensures Target(NewBits(prior, timespan)) == Rounded(prior * timespan / CYCLE)
  {
    RetargetExact(prior, timespan);
    NotCapped(prior * timespan);
  }

  lemma NotCapped(p: nat)
    requires p < TWO256
    ensures 0 <= p / CYCLE < TWO256 && Min(LIMIT, p / CYCLE) == p / CYCLE
  {
  }

  /** The emitted bits are the greatest compact target not above the intended one exactly when
      the 256 bit product does not wrap. */
  lemma RetargetExact(prior: nat, timespan: nat)
    requires prior < TWO256
    ensures Target(NewBits(prior, timespan)) == Rounded(IdealTarget(prior, timespan)) <==> prior * timespan < TWO256
  {
    var p := prior * timespan;
    if p < TWO256 {
      IsRemainder(p, p, 0, TWO256);
    } else {
      WrapHalves(p);
      var wrong, ideal := NewTarget(prior, timespan), IdealTarget(prior, timespan);
      RoundedAboveHalf(ideal);
      RoundedBelow(wrong);
    }
  }

  /** A wrapped product yields at most half of the intended target. */
  lemma WrapHalves(p: nat)
    requires p >= TWO256
    ensures 0 < Min(LIMIT, p / CYCLE) && 2 * Min(LIMIT, p % TWO256 / CYCLE) <= Min(LIMIT, p / CYCLE)
  {
    var r := p % TWO256;
    assert p >= r + TWO256;
    assert r / CYCLE <= TWO256 / CYCLE;
    assert 2 * (TWO256 / CYCLE) <= LIMIT;
    assert 2 * (r / CYCLE) <= (r + TWO256) / CYCLE <= p / CYCLE;
  }

  /** The cap never applies: a 256 bit product divided by the cycle is already below it, so
      no retarget reaches the initial limit again. */
  lemma CapNeverApplies(prior: nat, timespan: nat)
    ensures NewTarget(prior, timespan) == prior * timespan % TWO256 / CYCLE <= TWO256 / CYCLE < LIMIT
  {
    var r := prior * timespan % TWO256;
    assert r / CYCLE <= TWO256 / CYCLE < LIMIT;
  }

  /** The emitted bits pass the range check exactly when the computed target is not zero. */
  lemma RetargetInRange(prior: nat, timespan: nat)
    ensures InRange(NewBits(prior, timespan)) <==> prior * timespan % TWO256 >= CYCLE
  {
    var x := NewTarget(prior, timespan);
    EncodeFits(x);
    if x > 0 {
      RoundedAboveHalf(x);
    }
    PositiveQuotient(prior * timespan % TWO256);
  }

  lemma PositiveQuotient(x: nat)
    ensures Min(LIMIT, x / CYCLE) > 0 <==> x >= CYCLE
  {
  }

  /** The new target is at most four times the old one, wrapped or not. */
  lemma RetargetAtMostFourfold(prior: nat, timespan: nat)
    requires timespan <= 4 * CYCLE
    ensures Target(NewBits(prior, timespan)) <= 4 * prior
  {
    NewTargetFourfold(prior, timespan);
    NewBitsBelow(prior, timespan);
  }

  lemma NewTargetFourfold(prior: nat, timespan: nat)
    requires timespan <= 4 * CYCLE
    ensures NewTarget(prior, timespan) <= 4 * prior
  {
    MulLe(timespan, 4 * CYCLE, prior);
    WrapsDown(prior * timespan, prior);
  }

  lemma WrapsDown(p: nat, prior: nat)
    requires p <= 4 * CYCLE * prior
    ensures Min(LIMIT, p % TWO256 / CYCLE) <= 4 * prior
  {
    AtMostFourfold(p % TWO256, prior);
  }

  /** Without a wrap, from old targets of four on, the emitted bits pass the range check. */
  lemma RetargetBounds(prior: nat, timespan: nat)
    requires prior * timespan < TWO256 && CYCLE / 4 <= timespan && prior >= 4
    ensures InRange(NewBits(prior, timespan))
  {
    ReachesCycle(prior, timespan);
    IsRemainder(prior * timespan, prior * timespan, 0, TWO256);
    RetargetInRange(prior, timespan);
  }

  lemma ReachesCycle(prior: nat, timespan: nat)
    requires CYCLE / 4 <= timespan && prior >= 4
    ensures prior * timespan >= CYCLE
  {
    MulLe(CYCLE / 4, timespan, prior);
    assert CYCLE / 4 * prior >= CYCLE;
  }

  lemma AtMostFourfold(p: nat, prior: nat)
    requires p <= 4 * CYCLE * prior
    ensures p / CYCLE <= 4 * prior
  {
  }

  /** The target of the genesis block; its bits are the encoding of this number. */
  const GENESIS_TARGET: int := 0xFFFF_0000_0000_0000_0000_0000_0000_0000_0000_0000_0000_0000_0000_0000_0000

  /** Those bits are 0x1f00ffff, they stand for exactly that number, and pass the range check. */
  lemma GenesisBits(bits: nat)
    requires bits == Encode(GENESIS_TARGET, false)
    ensures bits == 0x1f00_ffff && Target(bits) == GENESIS_TARGET && InRange(bits)
  {
    FirstBits(0x1f00_ffff);
  }

  lemma FirstBits(c: U32)
    requires c == 0x1f00_ffff
    ensures Target(c) == GENESIS_TARGET && InRange(c) && Encode(GENESIS_TARGET, false) == c
  {
    assert Size(c) == 31 && Mantissa(c) == 0xffff && !SignBit(c) && !Overflow(c);
    assert Pow2(8 * 28) == 0x1_0000_0000_0000_0000_0000_0000_0000_0000_0000_0000_0000_0000_0000_0000 by {
      WeightIsPow2(7);
    }
    OverflowExact(c);
    assert Pow2(15) <= 0xffff by {
      Pow2Values();
      assert Pow2(16) == 2 * Pow2(15);
    }
    DecodeThenEncode(c);
  }

  /** The same bits with the sign set read as the negated target, are refused and have no work. */
  lemma GenesisNegated(bits: nat)
    requires bits == Encode(GENESIS_TARGET, true)
    ensures bits == 0x1f80_ffff && Reading(bits) == -GENESIS_TARGET && !InRange(bits) && Work(bits) == 0
  {
    FirstBits(0x1f00_ffff);
    EncodeSigned(GENESIS_TARGET, 0x1f00_ffff);
    EncodeNegative(GENESIS_TARGET);
    UsableIff(bits);
  }

  /** From the genesis bits the product wraps for every timespan, so retargeting never yields the
      intended target there. */
  lemma GenesisAlwaysWraps(bits: nat, timespan: nat)
    requires bits == Encode(GENESIS_TARGET, false) && CYCLE / 4 <= timespan
    ensures bits < 0x1_0000_0000
    ensures Target(NewBits(Target(bits), timespan)) != Rounded(IdealTarget(Target(bits), timespan))
  {
    GenesisBits(bits);
    WrapsAlways(Target(bits), timespan);
  }

  lemma WrapsAlways(target: nat, timespan: nat)
    requires target == GENESIS_TARGET && CYCLE / 4 <= timespan
    ensures Target(NewBits(target, timespan)) != Rounded(IdealTarget(target, timespan))
  {
    MulLe(CYCLE / 4, timespan, target);
    RetargetExact(target, timespan);
  }

  /** On schedule the target should stay what it was; it drops below a fortieth instead. */
  lemma GenesisOnSchedule(bits: nat)
    requires bits == Encode(GENESIS_TARGET, false)
    ensures bits < 0x1_0000_0000 && IdealTarget(Target(bits), CYCLE) == Target(bits)
    ensures 40 * Target(NewBits(Target(bits), CYCLE)) < Target(bits)
  {
    GenesisBits(bits);
    WrappedOnSchedule(Target(bits), CYCLE);
  }

  lemma WrappedOnSchedule(target: nat, timespan: nat)
    requires target == GENESIS_TARGET && timespan == CYCLE
    ensures 40 * Target(NewBits(target, timespan)) < target && IdealTarget(target, timespan) == target
  {
    NewBitsBelow(target, timespan);
    OnSchedule(target * timespan);
  }

  lemma NewBitsBelow(prior: nat, timespan: nat)
    ensures Target(NewBits(prior, timespan)) <= NewTarget(prior, timespan)
  {
    EncodeFits(NewTarget(prior, timespan));
  }

  lemma OnSchedule(p: nat)
    requires p == GENESIS_TARGET * CYCLE
    ensures p % TWO256 / CYCLE * 40 < GENESIS_TARGET && p / CYCLE == GENESIS_TARGET
  {
  }

  // ---------------------------------------------------------------- the block a cycle ago

  datatype Header = Header(height: nat, bits: U32, time: U32)

  /** The active chain holds one block per height. */
  ghost predicate HeightsMatch(chain: seq<Header>) {
    forall i :: 0 <= i < |chain| ==> chain[i].height == i
  }

  /** The position counting `offset` blocks down from height `start`, that one included; a
      `start` of zero means the tip. */
  function CountDown(length: nat, start: nat, offset: nat): int {
    (if start == 0 then length - 1 else if start < length then start else -1) - (if offset == 0 then 0 else offset - 1)
  }

  /** Without a start that is the tip's height, and an offset of zero or one takes no step down. */
  lemma CountDownMeans(length: nat, start: nat, offset: nat)
    ensures 0 < start < length && offset > 0 ==> CountDown(length, start, offset) == start + 1 - offset
    ensures start >= length ==> CountDown(length, start, offset) < 0
    ensures length > 0 && offset > 0 ==> CountDown(length, 0, offset) == length - offset
    ensures CountDown(length, start, 0) == CountDown(length, start, 1)
  {
  }

  /** `Chain::getBlock`. */
  method GetBlock(chain: seq<Header>, start: nat, offset: nat) returns (r: Option<Header>)
    requires HeightsMatch(chain)
    ensures var p := CountDown(|chain|, start, offset); r == if p >= 0 then Some(chain[p]) else None
  {
    var from, left := start, offset;
    var i := |chain|;
    while i > 0
      invariant 0 <= i <= |chain|
      invariant from == start || from == 0
      invariant from == 0 ==> CountDown(|chain|, start, offset) == i - (if left == 0 then 1 else left)
      invariant from != 0 ==> left == offset && (start < |chain| ==> start < i)
    {
      i := i - 1;
      if from == 0 || from == chain[i].height {
        from := 0;
        if left == 0 {
          return Some(chain[i]);
        }
        left := left - 1;
        if left == 0 {
          return Some(chain[i]);
        }
      }
    }
    r := None;
  }

  /** Whether the block after height `last` starts a new cycle. */
  predicate StartsCycle(last: nat) {
    last >= CYCLE_BLOCKS && last % CYCLE_BLOCKS == 0
  }

  lemma CycleTest(last: nat)
    ensures StartsCycle(last) <==> last + 1 >= CYCLE_BLOCKS && (last + 1) % CYCLE_BLOCKS == 1
  {
  }

  /** `getNextWorkTarget`: the bits stay within a cycle; the first block after a full cycle
      retargets over the time since the active block at height last - cycle + 1, which the
      source asserts to exist. */
  method GetNextWorkTarget(chain: seq<Header>, last: Header) returns (c: U32)
    requires HeightsMatch(chain) && (StartsCycle(last.height) ==> last.height < |chain|)
    ensures !StartsCycle(last.height) ==> c == last.bits
    ensures StartsCycle(last.height) ==> c == NextBits(last, chain[last.height - CYCLE_BLOCKS + 1])
  {
    var height := last.height + 1;
    CycleTest(last.height);
    if height < CYCLE_BLOCKS || height % CYCLE_BLOCKS != 1 {
      return last.bits;
    }
    var first := GetBlock(chain, last.height, CYCLE_BLOCKS);
    c := CalculateNextWorkTarget(last, first.value);
  }
}
