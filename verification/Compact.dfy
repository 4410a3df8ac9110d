/** The compact floating-point format of 256 bit targets, `arith_uint256::setCompact` and
    `getCompact`: one byte of size, a sign bit and 23 bits of mantissa.
 */
module Compact {
  import opened Basics
  import opened Bits
  import opened Limbs
  import opened LimbDivision

  const TWO256: int := 0x1_0000_0000_0000_0000_0000_0000_0000_0000_0000_0000_0000_0000_0000_0000_0000_0000
  const SIGN: int := 0x80_0000
  const SIZE_UNIT: int := 0x100_0000

  // ---------------------------------------------------------------- decoding

  function Size(c: U32): nat {
    c / SIZE_UNIT
  }

  function Mantissa(c: U32): nat {
    c % SIGN
  }

  predicate SignBit(c: U32) {
    c / SIGN % 2 == 1
  }

  /** The mantissa after the right shift for small sizes. */
  function Word(c: U32): nat {
    if Size(c) <= 3 then Shr(Mantissa(c), 8 * (3 - Size(c))) else Mantissa(c)
  }

  /** The number a compact stands for, before it is cut to 256 bits. */
  function Exact(c: U32): nat {
    if Size(c) <= 3 then Word(c) else Word(c) * Pow2(8 * (Size(c) - 3))
  }

  /** The 256 bit number `setCompact` stores. */
  function Target(c: U32): nat {
    Exact(c) % TWO256
  }

  predicate Negative(c: U32) {
    Word(c) != 0 && SignBit(c)
  }

  predicate Overflow(c: U32) {
    var size, word := Size(c), Word(c);
    word != 0 && (size > 34 || (word > 0xff && size > 33) || (word > 0xffff && size > 32))
  }

  lemma Pow2Of256()
    ensures Pow2(256) == TWO256 == Weight(8)
  {
    Weight8();
    WeightIsPow2(8);
  }

  lemma Weight8()
    ensures Weight(8) == TWO256
  {
    assert Weight(2) == 0x1_0000_0000_0000_0000;
    assert Weight(4) == 0x1_0000_0000_0000_0000 * 0x1_0000_0000_0000_0000;
    WeightAdd(4, 4);
  }

  lemma WordBound(c: U32)
    ensures Word(c) < SIGN
  {
  }

  /** The overflow flag is raised exactly when the encoded number does not fit 256 bits. */
  lemma OverflowExact(c: U32)
    ensures Overflow(c) <==> Exact(c) >= TWO256
    ensures !Overflow(c) ==> Target(c) == Exact(c)
  {
    var size, word := Size(c), Word(c);
    WordBound(c);
    Pow2Of256();
    if size > 3 {
      var e := 8 * (size - 3);
      if size > 34 {
        Pow2Monotone(256, e);
        OverflowLarge(word, Pow2(e));
      } else if size > 32 {
        OverflowEdge(word, size);
      } else {
        OverflowSmall(word, e);
      }
    }
  }

  lemma OverflowLarge(word: nat, p: nat)
    requires p >= TWO256
    ensures word * p >= TWO256 <==> word != 0
  {
    if word != 0 {
      MulLe(1, word, p);
    }
  }

  lemma OverflowEdge(word: nat, size: nat)
    requires size == 33 || size == 34
    ensures word * Pow2(8 * (size - 3)) >= TWO256 <==> word > if size == 33 then 0xffff else 0xff
  {
    var e := 8 * (size - 3);
    Pow2Of256();
    Pow2Values();
    Pow2Add(256 - e, e);
    Threshold(word, Pow2(256 - e), Pow2(e));
  }

  lemma Threshold(word: nat, m: nat, p: nat)
    requires p >= 1
    ensures word * p >= m * p <==> word >= m
  {
    if word >= m {
      MulLe(m, word, p);
    } else {
      MulLe(word + 1, m, p);
      assert (word + 1) * p == word * p + p;
    }
  }

  lemma OverflowSmall(word: nat, e: nat)
    requires word < SIGN && e <= 232
    ensures word * Pow2(e) < TWO256
  {
    Pow2Of256();
    Pow2Values();
    Pow2Add(24, e);
    Pow2Monotone(24 + e, 256);
    MulLe(word, 0x100_0000 - 1, Pow2(e));
    assert (0x100_0000 - 1) * Pow2(e) == 0x100_0000 * Pow2(e) - Pow2(e);
  }

  // ---------------------------------------------------------------- encoding

  function BitLength(x: nat): nat {
    if x == 0 then 0 else 1 + BitLength(x / 2)
  }

  lemma {:induction false} BitLengthUnique(x: nat, b: nat)
    requires HasBits(x, b)
    ensures BitLength(x) == b
    decreases b
  {
    if b > 1 {
      assert HasBits(x / 2, b - 1) by {
        assert Pow2(b - 1) == 2 * Pow2(b - 2);
      }
      BitLengthUnique(x / 2, b - 1);
    }
  }

  lemma {:induction false} BitLengthHasBits(x: nat)
    ensures HasBits(x, BitLength(x))
    decreases x
  {
    if x > 0 {
      BitLengthHasBits(x / 2);
      var b := BitLength(x / 2);
      if b > 0 {
        assert Pow2(b) == 2 * Pow2(b - 1);
      }
    }
  }

  /** The first three bytes of `x` as `getCompact` takes them. */
  function TopBytes(x: nat, size: nat): nat {
    if size <= 3 then x * Pow2(8 * (3 - size)) else Shr(x, 8 * (size - 3))
  }

  /** The final packing: a mantissa that would reach the sign bit gives up one byte. */
  function Assemble(top: nat, size: nat, negative: bool): nat {
    var word := if top >= SIGN then top / 256 else top;
    (if top >= SIGN then size + 1 else size) * SIZE_UNIT + word + if negative && word != 0 then SIGN else 0
  }

  /** `getCompact`. */
  function Encode(x: nat, negative: bool): nat {
    var size := (BitLength(x) + 7) / 8;
    Assemble(TopBytes(x, size), size, negative)
  }

  /** Numbers from 2^(8k+15) up to 2^(8k+23) keep their bits from position 8k on. */
  lemma EncodeLarge(x: nat, k: nat)
    requires k >= 1 && Pow2(8 * k + 15) <= x < Pow2(8 * k + 23)
    ensures Encode(x, false) == (k + 3) * SIZE_UNIT + Shr(x, 8 * k)
    ensures Pow2(15) <= Shr(x, 8 * k) < SIGN
  {
    KeptBits(x, k);
    if x < Pow2(8 * k + 16) {
      EncodeFromTwo(x, k);
    } else {
      EncodeFromThree(x, k);
    }
  }

  lemma EncodeFromTwo(x: nat, k: nat)
    requires k >= 1 && Pow2(8 * k + 15) <= x < Pow2(8 * k + 16) && x < Pow2(8 * k + 23)
    ensures Encode(x, false) == (k + 3) * SIZE_UNIT + Shr(x, 8 * k)
  {
    LargeLength(x, k);
    TopBytesFromTwo(x, k);
    AssembleShifted(TopBytes(x, k + 2), k + 2);
  }

  lemma EncodeFromThree(x: nat, k: nat)
    requires k >= 1 && Pow2(8 * k + 16) <= x < Pow2(8 * k + 23) && Shr(x, 8 * k) < SIGN
    ensures Encode(x, false) == (k + 3) * SIZE_UNIT + Shr(x, 8 * k)
  {
    assert Pow2(8 * k + 15) <= x;
    LargeLength(x, k);
    AssemblePlain(TopBytes(x, k + 3), k + 3);
  }

  lemma AssembleShifted(top: nat, size: nat)
    requires top >= SIGN
    ensures Assemble(top, size, false) == (size + 1) * SIZE_UNIT + top / 256
  {
  }

  lemma AssemblePlain(top: nat, size: nat)
    requires top < SIGN
    ensures Assemble(top, size, false) == size * SIZE_UNIT + top
  {
  }

  lemma LargeLength(x: nat, k: nat)
    requires Pow2(8 * k + 15) <= x < Pow2(8 * k + 23)
    ensures (BitLength(x) + 7) / 8 == if x < Pow2(8 * k + 16) then k + 2 else k + 3
  {
    var b := BitLength(x);
    assert HasBits(x, b) by { BitLengthHasBits(x); }
    assert 8 * k + 16 <= b <= 8 * k + 23 && (x < Pow2(8 * k + 16) <==> b == 8 * k + 16) by {
      LengthAtLeast(x, b, 8 * k + 15);
      LengthAtLeast(x, b, 8 * k + 16);
      LengthAtLeast(x, b, 8 * k + 23);
    }
    BytesOf(b, k);
  }

  lemma BytesOf(b: nat, k: nat)
    requires 8 * k + 16 <= b <= 8 * k + 23
    ensures (b + 7) / 8 == if b == 8 * k + 16 then k + 2 else k + 3
  {
  }

  lemma LengthAtLeast(x: nat, b: nat, e: nat)
    requires HasBits(x, b)
    ensures x >= Pow2(e) <==> b >= e + 1
  {
    if b >= e + 1 {
      Pow2Monotone(e, b - 1);
    } else {
      Pow2Monotone(b, e);
    }
  }

  lemma KeptBits(x: nat, k: nat)
    requires Pow2(8 * k + 15) <= x < Pow2(8 * k + 23)
    ensures Pow2(15) <= Shr(x, 8 * k) < SIGN
    ensures x >= Pow2(8 * k + 16) ==> Shr(x, 8 * k) >= Pow2(16)
    ensures x < Pow2(8 * k + 16) ==> Shr(x, 8 * k) < Pow2(16)
  {
    Pow2Values();
    assert Pow2(24) == 2 * Pow2(23);
    Pow2Add(15, 8 * k);
    Pow2Add(16, 8 * k);
    ShrBound(x, 8 * k, Pow2(15));
    ShrBound(x, 8 * k, Pow2(16));
    ShrSmall(x, 8 * k, 8 * k + 23);
  }

  /** With the top bit of the second byte set, three bytes would reach the sign bit. */
  lemma TopBytesFromTwo(x: nat, k: nat)
    requires k >= 1 && Pow2(8 * k + 15) <= x < Pow2(8 * k + 16)
    ensures TopBytes(x, k + 2) >= SIGN && TopBytes(x, k + 2) / 256 == Shr(x, 8 * k)
  {
    Pow2Values();
    assert Pow2(24) == 2 * Pow2(23);
    var e := 8 * (k - 1);
    Pow2Add(23, e);
    ShrBound(x, e, Pow2(23));
    ShrTwice(x, e, 8);
    ShrIsDiv(Shr(x, e), 8);
  }

  /** Numbers below 2^23 are kept exactly. */
  lemma EncodeSmall(x: nat, c: nat)
    requires x < SIGN && c == Encode(x, false)
    ensures c < 0x1_0000_0000 && !Negative(c) && Exact(c) == x
  {
    var b := BitLength(x);
    assert HasBits(x, b) by { BitLengthHasBits(x); }
    SmallLength(x, b);
    var word, size := SmallWord(x, (b + 7) / 8);
    DecodeSmall(x, word, size, c);
  }

  lemma SmallWord(x: nat, size: nat) returns (word: nat, kept: nat)
    requires x < SIGN
    requires size == if x == 0 then 0 else if x < 0x100 then 1 else if x < 0x1_0000 then 2 else 3
    ensures kept <= 3 && word == x * Pow2(8 * (3 - kept)) && word < SIGN
    ensures Assemble(TopBytes(x, size), size, false) == kept * SIZE_UNIT + word
  {
    Pow2Values();
    var top := TopBytes(x, size);
    assert top == if size == 0 then 0 else if size == 1 then x * 0x1_0000 else if size == 2 then x * 0x100 else x;
    if top >= SIGN {
      word, kept := top / 256, size + 1;
    } else {
      word, kept := top, size;
    }
  }

  lemma SmallLength(x: nat, b: nat)
    requires x < SIGN && HasBits(x, b)
    ensures (b + 7) / 8 == if x == 0 then 0 else if x < 0x100 then 1 else if x < 0x1_0000 then 2 else 3
  {
    Pow2Values();
    assert Pow2(24) == 2 * Pow2(23);
    LengthAtLeast(x, b, 0);
    LengthAtLeast(x, b, 8);
    LengthAtLeast(x, b, 16);
    LengthAtLeast(x, b, 23);
  }

  lemma DecodeSmall(x: nat, word: nat, size: nat, c: nat)
    requires size <= 3 && word == x * Pow2(8 * (3 - size)) && word < SIGN && c == size * SIZE_UNIT + word
    ensures c < 0x1_0000_0000 && !Negative(c) && Exact(c) == x
  {
    assert Size(c) == size && Mantissa(c) == word && !SignBit(c);
    ShrMultiple(x, 8 * (3 - size));
  }

  // ---------------------------------------------------------------- rounding

  /** The value a target has after one trip through the compact format. */
  function Rounded(x: nat): nat
    requires x < TWO256
  {
    EncodeFits(x);
    Target(Encode(x, false))
  }

  /** Every number from 2^23 on lies in one of the ranges of `EncodeLarge`. */
  lemma FindRange(x: nat) returns (k: nat)
    requires x >= SIGN
    ensures k >= 1 && Pow2(8 * k + 15) <= x < Pow2(8 * k + 23)
    ensures x < TWO256 ==> k <= 30
  {
    var b := BitLength(x);
    BitLengthHasBits(x);
    Pow2Values();
    assert Pow2(24) == 2 * Pow2(23);
    LengthAtLeast(x, b, 23);
    Pow2Of256();
    LengthAtLeast(x, b, 256);
    k := (b - 16) / 8;
    LengthAtLeast(x, b, 8 * k + 15);
    LengthAtLeast(x, b, 8 * k + 23);
  }

  lemma LargeFields(c: nat, k: nat, word: nat)
    requires 1 <= k <= 30 && word < SIGN && c == (k + 3) * SIZE_UNIT + word
    ensures c < 0x1_0000_0000 && !SignBit(c) && Exact(c) == word * Pow2(8 * k)
  {
    PackedFields(c, k + 3, word);
  }

  lemma PackedFields(c: nat, size: nat, word: nat)
    requires size < 256 && word < SIGN && c == size * SIZE_UNIT + word
    ensures c < 0x1_0000_0000 && Size(c) == size && Mantissa(c) == word && !SignBit(c)
  {
    assert c == (2 * size) * SIGN + word;
  }

  /** What `getCompact` emits is a 32 bit word, never negative and never overflowing, and the
      number it stands for is not above the number encoded. */
  lemma EncodeFits(x: nat)
    requires x < TWO256
    ensures Encode(x, false) < 0x1_0000_0000
    ensures !Negative(Encode(x, false)) && !Overflow(Encode(x, false))
    ensures Target(Encode(x, false)) <= x
  {
    var c := Encode(x, false);
    if x < SIGN {
      EncodeSmall(x, c);
    } else {
      var k := FindRange(x);
      EncodeLarge(x, k);
      LargeFields(c, k, Shr(x, 8 * k));
      ShrBound(x, 8 * k, Shr(x, 8 * k));
    }
    OverflowExact(c);
  }

  lemma RoundedSmall(x: nat)
    requires x < SIGN
    ensures Rounded(x) == x
  {
    var c := Encode(x, false);
    EncodeSmall(x, c);
    OverflowExact(c);
  }

  /** The shape of a rounded number from 2^23 on. */
  lemma RoundedLarge(x: nat) returns (k: nat, word: nat)
    requires SIGN <= x < TWO256
    ensures k >= 1 && Pow2(8 * k + 15) <= x < Pow2(8 * k + 23) && word == Shr(x, 8 * k)
    ensures Pow2(15) <= word < SIGN && Rounded(x) == word * Pow2(8 * k)
  {
    k := FindRange(x);
    word := Shr(x, 8 * k);
    EncodeLarge(x, k);
    LargeFields(Encode(x, false), k, word);
    EncodeFits(x);
    OverflowExact(Encode(x, false));
  }

  lemma RoundedBelow(x: nat)
    requires x < TWO256
    ensures Rounded(x) <= x
  {
    EncodeFits(x);
  }

  /** A rounded target is the greatest number not above the original that any compact stands
      for. */
  lemma RoundedIsGreatest(x: nat, c: U32)
    requires x < TWO256 && Exact(c) <= x
    ensures Exact(c) <= Rounded(x)
  {
    var m, j := Scientific(c);
    GreatestAt(x, m, j);
  }

  /** What a compact stands for, as mantissa and exponent. */
  lemma Scientific(c: U32) returns (m: nat, j: nat)
    ensures m < SIGN && Exact(c) == m * Pow2(8 * j)
  {
    WordBound(c);
    m := Word(c);
    j := if Size(c) <= 3 then 0 else Size(c) - 3;
    assert Pow2(0) == 1;
  }

  lemma GreatestAt(x: nat, m: nat, j: nat)
    requires x < TWO256 && m < SIGN && m * Pow2(8 * j) <= x
    ensures m * Pow2(8 * j) <= Rounded(x)
  {
    if x < SIGN {
      RoundedSmall(x);
    } else {
      var k, word := RoundedLarge(x);
      if j < k {
        SmallerExponent(m, j, word, k);
      } else {
        LargerExponent(x, m, j, k);
      }
    }
  }

  lemma Pow2Of23()
    ensures Pow2(23) == SIGN
  {
    Pow2Values();
    assert Pow2(24) == 2 * Pow2(23);
  }

  lemma KeptValue(word: nat, k: nat)
    requires Pow2(15) <= word < SIGN
    ensures Pow2(8 * k + 15) <= word * Pow2(8 * k) < Pow2(8 * k + 23)
  {
    Pow2Of23();
    Pow2Add(15, 8 * k);
    Pow2Add(23, 8 * k);
    Scaled(0, word, Pow2(8 * k), Pow2(15), Pow2(23));
  }

  lemma SmallerExponent(m: nat, j: nat, word: nat, k: nat)
    requires m < SIGN && j < k && Pow2(15) <= word < SIGN
    ensures m * Pow2(8 * j) <= word * Pow2(8 * k)
  {
    BelowNext(m, j);
    Pow2Monotone(8 * j + 23, 8 * k + 15);
    KeptValue(word, k);
  }

  lemma BelowNext(m: nat, j: nat)
    requires m < SIGN
    ensures m * Pow2(8 * j) <= Pow2(8 * j + 23)
  {
    Pow2Of23();
    Pow2Add(23, 8 * j);
    MulLe(m, SIGN, Pow2(8 * j));
  }

  lemma LargerExponent(x: nat, m: nat, j: nat, k: nat)
    requires j >= k && m * Pow2(8 * j) <= x
    ensures m * Pow2(8 * j) <= Shr(x, 8 * k) * Pow2(8 * k)
  {
    var n, p := 8 * (j - k), Pow2(8 * k);
    Pow2Add(n, 8 * k);
    Assoc(m, Pow2(n), p);
    ShrBound(x, 8 * k, m * Pow2(n));
    MulLe(m * Pow2(n), Shr(x, 8 * k), p);
  }

  /** Rounding is monotone. */
  lemma RoundedMonotone(x: nat, y: nat)
    requires x <= y < TWO256
    ensures Rounded(x) <= Rounded(y)
  {
    EncodeFits(x);
    OverflowExact(Encode(x, false));
    RoundedIsGreatest(y, Encode(x, false));
  }

  /** A rounded number encodes to the same bits again, so rounding twice is rounding once. */
  lemma EncodeStable(x: nat)
    requires x < TWO256
    ensures Rounded(x) < TWO256 && Encode(Rounded(x), false) == Encode(x, false) && Rounded(Rounded(x)) == Rounded(x)
  {
    RoundedBelow(x);
    if x < SIGN {
      RoundedSmall(x);
    } else {
      var k, word := RoundedLarge(x);
      KeptValue(word, k);
      ShrMultiple(word, 8 * k);
      EncodeLarge(x, k);
      EncodeLarge(word * Pow2(8 * k), k);
    }
  }

  /** Rounding loses less than half. */
  lemma RoundedAboveHalf(x: nat)
    requires 0 < x < TWO256
    ensures 2 * Rounded(x) > x
  {
    if x < SIGN {
      RoundedSmall(x);
    } else {
      var k, word := RoundedLarge(x);
      MoreThanHalf(x, k, word);
    }
  }

  lemma MoreThanHalf(x: nat, k: nat, word: nat)
    requires word == Shr(x, 8 * k) && word >= 1
    ensures x < 2 * (word * Pow2(8 * k))
  {
    ShrBound(x, 8 * k, word + 1);
    LessThanTwice(x, word, Pow2(8 * k));
  }

  lemma LessThanTwice(x: nat, word: nat, p: nat)
    requires x < (word + 1) * p && word >= 1
    ensures x < 2 * (word * p)
  {
    assert (word + 1) * p == word * p + p;
    MulLe(1, word, p);
  }

  /** A compact whose mantissa fills its place survives the round trip through its number. */
  lemma DecodeThenEncode(c: U32)
    requires Size(c) > 3 && Pow2(15) <= Mantissa(c) && !SignBit(c) && !Overflow(c)
    ensures Encode(Target(c), false) == c
  {
    var k, word := Size(c) - 3, Mantissa(c);
    OverflowExact(c);
    WordBound(c);
    KeptValue(word, k);
    ShrMultiple(word, 8 * k);
    EncodeLarge(word * Pow2(8 * k), k);
    Fields(c);
  }

  lemma Fields(c: U32)
    requires !SignBit(c)
    ensures c == Size(c) * SIZE_UNIT + Mantissa(c)
  {
  }

  // ---------------------------------------------------------------- the sign

  /** The 24 low bits read as a sign and a magnitude. */
  function SignedMantissa(c: U32): int {
    var m := c % 0x100_0000;
    if m < 0x80_0000 then m else 0x80_0000 - m
  }

  /** The number a compact stands for, with its sign: the signed mantissa times 256^(size - 3), rounded
      towards zero. */
  function Reading(c: U32): int {
    var m, size := SignedMantissa(c), c / 0x100_0000;
    if size > 3 then m * Pow2(8 * (size - 3))
    else if m >= 0 then m / Pow2(8 * (3 - size))
    else -((-m) / Pow2(8 * (3 - size)))
  }

  /** The 24 low bits are the sign bit and the mantissa. */
  lemma SignAndMantissa(c: U32)
    ensures SignedMantissa(c) == if SignBit(c) then 0 - Mantissa(c) else Mantissa(c)
  {
    var m := c % 0x100_0000;
    assert c == c / 0x100_0000 * 0x100_0000 + m;
    var low := m % SIGN;
    assert c == (c / 0x100_0000 * 2 + m / SIGN) * SIGN + low;
  }

  /** `setCompact` flags a compact as negative if and only if it stands for a number below zero, and stores
      its magnitude. */
  lemma NegativeIff(c: U32)
    ensures Negative(c) <==> Reading(c) < 0
    ensures Exact(c) == if Reading(c) < 0 then -Reading(c) else Reading(c)
  {
    SignAndMantissa(c);
    var m, size := Mantissa(c), Size(c);
    if size <= 3 {
      ShrIsDiv(m, 8 * (3 - size));
      DivNonneg(m, Pow2(8 * (3 - size)));
      ShrinksToZero(m, Pow2(8 * (3 - size)));
    } else {
      ScaledSign(m, Pow2(8 * (size - 3)));
    }
  }

  lemma ShrinksToZero(m: nat, p: nat)
    requires p >= 1
    ensures m == 0 ==> m / p == 0
  {
  }

  lemma ScaledSign(m: int, p: nat)
    requires m >= 0 && p >= 1
    ensures (-m) * p == -(m * p) && m * p >= 0 && (m * p == 0 <==> m == 0)
  {
    if m > 0 {
      MulLe(1, m, p);
    }
  }

  /** The sign of an encoding: the bit 23, set unless the mantissa is zero. */
  lemma EncodeSigned(x: nat, c: nat)
    requires 0 < x < TWO256 && c == Encode(x, false)
    ensures c + SIGN < 0x1_0000_0000 && Encode(x, true) == c + SIGN
    ensures !SignBit(c) && Mantissa(c) > 0
  {
    var b := BitLength(x);
    var size := (b + 7) / 8;
    assert HasBits(x, b) by { BitLengthHasBits(x); }
    TopBytesFit(x, b, size);
    var top := TopBytes(x, size);
    SignTest(top);
    EncodeFits(x);
    var word, kept := if top >= SIGN then top / 256 else top, if top >= SIGN then size + 1 else size;
    assert c == kept * SIZE_UNIT + word;
    PackedFields(c, kept, word);
    RoundedAboveHalf(x);
    ZeroMantissa(c);
  }

  lemma ZeroMantissa(c: U32)
    ensures Mantissa(c) == 0 ==> Exact(c) == 0 && Target(c) == 0
  {
    ShrIsDiv(0, 8 * (3 - if Size(c) <= 3 then Size(c) else 3));
  }

  /** Setting the sign bit of a compact without one changes the flag alone. */
  lemma SignSet(c: U32)
    requires !SignBit(c)
    ensures c + SIGN < 0x1_0000_0000 && SignBit(c + SIGN)
    ensures Size(c + SIGN) == Size(c) && Mantissa(c + SIGN) == Mantissa(c)
  {
    var q := c / SIGN;
    assert c == q * SIGN + c % SIGN && q == 2 * (q / 2);
    assert c / SIZE_UNIT == q / 2;
    assert c + SIGN == (q + 1) * SIGN + c % SIGN;
    assert (c + SIGN) / SIGN == q + 1;
  }

  /** Encoding a positive number with the sign set: the result is flagged negative, does not overflow, and
      holds the same rounded magnitude. */
  lemma EncodeNegative(x: nat)
    requires 0 < x < TWO256
    ensures Encode(x, true) < 0x1_0000_0000
    ensures Negative(Encode(x, true)) && !Overflow(Encode(x, true)) && Target(Encode(x, true)) == Rounded(x)
    ensures Reading(Encode(x, true)) == 0 - Rounded(x)
  {
    var c := Encode(x, false);
    EncodeFits(x);
    EncodeSigned(x, c);
    SignSet(c);
    RoundedAboveHalf(x);
    OverflowExact(c);
    assert Word(c + SIGN) == Word(c) && Exact(c + SIGN) == Exact(c);
    NonzeroWord(c);
    NegativeIff(c + SIGN);
  }

  /** Zero has no sign. */
  lemma EncodeZero(x: nat, negative: bool)
    requires x == 0
    ensures Encode(x, negative) == 0
  {
    assert TopBytes(x, 0) == 0;
  }

  lemma NonzeroWord(c: U32)
    ensures Word(c) == 0 ==> Exact(c) == 0
  {
  }

  // ---------------------------------------------------------------- on limbs

  /** `operator=(uint64_t)`. */
  method Assign(pn: array<Limb>, b: nat)
    requires pn.Length >= 2 && b < BASE * BASE
    modifies pn
    ensures Value(pn[..]) == b
  {
    Clear(pn);
    pn[0] := b % BASE;
    pn[1] := b / BASE;
    TwoLimbs(pn[..]);
    ZeroAbove(pn[..], 2, pn.Length);
  }

  lemma TwoLimbs(s: seq<Limb>)
    requires |s| >= 2
    ensures Prefix(s, 2) == s[0] + s[1] * BASE
  {
    assert Prefix(s, 1) == Prefix(s, 0) + s[0] * Weight(0);
    assert Prefix(s, 2) == Prefix(s, 1) + s[1] * Weight(1);
  }

  /** `getLow64`, exact for numbers below 2^64. */
  method GetLow64(pn: array<Limb>) returns (b: nat)
    requires pn.Length >= 2
    ensures Value(pn[..]) < BASE * BASE ==> b == Value(pn[..])
  {
    b := pn[0] + pn[1] * BASE;
    TwoLimbs(pn[..]);
    ghost var rest := SplitPrefix(pn[..], 2, pn.Length);
    if rest > 0 {
      MulLe(1, rest, Weight(2));
    }
  }

  /** `setCompact`: the stored number and both flags. */
  method SetCompact(pn: array<Limb>, c: U32) returns (negative: bool, overflow: bool)
    requires pn.Length == 8
    modifies pn
    ensures Value(pn[..]) == Target(c) && negative == Negative(c) && overflow == Overflow(c)
  {
    var size, word := c / SIZE_UNIT, c % SIGN;
    Weight8();
    WordBound(c);
    if size <= 3 {
      word := Shr(word, 8 * (3 - size));
      Assign(pn, word);
    } else {
      Assign(pn, word);
      ShiftLeft(pn, 8 * (size - 3));
    }
    negative := word != 0 && c / SIGN % 2 == 1;
    overflow := word != 0 && (size > 34 || (word > 0xff && size > 33) || (word > 0xffff && size > 32));
  }

  /** The first three bytes, cut to 32 bits. */
  method GetTopBytes(pn: array<Limb>, bits: nat, size: nat) returns (top: nat)
    requires pn.Length == 8 && HasBits(Value(pn[..]), bits) && size == (bits + 7) / 8
    ensures top == TopBytes(Value(pn[..]), size) < SIZE_UNIT
  {
    ghost var x := Value(pn[..]);
    TopBytesFit(x, bits, size);
    IsRemainder(TopBytes(x, size), TopBytes(x, size), 0, BASE);
    if size <= 3 {
      LowFits(x, bits);
      var low := GetLow64(pn);
      top := low * Pow2(8 * (3 - size)) % BASE;
    } else {
      var bn := Copy(pn[..]);
      ShiftRight(bn, 8 * (size - 3));
      ShrIsDiv(x, 8 * (size - 3));
      var low := GetLow64(bn);
      top := low % BASE;
    }
  }

  /** `getCompact`; the fields do not overlap, so or-ing them is adding them. The asserts are
      the source's own. */
  method GetCompact(pn: array<Limb>, negative: bool) returns (c: nat)
    requires pn.Length == 8
    ensures c == Encode(Value(pn[..]), negative)
  {
    var bits := BitCount(pn);
    BitLengthUnique(Value(pn[..]), bits);
    var size := (bits + 7) / 8;
    var top := GetTopBytes(pn, bits, size);
    SignTest(top);
    var word := top;
    if top / SIGN % 2 == 1 {
      word := top / 256;
      size := size + 1;
    }
    assert word < SIGN;
    assert size < 256;
    c := size * SIZE_UNIT + word + if negative && word != 0 then SIGN else 0;
  }

  lemma SignTest(top: nat)
    requires top < SIZE_UNIT
    ensures (top / SIGN % 2 == 1 <==> top >= SIGN) && top / 256 < SIGN
  {
  }

  /** The mantissa taken is below 2^24. */
  lemma TopBytesFit(x: nat, bits: nat, size: nat)
    requires HasBits(x, bits) && size == (bits + 7) / 8
    ensures TopBytes(x, size) < SIZE_UNIT
  {
    Pow2Values();
    Pow2Monotone(bits, 8 * size);
    if size <= 3 {
      var n := 8 * (3 - size);
      Pow2Add(8 * size, n);
      Scaled(0, x, Pow2(n), 0, Pow2(8 * size));
    } else {
      ShrSmall(x, 8 * (size - 3), 8 * size);
    }
  }

  lemma LowFits(x: nat, bits: nat)
    requires HasBits(x, bits) && bits <= 24
    ensures x < BASE
  {
    Pow2Values();
    Pow2Monotone(bits, 24);
  }
}
