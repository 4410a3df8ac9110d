/** The constant-space calculator of `merkle.cpp`: a binary counter over the leaves whose
    set bits own one finished subtree each, followed by a sweep that pads the right edge.
    It is proved to compute the naive root, the duplication flag and the branch, for up to 2^31
    leaves; for more the 32 bit counter wraps to zero, and there is no result.
 */
module MerkleComputation {
  import opened Bits
  import opened MerkleTree

  /** The values of the 32 bit counter. */
  const COUNTER := 0x1_0000_0000

  const MAX_LEAVES := 0x8000_0000

  /** Bit `level` of `count`. */
  predicate BitSet(count: nat, level: nat) {
    Shr(count, level) % 2 == 1
  }

  /** The `level` lowest bits of `count` are clear. */
  ghost predicate LowClear(count: nat, level: nat) {
    level > 0 ==> !BitSet(count, level - 1) && LowClear(count, level - 1)
  }

  // ---------------------------------------------------------------- the counter

  /** For every set bit of `c`, counting levels from `l`, the slot of that level holds the
      last finished node of that level. */
  ghost predicate Owns<T>(H: (T, T) -> T, leaves: seq<T>, inner: seq<T>, l: nat, c: nat)
    decreases c
  {
    c > 0 ==>
      && (c % 2 == 1 ==> l < |inner| && c <= |Level(H, leaves, l)| && inner[l] == Level(H, leaves, l)[c - 1])
      && Owns(H, leaves, inner, l + 1, c / 2)
  }

  /** Carrying: the slot and the running hash combine to the next level's node. */
  lemma CarryUp<T>(H: (T, T) -> T, leaves: seq<T>, inner: seq<T>, l: nat, m: nat)
    requires 1 <= m && 2 * m <= |Level(H, leaves, l)|
    requires Owns(H, leaves, inner, l, 2 * m - 1)
    ensures l < |inner| && m <= |Level(H, leaves, l + 1)|
    ensures Owns(H, leaves, inner, l + 1, m - 1)
    ensures H(inner[l], Level(H, leaves, l)[2 * m - 1]) == Level(H, leaves, l + 1)[m - 1]
    ensures inner[l] == Level(H, leaves, l)[2 * m - 2]
  {
    OwnsOdd(H, leaves, inner, l, 2 * m - 1, m - 1);
    PairUp(H, Level(H, leaves, l), m);
  }

  lemma OwnsOdd<T>(H: (T, T) -> T, leaves: seq<T>, inner: seq<T>, l: nat, c: nat, half: nat)
    requires c == 2 * half + 1 && Owns(H, leaves, inner, l, c)
    ensures c <= |Level(H, leaves, l)| && l < |inner|
    ensures inner[l] == Level(H, leaves, l)[c - 1] && Owns(H, leaves, inner, l + 1, half)
  {
    assert c % 2 == 1 && c / 2 == half;
  }

  lemma PairUp<T>(H: (T, T) -> T, level: seq<T>, m: nat)
    requires 1 <= m && 2 * m <= |level|
    ensures m <= |NextLevel(H, level)| && H(level[2 * m - 2], level[2 * m - 1]) == NextLevel(H, level)[m - 1]
  {
    NodeAt(H, level, m - 1);
  }

  /** Storing below does not disturb the slots above. */
  lemma {:induction false} OwnsAbove<T>(H: (T, T) -> T, leaves: seq<T>, inner: seq<T>, b: seq<T>, l: nat, c: nat)
    requires Owns(H, leaves, inner, l, c) && |b| == |inner|
    requires forall j :: l <= j < |inner| ==> b[j] == inner[j]
    ensures Owns(H, leaves, b, l, c)
    decreases c
  {
    if c > 0 {
      OwnsAbove(H, leaves, inner, b, l + 1, c / 2);
    }
  }

  /** A counter whose low `l` bits are clear owns nothing below level `l`. */
  lemma {:induction false} OwnsBelow<T>(H: (T, T) -> T, leaves: seq<T>, inner: seq<T>, count: nat, l: nat)
    requires l <= |inner| && count <= |leaves|
    requires LowClear(count, l)
    requires Owns(H, leaves, inner, l, Shr(count, l))
    ensures Owns(H, leaves, inner, 0, count)
    decreases l
  {
    if l > 0 {
      ShrNext(count, l - 1);
      OwnsBelow(H, leaves, inner, count, l - 1);
    }
  }

  lemma {:induction false} OwnsAt<T>(H: (T, T) -> T, leaves: seq<T>, inner: seq<T>, count: nat, l: nat)
    requires Owns(H, leaves, inner, 0, count)
    ensures Owns(H, leaves, inner, l, Shr(count, l))
    decreases l
  {
    if l > 0 {
      OwnsAt(H, leaves, inner, count, l - 1);
      ShrNext(count, l - 1);
    }
  }

  lemma {:induction false} ShrFitsLevel<T>(H: (T, T) -> T, leaves: seq<T>, count: nat, l: nat)
    requires count <= |leaves|
    ensures Shr(count, l) <= |Level(H, leaves, l)|
    decreases l
  {
    if l > 0 {
      ShrFitsLevel(H, leaves, count, l - 1);
      ShrNext(count, l - 1);
    }
  }

  /** The lowest set bit of a positive counter: all lower ones are clear, and the
      predecessor agrees above it. */
  lemma ShrPred(count: nat, l: nat)
    requires count >= 1 && Shr(count - 1, l) == Shr(count, l) - 1
    ensures Shr(count, l) % 2 == 0 ==> Shr(count - 1, l + 1) == Shr(count, l + 1) - 1
    ensures Shr(count, l) % 2 == 1 ==> Shr(count - 1, l + 1) == Shr(count, l + 1)
  {
    ShrNext(count, l);
    ShrNext(count - 1, l);
  }

  lemma ShrSameAbove(a: nat, b: nat, l: nat, m: nat)
    requires Shr(a, l) == Shr(b, l) && l <= m
    ensures Shr(a, m) == Shr(b, m)
  {
    ShrTwice(a, l, m - l);
    ShrTwice(b, l, m - l);
  }

  // ---------------------------------------------------------------- the duplication flag

  /** Twins among the first `count` leaves. */
  ghost predicate TwinWithin<T>(H: (T, T) -> T, leaves: seq<T>, count: nat, l: nat, j: nat) {
    && 2 * j + 2 <= Shr(count, l) <= |Level(H, leaves, l)|
    && Level(H, leaves, l)[2 * j] == Level(H, leaves, l)[2 * j + 1]
  }

  ghost predicate SeenTwin<T>(H: (T, T) -> T, leaves: seq<T>, count: nat) {
    exists l: nat, j: nat :: TwinWithin(H, leaves, count, l, j)
  }

  /** Twins known when the carry has reached `level`: those seen before this leaf, and those
      completed by it below `level`. */
  ghost predicate SeenBelow<T>(H: (T, T) -> T, leaves: seq<T>, count: nat, level: nat)
    requires count >= 1
  {
    exists l: nat, j: nat :: TwinWithin(H, leaves, count, l, j) && (l < level || TwinWithin(H, leaves, count - 1, l, j))
  }

  lemma {:induction false} ShrMonotone(a: nat, b: nat, l: nat)
    requires a <= b
    ensures Shr(a, l) <= Shr(b, l)
    decreases l
  {
    if l > 0 {
      ShrMonotone(a / 2, b / 2, l - 1);
    }
  }

  lemma SeenBelowStart<T>(H: (T, T) -> T, leaves: seq<T>, count: nat)
    requires 1 <= count <= |leaves|
    ensures SeenBelow(H, leaves, count, 0) <==> SeenTwin(H, leaves, count - 1)
  {
    if SeenTwin(H, leaves, count - 1) {
      var l: nat, j: nat :| TwinWithin(H, leaves, count - 1, l, j);
      ShrMonotone(count - 1, count, l);
      ShrFitsLevel(H, leaves, count, l);
      assert TwinWithin(H, leaves, count, l, j);
    }
    if SeenBelow(H, leaves, count, 0) {
      var l: nat, j: nat :| TwinWithin(H, leaves, count, l, j) && (l < 0 || TwinWithin(H, leaves, count - 1, l, j));
      assert TwinWithin(H, leaves, count - 1, l, j);
    }
  }

  lemma SeenBelowStep<T>(H: (T, T) -> T, leaves: seq<T>, count: nat, level: nat)
    requires 1 <= count <= |leaves|
    requires Shr(count, level) >= 2 && Shr(count, level) % 2 == 0 && Shr(count, level) <= |Level(H, leaves, level)|
    requires Shr(count - 1, level) == Shr(count, level) - 1
    ensures var q := Shr(count, level);
            SeenBelow(H, leaves, count, level + 1) <==>
            SeenBelow(H, leaves, count, level) || Level(H, leaves, level)[q - 2] == Level(H, leaves, level)[q - 1]
  {
    var q := Shr(count, level);
    if Level(H, leaves, level)[q - 2] == Level(H, leaves, level)[q - 1] {
      assert TwinWithin(H, leaves, count, level, q / 2 - 1);
    }
    if SeenBelow(H, leaves, count, level + 1) {
      var l: nat, j: nat :| TwinWithin(H, leaves, count, l, j)
        && (l < level + 1 || TwinWithin(H, leaves, count - 1, l, j));
      if l == level && 2 * j + 2 < q {
        assert TwinWithin(H, leaves, count - 1, l, j);
      }
    }
  }

  lemma SeenBelowEnd<T>(H: (T, T) -> T, leaves: seq<T>, count: nat, level: nat)
    requires 1 <= count <= |leaves|
    requires Shr(count, level) % 2 == 1 && Shr(count - 1, level) == Shr(count, level) - 1
    ensures SeenBelow(H, leaves, count, level) <==> SeenTwin(H, leaves, count)
  {
    forall l: nat, j: nat | TwinWithin(H, leaves, count, l, j) && l >= level
      ensures TwinWithin(H, leaves, count - 1, l, j)
    {
      if l > level {
        ShrPred(count, level);
        ShrSameAbove(count - 1, count, level + 1, l);
      }
    }
  }

  /** At the end the flag means what the documentation promises. */
  lemma SeenTwinIsMutated<T>(H: (T, T) -> T, leaves: seq<T>)
    ensures SeenTwin(H, leaves, |leaves|) <==> Mutated(H, leaves)
  {
    forall l: nat, j: nat
      ensures TwinWithin(H, leaves, |leaves|, l, j) <==> TwinAt(H, leaves, l, j)
    {
      TwinNodesAreTwins(H, leaves, l, j);
      ShrBound(|leaves|, l, 2 * j + 2);
      ShrFitsLevel(H, leaves, |leaves|, l);
    }
  }

  // ---------------------------------------------------------------- the branch

  /** The siblings met from leaf `pos` up to level `l`. */
  ghost function Siblings<T>(H: (T, T) -> T, leaves: seq<T>, pos: nat, l: nat): seq<T>
    requires pos < |leaves|
  {
    if l == 0 then []
    else
      PosFitsLevel(H, leaves, pos, l - 1);
      Siblings(H, leaves, pos, l - 1) + [Sibling(Level(H, leaves, l - 1), Shr(pos, l - 1))]
  }

  lemma {:induction false} PosFitsLevel<T>(H: (T, T) -> T, leaves: seq<T>, pos: nat, l: nat)
    requires pos < |leaves|
    ensures Shr(pos, l) < |Level(H, leaves, l)|
    decreases l
  {
    if l > 0 {
      PosFitsLevel(H, leaves, pos, l - 1);
      ShrNext(pos, l - 1);
    }
  }

  /** Every level below `l` has more than one node. */
  ghost predicate Tall<T>(H: (T, T) -> T, leaves: seq<T>, l: nat) {
    l > 0 ==> |Level(H, leaves, l - 1)| > 1 && Tall(H, leaves, l - 1)
  }

  /** Collected up to a level, then continued from there, the siblings are the branch. */
  lemma {:induction false} SiblingsThenBranch<T>(H: (T, T) -> T, leaves: seq<T>, pos: nat, l: nat)
    requires pos < |leaves| && Tall(H, leaves, l)
    ensures Shr(pos, l) < |Level(H, leaves, l)|
    ensures Siblings(H, leaves, pos, l) + Branch(H, Level(H, leaves, l), Shr(pos, l)) == Branch(H, leaves, pos)
    decreases l
  {
    PosFitsLevel(H, leaves, pos, l);
    if l > 0 {
      SiblingsThenBranch(H, leaves, pos, l - 1);
      ShrNext(pos, l - 1);
      var here, i := Level(H, leaves, l - 1), Shr(pos, l - 1);
      var up := NextLevel(H, here);
      assert Branch(H, here, i) == [Sibling(here, i)] + Branch(H, up, i / 2);
    }
  }

  /** Where the matching leaf is: in the subtree owned by bit `ml` of `c`, with the siblings
      below that subtree collected. */
  ghost predicate Parked<T>(H: (T, T) -> T, leaves: seq<T>, pos: nat, branch: seq<T>, ml: int, c: nat) {
    pos < |leaves| && 0 <= ml && BitSet(c, ml) && Shr(pos, ml) == Shr(c, ml) - 1
      && branch == Siblings(H, leaves, pos, ml)
  }

  /** Between leaves. */
  ghost predicate Tracked<T>(H: (T, T) -> T, leaves: seq<T>, pos: nat, branch: seq<T>, ml: int, c: nat) {
    if pos < c then Parked(H, leaves, pos, branch, ml, c) else ml == -1 && branch == []
  }

  // ---------------------------------------------------------------- the carry loop

  datatype Run<T> = Run(level: nat, h: T, mutated: bool, matchh: bool, branch: seq<T>)

  /** What both loops append to the branch when a slot meets the running hash. */
  function Extended<T>(branch: seq<T>, matchh: bool, ml: int, level: nat, slot: T, h: T): seq<T> {
    if matchh then branch + [slot] else if ml == level then branch + [h] else branch
  }

  function MergeStep<T(==)>(H: (T, T) -> T, inner: seq<T>, ml: int, s: Run<T>): Run<T>
    requires s.level < |inner|
  {
    var slot := inner[s.level];
    Run(s.level + 1, H(slot, s.h), s.mutated || slot == s.h, s.matchh || ml == s.level,
        Extended(s.branch, s.matchh, ml, s.level, slot, s.h))
  }

  /** The carry loop as a function. */
  function CarryLoop<T(==)>(H: (T, T) -> T, inner: seq<T>, count: nat, ml: int, s: Run<T>): Run<T>
    decreases |inner| - s.level
  {
    if s.level >= |inner| || BitSet(count, s.level) then s
    else CarryLoop(H, inner, count, ml, MergeStep(H, inner, ml, s))
  }

  /** What is known while the carry of leaf `count - 1` has reached `level`; `q` is the
      counter shifted by `level`. */
  ghost predicate CarryInv<T>(H: (T, T) -> T, leaves: seq<T>, inner: seq<T>, count: nat, level: nat, q: nat, h: T) {
    && 1 <= count <= |leaves| && q == Shr(count, level) && q >= 1 && Shr(count - 1, level) == q - 1
    && LowClear(count, level)
    && q <= |Level(H, leaves, level)| && h == Level(H, leaves, level)[q - 1]
    && Owns(H, leaves, inner, level, q - 1)
  }

  lemma CarryInvStep<T>(H: (T, T) -> T, leaves: seq<T>, inner: seq<T>, count: nat, level: nat, q: nat, h: T)
    requires CarryInv(H, leaves, inner, count, level, q, h) && q % 2 == 0
    ensures level < |inner| && inner[level] == Level(H, leaves, level)[q - 2]
    ensures CarryInv(H, leaves, inner, count, level + 1, q / 2, H(inner[level], h))
  {
    assert q == 2 * (q / 2);
    CarryUp(H, leaves, inner, level, q / 2);
    ShrNext(count, level);
    ShrPred(count, level);
  }

  /** The carry stops at the lowest set bit with that bit's node in hand. */
  lemma {:induction false} CarryHash<T>(H: (T, T) -> T, leaves: seq<T>, inner: seq<T>, count: nat, ml: int, s: Run<T>)
    requires |inner| == 32 && count < COUNTER && s.level <= 31
    requires CarryInv(H, leaves, inner, count, s.level, Shr(count, s.level), s.h)
    ensures var r := CarryLoop(H, inner, count, ml, s);
            r.level <= 31 && BitSet(count, r.level)
              && CarryInv(H, leaves, inner, count, r.level, Shr(count, r.level), r.h)
    decreases 32 - s.level
  {
    if !BitSet(count, s.level) {
      CarryInvStep(H, leaves, inner, count, s.level, Shr(count, s.level), s.h);
      LevelFits(count, s.level + 1);
      CarryHash(H, leaves, inner, count, ml, MergeStep(H, inner, ml, s));
    }
  }

  lemma {:induction false} CarryFlag<T>(H: (T, T) -> T, leaves: seq<T>, inner: seq<T>, count: nat, ml: int, s: Run<T>)
    requires |inner| == 32 && count < COUNTER && s.level <= 31
    requires CarryInv(H, leaves, inner, count, s.level, Shr(count, s.level), s.h)
    requires s.mutated <==> SeenBelow(H, leaves, count, s.level)
    ensures var r := CarryLoop(H, inner, count, ml, s); r.mutated <==> SeenBelow(H, leaves, count, r.level)
    decreases 32 - s.level
  {
    if !BitSet(count, s.level) {
      CarryMerged(H, leaves, inner, count, s.level, s.h);
      CarryPair(H, leaves, inner, count, s.level, s.h);
      SeenBelowStep(H, leaves, count, s.level);
      CarryFlag(H, leaves, inner, count, ml, MergeStep(H, inner, ml, s));
    }
  }

  /** While a carry has reached `level`: the matching leaf is below the running hash, or
      still in a slot further up. */
  ghost predicate Carried<T>(H: (T, T) -> T, leaves: seq<T>, pos: nat, branch: seq<T>, ml: int, matchh: bool,
                             count: nat, level: nat)
    requires 1 <= count <= |leaves|
  {
    if pos >= count then !matchh && ml == -1 && branch == []
    else if matchh then Shr(pos, level) == Shr(count, level) - 1 && branch == Siblings(H, leaves, pos, level)
    else ml >= level && Parked(H, leaves, pos, branch, ml, count - 1)
  }

  lemma CarriedStep<T>(H: (T, T) -> T, leaves: seq<T>, pos: nat, branch: seq<T>, ml: int, matchh: bool, count: nat,
                       level: nat)
    requires 1 <= count <= |leaves| && Carried(H, leaves, pos, branch, ml, matchh, count, level)
    requires 2 <= Shr(count, level) <= |Level(H, leaves, level)| && Shr(count, level) % 2 == 0
    requires Shr(count - 1, level) == Shr(count, level) - 1
    ensures var lv, q := Level(H, leaves, level), Shr(count, level);
            Carried(H, leaves, pos, Extended(branch, matchh, ml, level, lv[q - 2], lv[q - 1]), ml,
                    matchh || ml == level, count, level + 1)
  {
    var q := Shr(count, level);
    if pos < count && (matchh || ml == level) {
      ShrNext(count, level);
      ShrNext(pos, level);
      NextSibling(H, leaves, pos, level, q, Shr(pos, level));
    }
  }

  /** Of the last two nodes of an even level the one is the other's sibling. */
  lemma NextSibling<T>(H: (T, T) -> T, leaves: seq<T>, pos: nat, level: nat, q: nat, i: nat)
    requires pos < |leaves| && i == Shr(pos, level) && 2 <= q <= |Level(H, leaves, level)| && q % 2 == 0
    requires (i == q - 1 || i == q - 2)
    ensures Siblings(H, leaves, pos, level + 1)
            == Siblings(H, leaves, pos, level) + [Level(H, leaves, level)[if i == q - 1 then q - 2 else q - 1]]
  {
    PosFitsLevel(H, leaves, pos, level);
    PairedSibling(Level(H, leaves, level), q, i);
  }

  lemma PairedSibling<T>(lv: seq<T>, q: nat, i: nat)
    requires 2 <= q <= |lv| && q % 2 == 0 && (i == q - 1 || i == q - 2)
    ensures Sibling(lv, i) == lv[if i == q - 1 then q - 2 else q - 1]
  {
  }

  lemma {:induction false} CarryBranch<T>(H: (T, T) -> T, leaves: seq<T>, inner: seq<T>, count: nat, pos: nat, ml: int,
                                          s: Run<T>)
    requires |inner| == 32 && count < COUNTER && s.level <= 31
    requires CarryInv(H, leaves, inner, count, s.level, Shr(count, s.level), s.h)
    requires Carried(H, leaves, pos, s.branch, ml, s.matchh, count, s.level)
    ensures var r := CarryLoop(H, inner, count, ml, s); Carried(H, leaves, pos, r.branch, ml, r.matchh, count, r.level)
    decreases 32 - s.level
  {
    if !BitSet(count, s.level) {
      CarryMerged(H, leaves, inner, count, s.level, s.h);
      CarryPair(H, leaves, inner, count, s.level, s.h);
      CarriedMerged(H, leaves, inner, count, pos, ml, s, Shr(count, s.level));
      CarryBranch(H, leaves, inner, count, pos, ml, MergeStep(H, inner, ml, s));
    }
  }

  lemma CarriedMerged<T>(H: (T, T) -> T, leaves: seq<T>, inner: seq<T>, count: nat, pos: nat, ml: int, s: Run<T>,
                         q: nat)
    requires s.level < |inner| && 1 <= count <= |leaves|
    requires Carried(H, leaves, pos, s.branch, ml, s.matchh, count, s.level)
    requires q == Shr(count, s.level) && 2 <= q <= |Level(H, leaves, s.level)| && q % 2 == 0
    requires Shr(count - 1, s.level) == q - 1
    requires inner[s.level] == Level(H, leaves, s.level)[q - 2] && s.h == Level(H, leaves, s.level)[q - 1]
    ensures var r := MergeStep(H, inner, ml, s); Carried(H, leaves, pos, r.branch, ml, r.matchh, count, r.level)
  {
    CarriedStep(H, leaves, pos, s.branch, ml, s.matchh, count, s.level);
  }

  /** A merge keeps the carry invariant one level up. */
  lemma CarryMerged<T>(H: (T, T) -> T, leaves: seq<T>, inner: seq<T>, count: nat, level: nat, h: T)
    requires |inner| == 32 && count < COUNTER && level <= 31 && !BitSet(count, level)
    requires CarryInv(H, leaves, inner, count, level, Shr(count, level), h)
    ensures level + 1 <= 31 && CarryInv(H, leaves, inner, count, level + 1, Shr(count, level + 1), H(inner[level], h))
  {
    var q := Shr(count, level);
    CarryInvStep(H, leaves, inner, count, level, q, h);
    assert Shr(count, level + 1) == q / 2 by { ShrNext(count, level); }
    LevelFits(count, level + 1);
  }

  /** The two nodes a merge joins. */
  lemma CarryPair<T>(H: (T, T) -> T, leaves: seq<T>, inner: seq<T>, count: nat, level: nat, h: T)
    requires level < |inner| && !BitSet(count, level) && CarryInv(H, leaves, inner, count, level, Shr(count, level), h)
    ensures var q, lv := Shr(count, level), Level(H, leaves, level);
            && 2 <= q <= |lv| && q % 2 == 0 && inner[level] == lv[q - 2] && h == lv[q - 1]
            && Shr(count - 1, level) == q - 1
  {
    CarryInvStep(H, leaves, inner, count, level, Shr(count, level), h);
  }

  lemma CarriedEnd<T>(H: (T, T) -> T, leaves: seq<T>, pos: nat, branch: seq<T>, ml: int, matchh: bool, count: nat,
                      level: nat)
    requires 1 <= count <= |leaves| && Carried(H, leaves, pos, branch, ml, matchh, count, level)
    requires Shr(count, level) % 2 == 1 && Shr(count - 1, level) == Shr(count, level) - 1
    ensures Tracked(H, leaves, pos, branch, if matchh then level else ml, count)
  {
    if pos < count && !matchh {
      assert ml != level;
      ShrPred(count, level);
      ShrSameAbove(count - 1, count, level + 1, ml);
    }
  }

  /** A non-zero shift of a 32 bit counter is by at most 31. */
  lemma LevelFits(count: nat, level: nat)
    requires count < COUNTER && level <= 32
    ensures Shr(count, level) >= 1 ==> level <= 31
  {
    Pow2Values();
    ShrSmall(count, level, 32);
  }

  lemma StoreSlot<T>(H: (T, T) -> T, leaves: seq<T>, inner: seq<T>, count: nat, level: nat, h: T)
    requires level < |inner| && BitSet(count, level)
    requires CarryInv(H, leaves, inner, count, level, Shr(count, level), h)
    ensures Owns(H, leaves, inner[level := h], 0, count)
  {
    var q, b := Shr(count, level), inner[level := h];
    OwnsHalf(H, leaves, inner, level, q - 1);
    assert (q - 1) / 2 == q / 2;
    OwnsAbove(H, leaves, inner, b, level + 1, q / 2);
    OwnsBelow(H, leaves, b, count, level);
  }

  lemma OwnsHalf<T>(H: (T, T) -> T, leaves: seq<T>, inner: seq<T>, l: nat, c: nat)
    requires Owns(H, leaves, inner, l, c)
    ensures Owns(H, leaves, inner, l + 1, c / 2)
  {
  }

  /** The state in which the carry of leaf `count - 1` starts. */
  function Fresh<T>(leaf: T, mutated: bool, matchh: bool, branch: seq<T>): Run<T> {
    Run(0, leaf, mutated, matchh, branch)
  }

  lemma AddLeafCorrect<T>(H: (T, T) -> T, leaves: seq<T>, inner: seq<T>, count: nat, pos: nat, mutated: bool, ml: int,
                          branch: seq<T>)
    requires |inner| == 32 && 1 <= count <= |leaves| && count < COUNTER
    requires Owns(H, leaves, inner, 0, count - 1)
    requires mutated <==> SeenTwin(H, leaves, count - 1)
    requires Tracked(H, leaves, pos, branch, ml, count - 1)
    ensures var r := CarryLoop(H, inner, count, ml, Fresh(leaves[count - 1], mutated, count - 1 == pos, branch));
            && r.level <= 31 && BitSet(count, r.level)
            && Owns(H, leaves, inner[r.level := r.h], 0, count)
            && (r.mutated <==> SeenTwin(H, leaves, count))
            && Tracked(H, leaves, pos, r.branch, if r.matchh then r.level else ml, count)
  {
    var s := Fresh(leaves[count - 1], mutated, count - 1 == pos, branch);
    var r := CarryLoop(H, inner, count, ml, s);
    assert CarryInv(H, leaves, inner, count, 0, Shr(count, 0), s.h);
    CarryHash(H, leaves, inner, count, ml, s);
    SeenBelowStart(H, leaves, count);
    CarryFlag(H, leaves, inner, count, ml, s);
    SeenBelowEnd(H, leaves, count, r.level);
    assert Carried(H, leaves, pos, branch, ml, count - 1 == pos, count, 0);
    CarryBranch(H, leaves, inner, count, pos, ml, s);
    CarriedEnd(H, leaves, pos, r.branch, ml, r.matchh, count, r.level);
    StoreSlot(H, leaves, inner, count, r.level, r.h);
  }

  /** The body of the main loop: add leaf number `count - 1` to the counter. */
  method AddLeaf<T(==)>(H: (T, T) -> T, leaves: seq<T>, inner: array<T>, count: nat, pos: nat,
                        mutated0: bool, ml0: int, branch0: seq<T>)
    returns (mutated: bool, ml: int, branch: seq<T>)
    requires inner.Length == 32 && 1 <= count <= |leaves| && count < COUNTER
    requires Owns(H, leaves, inner[..], 0, count - 1)
    requires mutated0 <==> SeenTwin(H, leaves, count - 1)
    requires Tracked(H, leaves, pos, branch0, ml0, count - 1)
    modifies inner
    ensures Owns(H, leaves, inner[..], 0, count)
    ensures mutated <==> SeenTwin(H, leaves, count)
    ensures Tracked(H, leaves, pos, branch, ml, count)
  {
    ghost var slots := inner[..];
    AddLeafCorrect(H, leaves, slots, count, pos, mutated0, ml0, branch0);
    var r := Carry(H, leaves[count - 1], inner, count, pos, mutated0, ml0, branch0);
    inner[r.level] := r.h;
    assert inner[..] == slots[r.level := r.h];
    mutated, branch := r.mutated, r.branch;
    ml := if r.matchh then r.level else ml0;
  }

  /** The carry loop of `merkle.cpp`. */
  method Carry<T(==)>(H: (T, T) -> T, leaf: T, inner: array<T>, count: nat, pos: nat, mutated0: bool, ml: int,
                      branch0: seq<T>)
    returns (r: Run<T>)
    requires inner.Length == 32
    requires CarryLoop(H, inner[..], count, ml, Fresh(leaf, mutated0, count - 1 == pos, branch0)).level <= 31
    ensures r == CarryLoop(H, inner[..], count, ml, Fresh(leaf, mutated0, count - 1 == pos, branch0))
  {
    var h, matchh, level, mutated, branch := leaf, count - 1 == pos, 0, mutated0, branch0;
    ghost var goal := CarryLoop(H, inner[..], count, ml, Fresh(leaf, mutated0, count - 1 == pos, branch0));
    while !BitSet(count, level)
      invariant level <= 32
      invariant CarryLoop(H, inner[..], count, ml, Run(level, h, mutated, matchh, branch)) == goal
      decreases 32 - level
    {
      if matchh {
        branch := branch + [inner[level]];
      } else if ml == level {
        branch := branch + [h];
        matchh := true;
      }
      if inner[level] == h {
        mutated := true;
      }
      h := H(inner[level], h);
      level := level + 1;
    }
    r := Run(level, h, mutated, matchh, branch);
  }

  // ---------------------------------------------------------------- the sweep

  /** The sweep as a function: pair an odd last node with itself, otherwise merge with the
      slot on the left, until one node is left. */
  function SweepLoop<T(==)>(H: (T, T) -> T, inner: seq<T>, count: nat, ml: int, s: Run<T>): Run<T>
    decreases |inner| - s.level
  {
    if s.level >= |inner| || count == Pow2(s.level) then s
    else if BitSet(count, s.level) then SweepLoop(H, inner, count + Pow2(s.level), ml, DoubleStep(H, s))
    else SweepLoop(H, inner, count, ml, MergeStep(H, inner, ml, s).(mutated := s.mutated))
  }

  function DoubleStep<T>(H: (T, T) -> T, s: Run<T>): Run<T> {
    s.(level := s.level + 1, h := H(s.h, s.h), branch := if s.matchh then s.branch + [s.h] else s.branch)
  }

  /** `count` is `q` units of 2^level and fits the counter. */
  ghost predicate Rounded(count: nat, level: nat, q: nat) {
    count <= MAX_LEAVES && level <= 31 && Shr(count, level) == q && LowClear(count, level)
  }

  /** During the sweep `h` is the last of the `q` nodes of `level`, and `count` is the number
      of leaves rounded up to that level. */
  ghost predicate Sweeping<T>(H: (T, T) -> T, leaves: seq<T>, inner: seq<T>, count: nat, level: nat, q: nat, h: T) {
    && leaves != [] && q == |Level(H, leaves, level)| && q >= 1
    && Rounded(count, level, q)
    && Shr(|leaves|, level) <= q <= Shr(|leaves|, level) + 1
    && (q % 2 == 0 ==> Shr(|leaves|, level) == q - 1)
    && Owns(H, leaves, inner, level, Shr(|leaves|, level))
    && h == Level(H, leaves, level)[q - 1]
    && Tall(H, leaves, level)
  }

  /** Pairing the odd last node with itself. */
  lemma SweepDouble<T>(H: (T, T) -> T, leaves: seq<T>, inner: seq<T>, count: nat, level: nat, q: nat, h: T, c: nat)
    requires Sweeping(H, leaves, inner, count, level, q, h) && q % 2 == 1 && q > 1 && c == count + Pow2(level)
    ensures Sweeping(H, leaves, inner, c, level + 1, (q + 1) / 2, H(h, h))
    ensures Shr(|leaves|, level + 1) == (q + 1) / 2 - 1
  {
    var lv := Level(H, leaves, level);
    ShrNext(|leaves|, level);
    NodeAt(H, lv, (q - 1) / 2);
    OwnsHalf(H, leaves, inner, level, Shr(|leaves|, level));
    RoundUp(count, level, q, c);
  }

  /** Merging with a finished subtree on the left. */
  lemma SweepMerge<T>(H: (T, T) -> T, leaves: seq<T>, inner: seq<T>, count: nat, level: nat, q: nat, h: T)
    requires Sweeping(H, leaves, inner, count, level, q, h) && q % 2 == 0
    ensures level < |inner| && inner[level] == Level(H, leaves, level)[q - 2]
    ensures Sweeping(H, leaves, inner, count, level + 1, q / 2, H(inner[level], h))
    ensures Shr(|leaves|, level + 1) == q / 2 - 1
  {
    SweepMergeHalf(H, leaves, inner, count, level, q / 2, h);
  }

  lemma SweepMergeHalf<T>(H: (T, T) -> T, leaves: seq<T>, inner: seq<T>, count: nat, level: nat, m: nat, h: T)
    requires Sweeping(H, leaves, inner, count, level, 2 * m, h)
    ensures level < |inner| && inner[level] == Level(H, leaves, level)[2 * m - 2]
    ensures Sweeping(H, leaves, inner, count, level + 1, m, H(inner[level], h))
    ensures Shr(|leaves|, level + 1) == m - 1
  {
    ShrNext(|leaves|, level);
    HalfOfOdd(m, Shr(|leaves|, level));
    CarryUp(H, leaves, inner, level, m);
    RoundHalf(count, level, 2 * m);
  }

  lemma HalfOfOdd(m: nat, n: nat)
    requires m >= 1 && n == 2 * m - 1
    ensures n / 2 == m - 1 && 2 * m / 2 == m && (2 * m + 1) / 2 == m
  {
  }

  /** Adding one unit to an odd number of units, which is not the top, carries. */
  lemma RoundUp(count: nat, level: nat, q: nat, c: nat)
    requires Rounded(count, level, q) && q % 2 == 1 && q > 1 && c == count + Pow2(level)
    ensures Rounded(c, level + 1, (q + 1) / 2)
  {
    UnitFits(count, level, q);
    UnitAdded(count, level, c);
    RoundHalf(c, level, q + 1);
  }

  lemma UnitAdded(count: nat, level: nat, c: nat)
    requires LowClear(count, level) && c == count + Pow2(level)
    ensures LowClear(c, level) && Shr(c, level) == Shr(count, level) + 1
  {
    AddUnit(count, level);
  }

  /** Adding 2^level to a multiple of it adds one to the shifted value. */
  lemma {:induction false} AddUnit(count: nat, level: nat)
    requires LowClear(count, level)
    ensures LowClear(count + Pow2(level), level) && Shr(count + Pow2(level), level) == Shr(count, level) + 1
    decreases level
  {
    if level > 0 {
      var p := Pow2(level - 1);
      AddUnit(count, level - 1);
      AddUnit(count + p, level - 1);
      TwoHalves(count, count + p + p, level - 1);
    }
  }

  lemma TwoHalves(a: nat, b: nat, l: nat)
    requires Shr(b, l) == Shr(a, l) + 2 && !BitSet(a, l)
    ensures Shr(b, l + 1) == Shr(a, l + 1) + 1 && !BitSet(b, l)
  {
    ShrNext(a, l);
    ShrNext(b, l);
  }

  lemma OneMore(count: nat, q: nat, p: nat)
    requires count == q * p
    ensures count + p == (q + 1) * p
  {
  }

  lemma RoundHalf(count: nat, level: nat, q: nat)
    requires Rounded(count, level, q) && q % 2 == 0 && q > 0
    ensures Rounded(count, level + 1, q / 2)
  {
    ShrNext(count, level);
    LevelFits(count, level + 1);
  }

  /** Below the top there is room for one more unit. */
  lemma UnitFits(count: nat, level: nat, q: nat)
    requires Rounded(count, level, q) && q % 2 == 1 && q > 1
    ensures count + Pow2(level) <= MAX_LEAVES
  {
    LowBitsClear(count, level);
    UnitsOfTop(level);
    UnitBelow(count, q, Pow2(31 - level), Pow2(level));
  }

  lemma UnitsOfTop(level: nat)
    requires level <= 31
    ensures Pow2(31 - level) * Pow2(level) == MAX_LEAVES
  {
    Pow2Values();
    Pow2Add(31 - level, level);
  }

  lemma UnitBelow(count: nat, q: nat, m: nat, p: nat)
    requires count == q * p && q % 2 == 1 && q > 1 && p >= 1 && count <= m * p && (m == 1 || m % 2 == 0)
    ensures count + p <= m * p
  {
    OddBelowEven(q, m, p);
  }

  lemma OddBelowEven(q: nat, m: nat, p: nat)
    requires q % 2 == 1 && q > 1 && p >= 1 && q * p <= m * p && (m == 1 || m % 2 == 0)
    ensures q * p + p <= m * p
  {
    if q > m {
      MulLe(m + 1, q, p);
      TooBig(m, p);
    }
    MulLe(q + 1, m, p);
    OneMore(q * p, q, p);
  }

  /** The counter is a power of two exactly at the top. */
  lemma AtTop(count: nat, level: nat, q: nat)
    requires Rounded(count, level, q) && q >= 1
    ensures count == Pow2(level) <==> q == 1
  {
    LowBitsClear(count, level);
    if q > 1 {
      MulLe(2, q, Pow2(level));
    }
  }

  /** The sweep ends with the root. */
  lemma {:induction false} SweepRoot<T>(H: (T, T) -> T, leaves: seq<T>, inner: seq<T>, count: nat, ml: int, s: Run<T>,
                                        q: nat)
    requires |inner| == 32 && Sweeping(H, leaves, inner, count, s.level, q, s.h)
    ensures var r := SweepLoop(H, inner, count, ml, s); r.level <= 31 && r.h == Root(H, leaves)
    decreases 32 - s.level
  {
    AtTop(count, s.level, q);
    if q == 1 {
      RootAt(H, leaves, s.level);
    } else {
      var c, s1, q1 := SweepNext(H, leaves, inner, count, ml, s, q);
      SweepRoot(H, leaves, inner, c, ml, s1, q1);
    }
  }

  /** One turn of the sweep, at any level but the top. */
  lemma SweepNext<T>(H: (T, T) -> T, leaves: seq<T>, inner: seq<T>, count: nat, ml: int, s: Run<T>, q: nat)
    returns (c: nat, s1: Run<T>, q1: nat)
    requires |inner| == 32 && Sweeping(H, leaves, inner, count, s.level, q, s.h) && q > 1 && count != Pow2(s.level)
    ensures SweepLoop(H, inner, count, ml, s) == SweepLoop(H, inner, c, ml, s1)
    ensures s1.level == s.level + 1 && Sweeping(H, leaves, inner, c, s1.level, q1, s1.h)
    ensures Turned(Level(H, leaves, s.level), ml, s, q, s1, q1)
  {
    if q % 2 == 1 {
      c, s1, q1 := count + Pow2(s.level), DoubleStep(H, s), (q + 1) / 2;
      OddTurn(H, inner, count, ml, s);
      OddNext(H, leaves, inner, count, ml, s, q, c, s1, q1);
    } else {
      c, s1, q1 := count, MergeStep(H, inner, ml, s).(mutated := s.mutated), q / 2;
      EvenTurn(H, inner, count, ml, s);
      EvenNext(H, leaves, inner, count, ml, s, q, s1, q1);
    }
  }

  lemma OddNext<T>(H: (T, T) -> T, leaves: seq<T>, inner: seq<T>, count: nat, ml: int, s: Run<T>, q: nat, c: nat,
                   s1: Run<T>, q1: nat)
    requires Sweeping(H, leaves, inner, count, s.level, q, s.h) && q > 1 && q % 2 == 1
    requires c == count + Pow2(s.level) && s1 == DoubleStep(H, s) && q1 == (q + 1) / 2
    ensures Sweeping(H, leaves, inner, c, s1.level, q1, s1.h) && Turned(Level(H, leaves, s.level), ml, s, q, s1, q1)
  {
    SweepDouble(H, leaves, inner, count, s.level, q, s.h, c);
  }

  lemma EvenNext<T>(H: (T, T) -> T, leaves: seq<T>, inner: seq<T>, count: nat, ml: int, s: Run<T>, q: nat, s1: Run<T>,
                    q1: nat)
    requires s.level < |inner| && Sweeping(H, leaves, inner, count, s.level, q, s.h) && q > 1 && q % 2 == 0
    requires s1 == MergeStep(H, inner, ml, s).(mutated := s.mutated) && q1 == q / 2
    ensures Sweeping(H, leaves, inner, count, s1.level, q1, s1.h) && Turned(Level(H, leaves, s.level), ml, s, q, s1, q1)
  {
    SweepMerge(H, leaves, inner, count, s.level, q, s.h);
  }

  lemma OddTurn<T>(H: (T, T) -> T, inner: seq<T>, count: nat, ml: int, s: Run<T>)
    requires s.level < |inner| && BitSet(count, s.level) && count != Pow2(s.level)
    ensures SweepLoop(H, inner, count, ml, s) == SweepLoop(H, inner, count + Pow2(s.level), ml, DoubleStep(H, s))
  {
  }

  lemma EvenTurn<T>(H: (T, T) -> T, inner: seq<T>, count: nat, ml: int, s: Run<T>)
    requires s.level < |inner| && !BitSet(count, s.level) && count != Pow2(s.level)
    ensures SweepLoop(H, inner, count, ml, s)
            == SweepLoop(H, inner, count, ml, MergeStep(H, inner, ml, s).(mutated := s.mutated))
  {
  }

  /** The effect of one turn on the branch, on a level `lv` of `q` nodes. */
  ghost predicate Turned<T>(lv: seq<T>, ml: int, s: Run<T>, q: nat, s1: Run<T>, q1: nat)
    requires 1 < q == |lv|
  {
    if q % 2 == 1 then
      q1 == (q + 1) / 2 && s1.matchh == s.matchh && s1.branch == (if s.matchh then s.branch + [lv[q - 1]] else s.branch)
    else
      q1 == q / 2 && s1.matchh == (s.matchh || ml == s.level)
        && s1.branch == Extended(s.branch, s.matchh, ml, s.level, lv[q - 2], lv[q - 1])
  }

  /** The root is reached through any number of non-trivial levels. */
  lemma {:induction false} RootAt<T>(H: (T, T) -> T, leaves: seq<T>, l: nat)
    requires leaves != [] && Tall(H, leaves, l)
    ensures Level(H, leaves, l) != [] && Root(H, Level(H, leaves, l)) == Root(H, leaves)
    decreases l
  {
    if l > 0 {
      RootAt(H, leaves, l - 1);
    }
  }

  /** Where the matching leaf is during the sweep. */
  ghost predicate Swept<T>(H: (T, T) -> T, leaves: seq<T>, pos: nat, branch: seq<T>, ml: int, matchh: bool, level: nat,
                           q: nat) {
    if pos >= |leaves| then !matchh && ml == -1 && branch == []
    else if matchh then Shr(pos, level) == q - 1 && branch == Siblings(H, leaves, pos, level)
    else ml >= level && Parked(H, leaves, pos, branch, ml, |leaves|) && (Shr(|leaves|, level) == q ==> ml != level)
  }

  lemma SweptDouble<T>(H: (T, T) -> T, leaves: seq<T>, pos: nat, branch: seq<T>, ml: int, matchh: bool, level: nat,
                       q: nat)
    requires Swept(H, leaves, pos, branch, ml, matchh, level, q) && q % 2 == 1 && q > 1
    requires q == |Level(H, leaves, level)| && Shr(|leaves|, level) <= q <= Shr(|leaves|, level) + 1
    ensures var b := if matchh then branch + [Level(H, leaves, level)[q - 1]] else branch;
            Swept(H, leaves, pos, b, ml, matchh, level + 1, (q + 1) / 2)
  {
    ShrNext(|leaves|, level);
    ShrNext(pos, level);
  }

  lemma SweptMerge<T>(H: (T, T) -> T, leaves: seq<T>, pos: nat, branch: seq<T>, ml: int, matchh: bool, level: nat,
                      q: nat)
    requires Swept(H, leaves, pos, branch, ml, matchh, level, q) && q % 2 == 0 && q > 0
    requires q == |Level(H, leaves, level)| && Shr(|leaves|, level) == q - 1
    ensures var lv := Level(H, leaves, level);
            Swept(H, leaves, pos, Extended(branch, matchh, ml, level, lv[q - 2], lv[q - 1]), ml,
                  matchh || ml == level, level + 1, q / 2)
  {
    ShrNext(|leaves|, level);
    ShrNext(pos, level);
  }

  /** The sweep ends with the whole branch. */
  lemma {:induction false} SweepBranch<T>(H: (T, T) -> T, leaves: seq<T>, inner: seq<T>, count: nat, pos: nat, ml: int,
                                          s: Run<T>, q: nat)
    requires |inner| == 32 && Sweeping(H, leaves, inner, count, s.level, q, s.h)
    requires Swept(H, leaves, pos, s.branch, ml, s.matchh, s.level, q)
    ensures SweepLoop(H, inner, count, ml, s).branch == if pos < |leaves| then Branch(H, leaves, pos) else []
    decreases 32 - s.level
  {
    AtTop(count, s.level, q);
    if q == 1 {
      SweptTop(H, leaves, pos, s.branch, ml, s.matchh, s.level);
    } else {
      var c, s1, q1 := SweepNext(H, leaves, inner, count, ml, s, q);
      SweptNext(H, leaves, pos, ml, s, q, s1, q1);
      SweepBranch(H, leaves, inner, c, pos, ml, s1, q1);
    }
  }

  lemma SweptNext<T>(H: (T, T) -> T, leaves: seq<T>, pos: nat, ml: int, s: Run<T>, q: nat, s1: Run<T>, q1: nat)
    requires Swept(H, leaves, pos, s.branch, ml, s.matchh, s.level, q) && 1 < q == |Level(H, leaves, s.level)|
    requires Shr(|leaves|, s.level) <= q <= Shr(|leaves|, s.level) + 1
    requires (q % 2 == 0 ==> Shr(|leaves|, s.level) == q - 1)
    requires s1.level == s.level + 1 && Turned(Level(H, leaves, s.level), ml, s, q, s1, q1)
    ensures Swept(H, leaves, pos, s1.branch, ml, s1.matchh, s1.level, q1)
  {
    if q % 2 == 1 {
      SweptDouble(H, leaves, pos, s.branch, ml, s.matchh, s.level, q);
    } else {
      SweptMerge(H, leaves, pos, s.branch, ml, s.matchh, s.level, q);
    }
  }

  /** At the top the branch is complete. */
  lemma SweptTop<T>(H: (T, T) -> T, leaves: seq<T>, pos: nat, branch: seq<T>, ml: int, matchh: bool, level: nat)
    requires Swept(H, leaves, pos, branch, ml, matchh, level, 1) && |Level(H, leaves, level)| == 1
    requires Shr(|leaves|, level) <= 1 && Tall(H, leaves, level)
    ensures branch == if pos < |leaves| then Branch(H, leaves, pos) else []
  {
    if pos < |leaves| {
      if !matchh {
        NoBitAbove(|leaves|, level, ml);
      }
      SiblingsThenBranch(H, leaves, pos, level);
    }
  }

  lemma NoBitAbove(n: nat, level: nat, ml: nat)
    requires Shr(n, level) <= 1 && ml >= level
    ensures BitSet(n, ml) ==> ml == level && Shr(n, level) == 1
  {
    if ml > level {
      ShrNext(n, level);
      ShrTwice(n, level + 1, ml - level - 1);
      ShrOfZero(ml - level - 1);
    }
  }

  lemma {:induction false} ShrOfZero(n: nat)
    ensures Shr(0, n) == 0
  {
    if n > 0 {
      ShrOfZero(n - 1);
    }
  }

  lemma {:induction false} LowBitsClear(count: nat, level: nat)
    requires LowClear(count, level)
    ensures count == Shr(count, level) * Pow2(level)
    decreases level
  {
    if level > 0 {
      LowBitsClear(count, level - 1);
      ShrNext(count, level - 1);
      var q := Shr(count, level);
      assert Shr(count, level - 1) == 2 * q;
      assert (2 * q) * Pow2(level - 1) == q * Pow2(level);
    }
  }

  /** The state in which the sweep starts: at the lowest set bit of the leaf count. */
  lemma SweepStart<T>(H: (T, T) -> T, leaves: seq<T>, inner: seq<T>, level: nat)
    requires |inner| == 32 && 1 <= |leaves| <= MAX_LEAVES && level <= 31
    requires Owns(H, leaves, inner, 0, |leaves|) && LowClear(|leaves|, level) && BitSet(|leaves|, level)
    ensures Sweeping(H, leaves, inner, |leaves|, level, Shr(|leaves|, level), inner[level])
  {
    var n := |leaves|;
    OwnsAt(H, leaves, inner, n, level);
    FullLevels(H, leaves, level);
  }

  lemma TooBig(a: nat, p: nat)
    requires p >= 1
    ensures (a + 1) * p > a * p
  {
  }

  /** Below the lowest set bit no level has an odd node. */
  lemma {:induction false} FullLevels<T>(H: (T, T) -> T, leaves: seq<T>, level: nat)
    requires LowClear(|leaves|, level) && leaves != []
    ensures |Level(H, leaves, level)| == Shr(|leaves|, level) >= 1
    ensures Tall(H, leaves, level)
    decreases level
  {
    if level > 0 {
      FullLevels(H, leaves, level - 1);
      ShrNext(|leaves|, level - 1);
    }
  }

  lemma SweptStart<T>(H: (T, T) -> T, leaves: seq<T>, pos: nat, branch: seq<T>, ml: int, level: nat)
    requires Tracked(H, leaves, pos, branch, ml, |leaves|) && LowClear(|leaves|, level)
    ensures Swept(H, leaves, pos, branch, ml, ml == level, level, Shr(|leaves|, level))
  {
    if 0 <= ml < level {
      LowClearAt(|leaves|, level, ml);
    }
  }

  lemma {:induction false} LowClearAt(count: nat, level: nat, j: nat)
    requires LowClear(count, level) && j < level
    ensures !BitSet(count, j)
    decreases level
  {
    if j < level - 1 {
      LowClearAt(count, level - 1, j);
    }
  }

  /** Beyond 2^31 leaves the sweep finds no power of two before it leaves the slots. */
  lemma {:induction false} RunsOff<T>(H: (T, T) -> T, inner: seq<T>, count: nat, ml: int, s: Run<T>)
    requires |inner| == 32 && s.level <= 32 && count > MAX_LEAVES
    ensures SweepLoop(H, inner, count, ml, s).level == 32
    decreases 32 - s.level
  {
    if s.level < 32 {
      Pow2Values();
      Pow2Monotone(s.level, 31);
      if BitSet(count, s.level) {
        RunsOff(H, inner, count + Pow2(s.level), ml, DoubleStep(H, s));
      } else {
        RunsOff(H, inner, count, ml, MergeStep(H, inner, ml, s).(mutated := s.mutated));
      }
    }
  }

  /** The final sweep over the right edge of the tree. */
  method Sweep<T(==)>(H: (T, T) -> T, leaves: seq<T>, inner: array<T>, pos: nat, ml: int, branch0: seq<T>)
    returns (fits: bool, root: T, branch: seq<T>)
    requires inner.Length == 32 && 1 <= |leaves| < COUNTER
    requires Owns(H, leaves, inner[..], 0, |leaves|) && Tracked(H, leaves, pos, branch0, ml, |leaves|)
    ensures fits <==> |leaves| <= MAX_LEAVES
    ensures fits ==> root == Root(H, leaves)
    ensures fits ==> branch == if pos < |leaves| then Branch(H, leaves, pos) else []
  {
    var level := LowestBit(|leaves|);
    ghost var s := Run(level, inner[level], false, ml == level, branch0);
    if |leaves| <= MAX_LEAVES {
      SweepStart(H, leaves, inner[..], level);
      SweptStart(H, leaves, pos, branch0, ml, level);
      SweepRoot(H, leaves, inner[..], |leaves|, ml, s, Shr(|leaves|, level));
      SweepBranch(H, leaves, inner[..], |leaves|, pos, ml, s, Shr(|leaves|, level));
    } else {
      RunsOff(H, inner[..], |leaves|, ml, s);
    }
    fits, root, branch := SweepUp(H, inner, |leaves|, level, ml, branch0);
  }

  /** Skip the levels on which nothing is left over. */
  method LowestBit(count: nat) returns (level: nat)
    requires 1 <= count < COUNTER
    ensures level <= 31 && BitSet(count, level) && LowClear(count, level)
  {
    level := 0;
    while !BitSet(count, level)
      invariant level <= 31 && Shr(count, level) >= 1 && LowClear(count, level)
      decreases Shr(count, level)
    {
      ShrNext(count, level);
      LevelFits(count, level + 1);
      level := level + 1;
    }
  }

  /** Adding a unit at a set bit clears that bit. */
  lemma UnitClears(count: nat, level: nat)
    requires LowClear(count, level) && BitSet(count, level)
    ensures LowClear(count + Pow2(level), level + 1)
  {
    AddUnit(count, level);
  }

  /** If the addition overflows 32 bits it leaves zero, which has no bit at all. */
  lemma WrapsToZero(count: nat, level: nat)
    requires 1 <= count < COUNTER && level <= 31 && LowClear(count, level)
    ensures var sum := count + Pow2(level); sum % COUNTER == if sum >= COUNTER then 0 else sum
    ensures forall l: nat :: !BitSet(0, l)
  {
    SumFits(count, level);
    forall l: nat ensures !BitSet(0, l) {
      ShrOfZero(l);
    }
  }

  lemma SumFits(count: nat, level: nat)
    requires 1 <= count < COUNTER && level <= 31 && LowClear(count, level)
    ensures count + Pow2(level) <= COUNTER
  {
    LowBitsClear(count, level);
    UnitsBelow(count, level);
    UnitsOfCounter(level);
    UnitRoom(count, Shr(count, level), Pow2(32 - level), Pow2(level));
  }

  lemma UnitsBelow(count: nat, level: nat)
    requires count < COUNTER && level <= 31
    ensures Shr(count, level) < Pow2(32 - level)
  {
    Pow2Values();
    ShrSmall(count, level, 32);
  }

  lemma UnitsOfCounter(level: nat)
    requires level <= 31
    ensures Pow2(32 - level) * Pow2(level) == COUNTER
  {
    Pow2Values();
    Pow2Add(32 - level, level);
  }

  lemma UnitRoom(count: nat, q: nat, m: nat, p: nat)
    requires count == q * p && q < m && m * p == COUNTER
    ensures count + p <= COUNTER
  {
    MulLe(q + 1, m, p);
    OneMore(count, q, p);
  }

  /** A 32 bit counter other than zero has a bit at or above a level below which it is clear. */
  lemma BitAhead(count: nat, level: nat)
    requires 1 <= count < COUNTER && level <= 32 && LowClear(count, level)
    ensures level <= 31
  {
    LowBitsClear(count, level);
    LevelFits(count, level);
  }

  /** The two nested loops of the sweep. They end with a result unless the counter wraps to zero, which
      has no bit for the inner loop to find. */
  method SweepUp<T(==)>(H: (T, T) -> T, inner: array<T>, count0: nat, level0: nat, ml: int, branch0: seq<T>)
    returns (fits: bool, root: T, branch: seq<T>)
    requires inner.Length == 32 && level0 <= 31 && 1 <= count0 < COUNTER
    requires BitSet(count0, level0) && LowClear(count0, level0)
    ensures var r := SweepLoop(H, inner[..], count0, ml, Run(level0, inner[level0], false, ml == level0, branch0));
            (fits <==> r.level <= 31) && (fits ==> root == r.h && branch == r.branch)
  {
    var count: nat, level: nat, matchh := count0, level0, ml == level0;
    root, branch := inner[level], branch0;
    ghost var goal := SweepLoop(H, inner[..], count0, ml, Run(level, root, false, matchh, branch));
    while count != Pow2(level)
      invariant level <= 31 && 1 <= count < COUNTER && BitSet(count, level) && LowClear(count, level)
      invariant SweepLoop(H, inner[..], count, ml, Run(level, root, false, matchh, branch)) == goal
      decreases 32 - level
    {
      if matchh {
        branch := branch + [root];
      }
      root := H(root, root);
      UnitClears(count, level);
      WrapsToZero(count, level);
      ghost var sum := count + Pow2(level);
      count := (count + Pow2(level)) % COUNTER;
      level := level + 1;
      if count == 0 {
        RunsOff(H, inner[..], sum, ml, Run(level, root, false, matchh, branch));
        return false, root, branch;
      }
      level, root, matchh, branch := MergeUp(H, inner, count, level, root, matchh, ml, branch, goal);
    }
    fits := true;
  }

  /** The inner loop of the sweep: merge with finished subtrees on the left. */
  method MergeUp<T(==)>(H: (T, T) -> T, inner: array<T>, count: nat, level0: nat, h0: T, matchh0: bool, ml: int,
                        branch0: seq<T>, ghost goal: Run<T>)
    returns (level: nat, h: T, matchh: bool, branch: seq<T>)
    requires inner.Length == 32 && level0 <= 32 && 1 <= count < COUNTER && LowClear(count, level0)
    requires SweepLoop(H, inner[..], count, ml, Run(level0, h0, false, matchh0, branch0)) == goal
    ensures level0 <= level <= 31 && BitSet(count, level) && LowClear(count, level)
    ensures SweepLoop(H, inner[..], count, ml, Run(level, h, false, matchh, branch)) == goal
  {
    level, h, matchh, branch := level0, h0, matchh0, branch0;
    BitAhead(count, level);
    while !BitSet(count, level)
      invariant level0 <= level <= 31 && LowClear(count, level)
      invariant SweepLoop(H, inner[..], count, ml, Run(level, h, false, matchh, branch)) == goal
      decreases 32 - level
    {
      PowerHasBit(count, level);
      if matchh {
        branch := branch + [inner[level]];
      } else if ml == level {
        branch := branch + [h];
        matchh := true;
      }
      h := H(inner[level], h);
      level := level + 1;
      BitAhead(count, level);
    }
  }

  lemma PowerHasBit(count: nat, level: nat)
    requires !BitSet(count, level)
    ensures count != Pow2(level)
  {
    ShrMultiple(1, level);
    assert 1 * Pow2(level) == Pow2(level);
  }

  /** What a call yields: a result, or none because the counter wraps to zero. */
  datatype Outcome<T> = Computed(root: T, mutated: bool, branch: seq<T>) | RunsOver

  /** `MerkleComputation`: root, duplication flag and branch of position `pos`. `zero` is the default
      hash. A position past the end asks for no branch. There is a result if and only if there are at
      most 2^31 leaves. */
  method Compute<T(==)>(H: (T, T) -> T, zero: T, leaves: seq<T>, pos: nat) returns (r: Outcome<T>)
    ensures r.Computed? <==> |leaves| <= MAX_LEAVES
    ensures r.Computed? && leaves == [] ==> r.root == zero && !r.mutated && r.branch == []
    ensures r.Computed? && leaves != [] ==> r.root == Root(H, leaves)
    ensures r.Computed? ==> (r.mutated <==> Mutated(H, leaves))
    ensures r.Computed? ==> r.branch == if pos < |leaves| then Branch(H, leaves, pos) else []
  {
    SeenTwinIsMutated(H, leaves);
    NoTwinYet(H, leaves);
    if leaves == [] {
      return Computed(zero, false, []);
    }
    var inner := new T[32](_ => zero);
    var fits, mutated, ml, branch := AddAll(H, leaves, inner, pos);
    if !fits {
      return RunsOver;
    }
    var root;
    fits, root, branch := Sweep(H, leaves, inner, pos, ml, branch);
    r := if fits then Computed(root, mutated, branch) else RunsOver;
  }

  /** The main loop, which ends with a result unless the counter wraps to zero. */
  method AddAll<T(==)>(H: (T, T) -> T, leaves: seq<T>, inner: array<T>, pos: nat)
    returns (fits: bool, mutated: bool, ml: int, branch: seq<T>)
    requires inner.Length == 32
    modifies inner
    ensures fits <==> |leaves| < COUNTER
    ensures fits ==> Owns(H, leaves, inner[..], 0, |leaves|) && Tracked(H, leaves, pos, branch, ml, |leaves|)
    ensures fits ==> (mutated <==> SeenTwin(H, leaves, |leaves|))
  {
    NoTwinYet(H, leaves);
    var count := 0;
    ml, mutated, branch := -1, false, [];
    while count < |leaves|
      invariant 0 <= count <= |leaves| && count < COUNTER
      invariant Owns(H, leaves, inner[..], 0, count)
      invariant mutated <==> SeenTwin(H, leaves, count)
      invariant Tracked(H, leaves, pos, branch, ml, count)
    {
      if (count + 1) % COUNTER == 0 {
        return false, mutated, ml, branch;
      }
      mutated, ml, branch := AddLeaf(H, leaves, inner, count + 1, pos, mutated, ml, branch);
      count := count + 1;
    }
    fits := true;
  }

  lemma NoTwinYet<T>(H: (T, T) -> T, leaves: seq<T>)
    ensures !SeenTwin(H, leaves, 0)
  {
    forall l: nat, j: nat ensures !TwinWithin(H, leaves, 0, l, j) {
      ShrOfZero(l);
    }
  }

  /** `ComputeMerkleRoot`. */
  method ComputeMerkleRoot<T(==)>(H: (T, T) -> T, zero: T, leaves: seq<T>) returns (r: Outcome<T>)
    ensures r.Computed? <==> |leaves| <= MAX_LEAVES
    ensures r.Computed? ==> r.root == if leaves == [] then zero else Root(H, leaves)
    ensures r.Computed? ==> (r.mutated <==> Mutated(H, leaves))
  {
    r := Compute(H, zero, leaves, 0xffff_ffff);
  }

  /** `ComputeMerkleBranch`. */
  method ComputeMerkleBranch<T(==)>(H: (T, T) -> T, zero: T, leaves: seq<T>, pos: nat) returns (r: Outcome<T>)
    ensures r.Computed? <==> |leaves| <= MAX_LEAVES
    ensures r.Computed? && pos < |leaves| ==> FromBranch(H, leaves[pos], r.branch, pos) == Root(H, leaves)
    ensures r.Computed? ==> r.branch == if pos < |leaves| then Branch(H, leaves, pos) else []
  {
    r := Compute(H, zero, leaves, pos);
    if pos < |leaves| {
      BranchProvesLeaf(H, leaves, pos);
    }
  }

  /** `ComputeMerkleRootFromBranch`. */
  method ComputeMerkleRootFromBranch<T>(H: (T, T) -> T, leaf: T, branch: seq<T>, index: nat) returns (hash: T)
    ensures hash == FromBranch(H, leaf, branch, index)
  {
    hash := leaf;
    var i, n := 0, index;
    assert branch[0..] == branch;
    while i < |branch|
      invariant 0 <= i <= |branch|
      invariant FromBranch(H, hash, branch[i..], n) == FromBranch(H, leaf, branch, index)
    {
      assert branch[i..][1..] == branch[i + 1..];
      if n % 2 == 1 {
        hash := H(branch[i], hash);
      } else {
        hash := H(hash, branch[i]);
      }
      n := n / 2;
      i := i + 1;
    }
  }
}
