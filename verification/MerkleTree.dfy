/** Merkle trees by levels: each level pairs up the nodes of the one below and an odd last
    node is paired with itself. The hash is any binary function `H`.
 */
module MerkleTree {
  import opened Bits

  function Node<T>(H: (T, T) -> T, level: seq<T>, i: nat): T
    requires 2 * i < |level|
  {
    H(level[2 * i], if 2 * i + 1 < |level| then level[2 * i + 1] else level[2 * i])
  }

  /** Pair up a level. */
  function NextLevel<T>(H: (T, T) -> T, level: seq<T>): (r: seq<T>)
    ensures |r| == (|level| + 1) / 2
  {
    Nodes(H, level, (|level| + 1) / 2)
  }

  /** The first `n` nodes above `level`. */
  function Nodes<T>(H: (T, T) -> T, level: seq<T>, n: nat): (r: seq<T>)
    requires 2 * n <= |level| + 1
    ensures |r| == n
  {
    if n == 0 then [] else Nodes(H, level, n - 1) + [Node(H, level, n - 1)]
  }

  lemma {:induction false} NodesAt<T>(H: (T, T) -> T, level: seq<T>, n: nat, i: nat)
    requires 2 * n <= |level| + 1 && i < n
    ensures Nodes(H, level, n)[i] == Node(H, level, i)
    decreases n
  {
    if i < n - 1 {
      NodesAt(H, level, n - 1, i);
    }
  }

  lemma NodeAt<T>(H: (T, T) -> T, level: seq<T>, i: nat)
    requires 2 * i < |level|
    ensures NextLevel(H, level)[i] == Node(H, level, i)
  {
    NodesAt(H, level, (|level| + 1) / 2, i);
  }

  function Level<T>(H: (T, T) -> T, leaves: seq<T>, k: nat): seq<T> {
    if k == 0 then leaves else NextLevel(H, Level(H, leaves, k - 1))
  }

  /** The naive root: build levels until one node is left. */
  function Root<T>(H: (T, T) -> T, level: seq<T>): T
    requires level != []
    decreases |level|
  {
    if |level| == 1 then level[0] else Root(H, NextLevel(H, level))
  }

  function Sibling<T>(level: seq<T>, i: nat): T
    requires i < |level|
  {
    if i % 2 == 1 then level[i - 1] else if i + 1 < |level| then level[i + 1] else level[i]
  }

  /** The siblings met on the way from node `i` to the root. */
  function Branch<T>(H: (T, T) -> T, level: seq<T>, i: nat): seq<T>
    requires i < |level|
    decreases |level|
  {
    if |level| == 1 then [] else [Sibling(level, i)] + Branch(H, NextLevel(H, level), i / 2)
  }

  /** `ComputeMerkleRootFromBranch` as a fold. */
  function FromBranch<T>(H: (T, T) -> T, leaf: T, branch: seq<T>, i: nat): T
    decreases |branch|
  {
    if branch == [] then leaf
    else FromBranch(H, if i % 2 == 1 then H(branch[0], leaf) else H(leaf, branch[0]), branch[1..], i / 2)
  }

  /** The roots of small trees, written out. */
  lemma SmallRoots<T>(H: (T, T) -> T, a: T, b: T, c: T, d: T, e: T)
    ensures Root(H, [a]) == a && Root(H, [a, b]) == H(a, b) && Root(H, [a, b, c]) == H(H(a, b), H(c, c))
    ensures Root(H, [a, b, c, d]) == H(H(a, b), H(c, d))
    ensures Root(H, [a, b, c, d, e]) == H(H(H(a, b), H(c, d)), H(H(e, e), H(e, e)))
  {
    PairRoot(H, a, b);
    FourRoot(H, [a, b, c], H(a, b), H(c, c));
    FourRoot(H, [a, b, c, d], H(a, b), H(c, d));
    var up := NextLevel(H, [a, b, c, d, e]);
    NodeAt(H, [a, b, c, d, e], 0);
    NodeAt(H, [a, b, c, d, e], 1);
    NodeAt(H, [a, b, c, d, e], 2);
    FourRoot(H, up, H(up[0], up[1]), H(up[2], up[2]));
  }

  lemma PairRoot<T>(H: (T, T) -> T, a: T, b: T)
    ensures Root(H, [a, b]) == H(a, b)
  {
    NodeAt(H, [a, b], 0);
  }

  lemma FourRoot<T>(H: (T, T) -> T, level: seq<T>, x: T, y: T)
    requires 3 <= |level| <= 4 && x == H(level[0], level[1]) && y == H(level[2], level[|level| - 1])
    ensures Root(H, level) == H(x, y)
  {
    NodeAt(H, level, 0);
    NodeAt(H, level, 1);
    assert NextLevel(H, level) == [x, y];
    PairRoot(H, x, y);
  }

  /** Folding a leaf along its branch gives the root. */
  lemma {:induction false} BranchProvesLeaf<T>(H: (T, T) -> T, level: seq<T>, i: nat)
    requires i < |level|
    ensures FromBranch(H, level[i], Branch(H, level, i), i) == Root(H, level)
    decreases |level|
  {
    if |level| > 1 {
      var up := NextLevel(H, level);
      NodeAt(H, level, i / 2);
      BranchProvesLeaf(H, up, i / 2);
      assert Branch(H, level, i)[1..] == Branch(H, up, i / 2);
    }
  }

  // ---------------------------------------------------------------- complete subtrees

  /** The hash of a complete subtree over 2^k leaves. */
  function Complete<T>(H: (T, T) -> T, s: seq<T>, k: nat): T
    requires |s| == Pow2(k)
    decreases k
  {
    if k == 0 then s[0]
    else H(Complete(H, s[..Pow2(k - 1)], k - 1), Complete(H, s[Pow2(k - 1)..], k - 1))
  }

  /** The leaves below node `i` of level `k`. */
  function Under<T>(leaves: seq<T>, k: nat, i: nat): (s: seq<T>)
    requires (i + 1) * Pow2(k) <= |leaves|
    ensures |s| == Pow2(k)
  {
    var p := Pow2(k);
    assert (i + 1) * p == i * p + p;
    leaves[i * p..i * p + p]
  }

  /** Every level is as long as the leaves demand: its last node covers the last leaf. */
  lemma {:induction false} LevelLength<T>(H: (T, T) -> T, leaves: seq<T>, k: nat)
    ensures |Level(H, leaves, k)| * Pow2(k) >= |leaves|
    ensures leaves != [] ==> |Level(H, leaves, k)| >= 1 && (|Level(H, leaves, k)| - 1) * Pow2(k) < |leaves|
    decreases k
  {
    if k > 0 {
      LevelLength(H, leaves, k - 1);
      HalfLength(|Level(H, leaves, k - 1)|, |Level(H, leaves, k)|, Pow2(k - 1), |leaves|);
    }
  }

  lemma HalfLength(a: nat, b: nat, p: nat, n: nat)
    requires b == (a + 1) / 2 && a * p >= n
    ensures b * (2 * p) >= n
    ensures a >= 1 && (a - 1) * p < n ==> b >= 1 && (b - 1) * (2 * p) < n
  {
    MulLe(a, 2 * b, p);
    assert (2 * b) * p == b * (2 * p);
    MulLe(2 * (b - 1), a - 1, p);
    assert (2 * (b - 1)) * p == (b - 1) * (2 * p);
  }

  lemma CompleteIndex<T>(H: (T, T) -> T, leaves: seq<T>, k: nat, i: nat)
    requires (i + 1) * Pow2(k) <= |leaves|
    ensures i < |Level(H, leaves, k)|
  {
    LevelLength(H, leaves, k);
    var l, p := |Level(H, leaves, k)|, Pow2(k);
    assert (i + 1) * p == i * p + p;
    if l <= i {
      MulLe(l, i, p);
    }
  }

  /** Nodes over complete subtrees are plain subtree hashes. */
  lemma {:induction false} LevelIsComplete<T>(H: (T, T) -> T, leaves: seq<T>, k: nat, i: nat)
    requires (i + 1) * Pow2(k) <= |leaves|
    ensures i < |Level(H, leaves, k)|
    ensures Level(H, leaves, k)[i] == Complete(H, Under(leaves, k, i), k)
    decreases k
  {
    CompleteIndex(H, leaves, k, i);
    if k == 0 {
      assert Under(leaves, 0, i)[0] == leaves[i];
    } else {
      HalvesFit(|leaves|, k, i);
      LevelIsComplete(H, leaves, k - 1, 2 * i);
      LevelIsComplete(H, leaves, k - 1, 2 * i + 1);
      HalvesUnder(leaves, k, i);
      NodeAt(H, Level(H, leaves, k - 1), i);
    }
  }

  lemma HalvesFit(n: nat, k: nat, i: nat)
    requires k > 0 && (i + 1) * Pow2(k) <= n
    ensures (2 * i + 1) * Pow2(k - 1) <= n && (2 * i + 2) * Pow2(k - 1) <= n
  {
    var p := Pow2(k - 1);
    assert (i + 1) * (2 * p) == (2 * i + 2) * p;
    assert (2 * i + 2) * p == (2 * i + 1) * p + p;
  }

  lemma HalvesUnder<T>(leaves: seq<T>, k: nat, i: nat)
    requires k > 0 && (i + 1) * Pow2(k) <= |leaves|
    requires (2 * i + 1) * Pow2(k - 1) <= |leaves| && (2 * i + 2) * Pow2(k - 1) <= |leaves|
    ensures Under(leaves, k, i)[..Pow2(k - 1)] == Under(leaves, k - 1, 2 * i)
    ensures Under(leaves, k, i)[Pow2(k - 1)..] == Under(leaves, k - 1, 2 * i + 1)
  {
    var p := Pow2(k - 1);
    assert i * (2 * p) == (2 * i) * p;
    assert (2 * i + 1) * p == (2 * i) * p + p;
  }

  // ---------------------------------------------------------------- duplication

  /** Two adjacent aligned complete subtrees of 2^k leaves each hash alike. */
  ghost predicate TwinAt<T>(H: (T, T) -> T, leaves: seq<T>, k: nat, j: nat) {
    && (2 * j + 2) * Pow2(k) <= |leaves|
    && (2 * j + 1) * Pow2(k) <= |leaves|
    && Complete(H, Under(leaves, k, 2 * j), k) == Complete(H, Under(leaves, k, 2 * j + 1), k)
  }

  ghost predicate Mutated<T>(H: (T, T) -> T, leaves: seq<T>) {
    exists k: nat, j: nat :: TwinAt(H, leaves, k, j)
  }

  /** Adjacent nodes of a level that are equal and complete. */
  ghost predicate TwinNodes<T>(H: (T, T) -> T, leaves: seq<T>, k: nat, j: nat) {
    && (2 * j + 2) * Pow2(k) <= |leaves|
    && 2 * j + 1 < |Level(H, leaves, k)|
    && Level(H, leaves, k)[2 * j] == Level(H, leaves, k)[2 * j + 1]
  }

  lemma TwinNodesAreTwins<T>(H: (T, T) -> T, leaves: seq<T>, k: nat, j: nat)
    ensures TwinNodes(H, leaves, k, j) <==> TwinAt(H, leaves, k, j)
  {
    if (2 * j + 2) * Pow2(k) <= |leaves| {
      assert (2 * j + 1) * Pow2(k) <= (2 * j + 2) * Pow2(k) by { MulLe(2 * j + 1, 2 * j + 2, Pow2(k)); }
      LevelIsComplete(H, leaves, k, 2 * j);
      LevelIsComplete(H, leaves, k, 2 * j + 1);
    }
  }

  // ---------------------------------------------------------------- the flaw the flag guards

  lemma {:induction false} RootFromLevel<T>(H: (T, T) -> T, x: seq<T>, k: nat)
    requires |Level(H, x, k)| > 1 && x != []
    ensures Root(H, x) == Root(H, Level(H, x, k))
    decreases k
  {
    if k > 0 {
      RootFromLevel(H, x, k - 1);
    }
  }

  lemma FullLevel<T>(H: (T, T) -> T, x: seq<T>, k: nat, m: nat)
    requires x != [] && |x| == m * Pow2(k)
    ensures |Level(H, x, k)| == m
  {
    LevelLength(H, x, k);
    OnlyCount(|Level(H, x, k)|, m, Pow2(k));
  }

  lemma OnlyCount(l: nat, m: nat, p: nat)
    requires l >= 1 && m * p <= l * p && (l - 1) * p < m * p
    ensures l == m
  {
    if l > m {
      MulLe(m, l - 1, p);
    } else if l < m {
      MulLe(l, m - 1, p);
      MulLe(l - 1, l, p);
    }
  }

  /** The list with its last 2^k leaves repeated. */
  function Doubled<T>(x: seq<T>, k: nat): seq<T>
    requires Pow2(k) <= |x|
  {
    x + x[|x| - Pow2(k)..]
  }

  /** Repeating a last complete subtree that has no neighbour keeps the root, and is always
      flagged. The six leaves of the source's comment are the case m = 3, k = 1. */
  lemma DoubledEnd<T>(H: (T, T) -> T, x: seq<T>, k: nat, m: nat)
    requires m % 2 == 1 && m > 1 && |x| == m * Pow2(k) && Pow2(k) <= |x|
    ensures Root(H, Doubled(x, k)) == Root(H, x) && Mutated(H, Doubled(x, k))
  {
    OneBlockMore(m, Pow2(k));
    FullLevel(H, x, k, m);
    FullLevel(H, Doubled(x, k), k, m + 1);
    DoubledLevel(H, x, k, m);
    SameRoot(H, x, Doubled(x, k), k);
    EndTwin(H, Doubled(x, k), k, m / 2, m + 1);
  }

  lemma OneBlockMore(m: nat, p: nat)
    ensures (m + 1) * p == m * p + p
  {
  }

  lemma SameRoot<T>(H: (T, T) -> T, x: seq<T>, y: seq<T>, k: nat)
    requires x != [] && y != [] && |Level(H, x, k)| % 2 == 1 && |Level(H, x, k)| > 1
    requires Level(H, y, k) == Level(H, x, k) + [Level(H, x, k)[|Level(H, x, k)| - 1]]
    ensures Root(H, y) == Root(H, x)
  {
    RootFromLevel(H, x, k);
    RootFromLevel(H, y, k);
    SameNext(H, Level(H, x, k), Level(H, y, k));
  }

  lemma EndTwin<T>(H: (T, T) -> T, y: seq<T>, k: nat, j: nat, n: nat)
    requires n == 2 * j + 2 && n * Pow2(k) <= |y| && |Level(H, y, k)| == n
    requires Level(H, y, k)[n - 2] == Level(H, y, k)[n - 1]
    ensures Mutated(H, y)
  {
    assert TwinNodes(H, y, k, j);
    TwinNodesAreTwins(H, y, k, j);
  }

  lemma SameNext<T>(H: (T, T) -> T, a: seq<T>, b: seq<T>)
    requires |a| % 2 == 1 && b == a + [a[|a| - 1]]
    ensures NextLevel(H, a) == NextLevel(H, b)
  {
    forall i | 0 <= i < (|a| + 1) / 2 ensures NextLevel(H, a)[i] == NextLevel(H, b)[i] {
      NodeAt(H, a, i);
      NodeAt(H, b, i);
    }
  }

  lemma DoubledLevel<T>(H: (T, T) -> T, x: seq<T>, k: nat, m: nat)
    requires m >= 1 && |x| == m * Pow2(k) && Pow2(k) <= |x|
    requires |Level(H, x, k)| == m && |Level(H, Doubled(x, k), k)| == m + 1
    ensures Level(H, Doubled(x, k), k) == Level(H, x, k) + [Level(H, x, k)[m - 1]]
  {
    var y := Doubled(x, k);
    forall i | 0 <= i <= m ensures Level(H, y, k)[i] == Level(H, x, k)[if i < m then i else m - 1] {
      DoubledNode(H, x, k, m, i, if i < m then i else m - 1);
    }
  }

  lemma DoubledNode<T>(H: (T, T) -> T, x: seq<T>, k: nat, m: nat, i: nat, j: nat)
    requires m >= 1 && |x| == m * Pow2(k) && Pow2(k) <= |x| && i <= m && j == if i < m then i else m - 1
    ensures i < |Level(H, Doubled(x, k), k)| && j < |Level(H, x, k)|
    ensures Level(H, Doubled(x, k), k)[i] == Level(H, x, k)[j]
  {
    BlocksFit(m, i, j, Pow2(k));
    LevelIsComplete(H, Doubled(x, k), k, i);
    LevelIsComplete(H, x, k, j);
    SameUnder(x, k, i, j, i * Pow2(k), j * Pow2(k));
  }

  lemma BlocksFit(m: nat, i: nat, j: nat, p: nat)
    requires i <= m && m >= 1 && j == if i < m then i else m - 1
    ensures (i + 1) * p <= m * p + p && (j + 1) * p <= m * p
    ensures (i + 1) * p == i * p + p && (j + 1) * p == j * p + p
    ensures i == m ==> j * p == m * p - p
  {
    MulLe(i, m, p);
    MulLe(j + 1, m, p);
    assert (m - 1) * p == m * p - p;
    assert (i + 1) * p == i * p + p && (j + 1) * p == j * p + p;
  }

  lemma SameUnder<T>(x: seq<T>, k: nat, i: nat, j: nat, ip: nat, jp: nat)
    requires Pow2(k) <= |x| && ip == i * Pow2(k) && jp == j * Pow2(k)
    requires (i + 1) * Pow2(k) == ip + Pow2(k) <= |x| + Pow2(k) && (j + 1) * Pow2(k) == jp + Pow2(k) <= |x|
    requires (i == j && ip + Pow2(k) <= |x|) || (ip == |x| && jp == |x| - Pow2(k))
    ensures Under(Doubled(x, k), k, i) == Under(x, k, j)
  {
    var y, p := Doubled(x, k), Pow2(k);
    assert y[ip..ip + p] == x[jp..jp + p];
  }

  // ---------------------------------------------------------------- injectivity

  ghost predicate Injective<T(!new)>(H: (T, T) -> T) {
    forall a, b, c, d :: H(a, b) == H(c, d) ==> a == c && b == d
  }

  /** With an injective hash, a complete node that equals the incomplete last node of its
      level betrays a pair of twins below it. */
  lemma {:induction false} IncompleteTwin<T(!new)>(H: (T, T) -> T, leaves: seq<T>, k: nat, i: nat)
    requires Injective(H) && leaves != []
    requires (i + 1) * Pow2(k) <= |leaves| < |Level(H, leaves, k)| * Pow2(k)
    requires i < |Level(H, leaves, k)| - 1
    requires Level(H, leaves, k)[i] == Level(H, leaves, k)[|Level(H, leaves, k)| - 1]
    ensures Mutated(H, leaves)
    decreases k
  {
    if k > 0 {
      var below, here := Level(H, leaves, k - 1), Level(H, leaves, k);
      var last := |here| - 1;
      HalvesFit(|leaves|, k, i);
      NodeAt(H, below, i);
      NodeAt(H, below, last);
      EqualParents(H, below, i, last);
      if |below| == 2 * last + 1 {
        TwinNodesAreTwins(H, leaves, k - 1, i);
      } else {
        assert |below| == 2 * |here|;
        DoubleHalf(|here|, k);
        IncompleteTwin(H, leaves, k - 1, 2 * i + 1);
      }
    }
  }

  lemma DoubleHalf(l: nat, k: nat)
    requires k > 0
    ensures (2 * l) * Pow2(k - 1) == l * Pow2(k)
  {
  }

  /** Equal parents have equal children; the last parent may have a doubled child. */
  lemma EqualParents<T(!new)>(H: (T, T) -> T, below: seq<T>, i: nat, last: nat)
    requires Injective(H) && i < last && 2 * last < |below| <= 2 * last + 2
    requires Node(H, below, i) == Node(H, below, last)
    ensures |below| == 2 * last + 1 || |below| == 2 * last + 2
    ensures 2 * i + 1 < |below| - 1
    ensures |below| == 2 * last + 1 ==> below[2 * i] == below[2 * i + 1]
    ensures |below| == 2 * last + 2 ==> below[2 * i + 1] == below[|below| - 1]
  {
  }

  /** With an injective hash and no twins, a level determines the level below it. */
  lemma LevelDeterminesBelow<T(!new)>(H: (T, T) -> T, x: seq<T>, y: seq<T>, k: nat)
    requires Injective(H) && x != [] && y != [] && !Mutated(H, x) && !Mutated(H, y)
    requires Level(H, x, k + 1) == Level(H, y, k + 1)
    ensures Level(H, x, k) == Level(H, y, k)
  {
    var a, b := Level(H, x, k), Level(H, y, k);
    if |a| < |b| {
      ShorterLevelTwin(H, y, k, a);
    } else if |b| < |a| {
      ShorterLevelTwin(H, x, k, b);
    } else {
      EqualLengthBelow(H, a, b);
    }
  }

  lemma EqualLengthBelow<T(!new)>(H: (T, T) -> T, a: seq<T>, b: seq<T>)
    requires Injective(H) && |a| == |b| && NextLevel(H, a) == NextLevel(H, b)
    ensures a == b
  {
    forall i | 0 <= i < |a| ensures a[i] == b[i] {
      NodeAt(H, a, i / 2);
      NodeAt(H, b, i / 2);
      assert i == 2 * (i / 2) || i == 2 * (i / 2) + 1;
    }
  }

  /** A shorter level with the same parents means that the last two nodes are twins. */
  lemma ShorterLevelTwin<T(!new)>(H: (T, T) -> T, y: seq<T>, k: nat, a: seq<T>)
    requires Injective(H) && y != [] && |a| < |Level(H, y, k)|
    requires NextLevel(H, a) == Level(H, y, k + 1)
    ensures Mutated(H, y)
  {
    var b := Level(H, y, k);
    var m := |a| / 2;
    assert |b| == |a| + 1 && |a| == 2 * m + 1;
    NodeAt(H, a, m);
    NodeAt(H, b, m);
    LevelLength(H, y, k);
    assert ((2 * m) + 1) * Pow2(k) == (|b| - 1) * Pow2(k);
    if |b| * Pow2(k) <= |y| {
      TwinNodesAreTwins(H, y, k, m);
    } else {
      IncompleteTwin(H, y, k, 2 * m);
    }
  }

  lemma {:induction false} SameLevelSameLeaves<T(!new)>(H: (T, T) -> T, x: seq<T>, y: seq<T>, k: nat)
    requires Injective(H) && x != [] && y != [] && !Mutated(H, x) && !Mutated(H, y)
    requires Level(H, x, k) == Level(H, y, k)
    ensures x == y
    decreases k
  {
    if k > 0 {
      LevelDeterminesBelow(H, x, y, k - 1);
      SameLevelSameLeaves(H, x, y, k - 1);
    }
  }

  /** The number of levels above the leaves. */
  function Height<T>(H: (T, T) -> T, level: seq<T>): nat
    requires level != []
    decreases |level|
  {
    if |level| == 1 then 0 else 1 + Height(H, NextLevel(H, level))
  }

  lemma {:induction false} LevelAbove<T>(H: (T, T) -> T, level: seq<T>, k: nat)
    ensures Level(H, level, k + 1) == Level(H, NextLevel(H, level), k)
    decreases k
  {
    if k > 0 {
      LevelAbove(H, level, k - 1);
    }
  }

  lemma {:induction false} TopLevel<T>(H: (T, T) -> T, level: seq<T>)
    requires level != []
    ensures Level(H, level, Height(H, level)) == [Root(H, level)]
    decreases |level|
  {
    if |level| > 1 {
      TopLevel(H, NextLevel(H, level));
      LevelAbove(H, level, Height(H, NextLevel(H, level)));
    } else {
      assert level == [level[0]];
    }
  }

  /** Without hash collisions, two unmutated leaf lists whose trees are equally high and
      have the same root are the same list. */
  lemma SameRootSameLeaves<T(!new)>(H: (T, T) -> T, x: seq<T>, y: seq<T>)
    requires Injective(H) && x != [] && y != []
    requires !Mutated(H, x) && !Mutated(H, y)
    requires Height(H, x) == Height(H, y) && Root(H, x) == Root(H, y)
    ensures x == y
  {
    TopLevel(H, x);
    TopLevel(H, y);
    SameLevelSameLeaves(H, x, y, Height(H, x));
  }
}
