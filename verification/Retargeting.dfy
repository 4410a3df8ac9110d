/** The retarget over the active chain: which block a cycle ago the next target is computed from.
 */
module Retargeting {
  import opened Basics
  import opened BlockTree
  import opened ActiveChain
  import Difficulty

  /** What a retarget reads of a block index besides its height. */
  datatype Stamp = Stamp(bits: U32, time: U32)

  function HeaderOf(t: Tree, stamps: map<Id, Stamp>, id: Id): Difficulty.Header
    requires id in t && id in stamps
  {
    Difficulty.Header(t[id].height, stamps[id].bits, stamps[id].time)
  }

  /** The active chain holds one block per height, the tip's ancestor there. */
  lemma PathHeights(t: Tree, c: seq<Option<Id>>, h: nat)
    requires IsTree(t) && IsPath(t, c) && h < |c|
    ensures c[h].Some? && c[h].value in t && t[c[h].value].height == h
    ensures TipOf(c).Some? && c[h].value == Ancestor(t, TipOf(c).value, h)
  {
    PathAt(t, TipOf(c).value, h);
  }

  ghost predicate OnePerHeight(t: Tree, c: seq<Option<Id>>) {
    forall h :: 0 <= h < |c| ==> c[h].Some? && c[h].value in t && t[c[h].value].height == h
  }

  lemma PathIsOnePerHeight(t: Tree, c: seq<Option<Id>>)
    requires IsTree(t) && IsPath(t, c)
    ensures OnePerHeight(t, c)
  {
    forall h | 0 <= h < |c| ensures c[h].Some? && c[h].value in t && t[c[h].value].height == h {
      PathHeights(t, c, h);
    }
  }

  /** The headers of the active chain; block `h` has height `h`. */
  function Headers(t: Tree, stamps: map<Id, Stamp>, c: seq<Option<Id>>): (r: seq<Difficulty.Header>)
    requires t.Keys <= stamps.Keys && OnePerHeight(t, c)
    ensures |r| == |c| && Difficulty.HeightsMatch(r)
  {
    seq(|c|, h requires 0 <= h < |c| => HeaderOf(t, stamps, c[h].value))
  }

  /** The active block the retarget after block `last` starts from. */
  function FirstOf(t: Tree, c: seq<Option<Id>>, last: Id): Id
    requires OnePerHeight(t, c) && last in t && Difficulty.CYCLE_BLOCKS <= t[last].height < |c|
  {
    c[t[last].height - Difficulty.CYCLE_BLOCKS + 1].value
  }

  /** `getNextWorkTarget` for a block on `last`: the bits stay within a cycle, and the first block after a
      full cycle retargets over the time since the active block at height last - cycle + 1. */
  method NextWorkTarget(chain: Chain, t: Tree, stamps: map<Id, Stamp>, last: Id) returns (bits: U32)
    requires t.Keys <= stamps.Keys && OnePerHeight(t, chain.blocks) && last in t
    requires Difficulty.StartsCycle(t[last].height) ==> t[last].height < |chain.blocks|
    ensures !Difficulty.StartsCycle(t[last].height) ==> bits == stamps[last].bits
    ensures Difficulty.StartsCycle(t[last].height) ==>
              var first := FirstOf(t, chain.blocks, last);
              bits == Difficulty.NextBits(HeaderOf(t, stamps, last), HeaderOf(t, stamps, first))
  {
    var headers := Headers(t, stamps, chain.blocks);
    bits := Difficulty.GetNextWorkTarget(headers, HeaderOf(t, stamps, last));
  }

  // ---------------------------------------------------------------- whose cycle it is

  /** The active block at height `h` is the block's own ancestor if and only if the block left the active
      chain at that height or above. */
  lemma OwnCycle(t: Tree, c: seq<Option<Id>>, last: Id, h: nat)
    requires IsTree(t) && IsPath(t, c) && last in t && h <= t[last].height && h < |c|
    ensures c[h] == Some(Ancestor(t, last, h)) <==> Level(t, Fork(t, c, Some(last))) >= h
  {
    var own, f := Ancestor(t, last, h), Fork(t, c, Some(last));
    AncestorTwice(t, last, h, h);
    ForkIsHighest(t, c, last, own);
    if Level(t, f) >= h {
      ForkSharesBelow(t, c, last, f.value, h);
    }
  }

  lemma ForkSharesBelow(t: Tree, c: seq<Option<Id>>, last: Id, f: Id, h: nat)
    requires IsTree(t) && IsPath(t, c) && last in t && f in t && h <= t[f].height < |c|
    requires IsAncestor(t, f, last) && Contains(t, c, f)
    ensures c[h] == Some(Ancestor(t, last, h))
  {
    PathHeights(t, c, h);
    PathHeights(t, c, t[f].height);
    AncestorTwice(t, last, t[f].height, h);
    AncestorTwice(t, TipOf(c).value, t[f].height, h);
  }

  /** On the active chain, as when mining on its tip, it always is. */
  lemma ActiveCycle(t: Tree, c: seq<Option<Id>>, last: Id, h: nat)
    requires IsTree(t) && IsPath(t, c) && last in t && Contains(t, c, last) && h <= t[last].height
    ensures h < |c| && c[h] == Some(Ancestor(t, last, h))
  {
    OwnCycle(t, c, last, h);
  }

  // ---------------------------------------------------------------- it can be another's

  /** Two branches of `n` blocks each on block 0: the blocks 1 to n, and the blocks n + 1 to 2n. */
  ghost predicate TwoBranches(t: Tree, n: nat) {
    IsTree(t) && n > 0 && forall i: nat :: i <= 2 * n ==> BranchNode(t, n, i)
  }

  ghost predicate BranchNode(t: Tree, n: nat, i: nat) {
    i in t && t[i].prev == if i == 0 then None else Some(if i == n + 1 then 0 else i - 1)
  }

  lemma {:induction false} BranchHeight(t: Tree, n: nat, i: nat)
    requires TwoBranches(t, n) && i <= 2 * n
    ensures i in t && t[i].height == if i <= n then i else i - n
    decreases i
  {
    assert BranchNode(t, n, i) && NodeOk(t, i);
    if i == n + 1 {
      BranchHeight(t, n, 0);
    } else if i > 0 {
      BranchHeight(t, n, i - 1);
    }
  }

  lemma {:induction false} BranchFirst(t: Tree, n: nat, i: nat)
    requires TwoBranches(t, n) && 1 <= i <= 2 * n
    ensures i in t && t[i].height >= 1 && Ancestor(t, i, 1) == if i <= n then 1 else n + 1
    decreases i
  {
    assert BranchNode(t, n, i) && NodeOk(t, i);
    BranchHeight(t, n, i);
    if i != 1 && i != n + 1 {
      BranchFirst(t, n, i - 1);
    }
  }

  /** With one branch active, the block after a full cycle on the other is retargeted over the time of
      a block that is not among its ancestors. */
  lemma ForeignCycle(t: Tree, last: Id)
    requires TwoBranches(t, Difficulty.CYCLE_BLOCKS) && last == 2 * Difficulty.CYCLE_BLOCKS
    ensures last in t && Difficulty.StartsCycle(t[last].height) && Difficulty.CYCLE_BLOCKS in t
    ensures var c := Path(t, Difficulty.CYCLE_BLOCKS); var h := t[last].height - Difficulty.CYCLE_BLOCKS + 1;
            IsPath(t, c) && t[last].height < |c| && c[h] == Some(1) && Ancestor(t, last, h) != 1
  {
    var n := Difficulty.CYCLE_BLOCKS;
    BranchHeight(t, n, n);
    BranchHeight(t, n, last);
    BranchFirst(t, n, n);
    BranchFirst(t, n, last);
    PathIsPath(t, n);
    PathAt(t, n, 1);
  }

  /** There is such a tree. */
  function Branches(n: nat, i: nat): Tree {
    if i == 0 then map[0 := Node(None, None, 0, 0)]
    else Branches(n, i - 1)[i := Node(Some(if i == n + 1 then 0 else i - 1), None, if i <= n then i else i - n, 0)]
  }

  lemma {:induction false} BranchesHas(n: nat, i: nat, x: nat)
    requires n > 0
    ensures x in Branches(n, i) <==> x <= i
    ensures x <= i ==> BranchNode(Branches(n, i), n, x) && Branches(n, i)[x].height == if x <= n then x else x - n
    decreases i
  {
    if i > 0 {
      BranchesHas(n, i - 1, x);
    }
  }

  lemma SuchTree(n: nat) returns (t: Tree)
    requires n > 0
    ensures TwoBranches(t, n)
  {
    t := Branches(n, 2 * n);
    forall x: nat ensures x in t ==> NodeOk(t, x) && BranchNode(t, n, x) {
      BranchesHas(n, 2 * n, x);
      if x in t && x > 0 {
        BranchesHas(n, 2 * n, if x == n + 1 then 0 else x - 1);
      }
    }
    forall i: nat | i <= 2 * n ensures BranchNode(t, n, i) {
      BranchesHas(n, 2 * n, i);
    }
  }
}
