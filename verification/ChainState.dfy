/** Facts about whole states of the chain manager that need no steps: work along paths, chains
    without bad blocks, and the best tip.
 */
module ChainState {
  import opened Basics
  import opened BlockTree
  import opened ActiveChain
  import opened Candidates
  import opened Linking

  // ---------------------------------------------------------------- order and work

  /** Every block has more work than its parent. */
  ghost predicate Increasing(t: Tree) {
    forall x :: x in t && t[x].prev.Some? && t[x].prev.value in t ==> t[t[x].prev.value].work < t[x].work
  }

  lemma {:induction false} MoreWorkAbove(t: Tree, a: Id, b: Id)
    requires IsTree(t) && Increasing(t) && a in t && b in t && IsAncestor(t, a, b)
    ensures a == b || t[a].work < t[b].work
    decreases t[b].height
  {
    if t[a].height != t[b].height {
      assert NodeOk(t, b);
      MoreWorkAbove(t, a, t[b].prev.value);
    }
  }

  lemma LessTransitive(t: Tree, m: Marks, a: Id, b: Id, c: Id)
    requires a in t && b in t && c in t && a in m && b in m && c in m && Less(t, m, a, b)
    requires b == c || Less(t, m, b, c)
    ensures Less(t, m, a, c)
  {
  }

  // ---------------------------------------------------------------- blocks one may switch to

  /** The block and all its ancestors are ok. */
  predicate AllOk(t: Tree, m: Marks, id: Id)
    requires IsTree(t) && m.Keys == t.Keys && id in t
    decreases t[id].height
  {
    assert NodeOk(t, id);
    Ok(m[id]) && (t[id].prev.Some? ==> AllOk(t, m, t[id].prev.value))
  }

  ghost predicate ChainOk(t: Tree, m: Marks, c: seq<Option<Id>>)
    requires IsTree(t) && m.Keys == t.Keys && IsPath(t, c)
  {
    c != [] ==> AllOk(t, m, TipOf(c).value)
  }

  lemma {:induction false} AncestorsOk(t: Tree, m: Marks, a: Id, b: Id)
    requires IsTree(t) && m.Keys == t.Keys && a in t && b in t && IsAncestor(t, a, b) && AllOk(t, m, b)
    ensures AllOk(t, m, a)
    decreases t[b].height
  {
    if t[a].height != t[b].height {
      assert NodeOk(t, b);
      AncestorsOk(t, m, a, t[b].prev.value);
    }
  }

  /** Looking only down to the active chain is enough when the chain itself is ok. */
  lemma {:induction false} UsableIsAllOk(t: Tree, m: Marks, c: seq<Option<Id>>, x: Id)
    requires IsTree(t) && m.Keys == t.Keys && IsPath(t, c) && ChainOk(t, m, c) && x in t
    ensures Usable(t, m, c, x) <==> AllOk(t, m, x)
    decreases t[x].height
  {
    assert NodeOk(t, x);
    ContainsIff(t, c, x);
    if Contains(t, c, x) {
      AncestorsOk(t, m, x, TipOf(c).value);
    } else if t[x].prev.Some? {
      UsableIsAllOk(t, m, c, t[x].prev.value);
    }
  }

  lemma {:induction false} LinkedAllOk(t: Tree, m: Marks, counter: nat, x: Id)
    requires IsTree(t) && m.Keys == t.Keys && CountsOk(t, m, counter) && x in t && Linked(m[x])
    requires forall y :: y in t && Linked(m[y]) ==> Ok(m[y])
    ensures AllOk(t, m, x)
    decreases t[x].height
  {
    assert NodeOk(t, x) && CountOk(t, m, counter, x);
    if t[x].prev.Some? {
      LinkedAllOk(t, m, counter, t[x].prev.value);
    }
  }

  // ---------------------------------------------------------------- transaction counts

  function PathTxs(t: Tree, m: Marks, id: Id): nat
    requires IsTree(t) && m.Keys == t.Keys && id in t
    decreases t[id].height
  {
    assert NodeOk(t, id);
    m[id].txs + if t[id].prev.Some? then PathTxs(t, m, t[id].prev.value) else 0
  }

  /** The count kept with a linked block is the sum along its path. */
  lemma {:induction false} ChainTxsIsSum(t: Tree, m: Marks, counter: nat, id: Id)
    requires IsTree(t) && m.Keys == t.Keys && CountsOk(t, m, counter) && id in t && Linked(m[id])
    ensures m[id].chainTxs == PathTxs(t, m, id)
    decreases t[id].height
  {
    assert NodeOk(t, id) && CountOk(t, m, counter, id);
    if t[id].prev.Some? {
      ChainTxsIsSum(t, m, counter, t[id].prev.value);
    }
  }

  // ---------------------------------------------------------------- batches

  /** The blocks from `id` down to just above height `lo`. */
  function Downto(t: Tree, id: Option<Id>, lo: int): seq<Id>
    requires IsTree(t) && (id.Some? ==> id.value in t)
    decreases Level(t, id)
  {
    if id.None? || t[id.value].height == lo then [] else
    assert NodeOk(t, id.value);
    [id.value] + Downto(t, t[id.value].prev, lo)
  }

  // ---------------------------------------------------------------- the best tip

  ghost predicate NoBetter(t: Tree, m: Marks, tip: Id, x: Id)
    requires m.Keys == t.Keys && tip in t && x in t
  {
    Linked(m[x]) ==> x == tip || Less(t, m, x, tip)
  }

  /** No linked block has more work than the tip. */
  ghost predicate MostWork(t: Tree, m: Marks, tip: Id)
    requires m.Keys == t.Keys && tip in t
  {
    Linked(m[tip]) && forall x :: x in t && Linked(m[x]) ==> t[x].work <= t[tip].work
  }

  /** The tip is the greatest of all linked blocks. */
  ghost predicate BestTip(t: Tree, m: Marks, tip: Id)
    requires m.Keys == t.Keys && tip in t
  {
    Linked(m[tip]) && forall x :: x in t ==> NoBetter(t, m, tip, x)
  }

  /** After linking, the greatest candidate is the greatest of all linked blocks. */
  lemma BestOfLinked(t: Tree, s: Links, queue: seq<Id>, r: Links, tip: Id, best: Id)
    requires IsTree(t) && s.marks.Keys == r.marks.Keys == t.Keys && tip in t
    requires BestTip(t, s.marks, tip) && tip in s.candidates
    requires Waiting(t, s.marks, s.unlinked) && Grew(t, s, queue, r)
    requires forall x :: x in t ==> Offered(t, Some(tip), s, r, x)
    requires r.candidates <= t.Keys && (forall x :: x in r.candidates ==> Linked(r.marks[x]))
             && IsGreatest(t, r.marks, r.candidates, best)
    ensures BestTip(t, r.marks, best)
  {
    assert MarkGrew(s, r, tip) && Offered(t, Some(tip), s, r, tip);
    forall x | x in t ensures NoBetter(t, r.marks, best, x) {
      assert MarkGrew(s, r, x) && NoBetter(t, s.marks, tip, x) && Offered(t, Some(tip), s, r, x);
      if Linked(r.marks[x]) && x != tip && Less(t, r.marks, x, tip) {
        LessTransitive(t, r.marks, x, tip, best);
      }
    }
  }

  /** The tip moves only to a block with strictly more work. */
  lemma TipNeedsMoreWork(t: Tree, s: Links, queue: seq<Id>, r: Links, tip: Id, best: Id)
    requires IsTree(t) && s.marks.Keys == r.marks.Keys == t.Keys && tip in t && best in t
    requires BestTip(t, s.marks, tip) && s.marks[tip].seqId < s.counter
    requires Waiting(t, s.marks, s.unlinked) && Grew(t, s, queue, r)
    requires BestTip(t, r.marks, best) && best != tip
    ensures t[tip].work < t[best].work
  {
    assert MarkGrew(s, r, tip) && MarkGrew(s, r, best) && NoBetter(t, s.marks, tip, best)
           && NoBetter(t, r.marks, best, tip);
  }
}
