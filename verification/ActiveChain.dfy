/** The active chain, `Chain` in `chain.cpp`: one block index per height.
 */
module ActiveChain {
  import opened Basics
  import opened BlockTree

  function TipOf(c: seq<Option<Id>>): Option<Id> {
    if c == [] then None else c[|c| - 1]
  }

  /** `operator[]`. */
  function At(c: seq<Option<Id>>, h: int): Option<Id> {
    if 0 <= h < |c| then c[h] else None
  }

  predicate Contains(t: Tree, c: seq<Option<Id>>, id: Id)
    requires id in t
  {
    At(c, t[id].height) == Some(id)
  }

  /** The chain is empty, or exactly the path from the root to its tip. */
  ghost predicate IsPath(t: Tree, c: seq<Option<Id>>)
    requires IsTree(t)
  {
    c == [] || (TipOf(c).Some? && TipOf(c).value in t && c == Path(t, TipOf(c).value))
  }

  lemma PathIsPath(t: Tree, id: Id)
    requires IsTree(t) && id in t
    ensures IsPath(t, Path(t, id)) && TipOf(Path(t, id)) == Some(id)
  {
  }

  /** The chain holds exactly the ancestors of its tip. */
  lemma ContainsIff(t: Tree, c: seq<Option<Id>>, id: Id)
    requires IsTree(t) && IsPath(t, c) && id in t
    ensures Contains(t, c, id) <==> c != [] && IsAncestor(t, id, TipOf(c).value)
  {
    if c != [] && t[id].height < |c| {
      PathAt(t, TipOf(c).value, t[id].height);
    }
  }

  /** Resizing a vector of pointers: cut off, or padded with null. */
  function Resize(c: seq<Option<Id>>, n: nat): (r: seq<Option<Id>>)
    ensures |r| == n
  {
    if n <= |c| then c[..n] else c + seq(n - |c|, _ => None)
  }

  /** The height of a pointer, with null below the root. */
  function Level(t: Tree, id: Option<Id>): (h: int)
    requires id.Some? ==> id.value in t
    ensures h >= -1
  {
    if id.Some? then t[id.value].height else -1
  }

  /** The loop of `setTip`: write blocks downwards until one is already in place. */
  function Fill(t: Tree, c: seq<Option<Id>>, walk: Option<Id>): (r: seq<Option<Id>>)
    requires IsTree(t) && (walk.Some? ==> walk.value in t) && Level(t, walk) < |c|
    decreases Level(t, walk)
  {
    if walk.None? || c[t[walk.value].height] == walk then c else
    assert NodeOk(t, walk.value);
    Fill(t, c[t[walk.value].height := walk], t[walk.value].prev)
  }

  /** Up to height `h`, what is below a block in place is its path. */
  ghost predicate Settled(t: Tree, c: seq<Option<Id>>, h: int)
    requires IsTree(t) && h < |c|
  {
    forall j :: 0 <= j <= h && c[j].Some? ==> c[j].value in t && c[..j + 1] == Path(t, c[j].value)
  }

  lemma SettledAfterResize(t: Tree, c: seq<Option<Id>>, n: nat)
    requires IsTree(t) && IsPath(t, c)
    ensures Settled(t, Resize(c, n), n - 1)
  {
    var r := Resize(c, n);
    forall j | 0 <= j < n && r[j].Some? ensures r[j].value in t && r[..j + 1] == Path(t, r[j].value) {
      PathAt(t, TipOf(c).value, j);
      assert r[..j + 1] == c[..j + 1];
    }
  }

  lemma {:induction false} FillIsPath(t: Tree, c: seq<Option<Id>>, w: Id)
    requires IsTree(t) && w in t && t[w].height < |c| && Settled(t, c, t[w].height)
    ensures |Fill(t, c, Some(w))| == |c| && Fill(t, c, Some(w))[..t[w].height + 1] == Path(t, w)
    ensures Fill(t, c, Some(w))[t[w].height + 1..] == c[t[w].height + 1..]
    decreases t[w].height
  {
    var h := t[w].height;
    assert NodeOk(t, w);
    if c[h] != Some(w) {
      var c1 := c[h := Some(w)];
      var r := Fill(t, c, Some(w));
      assert r == Fill(t, c1, t[w].prev);
      if t[w].prev.Some? {
        assert Settled(t, c1, h - 1) by { SettledBelow(t, c, h, Some(w)); }
        FillIsPath(t, c1, t[w].prev.value);
        FilledOne(r, c, c1, h, Some(w));
      }
    }
  }

  lemma SettledBelow(t: Tree, c: seq<Option<Id>>, h: nat, x: Option<Id>)
    requires IsTree(t) && h < |c| && Settled(t, c, h)
    ensures Settled(t, c[h := x], h - 1)
  {
    var c1 := c[h := x];
    forall j | 0 <= j < h && c1[j].Some? ensures c1[j].value in t && c1[..j + 1] == Path(t, c1[j].value) {
      assert c1[..j + 1] == c[..j + 1];
    }
  }

  lemma FilledOne(r: seq<Option<Id>>, c: seq<Option<Id>>, c1: seq<Option<Id>>, h: nat, x: Option<Id>)
    requires h < |c| == |r| && c1 == c[h := x] && r[h..] == c1[h..]
    ensures r[..h + 1] == r[..h] + [x] && r[h + 1..] == c[h + 1..]
  {
    assert r[h] == r[h..][0] == c1[h..][0] == x;
    assert r[h + 1..] == r[h..][1..] == c1[h..][1..] == c[h + 1..];
  }

  /** The highest block of `id`'s path in the chain, by walking down from `id`. */
  function Fork(t: Tree, c: seq<Option<Id>>, id: Option<Id>): (r: Option<Id>)
    requires IsTree(t) && (id.Some? ==> id.value in t)
    ensures r.Some? ==> r.value in t
    decreases Level(t, id)
  {
    if id.None? || Contains(t, c, id.value) then id else
    assert NodeOk(t, id.value);
    Fork(t, c, t[id.value].prev)
  }

  /** Blocks above the chain's height can be skipped. */
  lemma {:induction false} ForkFromBelow(t: Tree, c: seq<Option<Id>>, id: Id, h: nat)
    requires IsTree(t) && id in t && |c| - 1 <= h <= t[id].height
    ensures Fork(t, c, Some(id)) == Fork(t, c, Some(Ancestor(t, id, h)))
    decreases t[id].height
  {
    if t[id].height != h {
      assert NodeOk(t, id);
      ForkFromBelow(t, c, t[id].prev.value, h);
    }
  }

  lemma {:induction false} ForkOfEmpty(t: Tree, id: Option<Id>)
    requires IsTree(t) && (id.Some? ==> id.value in t)
    ensures Fork(t, [], id) == None
    decreases Level(t, id)
  {
    if id.Some? {
      assert NodeOk(t, id.value);
      ForkOfEmpty(t, t[id.value].prev);
    }
  }

  /** The fork is a shared block, and every shared block is at or below it. */
  lemma {:induction false} ForkIsHighest(t: Tree, c: seq<Option<Id>>, id: Id, x: Id)
    requires IsTree(t) && IsPath(t, c) && id in t && x in t
    ensures var f := Fork(t, c, Some(id));
            && (f.Some? ==> IsAncestor(t, f.value, id) && Contains(t, c, f.value))
            && (IsAncestor(t, x, id) && Contains(t, c, x) ==> f.Some? && IsAncestor(t, x, f.value))
    decreases t[id].height
  {
    if !Contains(t, c, id) {
      assert NodeOk(t, id);
      if t[id].prev.Some? {
        ForkIsHighest(t, c, t[id].prev.value, x);
      }
    }
  }

  class Chain {
    var blocks: seq<Option<Id>>

    constructor ()
      ensures blocks == []
    {
      blocks := [];
    }

    /** `setTip`: whatever the old chain was, the new one is exactly the path to the new tip,
        although the walk stops at the first block already in place. */
    method SetTip(t: Tree, id: Option<Id>)
      requires IsTree(t) && IsPath(t, blocks) && (id.Some? ==> id.value in t)
      modifies this
      ensures blocks == if id.Some? then Path(t, id.value) else []
    {
      if id.None? {
        blocks := [];
        return;
      }
      SettledAfterResize(t, blocks, t[id.value].height + 1);
      blocks := Resize(blocks, t[id.value].height + 1);
      ghost var filled := Fill(t, blocks, id);
      FillIsPath(t, blocks, id.value);
      var walk := id;
      while walk.Some? && blocks[t[walk.value].height] != walk
        invariant (walk.Some? ==> walk.value in t) && Level(t, walk) < |blocks|
        invariant Fill(t, blocks, walk) == filled
        decreases Level(t, walk)
      {
        assert NodeOk(t, walk.value);
        blocks := blocks[t[walk.value].height := walk];
        walk := t[walk.value].prev;
      }
    }

    /** `findFork`, which may skip down to the chain's height first. */
    method FindFork(t: Tree, id: Id) returns (r: Option<Id>)
      requires IsTree(t) && SkipsOk(t) && IsPath(t, blocks) && id in t
      ensures r == Fork(t, blocks, Some(id))
    {
      r := Some(id);
      if t[id].height > |blocks| - 1 {
        ghost var rounds;
        r, rounds := GetAncestor(t, id, |blocks| - 1);
        if |blocks| == 0 {
          ForkOfEmpty(t, Some(id));
        } else {
          ForkFromBelow(t, blocks, id, |blocks| - 1);
        }
      }
      while r.Some? && !Contains(t, blocks, r.value)
        invariant r.Some? ==> r.value in t
        invariant Fork(t, blocks, r) == Fork(t, blocks, Some(id))
        decreases Level(t, r)
      {
        assert NodeOk(t, r.value);
        r := t[r.value].prev;
      }
    }
  }
}
