/** The tree of known blocks and its skip pointers, from `block_index.cpp` and `ChainSkipList`.
    A block index is named by its block hash; the fields here are set once, when the index is
    added.
 */
module BlockTree {
  import opened Basics
  import opened Bits

  type Id = nat

  datatype Node = Node(prev: Option<Id>, skip: Option<Id>, height: nat, work: nat)

  type Tree = map<Id, Node>

  // ---------------------------------------------------------------- the parent walk

  ghost predicate NodeOk(t: Tree, id: Id)
    requires id in t
  {
    match t[id].prev
    case None => t[id].height == 0
    case Some(p) => p in t && t[id].height == t[p].height + 1
  }

  ghost predicate IsTree(t: Tree) {
    forall id :: id in t ==> NodeOk(t, id)
  }

  /** The ancestor at height `h`, found by following parents only. */
  function Ancestor(t: Tree, id: Id, h: nat): (r: Id)
    requires IsTree(t) && id in t && h <= t[id].height
    ensures r in t && t[r].height == h
    decreases t[id].height
  {
    if t[id].height == h then id else
    assert NodeOk(t, id);
    Ancestor(t, t[id].prev.value, h)
  }

  lemma {:induction false} AncestorTwice(t: Tree, id: Id, g: nat, h: nat)
    requires IsTree(t) && id in t && h <= g <= t[id].height
    ensures Ancestor(t, Ancestor(t, id, g), h) == Ancestor(t, id, h)
    decreases t[id].height
  {
    if t[id].height != g {
      assert NodeOk(t, id);
      AncestorTwice(t, t[id].prev.value, g, h);
    }
  }

  /** `id` is `of` or one of its ancestors. */
  ghost predicate IsAncestor(t: Tree, id: Id, of: Id)
    requires IsTree(t) && id in t && of in t
  {
    t[id].height <= t[of].height && Ancestor(t, of, t[id].height) == id
  }

  /** Growing the tree changes no ancestor. */
  lemma {:induction false} AncestorStable(t: Tree, u: Tree, id: Id, h: nat)
    requires IsTree(t) && IsTree(u) && id in t && h <= t[id].height
    requires forall x :: x in t ==> x in u && u[x] == t[x]
    ensures Ancestor(t, id, h) == Ancestor(u, id, h)
    decreases t[id].height
  {
    if t[id].height != h {
      assert NodeOk(t, id);
      AncestorStable(t, u, t[id].prev.value, h);
    }
  }

  // ---------------------------------------------------------------- skip pointers

  function InvertLowestOne(n: nat): (r: nat)
    ensures r <= n && (n > 0 ==> r < n)
  {
    if n == 0 then 0 else And(n, n - 1)
  }

  function SkipHeight(height: nat): (r: nat)
    ensures height > 0 ==> r < height
  {
    if height < 2 then 0
    else if height % 2 == 1 then InvertLowestOne(InvertLowestOne(height - 1)) + 1
    else InvertLowestOne(height)
  }

  ghost predicate SkipOk(t: Tree, id: Id)
    requires IsTree(t) && id in t
  {
    match t[id].prev
    case None => true
    case Some(p) =>
      assert NodeOk(t, id);
      t[id].skip == Some(Ancestor(t, p, SkipHeight(t[id].height)))
  }

  /** Every skip pointer leads to the ancestor at the skip height. */
  ghost predicate SkipsOk(t: Tree)
    requires IsTree(t)
  {
    forall id :: id in t ==> SkipOk(t, id)
  }

  /** Whether one round of `getAncestor` takes the skip, when the skip of the parent is `skipPrev`. */
  predicate TakesSkip(skip: nat, skipPrev: nat, to: int) {
    skip == to || (skip > to && !(skipPrev < skip - 2 && skipPrev >= to))
  }

  ghost predicate GoesDown(skip: nat -> nat) {
    forall h: nat :: h > 0 ==> skip(h) < h
  }

  /** Where one round of `getAncestor` goes, when heights skip as `skip` says. */
  function NextHeight(skip: nat -> nat, h: nat, to: nat): (r: nat)
    requires GoesDown(skip) && to < h
    ensures to <= r < h
  {
    if TakesSkip(skip(h), skip(h - 1), to) then skip(h) else h - 1
  }

  /** How many rounds it takes from height `h` to height `to`. */
  function Steps(skip: nat -> nat, h: nat, to: nat): nat
    requires GoesDown(skip)
    decreases h
  {
    if h <= to then 0 else 1 + Steps(skip, NextHeight(skip, h, to), to)
  }

  lemma StepTaken(skip: nat -> nat, h: nat, to: nat)
    requires GoesDown(skip) && to < h
    ensures Steps(skip, h, to) == 1 + Steps(skip, NextHeight(skip, h, to), to)
  {
  }

  /** One round of the walk: to the skip, or to the parent. */
  method WalkOn(t: Tree, walk: Id, to: nat) returns (next: Id)
    requires IsTree(t) && SkipsOk(t) && walk in t && to < t[walk].height
    ensures next in t && GoesDown(SkipHeight) && t[next].height == NextHeight(SkipHeight, t[walk].height, to)
    ensures Ancestor(t, next, to) == Ancestor(t, walk, to)
  {
    var heightSkip := SkipHeight(t[walk].height);
    var heightSkipPrev := SkipHeight(t[walk].height - 1);
    SkipLeads(t, walk, heightSkip);
    if TakesSkip(heightSkip, heightSkipPrev, to) {
      AncestorTwice(t, walk, heightSkip, to);
      next := t[walk].skip.value;
    } else {
      next := t[walk].prev.value;
    }
  }

  lemma SkipLeads(t: Tree, id: Id, h: nat)
    requires IsTree(t) && SkipsOk(t) && id in t && t[id].height > 0 && h == SkipHeight(t[id].height)
    ensures t[id].skip == Some(Ancestor(t, id, h))
    ensures t[id].prev.Some? && t[id].prev.value in t && t[t[id].prev.value].height == t[id].height - 1
  {
    assert NodeOk(t, id) && SkipOk(t, id);
  }

  /** `getAncestor`: the walk over skip pointers finds what the plain walk finds, and never
      follows a missing pointer. */
  method GetAncestor(t: Tree, id: Id, inputHeight: int) returns (r: Option<Id>, ghost rounds: nat)
    requires IsTree(t) && SkipsOk(t) && id in t
    ensures r == if 0 <= inputHeight <= t[id].height then Some(Ancestor(t, id, inputHeight)) else None
    ensures GoesDown(SkipHeight)
    ensures rounds == if 0 <= inputHeight then Steps(SkipHeight, t[id].height, inputHeight) else 0
  {
    rounds := 0;
    if inputHeight > t[id].height || inputHeight < 0 {
      return None, 0;
    }
    var walk, heightWalk := id, t[id].height;
    ghost var skip := SkipHeight;
    while heightWalk > inputHeight
      invariant walk in t && heightWalk == t[walk].height >= inputHeight
      invariant Ancestor(t, walk, inputHeight) == Ancestor(t, id, inputHeight)
      invariant rounds + Steps(skip, heightWalk, inputHeight) == Steps(skip, t[id].height, inputHeight)
      decreases heightWalk
    {
      StepTaken(skip, heightWalk, inputHeight);
      walk := WalkOn(t, walk, inputHeight);
      heightWalk := t[walk].height;
      rounds := rounds + 1;
    }
    r := Some(walk);
  }

  /** The index of a new block on `prev` with its own work, skip pointer included. */
  function NewNode(t: Tree, prev: Option<Id>, work: nat): Node
    requires IsTree(t) && (prev.Some? ==> prev.value in t)
  {
    if prev.None? then Node(None, None, 0, work) else
    var h := t[prev.value].height + 1;
    Node(prev, Some(Ancestor(t, prev.value, SkipHeight(h))), h, t[prev.value].work + work)
  }

  function Added(t: Tree, id: Id, node: Node): Tree {
    t[id := node]
  }

  /** Adding a new block keeps the tree and its skip pointers. */
  lemma AddedTree(t: Tree, id: Id, prev: Option<Id>, work: nat)
    requires IsTree(t) && SkipsOk(t) && id !in t && (prev.Some? ==> prev.value in t)
    ensures IsTree(Added(t, id, NewNode(t, prev, work))) && SkipsOk(Added(t, id, NewNode(t, prev, work)))
  {
    StillTree(t, id, NewNode(t, prev, work));
    SkipsKept(t, id, NewNode(t, prev, work));
  }

  /** `addToBlockIndex`: the new index, its skip pointer found by following skip pointers. */
  method AddNode(t: Tree, id: Id, prev: Option<Id>, work: nat) returns (u: Tree)
    requires IsTree(t) && SkipsOk(t) && id !in t && (prev.Some? ==> prev.value in t)
    ensures u == Added(t, id, NewNode(t, prev, work)) && IsTree(u) && SkipsOk(u)
    ensures u[id].work == work + (if prev.Some? then t[prev.value].work else 0)
  {
    var node := Node(None, None, 0, work);
    if prev.Some? {
      var p := prev.value;
      var height := t[p].height + 1;
      var skip, _ := GetAncestor(t, p, SkipHeight(height));
      node := Node(prev, skip, height, t[p].work + work);
    }
    u := Added(t, id, node);
    AddedTree(t, id, prev, work);
  }

  lemma StillTree(t: Tree, id: Id, node: Node)
    requires IsTree(t) && id !in t
    requires node.prev.None? ==> node.height == 0
    requires node.prev.Some? ==> node.prev.value in t && node.height == t[node.prev.value].height + 1
    ensures IsTree(Added(t, id, node))
  {
    var u := Added(t, id, node);
    forall x | x in u ensures NodeOk(u, x) {
      assert x != id ==> NodeOk(t, x);
    }
  }

  /** Adding a block whose skip pointer was built keeps the skip pointers right. */
  lemma SkipsKept(t: Tree, id: Id, node: Node)
    requires IsTree(t) && id !in t && SkipsOk(t) && IsTree(Added(t, id, node))
    requires node.prev.Some? ==>
               && node.prev.value in t && node.height == t[node.prev.value].height + 1
               && node.skip == Some(Ancestor(t, node.prev.value, SkipHeight(node.height)))
    ensures SkipsOk(Added(t, id, node))
  {
    var u := Added(t, id, node);
    forall x | x in u ensures SkipOk(u, x) {
      assert NodeOk(u, x);
      if u[x].prev.Some? {
        assert x != id ==> NodeOk(t, x) && SkipOk(t, x);
        AncestorStable(t, u, u[x].prev.value, SkipHeight(u[x].height));
      }
    }
  }

  // ---------------------------------------------------------------- paths

  /** The path from the root to `id`, one block per height. */
  function Path(t: Tree, id: Id): (r: seq<Option<Id>>)
    requires IsTree(t) && id in t
    ensures |r| == t[id].height + 1 && r[t[id].height] == Some(id)
    decreases t[id].height
  {
    assert NodeOk(t, id);
    match t[id].prev
    case None => [Some(id)]
    case Some(p) => Path(t, p) + [Some(id)]
  }

  lemma {:induction false} PathAt(t: Tree, id: Id, h: nat)
    requires IsTree(t) && id in t && h <= t[id].height
    ensures Path(t, id)[h] == Some(Ancestor(t, id, h))
    ensures Path(t, id)[..h + 1] == Path(t, Ancestor(t, id, h))
    decreases t[id].height
  {
    if t[id].height != h {
      assert NodeOk(t, id);
      var p := t[id].prev.value;
      PathAt(t, p, h);
      assert Path(t, id)[..h + 1] == Path(t, p)[..h + 1];
    }
  }

  lemma {:induction false} PathStable(t: Tree, u: Tree, id: Id)
    requires IsTree(t) && IsTree(u) && id in t && forall x :: x in t ==> x in u && u[x] == t[x]
    ensures Path(t, id) == Path(u, id)
    decreases t[id].height
  {
    assert NodeOk(t, id);
    if t[id].prev.Some? {
      PathStable(t, u, t[id].prev.value);
    }
  }
}
