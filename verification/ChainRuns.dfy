/** What the chain rule promises over whole runs, and the runs in which it does less than one
    might expect.
 */
module ChainRuns {
  import opened Basics
  import opened BlockTree
  import opened Candidates
  import opened Linking
  import opened ChainState
  import opened ChainRule
  import Difficulty

  lemma RunStep(a: seq<Block>, b: Block, genesis: Id)
    requires Arrivals(a + [b], genesis)
    ensures Arrivals(a, genesis) && Plausible(AcceptRun(a, genesis), b, genesis)
    ensures AcceptRun(a + [b], genesis) == Accept(AcceptRun(a, genesis), b, genesis)
  {
    var z := a + [b];
    ArrivalsBefore(z, genesis);
    assert z[..|z| - 1] == a && z[|z| - 1] == b;
    ArrivalPlausible(AcceptRun(a, genesis), a, b, genesis);
  }

  lemma RunPrefix(a: seq<Block>, i: nat, genesis: Id)
    requires i <= |a| && Arrivals(a, genesis)
    ensures Arrivals(a[..i], genesis)
  {
  }

  lemma RunNext(a: seq<Block>, i: nat, genesis: Id)
    requires i < |a| && Arrivals(a, genesis)
    ensures Arrivals(a[..i], genesis) && Arrivals(a[..i + 1], genesis)
    ensures Plausible(AcceptRun(a[..i], genesis), a[i], genesis)
    ensures AcceptRun(a[..i + 1], genesis) == Accept(AcceptRun(a[..i], genesis), a[i], genesis)
  {
    RunPrefix(a, i + 1, genesis);
    assert a[..i + 1] == a[..i] + [a[i]];
    RunStep(a[..i], a[i], genesis);
  }

  /** What an indexed block leaves in the index. */
  lemma AcceptIndexes(l: Ledger, b: Block, genesis: Id)
    requires Steady(l, genesis) && Plausible(l, b, genesis)
    ensures var r := Accept(l, b, genesis);
            && Named(r) && l.tree.Keys <= r.tree.Keys
            && (Indexable(l, b, genesis) ==> b.hash in r.tree && Valid(r.marks[b.hash]))
            && (Indexable(l, b, genesis) && b.hash !in l.tree && b.hash != genesis && b.prevHash in l.tree
                ==> r.tree[b.hash].work == l.tree[b.prevHash].work + Difficulty.Work(b.bits))
  {
    AcceptSteady(l, b, genesis);
    if Indexable(l, b, genesis) {
      var i := Indexed(l, b);
      IndexedGround(l, b, genesis);
      IndexedParent(l, b, genesis);
      StoredMark(i.tree, i.marks, i.counter, b.hash, b.txs);
    }
  }

  // ---------------------------------------------------------------- the tip over a run

  /** Over a whole run the tip never loses work, and has strictly more whenever it has moved. */
  lemma {:induction false} TipNeverLoses(a: seq<Block>, i: nat, genesis: Id)
    requires i <= |a| && Arrivals(a, genesis)
    ensures Arrivals(a[..i], genesis)
    ensures var was, now := AcceptRun(a[..i], genesis), AcceptRun(a, genesis);
            && (forall x :: x in was.tree ==> x in now.tree && now.tree[x] == was.tree[x])
            && (was.tip.Some? ==> now.tip.Some?)
            && (was.tip.Some? && now.tip != was.tip ==>
                  now.tree[was.tip.value].work < now.tree[now.tip.value].work)
    decreases |a|
  {
    if i == |a| {
      assert a[..i] == a;
    } else {
      var z, b := a[..|a| - 1], a[|a| - 1];
      ArrivalsBefore(a, genesis);
      assert z[..i] == a[..i];
      TipNeverLoses(z, i, genesis);
      RunStep(z, b, genesis);
      var l := AcceptRun(z, genesis);
      AcceptClimbs(l, b, genesis);
      AcceptIndexes(l, b, genesis);
      forall x | x in l.tree ensures Accept(l, b, genesis).tree[x] == l.tree[x] {
        AcceptOthers(l, b, genesis, x);
      }
    }
  }

  /** The arrival is the tip again while another linked block has as much work. */
  ghost predicate RepeatsTiedTip(l: Ledger, b: Block, genesis: Id)
    requires Named(l)
  {
    Acceptable(l, b, genesis) && l.tip == Some(b.hash) && Tied(l.tree, l.marks, b.hash)
  }

  /** No arrival of the run is like that. */
  ghost predicate NeverRepeatsTiedTip(a: seq<Block>, genesis: Id)
    requires Arrivals(a, genesis)
    decreases |a|
  {
    if a == [] then true else
    ArrivalsBefore(a, genesis);
    var z := a[..|a| - 1];
    NeverRepeatsTiedTip(z, genesis) && !RepeatsTiedTip(AcceptRun(z, genesis), a[|a| - 1], genesis)
  }

  /** In a run without such an arrival the tip is the greatest of all linked blocks: most work,
      then the earliest number. */
  lemma {:induction false} RunBest(a: seq<Block>, genesis: Id)
    requires Arrivals(a, genesis) && NeverRepeatsTiedTip(a, genesis)
    ensures Best(AcceptRun(a, genesis))
    decreases |a|
  {
    if a != [] {
      var z, b := a[..|a| - 1], a[|a| - 1];
      ArrivalsBefore(a, genesis);
      RunBest(z, genesis);
      RunStep(z, b, genesis);
      StepBest(AcceptRun(z, genesis), b, genesis);
    }
  }

  lemma StepBest(l: Ledger, b: Block, genesis: Id)
    requires Steady(l, genesis) && Plausible(l, b, genesis) && Best(l) && !RepeatsTiedTip(l, b, genesis)
    ensures Named(Accept(l, b, genesis)) && Best(Accept(l, b, genesis))
  {
    if l.tip.None? {
      FirstBest(l, b, genesis);
    } else {
      AcceptBest(l, b, genesis);
    }
  }

  ghost predicate IsLinked(l: Ledger, x: Id) {
    x in l.marks && Linked(l.marks[x])
  }

  /** The arrival is accepted while its parent is linked. */
  ghost predicate Links(l: Ledger, b: Block, x: Id, genesis: Id) {
    x == b.hash && Acceptable(l, b, genesis) && ReadyToLink(l, b, genesis)
  }

  /** Some arrival of the run is `x`, accepted while its parent is linked. */
  ghost predicate LinksOnce(a: seq<Block>, x: Id, genesis: Id)
    requires Arrivals(a, genesis)
    decreases |a|
  {
    if a == [] then false else
    ArrivalsBefore(a, genesis);
    var z := a[..|a| - 1];
    LinksOnce(z, x, genesis) || Links(AcceptRun(z, genesis), a[|a| - 1], x, genesis)
  }

  /** A block is linked after a run if and only if it was accepted at a moment when its parent was
      linked; arriving before its parent is not enough. */
  lemma {:induction false} RunLinks(a: seq<Block>, x: Id, genesis: Id)
    requires Arrivals(a, genesis)
    ensures IsLinked(AcceptRun(a, genesis), x) <==> LinksOnce(a, x, genesis)
    decreases |a|
  {
    if a != [] {
      var z, b := a[..|a| - 1], a[|a| - 1];
      ArrivalsBefore(a, genesis);
      RunLinks(z, x, genesis);
      RunStep(z, b, genesis);
      StepLinks(AcceptRun(z, genesis), b, x, genesis);
    }
  }

  lemma StepLinks(l: Ledger, b: Block, x: Id, genesis: Id)
    requires Steady(l, genesis) && Plausible(l, b, genesis)
    ensures IsLinked(Accept(l, b, genesis), x) <==>
            IsLinked(l, x) || Links(l, b, x, genesis)
  {
    AcceptIndexes(l, b, genesis);
    if x in Accept(l, b, genesis).tree {
      AcceptLinks(l, b, genesis, x);
    }
  }

  /** `x` and all blocks on its path have arrived with good headers and bodies, each after its
      parent, the genesis block first. Said of the arrivals alone. */
  ghost predicate Chained(a: seq<Block>, x: Id, genesis: Id)
    decreases |a|
  {
    if a == [] then false else
    var z, b := a[..|a| - 1], a[|a| - 1];
    || Chained(z, x, genesis)
    || (b.hash == x && b.headerOk && Passes(b, genesis) && (x == genesis || Chained(z, b.prevHash, genesis)))
  }

  /** A block is linked after a run if and only if passing arrivals of the blocks on its path, the
      genesis block first, occur in that order in the run. */
  lemma {:induction false} LinkedIffChained(a: seq<Block>, x: Id, genesis: Id)
    requires Arrivals(a, genesis)
    ensures IsLinked(AcceptRun(a, genesis), x) <==> Chained(a, x, genesis)
    decreases |a|
  {
    if a != [] {
      var z, b := a[..|a| - 1], a[|a| - 1];
      ArrivalsBefore(a, genesis);
      LinkedIffChained(z, x, genesis);
      LinkedIffChained(z, b.prevHash, genesis);
      RunStep(z, b, genesis);
      StepLinks(AcceptRun(z, genesis), b, x, genesis);
      AllValid(AcceptRun(z, genesis), b, genesis);
    }
  }

  /** No block ever fails, so only the block's own checks and its parent matter. */
  lemma AllValid(l: Ledger, b: Block, genesis: Id)
    requires Ground(l, genesis)
    ensures Acceptable(l, b, genesis) && ReadyToLink(l, b, genesis)
            <==> b.headerOk && Passes(b, genesis) && (b.hash == genesis || IsLinked(l, b.prevHash))
  {
  }

  // ---------------------------------------------------------------- numbers and the last linking arrival

  /** The position of the last arrival that linked `x`, or -1. */
  ghost function LastLinked(a: seq<Block>, x: Id, genesis: Id): int
    requires Arrivals(a, genesis)
    decreases |a|
  {
    if a == [] then -1 else
    ArrivalsBefore(a, genesis);
    var z := a[..|a| - 1];
    if Links(AcceptRun(z, genesis), a[|a| - 1], x, genesis) then |a| - 1 else LastLinked(z, x, genesis)
  }

  /** Sequence numbers are in the order of the last linking arrivals. */
  lemma {:induction false} NumbersFollowArrivals(a: seq<Block>, x: Id, y: Id, genesis: Id)
    requires Arrivals(a, genesis)
    ensures -1 <= LastLinked(a, x, genesis) < |a| && -1 <= LastLinked(a, y, genesis) < |a|
    ensures IsLinked(AcceptRun(a, genesis), x) <==> LastLinked(a, x, genesis) >= 0
    ensures IsLinked(AcceptRun(a, genesis), x) && IsLinked(AcceptRun(a, genesis), y)
            ==> (AcceptRun(a, genesis).marks[x].seqId < AcceptRun(a, genesis).marks[y].seqId
              <==> LastLinked(a, x, genesis) < LastLinked(a, y, genesis))
    decreases |a|
  {
    if a != [] {
      var z, b := a[..|a| - 1], a[|a| - 1];
      ArrivalsBefore(a, genesis);
      NumbersFollowArrivals(z, x, y, genesis);
      NumbersFollowArrivals(z, y, x, genesis);
      RunStep(z, b, genesis);
      StepNumbers(AcceptRun(z, genesis), b, x, genesis);
      StepNumbers(AcceptRun(z, genesis), b, y, genesis);
    }
  }

  /** An arrival that links a block gives it the greatest number; the others keep theirs. */
  lemma StepNumbers(l: Ledger, b: Block, x: Id, genesis: Id)
    requires Steady(l, genesis) && Plausible(l, b, genesis)
    ensures var r := Accept(l, b, genesis);
            && (IsLinked(r, x) <==> IsLinked(l, x) || Links(l, b, x, genesis))
            && (IsLinked(l, x) ==> l.marks[x].seqId < l.counter)
            && (IsLinked(r, x) ==> r.marks[x].seqId == if Links(l, b, x, genesis) then l.counter else l.marks[x].seqId)
  {
    StepLinks(l, b, x, genesis);
    if IsLinked(l, x) {
      assert CountOk(l.tree, l.marks, l.counter, x);
    }
    if IsLinked(Accept(l, b, genesis), x) {
      if x == b.hash {
        OwnNumber(l, b, genesis);
      } else {
        AcceptIndexes(l, b, genesis);
        AcceptOthers(l, b, genesis, x);
      }
    }
  }

  lemma OwnNumber(l: Ledger, b: Block, genesis: Id)
    requires Steady(l, genesis) && Plausible(l, b, genesis)
    ensures var r := Accept(l, b, genesis);
            IsLinked(r, b.hash) ==>
              r.marks[b.hash].seqId == if Links(l, b, b.hash, genesis) then l.counter
                                       else if b.hash in l.marks then l.marks[b.hash].seqId else 0
  {
    if Indexable(l, b, genesis) {
      var i := Indexed(l, b);
      IndexedGround(l, b, genesis);
      IndexedParent(l, b, genesis);
      StoredMark(i.tree, i.marks, i.counter, b.hash, b.txs);
    }
  }

  /** Over any run the tip is the greatest linked block, more work first and then the earlier number,
      if and only if no other linked block of as much work was last linked before the tip was. */
  lemma RunBestIff(a: seq<Block>, genesis: Id)
    requires Arrivals(a, genesis)
    ensures var l := AcceptRun(a, genesis);
            Best(l) <==>
            (l.tip.Some? ==>
               forall x :: IsLinked(l, x) && x != l.tip.value && l.tree[x].work == l.tree[l.tip.value].work
                           ==> LastLinked(a, l.tip.value, genesis) < LastLinked(a, x, genesis))
  {
    var l := AcceptRun(a, genesis);
    if l.tip.Some? {
      var tip := l.tip.value;
      forall x | x in l.tree
        ensures NoBetter(l.tree, l.marks, tip, x) <==>
                (IsLinked(l, x) && x != tip && l.tree[x].work == l.tree[tip].work
                 ==> LastLinked(a, tip, genesis) < LastLinked(a, x, genesis))
      {
        NumbersFollowArrivals(a, tip, x, genesis);
        NumbersFollowArrivals(a, x, tip, genesis);
      }
    }
  }

  // ---------------------------------------------------------------- three runs

  /** A block that passes all checks. */
  ghost predicate Good(b: Block) {
    b.headerOk && b.bodyOk && b.txs > 0 && Difficulty.InRange(b.bits)
  }

  /** The genesis block alone. */
  lemma First(g: Block)
    requires Good(g) && g.prevHash != g.hash
    ensures Plausible(EMPTY, g, g.hash)
    ensures var l := Accept(EMPTY, g, g.hash);
            && l.tip == Some(g.hash) && IsLinked(l, g.hash) && l.tree.Keys == {g.hash}
            && Named(l) && Best(l)
  {
    var l := Accept(EMPTY, g, g.hash);
    StepLinks(EMPTY, g, g.hash, g.hash);
    AcceptSteady(EMPTY, g, g.hash);
    AcceptClimbs(EMPTY, g, g.hash);
    AcceptIndexes(EMPTY, g, g.hash);
    FirstBest(EMPTY, g, g.hash);
    forall x | x in l.tree ensures x == g.hash {
      AcceptOthers(EMPTY, g, g.hash, x);
    }
  }

  /** What stays, and what a new block adds to the index. */
  lemma Grown(l: Ledger, b: Block, genesis: Id)
    requires Steady(l, genesis) && Plausible(l, b, genesis)
    ensures var r := Accept(l, b, genesis);
            && Named(r) && l.tree.Keys <= r.tree.Keys <= l.tree.Keys + {b.hash}
            && (forall x :: x in l.tree ==> r.tree[x] == l.tree[x] && (x != b.hash ==> r.marks[x] == l.marks[x]))
  {
    var r := Accept(l, b, genesis);
    AcceptIndexes(l, b, genesis);
    forall x | x in r.tree
      ensures (x == b.hash || x in l.tree)
              && (x in l.tree ==> r.tree[x] == l.tree[x] && (x != b.hash ==> r.marks[x] == l.marks[x])) {
      AcceptOthers(l, b, genesis, x);
    }
  }

  /** A good new block on a linked parent. */
  lemma Child(l: Ledger, b: Block, genesis: Id)
    requires Steady(l, genesis) && Plausible(l, b, genesis) && Good(b) && b.hash !in l.tree && b.hash != genesis
    requires IsLinked(l, b.prevHash)
    ensures var r := Accept(l, b, genesis);
            && Named(r) && IsLinked(r, b.hash) && l.tree.Keys <= r.tree.Keys <= l.tree.Keys + {b.hash}
            && (forall x :: x in l.tree ==> r.tree[x] == l.tree[x] && r.marks[x] == l.marks[x])
            && b.prevHash in l.tree && r.tree[b.hash].work == l.tree[b.prevHash].work + Difficulty.Work(b.bits)
  {
    Grown(l, b, genesis);
    AcceptIndexes(l, b, genesis);
    StepLinks(l, b, b.hash, genesis);
  }

  lemma HeavierIsTip(l: Ledger, b: Block, genesis: Id)
    requires Steady(l, genesis) && Plausible(l, b, genesis) && l.tip.Some?
    requires var r := Accept(l, b, genesis);
             IsLinked(r, b.hash) && b.hash in r.tree && l.tip.value in r.tree
               && r.tree[l.tip.value].work < r.tree[b.hash].work
    ensures Accept(l, b, genesis).tip == Some(b.hash)
  {
    AcceptSteady(l, b, genesis);
    AcceptClimbs(l, b, genesis);
  }

  /** A child of the genesis block. */
  ghost predicate OnGenesis(g: Block, b: Block) {
    && Good(g) && Good(b) && b.hash != g.hash && b.prevHash == g.hash
    && g.prevHash != g.hash && g.prevHash != b.hash
  }

  /** Two children of the genesis block with the same target. */
  ghost predicate TwoChildren(g: Block, b: Block, c: Block) {
    OnGenesis(g, b) && OnGenesis(g, c) && b.hash != c.hash && b.bits == c.bits
  }

  /** The first child becomes the tip. */
  lemma FirstChild(g: Block, b: Block, l: Ledger)
    requires OnGenesis(g, b) && Steady(l, g.hash) && Plausible(l, b, g.hash)
    requires l.tip == Some(g.hash) && IsLinked(l, g.hash) && l.tree.Keys == {g.hash}
    ensures var r := Accept(l, b, g.hash);
            && Named(r) && r.tip == Some(b.hash) && IsLinked(r, b.hash) && IsLinked(r, g.hash)
            && r.tree.Keys == {g.hash, b.hash}
            && r.tree[b.hash].work == r.tree[g.hash].work + Difficulty.Work(b.bits)
            && r.tree[b.hash].prev == Some(g.hash)
  {
    Child(l, b, g.hash);
    AcceptOthers(l, b, g.hash, b.hash);
    Difficulty.WorkPositive(b.bits);
    HeavierIsTip(l, b, g.hash);
  }

  lemma LighterIsNotTip(l: Ledger, b: Block, genesis: Id)
    requires Steady(l, genesis) && Plausible(l, b, genesis) && l.tip.Some?
    requires var r := Accept(l, b, genesis);
             b.hash in r.tree && l.tip.value in r.tree && r.tree[b.hash].work <= r.tree[l.tip.value].work
    ensures Accept(l, b, genesis).tip == l.tip
  {
    AcceptClimbs(l, b, genesis);
  }

  /** The second child ties with it. */
  lemma SecondChild(g: Block, b: Block, c: Block, l: Ledger)
    requires TwoChildren(g, b, c) && Steady(l, g.hash) && Plausible(l, c, g.hash)
    requires l.tip == Some(b.hash) && IsLinked(l, b.hash) && IsLinked(l, g.hash) && l.tree.Keys == {g.hash, b.hash}
    requires l.tree[b.hash].work == l.tree[g.hash].work + Difficulty.Work(b.bits)
    ensures var r := Accept(l, c, g.hash);
            && Named(r) && r.tip == Some(b.hash) && IsLinked(r, b.hash) && IsLinked(r, c.hash)
            && Tied(r.tree, r.marks, b.hash)
  {
    Child(l, c, g.hash);
    LighterIsNotTip(l, c, g.hash);
    EvenTie(Accept(l, c, g.hash), b.hash, c.hash);
  }

  lemma EvenTie(l: Ledger, tip: Id, x: Id)
    requires l.marks.Keys == l.tree.Keys && tip in l.tree && IsLinked(l, x) && x != tip
    requires l.tree[x].work == l.tree[tip].work
    ensures Tied(l.tree, l.marks, tip)
  {
  }

  /** Blocks from a consistent set are fit to arrive in any order. */
  lemma AnyOrder(a: seq<Block>, blocks: set<Block>, genesis: Id)
    requires forall i :: 0 <= i < |a| ==> a[i] in blocks
    requires forall b :: b in blocks ==> Good(b.(bodyOk := true))
    requires forall b, c :: b in blocks && c in blocks && b.hash == c.hash ==> SameBlock(b, c, genesis)
    requires forall b, c :: b in blocks && c in blocks && b.hash == genesis ==> c.hash != b.prevHash
    ensures Arrivals(a, genesis)
  {
    forall i | 0 <= i < |a|
      ensures (a[i].headerOk ==> Difficulty.InRange(a[i].bits)) && (Passes(a[i], genesis) ==> a[i].txs > 0) {
      assert Good(a[i].(bodyOk := true));
    }
  }

  /** Genesis, two children with equal work, and the first child again: the first child stays the
      tip, numbered after the second, so it is no longer the greatest of all linked blocks. */
  lemma RepeatLosesTie(g: Block, b: Block, c: Block)
    requires TwoChildren(g, b, c)
    ensures Arrivals([g, b, c, b], g.hash) && Arrivals([g, b, c], g.hash)
    ensures Best(AcceptRun([g, b, c], g.hash))
    ensures var r := AcceptRun([g, b, c, b], g.hash); r.tip == Some(b.hash) && IsLinked(r, c.hash) && !Best(r)
  {
    var id := g.hash;
    AnyOrder([g, b, c, b], {g, b, c}, id);
    assert [] + [g] == [g] && [g] + [b] == [g, b] && [g, b] + [c] == [g, b, c] && [g, b, c] + [b] == [g, b, c, b];
    RunStep([g, b, c], b, id);
    RunStep([g, b], c, id);
    RunStep([g], b, id);
    RunStep([], g, id);
    First(g);
    FirstChild(g, b, AcceptRun([g], id));
    StepBest(AcceptRun([g], id), b, id);
    SecondChild(g, b, c, AcceptRun([g, b], id));
    StepBest(AcceptRun([g, b], id), c, id);
    FirstAgain(g, b, c, AcceptRun([g, b, c], id));
  }

  lemma FirstAgain(g: Block, b: Block, c: Block, l: Ledger)
    requires TwoChildren(g, b, c) && Steady(l, g.hash) && Plausible(l, b, g.hash)
    requires l.tip == Some(b.hash) && IsLinked(l, b.hash) && IsLinked(l, c.hash) && Tied(l.tree, l.marks, b.hash)
    requires Best(l)
    ensures var r := Accept(l, b, g.hash); Named(r) && r.tip == Some(b.hash) && IsLinked(r, c.hash) && !Best(r)
  {
    assert CountOk(l.tree, l.marks, l.counter, b.hash) && NodeOk(l.tree, b.hash);
    AcceptClimbs(l, b, g.hash);
    AcceptBest(l, b, g.hash);
    StepLinks(l, b, c.hash, g.hash);
  }

  /** A child of the genesis block and a child of that child. */
  ghost predicate Line(g: Block, b: Block, d: Block) {
    OnGenesis(g, b) && Good(d) && d.prevHash == b.hash && d.hash != b.hash && d.hash != g.hash && g.prevHash != d.hash
  }

  /** Genesis, a child, a grandchild, and the child again: the child now has a later number than its own
      child. With rising times the child's time is the median of the three, so its header passes again. */
  lemma RepeatLosesOrder(g: Block, b: Block, d: Block)
    requires Line(g, b, d)
    ensures Arrivals([g, b, d, b], g.hash) && Arrivals([g, b, d], g.hash)
    ensures ParentsFirst(AcceptRun([g, b, d], g.hash).tree, AcceptRun([g, b, d], g.hash).marks)
    ensures !ParentsFirst(AcceptRun([g, b, d, b], g.hash).tree, AcceptRun([g, b, d, b], g.hash).marks)
  {
    AnyOrder([g, b, d, b], {g, b, d}, g.hash);
    assert [g, b, d] + [b] == [g, b, d, b];
    RunStep([g, b, d], b, g.hash);
    InOrderSoFar(g, b, d);
    ParentAgain(AcceptRun([g, b, d], g.hash), b, d.hash, g.hash);
  }

  lemma InOrderSoFar(g: Block, b: Block, d: Block)
    requires Line(g, b, d) && Arrivals([g, b, d], g.hash)
    ensures var l := AcceptRun([g, b, d], g.hash);
            && ParentsFirst(l.tree, l.marks) && d.hash in l.tree && l.tree[d.hash].prev == Some(b.hash)
            && IsLinked(l, d.hash) && Acceptable(l, b, g.hash)
  {
    assert [] + [g] == [g] && [g] + [b] == [g, b] && [g, b] + [d] == [g, b, d];
    RunStep([g, b], d, g.hash);
    RunStep([g], b, g.hash);
    RunStep([], g, g.hash);
    GenesisInOrder(g);
    ChildInOrder(g, b, AcceptRun([g], g.hash));
    GrandchildInOrder(g, b, d, AcceptRun([g, b], g.hash));
  }

  lemma GenesisInOrder(g: Block)
    requires Good(g) && g.prevHash != g.hash
    ensures Plausible(EMPTY, g, g.hash)
    ensures var l := Accept(EMPTY, g, g.hash);
            && l.tip == Some(g.hash) && IsLinked(l, g.hash) && l.tree.Keys == {g.hash} && Named(l)
            && ParentsFirst(l.tree, l.marks)
  {
    First(g);
    AcceptParentsFirst(EMPTY, g, g.hash);
  }

  lemma ChildInOrder(g: Block, b: Block, l: Ledger)
    requires OnGenesis(g, b) && Steady(l, g.hash) && Plausible(l, b, g.hash) && ParentsFirst(l.tree, l.marks)
    requires l.tip == Some(g.hash) && IsLinked(l, g.hash) && l.tree.Keys == {g.hash}
    ensures var r := Accept(l, b, g.hash);
            Named(r) && ParentsFirst(r.tree, r.marks) && r.tree.Keys == {g.hash, b.hash} && IsLinked(r, b.hash)
  {
    NewKeepsOrder(l, b, g.hash);
    FirstChild(g, b, l);
  }

  lemma GrandchildInOrder(g: Block, b: Block, d: Block, l: Ledger)
    requires Line(g, b, d) && Steady(l, g.hash) && Plausible(l, d, g.hash) && ParentsFirst(l.tree, l.marks)
    requires l.tree.Keys == {g.hash, b.hash} && IsLinked(l, b.hash)
    ensures var r := Accept(l, d, g.hash);
            && Named(r) && ParentsFirst(r.tree, r.marks) && d.hash in r.tree && r.tree[d.hash].prev == Some(b.hash)
            && IsLinked(r, d.hash) && Acceptable(r, b, g.hash)
  {
    NewKeepsOrder(l, d, g.hash);
    Child(l, d, g.hash);
    AcceptOthers(l, d, g.hash, d.hash);
    assert Valid(l.marks[g.hash]) && Valid(l.marks[b.hash]);
  }

  lemma NewKeepsOrder(l: Ledger, b: Block, genesis: Id)
    requires Steady(l, genesis) && Plausible(l, b, genesis) && ParentsFirst(l.tree, l.marks) && b.hash !in l.tree
    ensures Named(Accept(l, b, genesis)) && ParentsFirst(Accept(l, b, genesis).tree, Accept(l, b, genesis).marks)
  {
    AcceptParentsFirst(l, b, genesis);
    forall x | x in l.tree ensures l.tree[x].prev != Some(b.hash) {
      assert NodeOk(l.tree, x);
    }
  }

  /** A block with a linked child, again. */
  lemma ParentAgain(l: Ledger, b: Block, child: Id, genesis: Id)
    requires Steady(l, genesis) && Plausible(l, b, genesis) && ParentsFirst(l.tree, l.marks)
    requires Acceptable(l, b, genesis)
    requires child in l.tree && l.tree[child].prev == Some(b.hash) && IsLinked(l, child)
    ensures Named(Accept(l, b, genesis)) && !ParentsFirst(Accept(l, b, genesis).tree, Accept(l, b, genesis).marks)
  {
    AcceptParentsFirst(l, b, genesis);
  }

  /** A block on the genesis block, first with a bad body and later with a good one, and between
      the two a child of it. */
  ghost predicate LateParent(g: Block, bad: Block, c: Block, p: Block) {
    && Good(g) && Good(c) && Good(p) && bad == p.(bodyOk := false)
    && p.prevHash == g.hash && c.prevHash == p.hash && p.hash != g.hash && c.hash != g.hash && c.hash != p.hash
    && g.prevHash != g.hash && g.prevHash != p.hash && g.prevHash != c.hash
  }

  /** The bad body leaves an index without data. */
  lemma BadBody(g: Block, bad: Block, c: Block, p: Block, l: Ledger)
    requires LateParent(g, bad, c, p) && Steady(l, g.hash) && Plausible(l, bad, g.hash)
    requires IsLinked(l, g.hash) && l.tree.Keys == {g.hash} && l.tip == Some(g.hash)
    ensures var r := Accept(l, bad, g.hash);
            && Named(r) && r.tree.Keys == {g.hash, p.hash} && Valid(r.marks[p.hash]) && !Linked(r.marks[p.hash])
            && IsLinked(r, g.hash) && r.tip == Some(g.hash)
  {
    Grown(l, bad, g.hash);
    AcceptIndexes(l, bad, g.hash);
    AcceptClimbs(l, bad, g.hash);
    StepLinks(l, bad, p.hash, g.hash);
    StepLinks(l, bad, g.hash, g.hash);
    assert CountOk(l.tree, l.marks, l.counter, g.hash);
    AcceptSteady(l, bad, g.hash);
  }

  /** The child is accepted on it but not linked. */
  lemma EarlyChild(g: Block, bad: Block, c: Block, p: Block, l: Ledger)
    requires LateParent(g, bad, c, p) && Steady(l, g.hash) && Plausible(l, c, g.hash)
    requires l.tree.Keys == {g.hash, p.hash} && Valid(l.marks[p.hash]) && !Linked(l.marks[p.hash])
    requires IsLinked(l, g.hash)
    ensures Acceptable(l, c, g.hash)
    ensures var r := Accept(l, c, g.hash);
            && Named(r) && c.hash in r.tree && !Linked(r.marks[c.hash])
            && p.hash in r.tree && !Linked(r.marks[p.hash]) && Valid(r.marks[p.hash]) && IsLinked(r, g.hash)
  {
    Grown(l, c, g.hash);
    AcceptIndexes(l, c, g.hash);
    StepLinks(l, c, c.hash, g.hash);
  }

  /** Its parent's data links the parent alone. */
  lemma ParentAtLast(g: Block, bad: Block, c: Block, p: Block, l: Ledger)
    requires LateParent(g, bad, c, p) && Steady(l, g.hash) && Plausible(l, p, g.hash)
    requires c.hash in l.tree && !Linked(l.marks[c.hash]) && p.hash in l.tree && Valid(l.marks[p.hash])
    requires IsLinked(l, g.hash)
    ensures var r := Accept(l, p, g.hash);
            && IsLinked(r, p.hash) && IsLinked(r, g.hash) && c.hash in r.tree && c.hash in r.marks
            && !Linked(r.marks[c.hash])
  {
    assert CountOk(l.tree, l.marks, l.counter, g.hash);
    Grown(l, p, g.hash);
    StepLinks(l, p, p.hash, g.hash);
    StepLinks(l, p, g.hash, g.hash);
  }

  /** Genesis, a parent whose body fails, its child, and the parent's good body: every block was
      accepted and every ancestor of the child is linked, but the child is not. */
  lemma ChildLeftBehind(g: Block, bad: Block, c: Block, p: Block)
    requires LateParent(g, bad, c, p)
    ensures Arrivals([g, bad, c, p], g.hash) && Arrivals([g, bad], g.hash)
    ensures Acceptable(AcceptRun([g, bad], g.hash), c, g.hash)
    ensures var r := AcceptRun([g, bad, c, p], g.hash);
            && IsLinked(r, g.hash) && IsLinked(r, p.hash) && c.hash in r.tree && c.hash in r.marks
            && !Linked(r.marks[c.hash])
  {
    var id := g.hash;
    AnyOrder([g, bad, c, p], {g, bad, c, p}, id);
    assert [] + [g] == [g] && [g] + [bad] == [g, bad] && [g, bad] + [c] == [g, bad, c]
           && [g, bad, c] + [p] == [g, bad, c, p];
    RunStep([g, bad, c], p, id);
    RunStep([g, bad], c, id);
    RunStep([g], bad, id);
    RunStep([], g, id);
    First(g);
    BadBody(g, bad, c, p, AcceptRun([g], id));
    EarlyChild(g, bad, c, p, AcceptRun([g, bad], id));
    ParentAtLast(g, bad, c, p, AcceptRun([g, bad, c], id));
  }

  /** There are such blocks. */
  lemma SuchBlocks(bits: U32) returns (g: Block, b: Block, c: Block, bad: Block, p: Block, d: Block)
    requires Difficulty.InRange(bits)
    ensures TwoChildren(g, b, c) && LateParent(g, bad, d, p) && Line(g, p, d)
  {
    g, b, c := Block(1, 0, bits, true, true, 1), Block(2, 1, bits, true, true, 1), Block(3, 1, bits, true, true, 1);
    p, d := Block(4, 1, bits, true, true, 1), Block(5, 4, bits, true, true, 1);
    bad := p.(bodyOk := false);
  }
}
