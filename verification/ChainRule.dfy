/** The chain rule that `ChainManager` implements, without candidates, work lists, batches and
    reorganisations: index a block whose header and parent are good, link it if its parent is
    linked, and move the tip to it if it has more work than the tip.

    Blocks may arrive in any order and any number of times. A block that arrives again once it is
    linked gets a new sequence number; what that spoils, and when, is stated here.
 */
module ChainRule {
  import opened Basics
  import opened BlockTree
  import opened Candidates
  import opened Linking
  import opened ChainState
  import opened ChainGrowth
  import Difficulty

  /** What `acceptBlock` looks at: the hashes, the target, and what the header and body checks
      say. */
  datatype Block = Block(hash: Id, prevHash: Id, bits: U32, headerOk: bool, bodyOk: bool, txs: nat)

  datatype Ledger = Ledger(tree: Tree, marks: Marks, counter: nat, tip: Option<Id>)

  const EMPTY: Ledger := Ledger(map[], map[], 1, None)

  // ---------------------------------------------------------------- the rule

  /** The checks before a block is indexed. */
  predicate Indexable(l: Ledger, b: Block, genesis: Id) {
    && (b.hash in l.marks ==> Valid(l.marks[b.hash]))
    && b.headerOk
    && (b.hash != genesis ==> b.prevHash in l.marks && Valid(l.marks[b.prevHash]))
  }

  /** The check of the body, which the genesis block is spared. */
  predicate Passes(b: Block, genesis: Id) {
    b.hash == genesis || b.bodyOk
  }

  /** When `acceptBlock` succeeds. */
  predicate Acceptable(l: Ledger, b: Block, genesis: Id) {
    Indexable(l, b, genesis) && Passes(b, genesis)
  }

  /** The block has a linked parent, or is the genesis block. */
  predicate ReadyToLink(l: Ledger, b: Block, genesis: Id) {
    b.hash == genesis || (b.prevHash in l.marks && Linked(l.marks[b.prevHash]))
  }

  function Parent(l: Ledger, b: Block): Option<Id> {
    if b.prevHash in l.tree then Some(b.prevHash) else None
  }

  /** The block is in the index. */
  ghost function Indexed(l: Ledger, b: Block): Ledger
    requires IsTree(l.tree)
  {
    if b.hash in l.tree then l else
    l.(tree := Added(l.tree, b.hash, NewNode(l.tree, Parent(l, b), Difficulty.Work(b.bits))),
       marks := l.marks[b.hash := FRESH])
  }

  ghost predicate Named(l: Ledger) {
    IsTree(l.tree) && l.marks.Keys == l.tree.Keys && (l.tip.Some? ==> l.tip.value in l.tree)
  }

  function StoredMarks(t: Tree, m: Marks, counter: nat, id: Id, txs: nat): Marks
    requires IsTree(t) && m.Keys == t.Keys && id in t
  {
    Numbered(t, ReceivedMarks(m, id, txs), counter, id)
  }

  /** The block's data is there: it is linked if its parent is, and becomes the tip if it has
      more work. */
  ghost function Stored(l: Ledger, id: Id, txs: nat): Ledger
    requires Named(l) && id in l.tree
  {
    if ParentLinked(l.tree, l.marks, id) then
      Ledger(l.tree, StoredMarks(l.tree, l.marks, l.counter, id, txs), l.counter + 1,
             if l.tip.None? || l.tree[l.tip.value].work < l.tree[id].work then Some(id) else l.tip)
    else l.(marks := ReceivedMarks(l.marks, id, txs))
  }

  // ---------------------------------------------------------------- what holds of every ledger

  ghost predicate Fine(t: Tree, m: Marks)
    requires m.Keys == t.Keys
  {
    forall x :: x in t ==> m[x].level == 0 && Valid(m[x]) && (Linked(m[x]) ==> m[x].haveData)
  }

  ghost predicate Ground(l: Ledger, genesis: Id) {
    && Named(l) && SkipsOk(l.tree) && Increasing(l.tree) && RootsOk(l.tree, genesis)
    && CountsOk(l.tree, l.marks, l.counter) && DistinctIds(l.tree, l.marks) && Fine(l.tree, l.marks)
  }

  ghost predicate TipOk(l: Ledger)
    requires Named(l)
  {
    && (l.tip.None? ==> forall x :: x in l.tree ==> !Linked(l.marks[x]))
    && (l.tip.Some? ==> MostWork(l.tree, l.marks, l.tip.value))
  }

  /** The tip has the most work of all linked blocks; without a tip nothing is known. */
  ghost predicate Steady(l: Ledger, genesis: Id) {
    Ground(l, genesis) && TipOk(l) && (l.tip.None? ==> l.tree == map[])
  }

  /** What is known of any block: a header that passes the checks has a target in range, a body
      that passes has transactions, the genesis block has transactions and no parent, and a hash
      stands for one block. */
  ghost predicate Plausible(l: Ledger, b: Block, genesis: Id) {
    && (b.headerOk ==> Difficulty.InRange(b.bits))
    && (Passes(b, genesis) ==> b.txs > 0)
    && (b.hash == genesis ==> b.prevHash !in l.tree && b.prevHash != b.hash)
    && (b.hash in l.tree && b.hash != genesis ==> l.tree[b.hash].prev == Some(b.prevHash))
    && (Passes(b, genesis) && b.hash in l.marks && Linked(l.marks[b.hash]) ==> l.marks[b.hash].txs == b.txs)
  }

  /** `acceptBlock`. */
  ghost function Accept(l: Ledger, b: Block, genesis: Id): Ledger
    requires Steady(l, genesis) && Plausible(l, b, genesis)
  {
    if !Indexable(l, b, genesis) then l else
    IndexedGround(l, b, genesis);
    var i := Indexed(l, b);
    if !Passes(b, genesis) then i else Stored(i, b.hash, b.txs)
  }

  // ---------------------------------------------------------------- indexing

  lemma AddedCounts(t: Tree, u: Tree, m: Marks, counter: nat, id: Id)
    requires IsTree(t) && IsTree(u) && Extends(t, u, id) && m.Keys == t.Keys && CountsOk(t, m, counter)
    requires DistinctIds(t, m)
    ensures CountsOk(u, m[id := FRESH], counter) && DistinctIds(u, m[id := FRESH])
  {
    forall x | x in u ensures CountOk(u, m[id := FRESH], counter, x) {
      assert NodeOk(u, x);
      if x != id {
        assert NodeOk(t, x) && CountOk(t, m, counter, x);
      }
    }
  }

  lemma IndexedExtends(l: Ledger, b: Block)
    requires Named(l) && SkipsOk(l.tree) && b.hash !in l.tree && Difficulty.Usable(b.bits)
    ensures IsTree(Indexed(l, b).tree) && SkipsOk(Indexed(l, b).tree)
    ensures Extends(l.tree, Indexed(l, b).tree, b.hash) && Indexed(l, b).tree[b.hash].prev == Parent(l, b)
  {
    AddedTree(l.tree, b.hash, Parent(l, b), Difficulty.Work(b.bits));
    Difficulty.WorkPositive(b.bits);
  }

  lemma AddedFine(t: Tree, u: Tree, m: Marks, id: Id, genesis: Id)
    requires Extends(t, u, id) && m.Keys == t.Keys && Fine(t, m) && RootsOk(t, genesis)
    requires (u[id].prev.None? <==> id == genesis)
    ensures Fine(u, m[id := FRESH]) && RootsOk(u, genesis)
  {
  }

  lemma IndexedTip(l: Ledger, u: Tree, id: Id)
    requires Named(l) && TipOk(l) && Extends(l.tree, u, id) && IsTree(u)
    ensures Named(l.(tree := u, marks := l.marks[id := FRESH])) && TipOk(l.(tree := u, marks := l.marks[id := FRESH]))
  {
  }

  lemma IndexedGround(l: Ledger, b: Block, genesis: Id)
    requires Ground(l, genesis) && TipOk(l) && Plausible(l, b, genesis) && Indexable(l, b, genesis)
    ensures Ground(Indexed(l, b), genesis) && TipOk(Indexed(l, b)) && b.hash in Indexed(l, b).tree
  {
    if b.hash !in l.tree {
      var i := Indexed(l, b);
      IndexedExtends(l, b);
      AddedCounts(l.tree, i.tree, l.marks, l.counter, b.hash);
      AddedIncreasing(l.tree, i.tree, b.hash);
      AddedFine(l.tree, i.tree, l.marks, b.hash, genesis);
      IndexedTip(l, i.tree, b.hash);
    }
  }

  // ---------------------------------------------------------------- storing

  /** Storing a block whose parent is linked changes that block's mark alone. */
  lemma StoredMark(t: Tree, m: Marks, counter: nat, id: Id, txs: nat)
    requires IsTree(t) && m.Keys == t.Keys && id in t
    ensures var n := StoredMarks(t, m, counter, id, txs);
            && n.Keys == t.Keys && (forall x :: x in t && x != id ==> n[x] == m[x])
            && n[id] == m[id].(txs := txs, haveData := true, seqId := counter, chainTxs := n[id].chainTxs)
            && (t[id].prev.Some? ==> t[id].prev.value in t) && n[id].chainTxs == ParentTxs(t, m, id) + txs
  {
    assert NodeOk(t, id);
  }

  lemma StoredCounts(t: Tree, m: Marks, counter: nat, id: Id, txs: nat)
    requires IsTree(t) && m.Keys == t.Keys && CountsOk(t, m, counter) && id in t && ParentLinked(t, m, id)
    requires Linked(m[id]) ==> m[id].txs == txs
    ensures CountsOk(t, StoredMarks(t, m, counter, id, txs), counter + 1)
  {
    var n := StoredMarks(t, m, counter, id, txs);
    StoredMark(t, m, counter, id, txs);
    assert CountOk(t, m, counter, id) && NodeOk(t, id);
    forall x | x in t ensures CountOk(t, n, counter + 1, x) {
      assert CountOk(t, m, counter, x) && NodeOk(t, x);
    }
  }

  lemma StoredDistinct(t: Tree, m: Marks, counter: nat, id: Id, txs: nat)
    requires IsTree(t) && m.Keys == t.Keys && CountsOk(t, m, counter) && DistinctIds(t, m) && id in t
    ensures DistinctIds(t, StoredMarks(t, m, counter, id, txs))
  {
    var n := StoredMarks(t, m, counter, id, txs);
    StoredMark(t, m, counter, id, txs);
    forall x, y | x in t && y in t && x != y && Linked(n[x]) && Linked(n[y]) ensures n[x].seqId != n[y].seqId {
      assert CountOk(t, m, counter, x) && CountOk(t, m, counter, y);
    }
  }

  /** A block that waits for its parent changes nothing that is linked. */
  lemma NotedCounts(t: Tree, m: Marks, counter: nat, id: Id, txs: nat)
    requires IsTree(t) && m.Keys == t.Keys && CountsOk(t, m, counter) && id in t && !ParentLinked(t, m, id)
    ensures !Linked(m[id]) && CountsOk(t, ReceivedMarks(m, id, txs), counter)
  {
    var n := ReceivedMarks(m, id, txs);
    assert CountOk(t, m, counter, id) && NodeOk(t, id);
    forall x | x in t ensures CountOk(t, n, counter, x) {
      assert CountOk(t, m, counter, x) && NodeOk(t, x);
    }
  }

  lemma NotedFine(t: Tree, m: Marks, id: Id, txs: nat)
    requires m.Keys == t.Keys && id in t && !Linked(m[id]) && Fine(t, m) && DistinctIds(t, m)
    ensures Fine(t, ReceivedMarks(m, id, txs)) && DistinctIds(t, ReceivedMarks(m, id, txs))
  {
  }

  lemma StoredFine(t: Tree, m: Marks, counter: nat, id: Id, txs: nat)
    requires IsTree(t) && m.Keys == t.Keys && id in t && Fine(t, m) && Valid(m[id])
    ensures Fine(t, StoredMarks(t, m, counter, id, txs))
  {
    StoredMark(t, m, counter, id, txs);
  }

  lemma StoredGround(l: Ledger, id: Id, txs: nat, genesis: Id)
    requires Ground(l, genesis) && id in l.tree && Valid(l.marks[id]) && txs > 0
    requires Linked(l.marks[id]) ==> l.marks[id].txs == txs
    ensures Ground(Stored(l, id, txs), genesis)
  {
    if ParentLinked(l.tree, l.marks, id) {
      var n := StoredMarks(l.tree, l.marks, l.counter, id, txs);
      StoredCounts(l.tree, l.marks, l.counter, id, txs);
      StoredDistinct(l.tree, l.marks, l.counter, id, txs);
      StoredFine(l.tree, l.marks, l.counter, id, txs);
      assert Stored(l, id, txs).marks == n && Stored(l, id, txs).tree == l.tree;
    } else {
      NotedCounts(l.tree, l.marks, l.counter, id, txs);
      NotedFine(l.tree, l.marks, id, txs);
    }
  }

  lemma StoredMostWork(t: Tree, m: Marks, counter: nat, id: Id, txs: nat, tip: Id)
    requires IsTree(t) && m.Keys == t.Keys && id in t && txs > 0 && tip in t && t[id].work <= t[tip].work
    requires forall x :: x in t && Linked(m[x]) ==> t[x].work <= t[tip].work
    requires Linked(m[tip]) || tip == id
    ensures MostWork(t, StoredMarks(t, m, counter, id, txs), tip)
  {
    StoredMark(t, m, counter, id, txs);
  }

  lemma StoredTip(l: Ledger, id: Id, txs: nat)
    requires Named(l) && CountsOk(l.tree, l.marks, l.counter) && TipOk(l) && id in l.tree && txs > 0
    ensures Named(Stored(l, id, txs)) && TipOk(Stored(l, id, txs))
    ensures ParentLinked(l.tree, l.marks, id) ==> Stored(l, id, txs).tip.Some?
  {
    if ParentLinked(l.tree, l.marks, id) {
      var n, tip := StoredMarks(l.tree, l.marks, l.counter, id, txs), Stored(l, id, txs).tip.value;
      StoredMark(l.tree, l.marks, l.counter, id, txs);
      StoredMostWork(l.tree, l.marks, l.counter, id, txs, tip);
    } else {
      NotedCounts(l.tree, l.marks, l.counter, id, txs);
    }
  }

  /** Every arrival keeps the ledger steady: the tip has the most work of all linked blocks. */
  lemma AcceptSteady(l: Ledger, b: Block, genesis: Id)
    requires Steady(l, genesis) && Plausible(l, b, genesis)
    ensures Steady(Accept(l, b, genesis), genesis)
  {
    if Indexable(l, b, genesis) {
      var i := Indexed(l, b);
      IndexedGround(l, b, genesis);
      IndexedParent(l, b, genesis);
      if Passes(b, genesis) {
        StoredGround(i, b.hash, b.txs, genesis);
        StoredTip(i, b.hash, b.txs);
      }
    }
  }

  /** Indexing links nothing, and the indexed block has a linked parent exactly when it was ready
      to be linked. */
  lemma IndexedParent(l: Ledger, b: Block, genesis: Id)
    requires Steady(l, genesis) && Plausible(l, b, genesis) && Indexable(l, b, genesis)
    ensures var i := Indexed(l, b);
            && i.marks.Keys == i.tree.Keys && b.hash in i.tree && Valid(i.marks[b.hash])
            && (ParentLinked(i.tree, i.marks, b.hash) <==> ReadyToLink(l, b, genesis))
            && (l.tip.None? ==> ReadyToLink(l, b, genesis))
  {
    if b.hash !in l.tree {
      IndexedExtends(l, b);
      NewParent(l.tree, Indexed(l, b).tree, l.marks, b, genesis);
    } else {
      KnownParent(l.tree, l.marks, b, genesis);
    }
  }

  lemma NewParent(t: Tree, u: Tree, m: Marks, b: Block, genesis: Id)
    requires m.Keys == t.Keys && Extends(t, u, b.hash) && (b.prevHash in t <==> b.hash != genesis)
    requires u[b.hash].prev == if b.prevHash in t then Some(b.prevHash) else None
    ensures ParentLinked(u, m[b.hash := FRESH], b.hash)
            <==> b.hash == genesis || (b.prevHash in m && Linked(m[b.prevHash]))
  {
  }

  lemma KnownParent(t: Tree, m: Marks, b: Block, genesis: Id)
    requires IsTree(t) && m.Keys == t.Keys && b.hash in t && RootsOk(t, genesis)
    requires b.hash != genesis ==> t[b.hash].prev == Some(b.prevHash)
    ensures ParentLinked(t, m, b.hash) <==> b.hash == genesis || (b.prevHash in m && Linked(m[b.prevHash]))
  {
    assert NodeOk(t, b.hash);
  }

  // ---------------------------------------------------------------- what an arrival does

  /** Exactly the accepted block gets linked, and exactly when its parent is linked; what is
      linked stays linked. */
  lemma AcceptLinks(l: Ledger, b: Block, genesis: Id, x: Id)
    requires Steady(l, genesis) && Plausible(l, b, genesis) && x in Accept(l, b, genesis).tree
    ensures x in Accept(l, b, genesis).marks
    ensures Linked(Accept(l, b, genesis).marks[x]) <==>
            (x in l.marks && Linked(l.marks[x]))
              || (x == b.hash && Acceptable(l, b, genesis) && ReadyToLink(l, b, genesis))
  {
    if Indexable(l, b, genesis) {
      var i := Indexed(l, b);
      IndexedGround(l, b, genesis);
      IndexedParent(l, b, genesis);
      if ReadyToLink(l, b, genesis) {
        StoredMark(i.tree, i.marks, i.counter, b.hash, b.txs);
      } else {
        NotedCounts(i.tree, i.marks, i.counter, b.hash, b.txs);
      }
    }
  }

  /** The tip stays, or moves to the arriving block because that has strictly more work. */
  lemma AcceptClimbs(l: Ledger, b: Block, genesis: Id)
    requires Steady(l, genesis) && Plausible(l, b, genesis)
    ensures var r := Accept(l, b, genesis);
            && (r.tip == l.tip || r.tip == Some(b.hash))
            && (l.tip.Some? ==> r.tip.Some? && l.tip.value in r.tree && r.tip.value in r.tree
                                && (r.tip == l.tip || r.tree[l.tip.value].work < r.tree[r.tip.value].work))
  {
    if Indexable(l, b, genesis) {
      IndexedGround(l, b, genesis);
    }
  }

  // ---------------------------------------------------------------- the tie-break

  /** Another linked block has as much work as the tip. */
  ghost predicate Tied(t: Tree, m: Marks, tip: Id)
    requires m.Keys == t.Keys && tip in t
  {
    exists x :: x in t && x != tip && Linked(m[x]) && t[x].work == t[tip].work
  }

  /** The tip beats a later block. */
  lemma LaterIsWorse(t: Tree, m: Marks, counter: nat, id: Id, txs: nat, tip: Id)
    requires IsTree(t) && m.Keys == t.Keys && CountsOk(t, m, counter) && id in t && tip in t && id != tip
    requires BestTip(t, m, tip) && t[id].work <= t[tip].work
    ensures BestTip(t, StoredMarks(t, m, counter, id, txs), tip)
  {
    var n := StoredMarks(t, m, counter, id, txs);
    StoredMark(t, m, counter, id, txs);
    assert CountOk(t, m, counter, tip);
    forall x | x in t ensures NoBetter(t, n, tip, x) {
      assert NoBetter(t, m, tip, x);
    }
  }

  /** A block with more work than the tip beats everything. */
  lemma HeavierIsBest(t: Tree, m: Marks, counter: nat, id: Id, txs: nat, tip: Id)
    requires IsTree(t) && m.Keys == t.Keys && id in t && tip in t && txs > 0
    requires MostWork(t, m, tip) && t[tip].work < t[id].work
    ensures BestTip(t, StoredMarks(t, m, counter, id, txs), id)
  {
    var n := StoredMarks(t, m, counter, id, txs);
    StoredMark(t, m, counter, id, txs);
    forall x | x in t ensures NoBetter(t, n, id, x) {
    }
  }

  /** The tip numbered anew loses against every block with as much work. */
  lemma RenumberedTip(t: Tree, m: Marks, counter: nat, txs: nat, tip: Id)
    requires IsTree(t) && m.Keys == t.Keys && CountsOk(t, m, counter) && tip in t && txs > 0
    requires BestTip(t, m, tip)
    ensures BestTip(t, StoredMarks(t, m, counter, tip, txs), tip) <==> !Tied(t, m, tip)
  {
    var n := StoredMarks(t, m, counter, tip, txs);
    StoredMark(t, m, counter, tip, txs);
    forall x | x in t ensures NoBetter(t, n, tip, x) <==> (x != tip && Linked(m[x]) ==> t[x].work != t[tip].work) {
      assert NoBetter(t, m, tip, x) && CountOk(t, m, counter, x);
    }
  }

  ghost predicate Best(l: Ledger)
    requires Named(l)
  {
    l.tip.Some? ==> BestTip(l.tree, l.marks, l.tip.value)
  }

  lemma AddedTied(t: Tree, u: Tree, m: Marks, id: Id, tip: Id)
    requires m.Keys == t.Keys && Extends(t, u, id) && tip in t && BestTip(t, m, tip)
    ensures BestTip(u, m[id := FRESH], tip) && (Tied(u, m[id := FRESH], tip) <==> Tied(t, m, tip))
  {
    var n := m[id := FRESH];
    AddedTip(t, u, m, id, tip);
    forall x | x in t ensures x in u && u[x] == t[x] && n[x] == m[x] {
    }
    if Tied(t, m, tip) {
      var x :| x in t && x != tip && Linked(m[x]) && t[x].work == t[tip].work;
      assert x in u && Linked(n[x]);
    }
  }

  lemma IndexedBest(l: Ledger, b: Block, genesis: Id)
    requires Steady(l, genesis) && Plausible(l, b, genesis) && Indexable(l, b, genesis) && l.tip.Some? && Best(l)
    ensures var i := Indexed(l, b);
            && Named(i) && i.tip == l.tip && Best(i)
            && (Tied(i.tree, i.marks, i.tip.value) <==> Tied(l.tree, l.marks, l.tip.value))
  {
    if b.hash !in l.tree {
      IndexedExtends(l, b);
      AddedTied(l.tree, Indexed(l, b).tree, l.marks, b.hash, l.tip.value);
    }
  }

  lemma StoredBest(l: Ledger, id: Id, txs: nat, genesis: Id)
    requires Ground(l, genesis) && TipOk(l) && l.tip.Some? && Best(l) && id in l.tree && txs > 0
    requires ParentLinked(l.tree, l.marks, id)
    ensures Named(Stored(l, id, txs))
    ensures Best(Stored(l, id, txs)) <==> !(l.tip == Some(id) && Tied(l.tree, l.marks, id))
  {
    var tip := l.tip.value;
    StoredMark(l.tree, l.marks, l.counter, id, txs);
    if l.tree[tip].work < l.tree[id].work {
      HeavierIsBest(l.tree, l.marks, l.counter, id, txs, tip);
    } else if id == tip {
      RenumberedTip(l.tree, l.marks, l.counter, txs, tip);
    } else {
      LaterIsWorse(l.tree, l.marks, l.counter, id, txs, tip);
    }
  }

  lemma NotedBest(l: Ledger, id: Id, txs: nat, genesis: Id)
    requires Ground(l, genesis) && l.tip.Some? && Best(l) && id in l.tree && !ParentLinked(l.tree, l.marks, id)
    ensures Named(Stored(l, id, txs)) && Best(Stored(l, id, txs)) && l.tip != Some(id)
  {
    NotedCounts(l.tree, l.marks, l.counter, id, txs);
    forall x | x in l.tree ensures NoBetter(l.tree, ReceivedMarks(l.marks, id, txs), l.tip.value, x) {
      assert NoBetter(l.tree, l.marks, l.tip.value, x);
    }
  }

  /** From a tip that is the greatest of all linked blocks, more work first and then the earlier
      number, an arrival leaves the tip the greatest if and only if it is not the tip again while
      another linked block has as much work. */
  lemma AcceptBest(l: Ledger, b: Block, genesis: Id)
    requires Steady(l, genesis) && Plausible(l, b, genesis) && l.tip.Some? && Best(l)
    ensures Named(Accept(l, b, genesis))
    ensures Best(Accept(l, b, genesis)) <==>
            !(Acceptable(l, b, genesis) && l.tip == Some(b.hash) && Tied(l.tree, l.marks, b.hash))
  {
    AcceptSteady(l, b, genesis);
    if Indexable(l, b, genesis) {
      IndexedBest(l, b, genesis);
      if Passes(b, genesis) {
        var i := Indexed(l, b);
        IndexedGround(l, b, genesis);
        if ParentLinked(i.tree, i.marks, b.hash) {
          StoredBest(i, b.hash, b.txs, genesis);
        } else {
          NotedBest(i, b.hash, b.txs, genesis);
        }
      }
    }
  }

  /** The first tip is the greatest, being the only linked block. */
  lemma FirstBest(l: Ledger, b: Block, genesis: Id)
    requires Steady(l, genesis) && Plausible(l, b, genesis) && l.tip.None?
    ensures Named(Accept(l, b, genesis)) && Best(Accept(l, b, genesis))
  {
    var r := Accept(l, b, genesis);
    AcceptSteady(l, b, genesis);
    if r.tip.Some? {
      AcceptClimbs(l, b, genesis);
      forall x | x in r.tree ensures NoBetter(r.tree, r.marks, r.tip.value, x) {
        AcceptLinks(l, b, genesis, x);
      }
    }
  }

  // ---------------------------------------------------------------- parents first

  ghost predicate ParentsFirst(t: Tree, m: Marks)
    requires IsTree(t) && m.Keys == t.Keys
  {
    forall x :: x in t ==> ParentFirst(t, m, x)
  }

  ghost predicate HasLinkedChild(t: Tree, m: Marks, id: Id)
    requires m.Keys == t.Keys
  {
    exists x :: x in t && t[x].prev == Some(id) && Linked(m[x])
  }

  /** Numbering a block anew keeps parents before children exactly when it has no linked child. */
  lemma StoredParentsFirst(t: Tree, m: Marks, counter: nat, id: Id, txs: nat)
    requires IsTree(t) && m.Keys == t.Keys && CountsOk(t, m, counter) && id in t && ParentLinked(t, m, id) && txs > 0
    requires ParentsFirst(t, m)
    ensures StoredMarks(t, m, counter, id, txs).Keys == t.Keys
    ensures ParentsFirst(t, StoredMarks(t, m, counter, id, txs)) <==> !HasLinkedChild(t, m, id)
  {
    var n := StoredMarks(t, m, counter, id, txs);
    StoredMark(t, m, counter, id, txs);
    assert NodeOk(t, id);
    forall x | x in t ensures ParentFirst(t, n, x) <==> !(t[x].prev == Some(id) && Linked(m[x])) {
      assert ParentFirst(t, m, x) && CountOk(t, m, counter, x) && NodeOk(t, x);
      assert t[x].prev.Some? ==> CountOk(t, m, counter, t[x].prev.value);
    }
  }

  lemma AddedParentsFirst(t: Tree, u: Tree, m: Marks, id: Id)
    requires IsTree(t) && IsTree(u) && m.Keys == t.Keys && Extends(t, u, id) && ParentsFirst(t, m)
    ensures ParentsFirst(u, m[id := FRESH]) && !HasLinkedChild(u, m[id := FRESH], id) && !HasLinkedChild(t, m, id)
  {
    forall x | x in u
      ensures ParentFirst(u, m[id := FRESH], x) && !(u[x].prev == Some(id) && Linked(m[id := FRESH][x])) {
      assert NodeOk(u, x);
      assert x != id ==> ParentFirst(t, m, x) && NodeOk(t, x);
    }
  }

  lemma IndexedParentsFirst(l: Ledger, b: Block, genesis: Id)
    requires Steady(l, genesis) && Plausible(l, b, genesis) && Indexable(l, b, genesis) && ParentsFirst(l.tree, l.marks)
    ensures var i := Indexed(l, b);
            && Named(i) && ParentsFirst(i.tree, i.marks)
            && (HasLinkedChild(i.tree, i.marks, b.hash) <==> HasLinkedChild(l.tree, l.marks, b.hash))
  {
    if b.hash !in l.tree {
      IndexedExtends(l, b);
      AddedParentsFirst(l.tree, Indexed(l, b).tree, l.marks, b.hash);
    }
  }

  lemma NotedParentsFirst(t: Tree, m: Marks, counter: nat, id: Id, txs: nat)
    requires IsTree(t) && m.Keys == t.Keys && CountsOk(t, m, counter) && id in t && !ParentLinked(t, m, id)
    requires ParentsFirst(t, m)
    ensures ParentsFirst(t, ReceivedMarks(m, id, txs)) && !HasLinkedChild(t, m, id)
  {
    NotedCounts(t, m, counter, id, txs);
    forall x | x in t ensures ParentFirst(t, ReceivedMarks(m, id, txs), x) && !(t[x].prev == Some(id) && Linked(m[x])) {
      assert ParentFirst(t, m, x) && CountOk(t, m, counter, x) && NodeOk(t, x);
    }
  }

  /** Parents keep earlier numbers than their children if and only if the arrival is not a block
      that has a linked child. */
  lemma AcceptParentsFirst(l: Ledger, b: Block, genesis: Id)
    requires Steady(l, genesis) && Plausible(l, b, genesis) && ParentsFirst(l.tree, l.marks)
    ensures Named(Accept(l, b, genesis))
    ensures ParentsFirst(Accept(l, b, genesis).tree, Accept(l, b, genesis).marks) <==>
            !(Acceptable(l, b, genesis) && HasLinkedChild(l.tree, l.marks, b.hash))
  {
    AcceptSteady(l, b, genesis);
    if Indexable(l, b, genesis) {
      IndexedParentsFirst(l, b, genesis);
      var i := Indexed(l, b);
      IndexedGround(l, b, genesis);
      if Passes(b, genesis) {
        if ParentLinked(i.tree, i.marks, b.hash) {
          StoredParentsFirst(i.tree, i.marks, i.counter, b.hash, b.txs);
        } else {
          NotedParentsFirst(i.tree, i.marks, i.counter, b.hash, b.txs);
        }
      }
    }
  }

  // ---------------------------------------------------------------- whole runs

  /** What holds of the blocks on a network: checked headers have targets in range, bodies that
      pass have transactions, a hash stands for one block, and none is the genesis block's
      parent. */
  ghost predicate Arrivals(a: seq<Block>, genesis: Id) {
    && (forall i :: 0 <= i < |a| ==> a[i].headerOk ==> Difficulty.InRange(a[i].bits))
    && (forall i :: 0 <= i < |a| && Passes(a[i], genesis) ==> a[i].txs > 0)
    && (forall i, j :: 0 <= i < |a| && 0 <= j < |a| && a[i].hash == a[j].hash ==> SameBlock(a[i], a[j], genesis))
    && (forall i, j :: 0 <= i < |a| && 0 <= j < |a| && a[i].hash == genesis ==> a[j].hash != a[i].prevHash)
  }

  ghost predicate SameBlock(b: Block, c: Block, genesis: Id) {
    b.prevHash == c.prevHash && (Passes(b, genesis) && Passes(c, genesis) ==> b.txs == c.txs)
  }

  /** The index `x` comes from arrival `j`, and so do its transactions once it is linked. */
  ghost predicate IsFrom(l: Ledger, b: Block, x: Id, genesis: Id)
    requires x in l.tree
  {
    b.hash == x && (x != genesis ==> l.tree[x].prev == Some(b.prevHash))
  }

  ghost predicate DataFrom(l: Ledger, b: Block, x: Id, genesis: Id)
    requires x in l.marks
  {
    b.hash == x && Passes(b, genesis) && l.marks[x].txs == b.txs
  }

  ghost predicate CameFrom(l: Ledger, a: seq<Block>, x: Id, genesis: Id)
    requires x in l.tree && l.marks.Keys == l.tree.Keys
  {
    && (exists j :: 0 <= j < |a| && IsFrom(l, a[j], x, genesis))
    && (Linked(l.marks[x]) ==> exists j :: 0 <= j < |a| && DataFrom(l, a[j], x, genesis))
  }

  ghost predicate AllFrom(l: Ledger, a: seq<Block>, genesis: Id)
    requires l.marks.Keys == l.tree.Keys
  {
    forall x :: x in l.tree ==> CameFrom(l, a, x, genesis)
  }

  lemma ArrivalPlausible(l: Ledger, a: seq<Block>, b: Block, genesis: Id)
    requires l.marks.Keys == l.tree.Keys && AllFrom(l, a, genesis) && Arrivals(a + [b], genesis)
    ensures Plausible(l, b, genesis)
  {
    var z := a + [b];
    assert z[|a|] == b;
    forall j | 0 <= j < |a| ensures z[j] == a[j] {
    }
    if b.prevHash in l.tree {
      assert CameFrom(l, a, b.prevHash, genesis);
      var j :| 0 <= j < |a| && IsFrom(l, a[j], b.prevHash, genesis);
      assert z[j].hash == b.prevHash;
    }
    if b.hash in l.tree {
      assert CameFrom(l, a, b.hash, genesis);
      var j :| 0 <= j < |a| && IsFrom(l, a[j], b.hash, genesis);
      assert SameBlock(z[j], z[|a|], genesis);
      if Linked(l.marks[b.hash]) {
        var k :| 0 <= k < |a| && DataFrom(l, a[k], b.hash, genesis);
        assert SameBlock(z[k], z[|a|], genesis);
      }
    }
  }

  lemma IndexedOthers(l: Ledger, b: Block, genesis: Id, x: Id)
    requires Steady(l, genesis) && Plausible(l, b, genesis) && Indexable(l, b, genesis) && x in Indexed(l, b).tree
    ensures var i := Indexed(l, b);
            && i.marks.Keys == i.tree.Keys && b.hash in i.tree
            && (x in l.tree ==> i.tree[x] == l.tree[x] && i.marks[x] == l.marks[x])
            && (x !in l.tree ==> x == b.hash && !Linked(i.marks[x])) && IsFrom(i, b, b.hash, genesis)
  {
    if b.hash !in l.tree {
      IndexedExtends(l, b);
    }
  }

  /** An arrival changes no other block. */
  lemma AcceptOthers(l: Ledger, b: Block, genesis: Id, x: Id)
    requires Steady(l, genesis) && Plausible(l, b, genesis) && x in Accept(l, b, genesis).tree
    ensures var r := Accept(l, b, genesis);
            && r.marks.Keys == r.tree.Keys && (x in l.tree ==> r.tree[x] == l.tree[x])
            && (x != b.hash ==> x in l.tree && r.marks[x] == l.marks[x])
            && (x == b.hash ==> IsFrom(r, b, x, genesis))
            && (x == b.hash && Linked(r.marks[x])
               ==> DataFrom(r, b, x, genesis) || (x in l.marks && r.marks[x] == l.marks[x]))
  {
    if Indexable(l, b, genesis) {
      IndexedOthers(l, b, genesis, x);
      if Passes(b, genesis) {
        IndexedGround(l, b, genesis);
        StoredOthers(Indexed(l, b), b.hash, b.txs, x);
      }
    }
  }

  lemma StoredOthers(l: Ledger, id: Id, txs: nat, x: Id)
    requires Named(l) && id in l.tree && x in l.tree
    ensures var r := Stored(l, id, txs);
            && r.tree == l.tree && r.marks.Keys == l.tree.Keys && (x != id ==> r.marks[x] == l.marks[x])
            && r.marks[id].txs == txs
  {
    StoredMark(l.tree, l.marks, l.counter, id, txs);
  }

  lemma StillFrom(l: Ledger, a: seq<Block>, b: Block, genesis: Id)
    requires Steady(l, genesis) && Plausible(l, b, genesis) && AllFrom(l, a, genesis)
    ensures Named(Accept(l, b, genesis)) && AllFrom(Accept(l, b, genesis), a + [b], genesis)
  {
    var r, z := Accept(l, b, genesis), a + [b];
    AcceptSteady(l, b, genesis);
    forall x | x in r.tree ensures CameFrom(r, z, x, genesis) {
      AcceptOthers(l, b, genesis, x);
      FromBefore(l, r, a, b, x, genesis);
    }
  }

  lemma FromBefore(l: Ledger, r: Ledger, a: seq<Block>, b: Block, x: Id, genesis: Id)
    requires r.marks.Keys == r.tree.Keys && l.marks.Keys == l.tree.Keys && AllFrom(l, a, genesis) && x in r.tree
    requires x in l.tree ==> r.tree[x] == l.tree[x]
    requires x != b.hash ==> x in l.tree && r.marks[x] == l.marks[x]
    requires x == b.hash ==> IsFrom(r, b, x, genesis)
    requires x == b.hash && Linked(r.marks[x])
             ==> DataFrom(r, b, x, genesis) || (x in l.marks && r.marks[x] == l.marks[x])
    ensures CameFrom(r, a + [b], x, genesis)
  {
    var z := a + [b];
    assert z[|a|] == b;
    if x in l.tree {
      assert CameFrom(l, a, x, genesis);
      var j :| 0 <= j < |a| && IsFrom(l, a[j], x, genesis);
      assert IsFrom(r, z[j], x, genesis);
      if Linked(r.marks[x]) && r.marks[x] == l.marks[x] {
        var k :| 0 <= k < |a| && DataFrom(l, a[k], x, genesis);
        assert DataFrom(r, z[k], x, genesis);
      }
    }
  }

  lemma ArrivalsBefore(a: seq<Block>, genesis: Id)
    requires a != [] && Arrivals(a, genesis)
    ensures Arrivals(a[..|a| - 1], genesis) && a[..|a| - 1] + [a[|a| - 1]] == a
  {
  }

  /** The ledger after any sequence of arrivals, steady throughout. */
  ghost function AcceptRun(a: seq<Block>, genesis: Id): (r: Ledger)
    requires Arrivals(a, genesis)
    ensures Steady(r, genesis) && AllFrom(r, a, genesis)
    decreases |a|
  {
    if a == [] then EMPTY else
    ArrivalsBefore(a, genesis);
    var before, b := AcceptRun(a[..|a| - 1], genesis), a[|a| - 1];
    ArrivalPlausible(before, a[..|a| - 1], b, genesis);
    AcceptSteady(before, b, genesis);
    StillFrom(before, a[..|a| - 1], b, genesis);
    Accept(before, b, genesis)
  }
}
