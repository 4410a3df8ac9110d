/** Most-work chain selection, `ChainManager` in `chain.cpp`.
 */
module ChainManager {
  import opened Basics
  import opened BlockTree
  import opened ActiveChain
  import opened Candidates
  import opened Linking
  import opened ChainState
  import opened ChainGrowth
  import opened ChainRule
  import opened ChainRuns
  import Limbs
  import Difficulty

  class Manager {
    const genesis: Id
    const activeChain: Chain
    var tree: Tree
    var marks: Marks
    var candidates: set<Id>
    var unlinked: Pairs
    var counter: nat

    constructor (genesis: Id)
      ensures this.genesis == genesis && fresh(activeChain) && activeChain.blocks == []
      ensures tree == map[] && marks == map[] && candidates == {} && unlinked == [] && counter == 1
      ensures Inv()
    {
      this.genesis := genesis;
      activeChain := new Chain();
      tree, marks, candidates, unlinked, counter := map[], map[], {}, [], 1;
    }

    ghost function Selected(): Selection
      reads this
    {
      Selection(marks, candidates, unlinked)
    }

    /** What every operation below relies on and keeps. */
    ghost predicate Shape()
      reads this, activeChain
    {
      && IsTree(tree) && SkipsOk(tree) && marks.Keys == tree.Keys
      && IsPath(tree, activeChain.blocks)
      && candidates <= tree.Keys
      && (forall x :: x in candidates ==> Linked(marks[x])) && CountsOk(tree, marks, counter)
    }

    // -------------------------------------------------------------- most-work candidate

    /** Walk down from a candidate to the active chain, looking for a block that is not ok. The
        assertion is the source's own. */
    method FindBad(id: Id) returns (bad: Option<Id>)
      requires Shape() && id in tree && Linked(marks[id])
      ensures bad == FirstBad(tree, marks, activeChain.blocks, Some(id))
    {
      bad := Some(id);
      while bad.Some? && !Contains(tree, activeChain.blocks, bad.value)
        invariant bad.Some? ==> bad.value in tree && Linked(marks[bad.value])
        invariant FirstBad(tree, marks, activeChain.blocks, bad) == FirstBad(tree, marks, activeChain.blocks, Some(id))
        decreases Level(tree, bad)
      {
        assert marks[bad.value].chainTxs != 0;
        if !Ok(marks[bad.value]) {
          return;
        }
        assert NodeOk(tree, bad.value) && CountOk(tree, marks, counter, bad.value);
        bad := tree[bad.value].prev;
      }
      if bad.Some? {
        bad := None;
      }
    }

    /** Take the chain from `from` down to `bad` out of the candidates, marking it failed or
        putting it back among the unlinked. */
    method CondemnChain(from: Id, bad: Id, failed: bool)
      requires IsTree(tree) && marks.Keys == tree.Keys && from in tree && bad in tree && IsAncestor(tree, bad, from)
      modifies this
      ensures tree == old(tree) && counter == old(counter)
      ensures Selected() == Condemn(tree, old(Selected()), from, bad, failed)
    {
      var walk := from;
      ghost var result := Condemn(tree, Selected(), from, bad, failed);
      while walk != bad
        invariant tree == old(tree) && counter == old(counter) && marks.Keys == tree.Keys
        invariant walk in tree && IsAncestor(tree, bad, walk)
        invariant Condemn(tree, Selected(), walk, bad, failed) == result
        decreases tree[walk].height
      {
        assert NodeOk(tree, walk);
        if failed {
          marks := marks[walk := marks[walk].(failedChild := true)];
        } else {
          unlinked := unlinked + [(tree[walk].prev.value, walk)];
        }
        candidates := candidates - {walk};
        walk := tree[walk].prev.value;
      }
      candidates := candidates - {bad};
    }

    /** One round of `findMostWorkBlockIndex`: accept the greatest candidate or condemn it. */
    method TryGreatest() returns (r: Option<Id>)
      requires Shape() && candidates != {}
      modifies this
      ensures Shape() && tree == old(tree) && counter == old(counter)
      ensures Culled(tree, activeChain.blocks, old(Selected()), Selected())
      ensures r.Some? ==> Selected() == old(Selected()) && IsGreatest(tree, marks, candidates, r.value)
      ensures r.Some? ==> Usable(tree, marks, activeChain.blocks, r.value)
      ensures r.None? ==> |candidates| < old(|candidates|)
      ensures r.None? ==> exists g: Id :: RightlyCondemned(tree, activeChain.blocks, old(Selected()), Selected(), g)
      ensures r.None? ==>
                forall g: Id :: IsGreatest(tree, old(marks), old(candidates), g)
                                ==> !Usable(tree, old(marks), activeChain.blocks, g)
    {
      ghost var s, c := Selected(), activeChain.blocks;
      var g := Greatest(tree, marks, candidates);
      var bad := FindBad(g);
      UsableIff(tree, marks, c, g);
      if bad.None? {
        return Some(g);
      }
      Reject(g, bad.value);
      r := None;
    }

    /** Condemn the greatest candidate for the first bad block below it. */
    method Reject(g: Id, bad: Id)
      requires Shape() && g in candidates && IsGreatest(tree, marks, candidates, g)
      requires FirstBad(tree, marks, activeChain.blocks, Some(g)) == Some(bad)
      modifies this
      ensures Shape() && tree == old(tree) && counter == old(counter) && |candidates| < old(|candidates|)
      ensures Culled(tree, activeChain.blocks, old(Selected()), Selected())
      ensures RightlyCondemned(tree, activeChain.blocks, old(Selected()), Selected(), g)
    {
      ghost var s, c := Selected(), activeChain.blocks;
      FirstBadDooms(tree, marks, c, g, bad);
      DoomedFacts(tree, marks, c, g, bad);
      CondemnCulls(tree, c, s, g, bad, !Valid(marks[bad]));
      CondemnChain(g, bad, !Valid(marks[bad]));
      CondemnedRightly(tree, c, s, Selected(), g, bad);
      CulledShape(tree, c, s, Selected(), counter);
      SmallerSet(candidates, s.candidates, g);
    }

    /** `findMostWorkBlockIndex`: ends with the greatest usable candidate, or with null when
        there is none. Only unusable candidates are removed, only descendants of failed blocks
        are marked, and nothing changes when the greatest candidate is usable. */
    method FindMostWork() returns (r: Option<Id>)
      requires Shape()
      modifies this
      ensures Shape() && tree == old(tree) && counter == old(counter)
      ensures Culled(tree, activeChain.blocks, old(Selected()), Selected())
      ensures r.None? ==> candidates == {}
      ensures r.Some? ==> IsGreatest(tree, marks, candidates, r.value)
      ensures r.Some? ==> Usable(tree, marks, activeChain.blocks, r.value)
      ensures forall g: Id :: && IsGreatest(tree, old(marks), old(candidates), g)
                              && Usable(tree, old(marks), activeChain.blocks, g)
                              ==> r == Some(g) && Selected() == old(Selected())
    {
      ghost var s, c := Selected(), activeChain.blocks;
      r := None;
      CulledNot(tree, c, s);
      while candidates != {}
        invariant Shape() && tree == old(tree) && counter == old(counter) && activeChain.blocks == c
        invariant r.None? && Culled(tree, c, s, Selected())
        invariant Selected() == s
                  || forall g: Id :: IsGreatest(tree, s.marks, s.candidates, g) ==> !Usable(tree, s.marks, c, g)
        decreases |candidates|
      {
        ghost var s1 := Selected();
        r := TryGreatest();
        if r.Some? {
          GreatestUnique(tree, s.marks, s.candidates);
          return;
        }
        CulledTwice(tree, c, s, s1, Selected());
      }
    }

    // -------------------------------------------------------------- switching chains

    /** Disconnect the tip until the chain ends at `fork`. */
    method DisconnectTo(fork: Option<Id>)
      requires IsTree(tree) && IsPath(tree, activeChain.blocks)
      requires fork.Some? ==> fork.value in tree && Contains(tree, activeChain.blocks, fork.value)
      modifies activeChain
      ensures activeChain.blocks == if fork.Some? then Path(tree, fork.value) else []
    {
      while TipOf(activeChain.blocks).Some? && TipOf(activeChain.blocks) != fork
        invariant IsPath(tree, activeChain.blocks)
        invariant fork.Some? ==> activeChain.blocks != [] && Contains(tree, activeChain.blocks, fork.value)
        decreases |activeChain.blocks|
      {
        var tip := TipOf(activeChain.blocks).value;
        assert NodeOk(tree, tip);
        if fork.Some? {
          ContainsIff(tree, activeChain.blocks, fork.value);
        }
        activeChain.SetTip(tree, tree[tip].prev);
        if fork.Some? {
          ContainsIff(tree, activeChain.blocks, fork.value);
        }
      }
    }

    /** The next blocks to connect, highest first. */
    method CollectBatch(of: Id, lo: int, hi: nat) returns (batch: seq<Id>)
      requires IsTree(tree) && SkipsOk(tree) && of in tree && hi <= tree[of].height
      ensures batch == Downto(tree, Some(Ancestor(tree, of, hi)), lo)
    {
      var iter, _ := GetAncestor(tree, of, hi);
      ghost var all := Downto(tree, iter, lo);
      batch := [];
      while iter.Some? && tree[iter.value].height != lo
        invariant iter.Some? ==> iter.value in tree
        invariant batch + Downto(tree, iter, lo) == all
        decreases Level(tree, iter)
      {
        assert NodeOk(tree, iter.value);
        ghost var rest := Downto(tree, tree[iter.value].prev, lo);
        assert batch + ([iter.value] + rest) == (batch + [iter.value]) + rest;
        batch := batch + [iter.value];
        iter := tree[iter.value].prev;
      }
    }

    /** Whether the tip is better than where the step began. */
    predicate Better(was: Option<Id>)
      requires was.Some? ==> was.value in tree
      requires TipOf(activeChain.blocks).Some? && TipOf(activeChain.blocks).value in tree
      reads this, activeChain
    {
      was.None? || tree[TipOf(activeChain.blocks).value].work > tree[was.value].work
    }

    /** The tip is on the path to `of`, and the candidates were pruned from `base` for it. */
    ghost predicate Connected(base: set<Id>, of: Id)
      reads this, activeChain
    {
      && Shape() && base <= tree.Keys && of in tree
      && activeChain.blocks != [] && IsAncestor(tree, TipOf(activeChain.blocks).value, of)
      && Pruned(tree, marks, base, candidates, of, TipOf(activeChain.blocks).value)
    }

    /** `connectTip` and `pruneBlockIndexCandidates`. The assertion is the source's own. */
    method ConnectTip(id: Id, ghost of: Id, ghost base: set<Id>)
      requires Shape() && Increasing(tree) && of in candidates && id in tree && IsAncestor(tree, id, of)
      requires candidates == base || Connected(base, of)
      modifies this`candidates, activeChain
      ensures Connected(base, of) && TipOf(activeChain.blocks) == Some(id)
    {
      ghost var before := candidates;
      activeChain.SetTip(tree, Some(id));
      PathIsPath(tree, id);
      MoreWorkAbove(tree, id, of);
      candidates := Prune(tree, marks, candidates, id);
      assert of in candidates;
      PruneBelow(tree, marks, before, candidates, id, of);
      PrunedAgain(tree, marks, base, before, candidates, of, id);
    }

    /** Connect one batch, pruning after every block, until the tip is better than before. */
    method ConnectBatch(batch: seq<Id>, ghost of: Id, lo: int, ghost hi: nat, was: Option<Id>,
                        ghost base: set<Id>) returns (stop: bool)
      requires Shape() && Increasing(tree) && of in candidates && -1 <= lo < hi <= tree[of].height
      requires batch == Downto(tree, Some(Ancestor(tree, of, hi)), lo) && (was.Some? ==> was.value in tree)
      requires candidates == base || Connected(base, of)
      modifies this`candidates, activeChain
      ensures Connected(base, of)
      ensures stop ==> Better(was)
      ensures !stop ==> was.Some? && tree[Ancestor(tree, of, hi)].work <= tree[was.value].work
    {
      ghost var top := Ancestor(tree, of, hi);
      ghost var next := Some(top);
      AncestorTwice(tree, of, hi, hi);
      var i := 0;
      stop := false;
      while i < |batch|
        invariant 0 <= i <= |batch| && Shape() && of in candidates && (candidates == base || Connected(base, of))
        invariant next.Some? ==> next.value in tree && IsAncestor(tree, next.value, of)
        invariant batch[i..] == Downto(tree, next, lo)
        invariant i == 0 ==> next == Some(top)
        invariant i > 0 ==> Connected(base, of) && was.Some? && tree[top].work <= tree[was.value].work
      {
        var id := batch[i];
        NextOfBatch(tree, batch, i, next, lo);
        ParentIsStillAncestor(tree, id, of);
        next := tree[id].prev;
        ConnectTip(id, of, base);
        if Better(was) {
          return true;
        }
        i := i + 1;
      }
    }

    /** `activateBestChainStep`: move the chain towards `mw`, in batches of 32, until it is better
        than it was. The new tip is on `mw`'s path; when the old one was too, it is passed. */
    method ActivateBestChainStep(mw: Id)
      requires Shape() && Increasing(tree) && mw in candidates && !Contains(tree, activeChain.blocks, mw)
      modifies this`candidates, activeChain
      ensures Connected(old(candidates), mw)
      ensures var was := TipOf(old(activeChain.blocks));
              was.Some? && IsAncestor(tree, was.value, mw) ==> Better(was)
    {
      ghost var base := candidates;
      var was := TipOf(activeChain.blocks);
      var fork := activeChain.FindFork(tree, mw);
      ForkFacts(tree, activeChain.blocks, mw);
      DisconnectTo(fork);
      var go, height := true, if fork.Some? then tree[fork.value].height else -1;
      ghost var start := height;
      while go && height != tree[mw].height
        invariant start <= height <= tree[mw].height && Shape() && mw in candidates
        invariant if height == start then go && candidates == base else Connected(base, mw)
        invariant !go ==> Better(was)
        invariant go && height > start ==> was.Some? && tree[Ancestor(tree, mw, height)].work <= tree[was.value].work
        decreases tree[mw].height - height, go
      {
        var target := if height + 32 <= tree[mw].height then height + 32 else tree[mw].height;
        var batch := CollectBatch(mw, height, target);
        var stop := ConnectBatch(batch, mw, height, target, was, base);
        height := target;
        go := !stop;
      }
      if was.Some? && IsAncestor(tree, was.value, mw) {
        MoreWorkAbove(tree, was.value, mw);
      }
    }

    /** `activateBestChain`: for any depth of reorganisation, ends with the chain being exactly
        the path to the greatest usable candidate; without one nothing moves. */
    method ActivateBestChain()
      requires Shape() && Increasing(tree) && ChainOk(tree, marks, activeChain.blocks)
      requires activeChain.blocks != [] ==> TipOf(activeChain.blocks).value in candidates
      modifies this, activeChain
      ensures Shape() && tree == old(tree) && counter == old(counter) && candidates <= old(candidates)
      ensures ChainOk(tree, marks, activeChain.blocks)
      ensures forall x :: x in tree ==> MarkKept(tree, old(activeChain.blocks), old(marks), marks, x)
      ensures var c, m := old(activeChain.blocks), old(marks);
              if exists x :: x in old(candidates) && Usable(tree, m, c, x)
              then TipOf(activeChain.blocks).Some? && TipOf(activeChain.blocks).value in candidates
                   && BestUsable(tree, m, c, old(candidates), TipOf(activeChain.blocks).value)
              else activeChain.blocks == c
      ensures forall g: Id :: && IsGreatest(tree, old(marks), old(candidates), g)
                              && Usable(tree, old(marks), old(activeChain.blocks), g)
                              ==> marks == old(marks) && unlinked == old(unlinked)
      ensures NoneWorse(tree, old(marks), old(candidates), old(activeChain.blocks)) && TipOf(activeChain.blocks).Some?
              ==> candidates == {TipOf(activeChain.blocks).value}
    {
      ghost var c, s := activeChain.blocks, Selected();
      var mw := FindMostWork();
      MostWorkFacts(tree, c, s, Selected(), mw);
      if mw.None? || mw == TipOf(activeChain.blocks) {
        if mw.Some? {
          TipAlone(tree, c, s, Selected());
        }
        return;
      }
      SwitchTo(mw.value);
    }

    /** The loop of `activateBestChain` once a better chain was found: step, then look again.
        The search finds the same block every time. */
    method SwitchTo(mw: Id)
      requires Shape() && Increasing(tree) && IsGreatest(tree, marks, candidates, mw) && AllOk(tree, marks, mw)
      requires !Contains(tree, activeChain.blocks, mw)
      modifies this, activeChain
      ensures Shape() && tree == old(tree) && counter == old(counter) && marks == old(marks)
      ensures unlinked == old(unlinked)
      ensures TipOf(activeChain.blocks) == Some(mw) && candidates == {mw}
    {
      ghost var base := candidates;
      var found := mw;
      while Some(found) != TipOf(activeChain.blocks)
        invariant Shape() && tree == old(tree) && counter == old(counter) && marks == old(marks)
        invariant unlinked == old(unlinked)
        invariant found == mw && mw in candidates && candidates <= base
        invariant Some(mw) != TipOf(activeChain.blocks) ==> !Contains(tree, activeChain.blocks, mw)
        invariant Some(mw) == TipOf(activeChain.blocks) ==> forall x :: x in candidates ==> !Less(tree, marks, x, mw)
        decreases Distance(mw).0, Distance(mw).1
      {
        ActivateBestChainStep(found);
        ghost var tip := TipOf(activeChain.blocks).value;
        AncestorsOk(tree, marks, tip, mw);
        MoreWorkAbove(tree, tip, mw);
        if Some(found) != TipOf(activeChain.blocks) {
          StillGreatest(tree, marks, base, candidates, mw);
          UsableIsAllOk(tree, marks, activeChain.blocks, mw);
          var again := FindMostWork();
          found := again.value;
        }
      }
      OnlyGreatest(tree, marks, base, candidates, mw);
    }

    /** How far the chain is from ending at `mw`: whether it has to turn around, and the work
        still missing. */
    ghost function Distance(mw: Id): (nat, nat)
      requires Shape() && mw in tree
      reads this, activeChain
    {
      var tip := TipOf(activeChain.blocks);
      (if tip.Some? && IsAncestor(tree, tip.value, mw) then 0 else 1,
       if tip.Some? && tree[tip.value].work <= tree[mw].work then tree[mw].work - tree[tip.value].work else 0)
    }

    // -------------------------------------------------------------- receiving blocks

    ghost function Now(): Links
      reads this
    {
      Links(marks, candidates, unlinked, counter)
    }

    /** Move the children waiting for `parent` out of the unlinked map. */
    method TakeChildren(parent: Id) returns (children: seq<Id>)
      modifies this`unlinked
      ensures children == Children(old(unlinked), parent) && unlinked == Others(old(unlinked), parent)
    {
      var all := unlinked;
      children, unlinked := [], [];
      var i := |all|;
      while i > 0
        invariant 0 <= i <= |all| && children == Children(all[i..], parent) && unlinked == Others(all[i..], parent)
      {
        i := i - 1;
        assert all[i..][1..] == all[i + 1..];
        if all[i].0 == parent {
          children := [all[i].1] + children;
        } else {
          unlinked := [all[i]] + unlinked;
        }
      }
    }

    method NumberBlock(cur: Id)
      requires IsTree(tree) && marks.Keys == tree.Keys && cur in tree
      modifies this`marks, this`counter
      ensures marks == Numbered(tree, old(marks), old(counter), cur) && counter == old(counter) + 1
    {
      assert NodeOk(tree, cur);
      var before := if tree[cur].prev.Some? then marks[tree[cur].prev.value].chainTxs else 0;
      marks := marks[cur := marks[cur].(chainTxs := before + marks[cur].txs, seqId := counter)];
      counter := counter + 1;
    }

    /** One round of the work list. */
    method LinkBlock(cur: Id, tip: Option<Id>) returns (children: seq<Id>)
      requires IsTree(tree) && marks.Keys == tree.Keys && cur in tree && (tip.Some? ==> tip.value in tree)
      modifies this`marks, this`counter, this`candidates, this`unlinked
      ensures Now() == LinkOne(tree, tip, old(Now()), cur)
      ensures children == Children(old(unlinked), cur)
    {
      NumberBlock(cur);
      if tip.None? || !Less(tree, marks, cur, tip.value) {
        candidates := candidates + {cur};
      }
      children := TakeChildren(cur);
    }

    /** The work list of `receiveBlock`. */
    method LinkFrom(id: Id)
      requires IsTree(tree) && IsPath(tree, activeChain.blocks) && marks.Keys == tree.Keys && id in tree
      requires forall p :: p in unlinked ==> p.1 in tree
      modifies this
      ensures tree == old(tree)
      ensures Now() == LinkAll(tree, TipOf(activeChain.blocks), old(Now()), [id])
    {
      var queue := [id];
      var tip := TipOf(activeChain.blocks);
      ghost var result := LinkAll(tree, tip, Now(), queue);
      while queue != []
        invariant tree == old(tree) && marks.Keys == tree.Keys
        invariant (forall x :: x in queue ==> x in tree) && (forall p :: p in unlinked ==> p.1 in tree)
        invariant LinkAll(tree, tip, Now(), queue) == result
        decreases |queue| + |unlinked|
      {
        LinkedQueueKnown(tree, Now(), queue);
        var children := LinkBlock(queue[0], tip);
        queue := queue[1..] + children;
      }
    }

    /** `receiveBlock`: note the transactions; when the parent is linked, link the block and all
        that waited for it, otherwise let it wait if its parent is known to be in the tree. */
    method ReceiveBlock(id: Id, txs: nat)
      requires IsTree(tree) && IsPath(tree, activeChain.blocks) && marks.Keys == tree.Keys && id in tree
      requires forall p :: p in unlinked ==> p.1 in tree
      modifies this
      ensures tree == old(tree)
      ensures Now() == AfterReceive(tree, TipOf(activeChain.blocks), old(Now()), id, txs)
    {
      ghost var received := Received(Now(), id, txs);
      assert NodeOk(tree, id);
      marks := marks[id := marks[id].(txs := txs, chainTxs := 0, haveData := true)];
      assert Now() == received;
      var prev := tree[id].prev;
      if prev.None? || marks[prev.value].chainTxs != 0 {
        LinkFrom(id);
      } else if Valid(marks[prev.value]) && marks[prev.value].level >= 2 {
        unlinked := unlinked + [(prev.value, id)];
      }
    }

    // -------------------------------------------------------------- accepting blocks

    /** What the chain rule sees of the manager. */
    ghost function Books(): Ledger
      reads this, activeChain
    {
      Ledger(tree, marks, counter, TipOf(activeChain.blocks))
    }

    /** Between calls: the active chain is exactly the path to the tip, the tip is the only
        candidate, and nothing waits to be linked. */
    ghost predicate Idle()
      reads this, activeChain
    {
      && IsTree(tree) && IsPath(tree, activeChain.blocks) && unlinked == []
      && candidates == Only(TipOf(activeChain.blocks))
    }

    /** ... and the tip has the most work of all linked blocks. */
    ghost predicate Inv()
      reads this, activeChain
    {
      Idle() && Steady(Books(), genesis)
    }

    /** Activation when all linked blocks are ok. */
    method Activate()
      requires Shape() && Increasing(tree) && Fine(tree, marks) && candidates != {}
      requires activeChain.blocks != [] ==> TipOf(activeChain.blocks).value in candidates
      requires NoneWorse(tree, marks, candidates, activeChain.blocks)
      modifies this, activeChain
      ensures tree == old(tree) && marks == old(marks) && unlinked == old(unlinked) && counter == old(counter)
      ensures IsPath(tree, activeChain.blocks) && activeChain.blocks != []
      ensures candidates == Only(TipOf(activeChain.blocks))
      ensures IsGreatest(tree, marks, old(candidates), TipOf(activeChain.blocks).value)
    {
      ghost var c, m, s := activeChain.blocks, marks, candidates;
      if c != [] {
        LinkedAllOk(tree, marks, counter, TipOf(c).value);
      }
      forall x | x in candidates ensures Usable(tree, marks, c, x) {
        LinkedAllOk(tree, marks, counter, x);
        UsableIsAllOk(tree, marks, c, x);
      }
      ActivateBestChain();
      assert IsGreatest(tree, m, s, TipOf(activeChain.blocks).value);
    }

    /** `receiveBlock` in an idle manager. */
    method ReceiveIdle(id: Id, txs: nat)
      requires Idle() && Named(Books()) && Fine(tree, marks) && id in tree
      modifies this
      ensures tree == old(tree) && unlinked == [] && candidates == CandidatesFor(old(Books()), id, txs)
      ensures marks == Stored(old(Books()), id, txs).marks && counter == Stored(old(Books()), id, txs).counter
    {
      QuietReceive(tree, TipOf(activeChain.blocks), Now(), id, txs);
      ReceiveBlock(id, txs);
    }

    /** Receiving leaves an idle manager ready to activate the best chain. */
    method ReceiveReady(id: Id, txs: nat)
      requires Idle() && Ground(Books(), genesis) && TipOk(Books())
      requires id in tree && Valid(marks[id]) && txs > 0 && (Linked(marks[id]) ==> marks[id].txs == txs)
      requires activeChain.blocks == [] ==> ParentLinked(tree, marks, id)
      modifies this
      ensures tree == old(tree) && unlinked == [] && candidates == CandidatesFor(old(Books()), id, txs)
      ensures marks == Stored(old(Books()), id, txs).marks && counter == Stored(old(Books()), id, txs).counter
      ensures Shape() && Increasing(tree) && Fine(tree, marks) && StoredTo(old(Books()), id, txs)
    {
      ghost var l := Books();
      StoredGround(l, id, txs, genesis);
      OfferedLinked(l, id, txs);
      StoredCandidates(l, id, txs);
      ReceiveIdle(id, txs);
    }

    /** The end of `acceptBlock`, `receiveBlock` and `activateBestChain`, does what the chain rule
        says. */
    method Store(id: Id, txs: nat)
      requires Idle() && Ground(Books(), genesis) && TipOk(Books())
      requires id in tree && Valid(marks[id]) && txs > 0 && (Linked(marks[id]) ==> marks[id].txs == txs)
      requires activeChain.blocks == [] ==> ParentLinked(tree, marks, id)
      modifies this, activeChain
      ensures Idle() && Books() == Stored(old(Books()), id, txs)
    {
      ghost var l := Books();
      ReceiveReady(id, txs);
      ActivateStored(l, id, txs);
    }

    /** Activation after a block was stored. */
    method ActivateStored(ghost l: Ledger, ghost id: Id, ghost txs: nat)
      requires Shape() && Increasing(tree) && Fine(tree, marks) && unlinked == []
      requires Named(l) && id in l.tree && l.tip == TipOf(activeChain.blocks) && tree == l.tree
      requires marks == Stored(l, id, txs).marks && counter == Stored(l, id, txs).counter
      requires candidates == CandidatesFor(l, id, txs) && StoredTo(l, id, txs)
      modifies this, activeChain
      ensures Idle() && Books() == Stored(l, id, txs)
    {
      Activate();
      GreatestUnique(tree, marks, CandidatesFor(l, id, txs));
    }

    method BlockWork(bits: U32) returns (work: nat)
      ensures work == Difficulty.Work(bits)
    {
      var limbs := Difficulty.ChainWork(bits);
      work := Limbs.Value(limbs[..]);
    }

    /** `addToBlockIndex`: the new index has its parent's work plus its own. */
    method AddToBlockIndex(b: Block)
      requires Idle() && SkipsOk(tree) && b.hash !in tree
      modifies this
      ensures IsTree(tree) && SkipsOk(tree) && candidates == old(candidates) && unlinked == old(unlinked)
      ensures Books() == Indexed(old(Books()), b)
      ensures tree[b.hash].work
              == Difficulty.Work(b.bits) + if b.prevHash in old(tree) then old(tree)[b.prevHash].work else 0
    {
      var work := BlockWork(b.bits);
      var prev := if b.prevHash in tree then Some(b.prevHash) else None;
      tree := AddNode(tree, b.hash, prev, work);
      marks := marks[b.hash := FRESH];
    }

    /** `acceptBlock` does what the chain rule says, for every block, known or not: the checks, the
        index, the work list and the reorganisation amount to linking the block if its parent is
        linked and moving to it if it has more work. */
    method AcceptBlock(b: Block) returns (accepted: bool)
      requires Inv() && Plausible(Books(), b, genesis)
      modifies this, activeChain
      ensures Inv() && Books() == Accept(old(Books()), b, genesis)
      ensures accepted == old(Acceptable(Books(), b, genesis))
      ensures accepted ==> b.hash in marks && (Linked(marks[b.hash]) <==> old(ReadyToLink(Books(), b, genesis)))
    {
      AcceptSteady(Books(), b, genesis);
      AcceptIndexes(Books(), b, genesis);
      if Acceptable(Books(), b, genesis) {
        AcceptedLinks(Books(), b, genesis);
      }
      var ok := CheckHeader(b);
      if !ok {
        return false;
      }
      accepted := Admit(b);
    }

    /** The checks before the block is indexed. */
    method CheckHeader(b: Block) returns (ok: bool)
      requires marks.Keys == tree.Keys
      ensures ok == Indexable(Books(), b, genesis)
    {
      if b.hash in tree && !Valid(marks[b.hash]) {
        return false;
      }
      if !b.headerOk {
        return false;
      }
      if b.hash != genesis {
        if b.prevHash !in tree {
          return false;
        }
        if !Valid(marks[b.prevHash]) {
          return false;
        }
      }
      ok := true;
    }

    /** `acceptBlock` once the header checks passed: index the block if it is new, check its body,
        store it. */
    method Admit(b: Block) returns (accepted: bool)
      requires Inv() && Plausible(Books(), b, genesis) && Indexable(Books(), b, genesis)
      modifies this, activeChain
      ensures Idle() && Books() == Accept(old(Books()), b, genesis)
      ensures accepted == Passes(b, genesis)
    {
      ghost var l := Books();
      IndexedGround(l, b, genesis);
      IndexedParent(l, b, genesis);
      if b.hash !in tree {
        IndexedExtends(l, b);
        PathKept(tree, Indexed(l, b).tree, activeChain.blocks);
        AddToBlockIndex(b);
      }
      if b.hash != genesis && !b.bodyOk {
        return false;
      }
      Store(b.hash, b.txs);
      accepted := true;
    }

    /** Any sequence of arrivals, in any order and with repetitions, leads where the chain rule
        leads, with nothing left waiting. */
    method AcceptAll(arrivals: seq<Block>)
      requires Inv() && Books() == EMPTY && Arrivals(arrivals, genesis)
      modifies this, activeChain
      ensures Inv() && Books() == AcceptRun(arrivals, genesis) && unlinked == []
    {
      var i := 0;
      assert arrivals[..0] == [];
      while i < |arrivals|
        invariant 0 <= i <= |arrivals| && Idle() && Arrivals(arrivals[..i], genesis)
        invariant Books() == AcceptRun(arrivals[..i], genesis)
      {
        RunNext(arrivals, i, genesis);
        var _ := AcceptBlock(arrivals[i]);
        i := i + 1;
      }
      assert arrivals[..i] == arrivals;
    }
  }

  function Only(tip: Option<Id>): set<Id> {
    if tip.Some? then {tip.value} else {}
  }

  lemma AcceptedLinks(l: Ledger, b: Block, genesis: Id)
    requires Steady(l, genesis) && Plausible(l, b, genesis) && Acceptable(l, b, genesis)
    ensures var r := Accept(l, b, genesis);
            b.hash in r.marks && (Linked(r.marks[b.hash]) <==> ReadyToLink(l, b, genesis))
  {
    AcceptIndexes(l, b, genesis);
    AcceptLinks(l, b, genesis, b.hash);
    if b.hash in l.tree && Linked(l.marks[b.hash]) {
      assert CountOk(l.tree, l.marks, l.counter, b.hash) && NodeOk(l.tree, b.hash);
    }
  }

  /** No candidate other than the tip is worse than it. */
  ghost predicate NoneWorse(t: Tree, m: Marks, s: set<Id>, c: seq<Option<Id>>)
    requires Known(t, m, s)
  {
    TipOf(c).Some? && TipOf(c).value in t && TipOf(c).value in m
    ==> forall x :: x in s && x != TipOf(c).value ==> !Less(t, m, x, TipOf(c).value)
  }

  lemma OnlyGreatest(t: Tree, m: Marks, s: set<Id>, r: set<Id>, g: Id)
    requires Known(t, m, s) && r <= s && IsGreatest(t, m, s, g) && g in r
    requires forall x :: x in r ==> !Less(t, m, x, g)
    ensures r == {g}
  {
  }

  /** A tip that is the greatest candidate, none being worse, is the only one. */
  lemma TipAlone(t: Tree, c: seq<Option<Id>>, s: Selection, r: Selection)
    requires IsTree(t) && s.marks.Keys == t.Keys && s.candidates <= t.Keys && Culled(t, c, s, r)
    requires TipOf(c).Some? && TipOf(c).value in t && IsGreatest(t, r.marks, r.candidates, TipOf(c).value)
    ensures NoneWorse(t, s.marks, s.candidates, c) ==> r.candidates == {TipOf(c).value}
  {
    var tip := TipOf(c).value;
    assert MarkKept(t, c, s.marks, r.marks, tip);
    if NoneWorse(t, s.marks, s.candidates, c) {
      forall x | x in r.candidates ensures x == tip {
        assert MarkKept(t, c, s.marks, r.marks, x);
      }
    }
  }

  /** With nothing waiting and no validity bits set, receiving a block links at most that block,
      and leaves nothing waiting. */
  lemma QuietReceive(t: Tree, tip: Option<Id>, s: Links, id: Id, txs: nat)
    requires IsTree(t) && s.marks.Keys == t.Keys && id in t && (tip.Some? ==> tip.value in t)
    requires s.unlinked == [] && Fine(t, s.marks)
    ensures var r := AfterReceive(t, tip, s, id, txs);
            && r.unlinked == []
            && (ParentLinked(t, s.marks, id) ==> r == LinkOne(t, tip, Received(s, id, txs), id))
            && (!ParentLinked(t, s.marks, id) ==> r == Received(s, id, txs))
  {
    assert NodeOk(t, id);
    if ParentLinked(t, s.marks, id) {
      LinkJustOne(t, tip, Received(s, id, txs), id);
    }
  }

  lemma LinkJustOne(t: Tree, tip: Option<Id>, s: Links, id: Id)
    requires IsTree(t) && s.marks.Keys == t.Keys && id in t && (tip.Some? ==> tip.value in t) && s.unlinked == []
    ensures LinkAll(t, tip, s, [id]) == LinkOne(t, tip, s, id)
  {
    var q := [id];
    assert q[1..] + Children(s.unlinked, q[0]) == [];
    assert LinkAll(t, tip, s, q) == LinkAll(t, tip, LinkOne(t, tip, s, id), []);
  }

  /** The candidates after a block was received by an idle manager. */
  ghost function CandidatesFor(l: Ledger, id: Id, txs: nat): set<Id>
    requires Named(l) && id in l.tree
  {
    if ParentLinked(l.tree, l.marks, id)
       && (l.tip.None? || !Less(l.tree, StoredMarks(l.tree, l.marks, l.counter, id, txs), id, l.tip.value))
    then Only(l.tip) + {id} else Only(l.tip)
  }

  /** A block numbered last beats the tip only with more work. */
  lemma RaceWithTip(t: Tree, m: Marks, counter: nat, id: Id, txs: nat, tip: Id)
    requires IsTree(t) && m.Keys == t.Keys && CountsOk(t, m, counter) && id in t && tip in t && Linked(m[tip])
    ensures var n := StoredMarks(t, m, counter, id, txs);
            && (Less(t, n, id, tip) <==> id != tip && t[id].work <= t[tip].work)
            && (t[tip].work < t[id].work ==> Less(t, n, tip, id))
  {
    StoredMark(t, m, counter, id, txs);
    assert CountOk(t, m, counter, tip);
  }

  /** The greatest candidate is the tip the chain rule demands, and none is worse than the old one. */
  ghost predicate StoredTo(l: Ledger, id: Id, txs: nat)
    requires Named(l) && id in l.tree
  {
    var r := Stored(l, id, txs); var s := CandidatesFor(l, id, txs);
    && r.marks.Keys == l.tree.Keys && r.tip.Some? && Known(l.tree, r.marks, s)
    && IsGreatest(l.tree, r.marks, s, r.tip.value)
    && (l.tip.Some? ==>
          l.tip.value in s && forall x :: x in s && x != l.tip.value ==> !Less(l.tree, r.marks, x, l.tip.value))
  }

  /** So it is after receiving any block. */
  lemma StoredCandidates(l: Ledger, id: Id, txs: nat)
    requires Named(l) && TipOk(l) && CountsOk(l.tree, l.marks, l.counter) && id in l.tree
    requires l.tip.None? ==> ParentLinked(l.tree, l.marks, id)
    ensures StoredTo(l, id, txs)
  {
    if ParentLinked(l.tree, l.marks, id) {
      StoredMark(l.tree, l.marks, l.counter, id, txs);
      if l.tip.Some? {
        RaceWithTip(l.tree, l.marks, l.counter, id, txs, l.tip.value);
        GreatestOfTwo(l.tree, StoredMarks(l.tree, l.marks, l.counter, id, txs), id, l.tip.value,
                      CandidatesFor(l, id, txs));
      }
    }
  }

  lemma GreatestOfTwo(t: Tree, n: Marks, id: Id, tip: Id, s: set<Id>)
    requires n.Keys == t.Keys && id in t && tip in t && s == if Less(t, n, id, tip) then {tip} else {tip, id}
    requires Less(t, n, id, tip) <==> id != tip && t[id].work <= t[tip].work
    requires t[tip].work < t[id].work ==> Less(t, n, tip, id)
    ensures Known(t, n, s) && IsGreatest(t, n, s, if t[tip].work < t[id].work then id else tip)
    ensures forall x :: x in s && x != tip ==> !Less(t, n, x, tip)
  {
  }

  lemma OfferedLinked(l: Ledger, id: Id, txs: nat)
    requires Named(l) && TipOk(l) && id in l.tree && txs > 0 && CountsOk(l.tree, l.marks, l.counter)
    ensures var r := Stored(l, id, txs);
            && r.marks.Keys == l.tree.Keys && CandidatesFor(l, id, txs) <= l.tree.Keys
            && forall x :: x in CandidatesFor(l, id, txs) ==> Linked(r.marks[x])
  {
    if ParentLinked(l.tree, l.marks, id) {
      StoredMark(l.tree, l.marks, l.counter, id, txs);
    } else {
      NotedCounts(l.tree, l.marks, l.counter, id, txs);
    }
  }

  lemma PathKept(t: Tree, u: Tree, c: seq<Option<Id>>)
    requires IsTree(t) && IsTree(u) && IsPath(t, c) && forall x :: x in t ==> x in u && u[x] == t[x]
    ensures IsPath(u, c)
  {
    if c != [] {
      PathStable(t, u, TipOf(c).value);
    }
  }

  /** The candidates left after pruning against ancestors of `of`, last against `tip`. */
  ghost predicate Pruned(t: Tree, m: Marks, was: set<Id>, now: set<Id>, of: Id, tip: Id)
    requires m.Keys == t.Keys && was <= t.Keys && of in t && tip in t
  {
    && now <= was && of in now
    && (forall x :: x in was && x !in now ==> Less(t, m, x, of))
    && (forall x :: x in now ==> !Less(t, m, x, tip))
  }

  lemma PruneBelow(t: Tree, m: Marks, was: set<Id>, now: set<Id>, tip: Id, of: Id)
    requires m.Keys == t.Keys && was <= t.Keys && of in was && tip in t
    requires forall x :: x in now <==> x in was && !Less(t, m, x, tip)
    requires tip == of || t[tip].work < t[of].work
    ensures Pruned(t, m, was, now, of, tip)
  {
  }

  lemma PrunedAgain(t: Tree, m: Marks, was: set<Id>, mid: set<Id>, now: set<Id>, of: Id, tip: Id)
    requires m.Keys == t.Keys && was <= t.Keys && of in t && tip in t
    requires mid <= was && (forall x :: x in was && x !in mid ==> Less(t, m, x, of)) && Pruned(t, m, mid, now, of, tip)
    ensures Pruned(t, m, was, now, of, tip)
  {
  }

  lemma NextOfBatch(t: Tree, batch: seq<Id>, i: nat, next: Option<Id>, lo: int)
    requires IsTree(t) && i < |batch| && (next.Some? ==> next.value in t) && batch[i..] == Downto(t, next, lo)
    ensures next == Some(batch[i]) && (t[batch[i]].prev.Some? ==> t[batch[i]].prev.value in t)
    ensures batch[i + 1..] == Downto(t, t[batch[i]].prev, lo)
  {
    assert batch[i..] != [];
    assert NodeOk(t, next.value);
    assert batch[i] == batch[i..][0];
    assert batch[i + 1..] == batch[i..][1..];
  }

  lemma ParentIsStillAncestor(t: Tree, id: Id, of: Id)
    requires IsTree(t) && id in t && of in t && IsAncestor(t, id, of)
    ensures t[id].prev.Some? ==> t[id].prev.value in t && IsAncestor(t, t[id].prev.value, of)
  {
    assert NodeOk(t, id);
    if t[id].prev.Some? {
      AncestorTwice(t, of, t[id].height, t[id].height - 1);
    }
  }

  /** A block off the chain forks below itself, and at the tip if it descends from the tip. */
  lemma ForkFacts(t: Tree, c: seq<Option<Id>>, mw: Id)
    requires IsTree(t) && IsPath(t, c) && mw in t && !Contains(t, c, mw)
    ensures var f := Fork(t, c, Some(mw));
            && (f.Some? ==> IsAncestor(t, f.value, mw) && Contains(t, c, f.value) && t[f.value].height < t[mw].height)
            && (c != [] && IsAncestor(t, TipOf(c).value, mw) ==> f == TipOf(c))
  {
    var f := Fork(t, c, Some(mw));
    ForkIsHighest(t, c, mw, mw);
    if c != [] {
      var tip := TipOf(c).value;
      ForkIsHighest(t, c, mw, tip);
      ContainsIff(t, c, tip);
      if f.Some? {
        ContainsIff(t, c, f.value);
      }
    }
  }

  /** `b` is the greatest usable candidate. */
  ghost predicate BestUsable(t: Tree, m: Marks, c: seq<Option<Id>>, s: set<Id>, b: Id)
    requires IsTree(t) && m.Keys == t.Keys && s <= t.Keys
  {
    b in s && Usable(t, m, c, b) && forall x :: x in s && Usable(t, m, c, x) && x != b ==> Less(t, m, x, b)
  }

  lemma StillGreatest(t: Tree, m: Marks, s: set<Id>, r: set<Id>, g: Id)
    requires Known(t, m, s) && r <= s && IsGreatest(t, m, s, g) && g in r
    ensures IsGreatest(t, m, r, g)
  {
  }

  /** What the first most-work search settles. */
  lemma MostWorkFacts(t: Tree, c: seq<Option<Id>>, s: Selection, r: Selection, mw: Option<Id>)
    requires IsTree(t) && s.marks.Keys == t.Keys && s.candidates <= t.Keys && IsPath(t, c) && Increasing(t)
    requires Culled(t, c, s, r) && ChainOk(t, s.marks, c) && (c != [] ==> TipOf(c).value in s.candidates)
    requires mw.None? ==> r.candidates == {}
    requires mw.Some? ==> IsGreatest(t, r.marks, r.candidates, mw.value) && Usable(t, r.marks, c, mw.value)
    ensures ChainOk(t, r.marks, c)
    ensures mw.Some? ==> AllOk(t, r.marks, mw.value) && BestUsable(t, s.marks, c, s.candidates, mw.value)
    ensures mw.Some? && mw != TipOf(c) ==> !Contains(t, c, mw.value)
    ensures mw.None? ==> c == [] && forall x :: x in s.candidates ==> !Usable(t, s.marks, c, x)
  {
    if c != [] {
      AllOkKept(t, c, s.marks, r.marks, TipOf(c).value);
      TipStays(t, c, s, r);
    }
    if mw.Some? {
      UsableKept(t, c, s.marks, r.marks, mw.value);
      UsableIsAllOk(t, s.marks, c, mw.value);
      AllOkKept(t, c, s.marks, r.marks, mw.value);
      GreatestIsBest(t, c, s, r, mw.value);
      if c != [] && mw != TipOf(c) {
        GreaterIsOff(t, r.marks, c, mw.value);
      }
    }
  }

  lemma {:induction false} AllOkKept(t: Tree, c: seq<Option<Id>>, m: Marks, n: Marks, x: Id)
    requires IsTree(t) && m.Keys == t.Keys == n.Keys && IsPath(t, c) && ChainOk(t, m, c) && x in t && AllOk(t, m, x)
    requires forall y :: y in t ==> MarkKept(t, c, m, n, y)
    ensures AllOk(t, n, x)
    decreases t[x].height
  {
    UsableIsAllOk(t, m, c, x);
    assert NodeOk(t, x) && MarkKept(t, c, m, n, x);
    if t[x].prev.Some? {
      AllOkKept(t, c, m, n, t[x].prev.value);
    }
  }

  lemma TipStays(t: Tree, c: seq<Option<Id>>, s: Selection, r: Selection)
    requires IsTree(t) && s.marks.Keys == t.Keys && s.candidates <= t.Keys && IsPath(t, c) && c != []
    requires Culled(t, c, s, r) && TipOf(c).value in s.candidates
    ensures TipOf(c).value in r.candidates
  {
    ContainsIff(t, c, TipOf(c).value);
  }

  lemma GreatestIsBest(t: Tree, c: seq<Option<Id>>, s: Selection, r: Selection, g: Id)
    requires IsTree(t) && s.marks.Keys == t.Keys && s.candidates <= t.Keys && Culled(t, c, s, r)
    requires IsGreatest(t, r.marks, r.candidates, g) && Usable(t, s.marks, c, g)
    ensures BestUsable(t, s.marks, c, s.candidates, g)
  {
    assert MarkKept(t, c, s.marks, r.marks, g);
    forall x | x in s.candidates && Usable(t, s.marks, c, x) && x != g ensures Less(t, s.marks, x, g) {
      assert MarkKept(t, c, s.marks, r.marks, x);
    }
  }

  /** A block greater than the tip is not on the chain. */
  lemma GreaterIsOff(t: Tree, m: Marks, c: seq<Option<Id>>, x: Id)
    requires IsTree(t) && m.Keys == t.Keys && IsPath(t, c) && c != [] && Increasing(t) && x in t && Some(x) != TipOf(c)
    requires Less(t, m, TipOf(c).value, x)
    ensures !Contains(t, c, x)
  {
    ContainsIff(t, c, x);
    if Contains(t, c, x) {
      MoreWorkAbove(t, x, TipOf(c).value);
    }
  }

  lemma CulledNot(t: Tree, c: seq<Option<Id>>, s: Selection)
    requires IsTree(t) && s.marks.Keys == t.Keys && s.candidates <= t.Keys
    ensures Culled(t, c, s, s)
  {
    forall x | x in t ensures MarkKept(t, c, s.marks, s.marks, x) {
    }
  }

  lemma GreatestUnique(t: Tree, m: Marks, s: set<Id>)
    requires Known(t, m, s)
    ensures forall g, h :: IsGreatest(t, m, s, g) && IsGreatest(t, m, s, h) ==> g == h
  {
  }

  lemma SmallerSet(a: set<Id>, b: set<Id>, g: Id)
    requires a <= b && g in b && g !in a
    ensures |a| < |b|
  {
    assert a <= b - {g};
    Cardinality(a, b - {g});
  }

  lemma {:induction false} Cardinality(a: set<Id>, b: set<Id>)
    requires a <= b
    ensures |a| <= |b|
    decreases |a|
  {
    if a != {} {
      var x :| x in a;
      Cardinality(a - {x}, b - {x});
    }
  }

  lemma CulledShape(t: Tree, c: seq<Option<Id>>, s: Selection, r: Selection, counter: nat)
    requires IsTree(t) && s.marks.Keys == t.Keys && s.candidates <= t.Keys && Culled(t, c, s, r)
    requires CountsOk(t, s.marks, counter) && forall x :: x in s.candidates ==> Linked(s.marks[x])
    ensures CountsOk(t, r.marks, counter) && forall x :: x in r.candidates ==> Linked(r.marks[x])
  {
    forall x | x in t ensures CountOk(t, r.marks, counter, x) && Linked(r.marks[x]) == Linked(s.marks[x]) {
      assert CountOk(t, s.marks, counter, x) && NodeOk(t, x);
      assert MarkKept(t, c, s.marks, r.marks, x);
      assert t[x].prev.Some? ==> MarkKept(t, c, s.marks, r.marks, t[x].prev.value);
    }
  }
}
