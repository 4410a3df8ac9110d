/** What adding, receiving and linking a block does to a whole state of the chain manager.
 */
module ChainGrowth {
  import opened Basics
  import opened BlockTree
  import opened ActiveChain
  import opened Candidates
  import opened Linking
  import opened ChainState

  /** Linked blocks are ok, and so are those waiting to be linked. */
  ghost predicate LinkedOk(t: Tree, s: Links)
    requires s.marks.Keys == t.Keys
  {
    && (forall x :: x in t && Linked(s.marks[x]) ==> Ok(s.marks[x]))
    && (forall p :: p in s.unlinked && p.1 in t ==> Ok(s.marks[p.1]))
  }

  ghost predicate RootsOk(t: Tree, genesis: Id) {
    forall x :: x in t ==> (t[x].prev.None? <==> x == genesis)
  }

  ghost predicate CandidatesLinked(t: Tree, s: Links)
    requires s.marks.Keys == t.Keys
  {
    s.candidates <= t.Keys && forall x :: x in s.candidates ==> Linked(s.marks[x])
  }

  /** The part of the invariant that does not mention the active chain. */
  ghost predicate Sound(t: Tree, s: Links, genesis: Id) {
    && IsTree(t) && SkipsOk(t) && Increasing(t) && RootsOk(t, genesis)
    && LinkInv(t, s, []) && LinkedOk(t, s) && CandidatesLinked(t, s)
  }

  /** The part that does: before the first block nothing is linked; afterwards the tip is the
      best linked block, and a candidate. */
  ghost predicate BestChain(t: Tree, s: Links, c: seq<Option<Id>>)
    requires IsTree(t) && s.marks.Keys == t.Keys
  {
    && IsPath(t, c)
    && (c == [] ==> s.candidates == {} && forall x :: x in t ==> !Linked(s.marks[x]))
    && (c != [] ==> TipOf(c).value in s.candidates && BestTip(t, s.marks, TipOf(c).value))
  }

  // ---------------------------------------------------------------- adding an index

  const FRESH: Mark := Mark(false, false, false, 0, 0, 0, 0)

  ghost predicate Extends(t: Tree, u: Tree, id: Id) {
    && id !in t && u.Keys == t.Keys + {id} && (forall x :: x in t ==> u[x] == t[x])
    && (u[id].prev.Some? ==> u[id].prev.value in t && t[u[id].prev.value].work < u[id].work)
  }

  function WithFresh(s: Links, id: Id): Links {
    s.(marks := s.marks[id := FRESH])
  }

  lemma AddedNumbers(t: Tree, u: Tree, m: Marks, counter: nat, id: Id)
    requires IsTree(t) && IsTree(u) && Extends(t, u, id) && m.Keys == t.Keys && LinksOk(t, m, counter)
    requires DistinctIds(t, m)
    ensures LinksOk(u, m[id := FRESH], counter) && DistinctIds(u, m[id := FRESH])
  {
    forall x | x in u ensures LinkOk(u, m[id := FRESH], counter, x) {
      assert NodeOk(u, x);
      if x != id {
        assert NodeOk(t, x) && LinkOk(t, m, counter, x);
      }
    }
  }

  lemma AddedWaiting(t: Tree, u: Tree, m: Marks, p: Pairs, id: Id)
    requires Extends(t, u, id) && m.Keys == t.Keys && Pending(t, m, p, []) && Waiting(t, m, p)
    ensures Pending(u, m[id := FRESH], p, []) && Waiting(u, m[id := FRESH], p)
  {
  }

  lemma AddedLinks(t: Tree, u: Tree, s: Links, id: Id)
    requires IsTree(t) && IsTree(u) && Extends(t, u, id) && LinkInv(t, s, [])
    ensures LinkInv(u, WithFresh(s, id), [])
  {
    AddedNumbers(t, u, s.marks, s.counter, id);
    AddedWaiting(t, u, s.marks, s.unlinked, id);
  }

  lemma AddedIncreasing(t: Tree, u: Tree, id: Id)
    requires IsTree(t) && IsTree(u) && Increasing(t) && Extends(t, u, id)
    ensures Increasing(u)
  {
    forall x | x in u && u[x].prev.Some? && u[x].prev.value in u ensures u[u[x].prev.value].work < u[x].work {
      assert x != id ==> NodeOk(t, x);
    }
  }

  lemma AddedOk(t: Tree, u: Tree, s: Links, id: Id)
    requires s.marks.Keys == t.Keys && Extends(t, u, id) && LinkedOk(t, s) && CandidatesLinked(t, s)
    requires Waiting(t, s.marks, s.unlinked)
    ensures LinkedOk(u, WithFresh(s, id)) && CandidatesLinked(u, WithFresh(s, id))
  {
  }

  /** A new block on a known parent keeps every invariant; it is not linked yet. */
  lemma AddedSound(t: Tree, u: Tree, s: Links, id: Id, genesis: Id)
    requires Sound(t, s, genesis) && IsTree(u) && SkipsOk(u) && Extends(t, u, id)
    requires (u[id].prev.None? <==> id == genesis)
    ensures Sound(u, WithFresh(s, id), genesis)
  {
    AddedLinks(t, u, s, id);
    AddedOk(t, u, s, id);
    AddedIncreasing(t, u, id);
  }

  lemma AddedTip(t: Tree, u: Tree, m: Marks, id: Id, tip: Id)
    requires m.Keys == t.Keys && Extends(t, u, id) && tip in t && BestTip(t, m, tip)
    ensures BestTip(u, m[id := FRESH], tip)
  {
    forall x | x in u ensures NoBetter(u, m[id := FRESH], tip, x) {
      assert x != id ==> NoBetter(t, m, tip, x);
    }
  }

  lemma AddedBestChain(t: Tree, u: Tree, s: Links, id: Id, c: seq<Option<Id>>)
    requires IsTree(t) && IsTree(u) && s.marks.Keys == t.Keys && Extends(t, u, id) && BestChain(t, s, c)
    ensures BestChain(u, WithFresh(s, id), c)
  {
    if c != [] {
      PathStable(t, u, TipOf(c).value);
      AddedTip(t, u, s.marks, id, TipOf(c).value);
    }
  }

  // ---------------------------------------------------------------- receiving a block

  /** The transaction count and the data flag are set before anything is linked. */
  function ReceivedMarks(m: Marks, id: Id, txs: nat): Marks
    requires id in m
  {
    m[id := m[id].(txs := txs, chainTxs := 0, haveData := true)]
  }

  function Received(s: Links, id: Id, txs: nat): Links
    requires id in s.marks
  {
    s.(marks := ReceivedMarks(s.marks, id, txs))
  }

  lemma ReceivedLinks(t: Tree, s: Links, id: Id, txs: nat)
    requires IsTree(t) && LinkInv(t, s, []) && id in t && !Linked(s.marks[id]) && txs > 0
    ensures var r := Received(s, id, txs);
            LinksOk(t, r.marks, r.counter) && DistinctIds(t, r.marks) && Waiting(t, r.marks, r.unlinked)
  {
    var r := Received(s, id, txs);
    forall x | x in t ensures LinkOk(t, r.marks, r.counter, x) {
      assert LinkOk(t, s.marks, s.counter, x) && NodeOk(t, x);
    }
  }

  lemma ReceivedPending(t: Tree, s: Links, id: Id, txs: nat, u: Pairs, queue: seq<Id>)
    requires IsTree(t) && LinkInv(t, s, []) && id in t && !Linked(s.marks[id]) && txs > 0
    requires Count(Seconds(s.unlinked), id) == 0
    requires forall x :: Total(u, queue, x) == Count(Seconds(s.unlinked), x) + if x == id then 1 else 0
    ensures Pending(t, Received(s, id, txs).marks, u, queue)
  {
    forall x | Total(u, queue, x) > 0
      ensures x in t && Total(u, queue, x) == 1 && !Linked(Received(s, id, txs).marks[x])
              && Received(s, id, txs).marks[x].txs > 0 {
      assert x != id ==> Total(s.unlinked, [], x) > 0;
    }
  }

  /** A received block whose parent is linked is ready for the work list. */
  lemma ReceivedReady(t: Tree, s: Links, id: Id, txs: nat)
    requires IsTree(t) && LinkInv(t, s, []) && id in t && !Linked(s.marks[id]) && txs > 0
    requires Count(Seconds(s.unlinked), id) == 0
    requires ParentLinked(t, s.marks, id)
    ensures LinkInv(t, Received(s, id, txs), [id])
  {
    ReceivedLinks(t, s, id, txs);
    forall x ensures Total(s.unlinked, [id], x) == Count(Seconds(s.unlinked), x) + if x == id then 1 else 0 {
      CountFirst(id, [], x);
      assert [id] + [] == [id];
    }
    ReceivedPending(t, s, id, txs, s.unlinked, [id]);
    assert NodeOk(t, id);
  }

  lemma ReceivedIdle(t: Tree, s: Links, id: Id, txs: nat)
    requires IsTree(t) && LinkInv(t, s, []) && id in t && !Linked(s.marks[id]) && txs > 0
    requires Count(Seconds(s.unlinked), id) == 0
    ensures LinkInv(t, Received(s, id, txs), [])
  {
    ReceivedLinks(t, s, id, txs);
    forall x | Total(s.unlinked, [], x) > 0
      ensures x in t && Total(s.unlinked, [], x) == 1 && !Linked(Received(s, id, txs).marks[x])
              && Received(s, id, txs).marks[x].txs > 0 {
    }
  }

  lemma {:induction false} CountWaiting(u: Pairs, p: (Id, Id), x: Id)
    ensures Count(Seconds(u + [p]), x) == Count(Seconds(u), x) + if x == p.1 then 1 else 0
    decreases |u|
  {
    if u == [] {
      assert u + [p] == [p] && [p][1..] == [];
      assert Seconds([p]) == [p.1] + [];
      CountFirst(p.1, [], x);
    } else {
      assert (u + [p])[1..] == u[1..] + [p];
      CountWaiting(u[1..], p, x);
      CountFirst(u[0].1, Seconds(u[1..]), x);
      CountFirst(u[0].1, Seconds(u[1..] + [p]), x);
    }
  }

  /** A received block that has to wait for its parent. */
  lemma ReceivedWaits(t: Tree, s: Links, id: Id, txs: nat, parent: Id)
    requires IsTree(t) && LinkInv(t, s, []) && id in t && !Linked(s.marks[id]) && txs > 0
    requires Count(Seconds(s.unlinked), id) == 0
    requires t[id].prev == Some(parent) && parent in t && !Linked(s.marks[parent])
    ensures var r := Received(s, id, txs); LinkInv(t, r.(unlinked := r.unlinked + [(parent, id)]), [])
  {
    ReceivedLinks(t, s, id, txs);
    var u := s.unlinked + [(parent, id)];
    forall x ensures Total(u, [], x) == Count(Seconds(s.unlinked), x) + if x == id then 1 else 0 {
      CountWaiting(s.unlinked, (parent, id), x);
    }
    ReceivedPending(t, s, id, txs, u, []);
  }

  // ---------------------------------------------------------------- linking

  lemma GrewOk(t: Tree, s: Links, queue: seq<Id>, r: Links)
    requires s.marks.Keys == r.marks.Keys == t.Keys && Waiting(t, s.marks, s.unlinked) && Grew(t, s, queue, r)
    requires LinkedOk(t, s) && forall x :: x in queue && x in t ==> Ok(s.marks[x])
    ensures LinkedOk(t, r)
  {
    forall x | x in t && Linked(r.marks[x]) ensures Ok(r.marks[x]) {
      assert MarkGrew(s, r, x);
      if NewlyLinked(s, r, x) {
        assert LinkReason(t, s, r, queue, x);
      }
    }
    forall p | p in r.unlinked && p.1 in t ensures Ok(r.marks[p.1]) {
      assert MarkGrew(s, r, p.1) && p in s.unlinked;
    }
  }

  lemma {:induction false} LinkAllCandidates(t: Tree, tip: Option<Id>, s: Links, queue: seq<Id>)
    requires IsTree(t) && LinkInv(t, s, queue) && (tip.Some? ==> tip.value in t) && s.candidates <= t.Keys
    ensures LinkAll(t, tip, s, queue).candidates <= t.Keys
    decreases |queue| + |s.unlinked|
  {
    if queue != [] {
      LinkOneKeeps(t, tip, s, queue);
      LinkAllCandidates(t, tip, LinkOne(t, tip, s, queue[0]), queue[1..] + Children(s.unlinked, queue[0]));
    }
  }

  lemma GrewCandidates(t: Tree, tip: Option<Id>, s: Links, queue: seq<Id>, r: Links)
    requires s.marks.Keys == r.marks.Keys == t.Keys && Waiting(t, s.marks, s.unlinked) && Grew(t, s, queue, r)
    requires (tip.Some? ==> tip.value in t) && r.candidates <= t.Keys && CandidatesLinked(t, s)
    requires forall x :: x in t ==> Offered(t, tip, s, r, x)
    ensures CandidatesLinked(t, r)
  {
    forall x | x in r.candidates ensures Linked(r.marks[x]) {
      assert Offered(t, tip, s, r, x) && MarkGrew(s, r, x);
    }
  }

  /** From `s` to `r` the block `id` and exactly what waited for it, directly or not, were linked,
      and offered as candidates unless worse than the tip. */
  ghost predicate LinkedFrom(t: Tree, tip: Option<Id>, s: Links, id: Id, r: Links) {
    && s.marks.Keys == r.marks.Keys == t.Keys && (tip.Some? ==> tip.value in t)
    && Waiting(t, s.marks, s.unlinked) && Grew(t, s, [id], r)
    && forall x :: x in t ==> Offered(t, tip, s, r, x)
  }

  /** The work list started from a block that is ok keeps every invariant but the best tip. */
  lemma LinkAllSound(t: Tree, tip: Option<Id>, s: Links, queue: seq<Id>, genesis: Id)
    requires IsTree(t) && SkipsOk(t) && Increasing(t) && RootsOk(t, genesis)
    requires LinkInv(t, s, queue) && LinkedOk(t, s) && CandidatesLinked(t, s)
    requires (forall x :: x in queue && x in t ==> Ok(s.marks[x]))
             && (tip.Some? ==> tip.value in t && Linked(s.marks[tip.value]))
    ensures Sound(t, LinkAll(t, tip, s, queue), genesis)
    ensures Grew(t, s, queue, LinkAll(t, tip, s, queue))
    ensures forall x :: x in t ==> Offered(t, tip, s, LinkAll(t, tip, s, queue), x)
  {
    LinkAllGrows(t, tip, s, queue);
    LinkAllCandidates(t, tip, s, queue);
    forall x | x in t ensures Offered(t, tip, s, LinkAll(t, tip, s, queue), x) {
      LinkAllOffers(t, tip, s, queue, x);
    }
    GrewOk(t, s, queue, LinkAll(t, tip, s, queue));
    GrewCandidates(t, tip, s, queue, LinkAll(t, tip, s, queue));
  }

  /** Receiving keeps the rest: flags only improve and the order of linked blocks stays. */
  lemma ReceivedOk(t: Tree, s: Links, id: Id, txs: nat)
    requires s.marks.Keys == t.Keys && id in t && !Linked(s.marks[id]) && Valid(s.marks[id])
    requires LinkedOk(t, s) && CandidatesLinked(t, s)
    ensures LinkedOk(t, Received(s, id, txs)) && CandidatesLinked(t, Received(s, id, txs))
    ensures Ok(Received(s, id, txs).marks[id])
  {
  }

  lemma ReceivedBestChain(t: Tree, s: Links, id: Id, txs: nat, c: seq<Option<Id>>)
    requires IsTree(t) && s.marks.Keys == t.Keys && id in t && !Linked(s.marks[id]) && BestChain(t, s, c)
    ensures BestChain(t, Received(s, id, txs), c)
  {
    if c != [] {
      forall x | x in t ensures NoBetter(t, Received(s, id, txs).marks, TipOf(c).value, x) {
        assert NoBetter(t, s.marks, TipOf(c).value, x);
      }
    }
  }

  /** Linked blocks stay as they are. */
  ghost predicate LinkedKept(m: Marks, n: Marks) {
    forall x :: x in m && Linked(m[x]) ==> x in n && n[x] == m[x]
  }

  lemma ReceiveKeepsLinked(t: Tree, s: Links, id: Id, txs: nat, c: seq<Option<Id>>, r: Links)
    requires IsTree(t) && LinkInv(t, s, []) && id in t && !Linked(s.marks[id]) && IsPath(t, c)
    requires r == AfterReceive(t, TipOf(c), s, id, txs)
    requires ParentLinked(t, s.marks, id) ==> LinkedFrom(t, TipOf(c), Received(s, id, txs), id, r)
    ensures LinkedKept(s.marks, r.marks)
  {
    if ParentLinked(t, s.marks, id) {
      forall x | x in t && Linked(s.marks[x]) ensures r.marks[x] == s.marks[x] {
        assert MarkGrew(Received(s, id, txs), r, x);
      }
    }
  }

  /** A received block with a linked parent: the work list may run, and what it yields. */
  lemma ReceivedLinked(t: Tree, s: Links, id: Id, txs: nat, c: seq<Option<Id>>, genesis: Id)
    requires Sound(t, s, genesis) && BestChain(t, s, c) && id in t && !Linked(s.marks[id]) && Valid(s.marks[id])
    requires txs > 0 && Count(Seconds(s.unlinked), id) == 0 && ParentLinked(t, s.marks, id)
    ensures var r := Received(s, id, txs);
            && LinkInv(t, r, [id]) && Sound(t, LinkAll(t, TipOf(c), r, [id]), genesis)
            && LinkedFrom(t, TipOf(c), r, id, LinkAll(t, TipOf(c), r, [id]))
  {
    ReceivedOk(t, s, id, txs);
    ReceivedReady(t, s, id, txs);
    LinkAllSound(t, TipOf(c), Received(s, id, txs), [id], genesis);
  }

  /** A received block without one: it waits, or is only noted. */
  lemma ReceivedUnlinked(t: Tree, s: Links, id: Id, txs: nat, c: seq<Option<Id>>, genesis: Id)
    requires Sound(t, s, genesis) && BestChain(t, s, c) && id in t && !Linked(s.marks[id]) && Valid(s.marks[id])
    requires txs > 0 && Count(Seconds(s.unlinked), id) == 0 && !ParentLinked(t, s.marks, id)
    ensures var r := Received(s, id, txs); var u := r.(unlinked := r.unlinked + [(t[id].prev.value, id)]);
            Sound(t, r, genesis) && Sound(t, u, genesis) && BestChain(t, r, c) && BestChain(t, u, c)
  {
    assert NodeOk(t, id);
    ReceivedOk(t, s, id, txs);
    ReceivedIdle(t, s, id, txs);
    ReceivedWaits(t, s, id, txs, t[id].prev.value);
    ReceivedBestChain(t, s, id, txs, c);
  }

  /** `receiveBlock` as a function of the state. */
  ghost function AfterReceive(t: Tree, tip: Option<Id>, s: Links, id: Id, txs: nat): Links
    requires IsTree(t) && s.marks.Keys == t.Keys && id in t && (tip.Some? ==> tip.value in t)
    requires forall p :: p in s.unlinked ==> p.1 in t
  {
    assert NodeOk(t, id);
    var r := Received(s, id, txs);
    if ParentLinked(t, s.marks, id) then LinkAll(t, tip, r, [id])
    else if Valid(s.marks[t[id].prev.value]) && s.marks[t[id].prev.value].level >= 2
    then r.(unlinked := r.unlinked + [(t[id].prev.value, id)])
    else r
  }

  /** A received block whose parent is not linked is noted, and waits for its parent if and only if that is in
      the tree by its status, level 2 or more, and neither failed nor below a failed block. */
  lemma ReceivedWaitsIff(t: Tree, tip: Option<Id>, s: Links, id: Id, txs: nat)
    requires IsTree(t) && s.marks.Keys == t.Keys && id in t && (tip.Some? ==> tip.value in t)
    requires (forall p :: p in s.unlinked ==> p.1 in t) && !ParentLinked(t, s.marks, id)
    ensures t[id].prev.Some? && t[id].prev.value in t
    ensures var r := AfterReceive(t, tip, s, id, txs); var parent := s.marks[t[id].prev.value];
            && r.marks == s.marks[id := s.marks[id].(txs := txs, chainTxs := 0, haveData := true)]
            && r.candidates == s.candidates && r.counter == s.counter
            && r.unlinked == s.unlinked
                             + if parent.level >= 2 && !parent.failedValid && !parent.failedChild
                               then [(t[id].prev.value, id)] else []
  {
    assert NodeOk(t, id);
  }

  /** `r` is a state reached from `s` by receiving `id` on the chain `c`. */
  ghost predicate ReceivedTo(t: Tree, s: Links, id: Id, txs: nat, c: seq<Option<Id>>, r: Links, genesis: Id)
    requires Sound(t, s, genesis) && id in t && IsPath(t, c)
  {
    && Sound(t, r, genesis)
    && (if ParentLinked(t, s.marks, id) then LinkedFrom(t, TipOf(c), Received(s, id, txs), id, r)
       else BestChain(t, r, c) && c != [])
  }

  /** Receiving keeps every invariant but the best tip, which is kept when nothing was linked. */
  lemma ReceiveSound(t: Tree, s: Links, id: Id, txs: nat, c: seq<Option<Id>>, genesis: Id)
    requires Sound(t, s, genesis) && BestChain(t, s, c) && id in t && !Linked(s.marks[id]) && Valid(s.marks[id])
    requires txs > 0 && Count(Seconds(s.unlinked), id) == 0 && (c == [] ==> ParentLinked(t, s.marks, id))
    ensures ReceivedTo(t, s, id, txs, c, AfterReceive(t, TipOf(c), s, id, txs), genesis)
  {
    if ParentLinked(t, s.marks, id) {
      ReceivedLinked(t, s, id, txs, c, genesis);
    } else {
      ReceivedUnlinked(t, s, id, txs, c, genesis);
    }
  }

  /** After the work list the greatest candidate is the best of all linked blocks, and if that
      is not the old tip it has strictly more work. */
  lemma NewBest(t: Tree, s: Links, queue: seq<Id>, r: Links, c: seq<Option<Id>>, best: Id)
    requires IsTree(t) && s.marks.Keys == r.marks.Keys == t.Keys && Waiting(t, s.marks, s.unlinked)
    requires BestChain(t, s, c) && Grew(t, s, queue, r) && LinksOk(t, s.marks, s.counter)
    requires forall x :: x in t ==> Offered(t, TipOf(c), s, r, x)
    requires CandidatesLinked(t, r) && IsGreatest(t, r.marks, r.candidates, best)
    ensures BestTip(t, r.marks, best)
    ensures c != [] && Some(best) != TipOf(c) ==> t[TipOf(c).value].work < t[best].work
  {
    if c == [] {
      forall x | x in t ensures NoBetter(t, r.marks, best, x) {
        assert MarkGrew(s, r, x) && Offered(t, None, s, r, x);
      }
    } else {
      var tip := TipOf(c).value;
      BestOfLinked(t, s, queue, r, tip, best);
      if best != tip {
        assert LinkOk(t, s.marks, s.counter, tip);
        TipNeedsMoreWork(t, s, queue, r, tip, best);
      }
    }
  }

  /** The state after activation, from the greatest candidate being the best tip. */
  lemma SettledState(t: Tree, r: Links, kept: set<Id>, d: seq<Option<Id>>, genesis: Id)
    requires Sound(t, r, genesis) && kept <= r.candidates && IsPath(t, d) && d != []
    requires TipOf(d).value in kept && BestTip(t, r.marks, TipOf(d).value)
    ensures Sound(t, r.(candidates := kept), genesis) && BestChain(t, r.(candidates := kept), d)
  {
  }

  lemma SameTip(t: Tree, r: Links, c: seq<Option<Id>>, best: Id)
    requires IsTree(t) && r.marks.Keys == t.Keys && BestChain(t, r, c) && c != [] && CandidatesLinked(t, r)
    requires IsGreatest(t, r.marks, r.candidates, best)
    ensures TipOf(c) == Some(best)
  {
    assert NoBetter(t, r.marks, TipOf(c).value, best);
  }

  /** Whether the chain `d` is better than `c`, or ends at the same tip. */
  ghost predicate NoWorse(t: Tree, c: seq<Option<Id>>, d: seq<Option<Id>>) {
    TipOf(c).Some? ==>
      && TipOf(d).Some? && TipOf(c).value in t && TipOf(d).value in t
      && (TipOf(d) == TipOf(c) || t[TipOf(c).value].work < t[TipOf(d).value].work)
  }

  /** Receiving and then moving to the greatest candidate restores the invariant. */
  lemma StoreSettles(t: Tree, s: Links, id: Id, txs: nat, c: seq<Option<Id>>, r: Links, genesis: Id, kept: set<Id>,
                     d: seq<Option<Id>>)
    requires Sound(t, s, genesis) && BestChain(t, s, c) && id in t && !Linked(s.marks[id]) && Valid(s.marks[id])
    requires txs > 0 && Count(Seconds(s.unlinked), id) == 0 && (c == [] ==> ParentLinked(t, s.marks, id))
    requires r == AfterReceive(t, TipOf(c), s, id, txs)
    requires kept <= r.candidates && IsPath(t, d) && d != [] && TipOf(d).value in kept
    requires Known(t, r.marks, r.candidates) && IsGreatest(t, r.marks, r.candidates, TipOf(d).value)
    ensures Sound(t, r.(candidates := kept), genesis) && BestChain(t, r.(candidates := kept), d) && NoWorse(t, c, d)
    ensures LinkedKept(s.marks, r.marks) && (ParentLinked(t, s.marks, id) ==> Linked(r.marks[id]))
  {
    ReceiveSound(t, s, id, txs, c, genesis);
    ReceiveKeepsLinked(t, s, id, txs, c, r);
    BestAfterReceive(t, s, id, txs, c, r, TipOf(d).value);
    SettledState(t, r, kept, d, genesis);
  }

  /** The greatest candidate after receiving is the best of all linked blocks. */
  lemma BestAfterReceive(t: Tree, s: Links, id: Id, txs: nat, c: seq<Option<Id>>, r: Links, best: Id)
    requires IsTree(t) && LinkInv(t, s, []) && BestChain(t, s, c) && id in t && !Linked(s.marks[id]) && txs > 0
    requires r.marks.Keys == t.Keys && CandidatesLinked(t, r) && IsGreatest(t, r.marks, r.candidates, best)
    requires if ParentLinked(t, s.marks, id) then LinkedFrom(t, TipOf(c), Received(s, id, txs), id, r)
             else BestChain(t, r, c) && c != []
    ensures BestTip(t, r.marks, best) && (c != [] && Some(best) != TipOf(c) ==> t[TipOf(c).value].work < t[best].work)
    ensures ParentLinked(t, s.marks, id) ==> Linked(r.marks[id])
  {
    if ParentLinked(t, s.marks, id) {
      ReceivedBestChain(t, s, id, txs, c);
      ReceivedLinks(t, s, id, txs);
      NewBest(t, Received(s, id, txs), [id], r, c, best);
      assert id in [id];
    } else {
      SameTip(t, r, c, best);
    }
  }

  /** A new index keeps the whole invariant. */
  lemma AddedKeeps(t: Tree, u: Tree, s: Links, id: Id, genesis: Id, c: seq<Option<Id>>)
    requires Sound(t, s, genesis) && BestChain(t, s, c)
    requires IsTree(u) && SkipsOk(u) && Extends(t, u, id) && (u[id].prev.None? <==> id == genesis)
    ensures Sound(u, WithFresh(s, id), genesis) && BestChain(u, WithFresh(s, id), c)
  {
    AddedSound(t, u, s, id, genesis);
    AddedBestChain(t, u, s, id, c);
  }
}
