/** Linking received blocks to the tree of blocks whose transactions are all known, the pure
    side of `receiveBlock`.
 */
module Linking {
  import opened Basics
  import opened BlockTree
  import opened Candidates

  type Pairs = seq<(Id, Id)>

  /** The children waiting for `parent`, in insertion order, and the other entries. */
  function Children(u: Pairs, parent: Id): (r: seq<Id>)
    ensures |r| + |Others(u, parent)| == |u|
  {
    if u == [] then [] else
    (if u[0].0 == parent then [u[0].1] else []) + Children(u[1..], parent)
  }

  function Others(u: Pairs, parent: Id): Pairs {
    if u == [] then [] else
    (if u[0].0 == parent then [] else [u[0]]) + Others(u[1..], parent)
  }

  function Seconds(u: Pairs): seq<Id> {
    if u == [] then [] else [u[0].1] + Seconds(u[1..])
  }

  lemma {:induction false} ChildrenExact(u: Pairs, parent: Id, x: Id)
    ensures x in Children(u, parent) <==> (parent, x) in u
    decreases |u|
  {
    if u != [] {
      ChildrenExact(u[1..], parent, x);
    }
  }

  lemma {:induction false} OthersExact(u: Pairs, parent: Id, p: (Id, Id))
    ensures p in Others(u, parent) <==> p in u && p.0 != parent
    decreases |u|
  {
    if u != [] {
      OthersExact(u[1..], parent, p);
    }
  }

  lemma {:induction false} SplitCounts(u: Pairs, parent: Id, x: Id)
    ensures Count(Children(u, parent), x) + Count(Seconds(Others(u, parent)), x) == Count(Seconds(u), x)
    decreases |u|
  {
    if u != [] {
      SplitCounts(u[1..], parent, x);
      var c, o := Children(u[1..], parent), Others(u[1..], parent);
      if u[0].0 == parent {
        assert Children(u, parent) == [u[0].1] + c && Others(u, parent) == o;
        CountFirst(u[0].1, c, x);
      } else {
        assert Children(u, parent) == c && Others(u, parent) == [u[0]] + o;
        assert ([u[0]] + o)[1..] == o;
      }
      CountFirst(u[0].1, Seconds(u[1..]), x);
      CountFirst(u[0].1, Seconds(o), x);
    }
  }

  // ---------------------------------------------------------------- the work list

  datatype Links = Links(marks: Marks, candidates: set<Id>, unlinked: Pairs, counter: nat)

  function ParentTxs(t: Tree, m: Marks, id: Id): nat
    requires id in t && (t[id].prev.Some? ==> t[id].prev.value in m)
  {
    if t[id].prev.Some? then m[t[id].prev.value].chainTxs else 0
  }

  /** The marks once `id` has its transaction count and sequence number. */
  function Numbered(t: Tree, m: Marks, counter: nat, id: Id): (r: Marks)
    requires IsTree(t) && m.Keys == t.Keys && id in t
    ensures r.Keys == t.Keys
  {
    assert NodeOk(t, id);
    m[id := m[id].(chainTxs := ParentTxs(t, m, id) + m[id].txs, seqId := counter)]
  }

  /** One round of the work list: number the block, offer it as a candidate unless it is worse
      than the tip, and take its waiting children. */
  function LinkOne(t: Tree, tip: Option<Id>, s: Links, id: Id): (r: Links)
    requires IsTree(t) && s.marks.Keys == t.Keys && id in t && (tip.Some? ==> tip.value in t)
    ensures r.marks.Keys == t.Keys
  {
    var m := Numbered(t, s.marks, s.counter, id);
    Links(m,
          if tip.None? || !Less(t, m, id, tip.value) then s.candidates + {id} else s.candidates,
          Others(s.unlinked, id),
          s.counter + 1)
  }

  /** The whole loop. */
  function LinkAll(t: Tree, tip: Option<Id>, s: Links, queue: seq<Id>): (r: Links)
    requires IsTree(t) && s.marks.Keys == t.Keys && (tip.Some? ==> tip.value in t)
    requires forall x :: x in queue ==> x in t
    requires forall p :: p in s.unlinked ==> p.1 in t
    decreases |queue| + |s.unlinked|
  {
    if queue == [] then s else
    LinkedQueueKnown(t, s, queue);
    LinkAll(t, tip, LinkOne(t, tip, s, queue[0]), queue[1..] + Children(s.unlinked, queue[0]))
  }

  lemma LinkedQueueKnown(t: Tree, s: Links, queue: seq<Id>)
    requires queue != [] && (forall x :: x in queue ==> x in t) && forall p :: p in s.unlinked ==> p.1 in t
    ensures forall x :: x in queue[1..] + Children(s.unlinked, queue[0]) ==> x in t
    ensures forall p :: p in Others(s.unlinked, queue[0]) ==> p.1 in t
  {
    forall x | x in queue[1..] + Children(s.unlinked, queue[0]) ensures x in t {
      ChildrenExact(s.unlinked, queue[0], x);
    }
    forall p | p in Others(s.unlinked, queue[0]) ensures p.1 in t {
      OthersExact(s.unlinked, queue[0], p);
    }
  }

  // ---------------------------------------------------------------- invariants

  /** The transaction count of a linked block is its own plus its parent's, and the parent is
      linked. */
  ghost predicate CountOk(t: Tree, m: Marks, counter: nat, x: Id)
    requires IsTree(t) && m.Keys == t.Keys && x in t
  {
    assert NodeOk(t, x);
    Linked(m[x]) ==>
      && m[x].seqId < counter
      && m[x].chainTxs == ParentTxs(t, m, x) + m[x].txs
      && (t[x].prev.Some? ==> Linked(m[t[x].prev.value]))
  }

  ghost predicate CountsOk(t: Tree, m: Marks, counter: nat)
    requires IsTree(t) && m.Keys == t.Keys
  {
    forall x :: x in t ==> CountOk(t, m, counter, x)
  }

  /** The parent has the earlier sequence number. */
  ghost predicate ParentFirst(t: Tree, m: Marks, x: Id)
    requires IsTree(t) && m.Keys == t.Keys && x in t
  {
    assert NodeOk(t, x);
    Linked(m[x]) && t[x].prev.Some? ==> m[t[x].prev.value].seqId < m[x].seqId
  }

  ghost predicate LinkOk(t: Tree, m: Marks, counter: nat, x: Id)
    requires IsTree(t) && m.Keys == t.Keys && x in t
  {
    CountOk(t, m, counter, x) && ParentFirst(t, m, x)
  }

  ghost predicate LinksOk(t: Tree, m: Marks, counter: nat)
    requires IsTree(t) && m.Keys == t.Keys
  {
    forall x :: x in t ==> LinkOk(t, m, counter, x)
  }

  ghost predicate DistinctIds(t: Tree, m: Marks)
    requires m.Keys == t.Keys
  {
    forall x, y :: x in t && y in t && x != y && Linked(m[x]) && Linked(m[y]) ==> m[x].seqId != m[y].seqId
  }

  function Total(u: Pairs, queue: seq<Id>, x: Id): nat {
    Count(queue, x) + Count(Seconds(u), x)
  }

  /** Everything queued or waiting is there once, is not linked and has transactions. */
  ghost predicate Pending(t: Tree, m: Marks, u: Pairs, queue: seq<Id>)
    requires m.Keys == t.Keys
  {
    forall x :: Total(u, queue, x) > 0 ==> x in t && Total(u, queue, x) == 1 && !Linked(m[x]) && m[x].txs > 0
  }

  /** Waiting blocks wait for their own parent, which is not linked. */
  ghost predicate Waiting(t: Tree, m: Marks, u: Pairs)
    requires m.Keys == t.Keys
  {
    forall p :: p in u ==> p.1 in t && t[p.1].prev == Some(p.0) && p.0 in t && !Linked(m[p.0])
  }

  ghost predicate ParentLinked(t: Tree, m: Marks, x: Id)
    requires m.Keys == t.Keys && x in t
  {
    t[x].prev.Some? ==> t[x].prev.value in t && Linked(m[t[x].prev.value])
  }

  ghost predicate Ready(t: Tree, m: Marks, queue: seq<Id>)
    requires m.Keys == t.Keys
  {
    forall x :: x in queue ==> x in t && ParentLinked(t, m, x)
  }

  ghost predicate LinkInv(t: Tree, s: Links, queue: seq<Id>)
    requires IsTree(t)
  {
    && s.marks.Keys == t.Keys
    && LinksOk(t, s.marks, s.counter) && DistinctIds(t, s.marks)
    && Pending(t, s.marks, s.unlinked, queue) && Waiting(t, s.marks, s.unlinked) && Ready(t, s.marks, queue)
  }

  lemma PopTotal(u: Pairs, queue: seq<Id>, x: Id)
    requires queue != []
    ensures Total(Others(u, queue[0]), queue[1..] + Children(u, queue[0]), x)
            == Total(u, queue, x) - (if queue[0] == x then 1 else 0)
  {
    CountAppend(queue[1..], Children(u, queue[0]), x);
    SplitCounts(u, queue[0], x);
  }

  lemma QueueHeadPending(t: Tree, s: Links, queue: seq<Id>)
    requires IsTree(t) && queue != [] && LinkInv(t, s, queue)
    ensures queue[0] in t && !Linked(s.marks[queue[0]]) && s.marks[queue[0]].txs > 0
    ensures Total(s.unlinked, queue, queue[0]) == 1
    ensures ParentLinked(t, s.marks, queue[0])
  {
    CountIn(queue, queue[0]);
    assert queue[0] in queue;
    assert Total(s.unlinked, queue, queue[0]) > 0;
  }

  lemma LinkOneMarks(t: Tree, tip: Option<Id>, s: Links, queue: seq<Id>)
    requires IsTree(t) && queue != [] && LinkInv(t, s, queue) && (tip.Some? ==> tip.value in t) && queue[0] in t
    ensures var r := LinkOne(t, tip, s, queue[0]);
            && Linked(r.marks[queue[0]]) && !Linked(s.marks[queue[0]]) && r.marks[queue[0]].seqId == s.counter
            && r.marks[queue[0]] == s.marks[queue[0]].(chainTxs := r.marks[queue[0]].chainTxs, seqId := s.counter)
            && (forall x :: x in t && x != queue[0] ==> r.marks[x] == s.marks[x])
            && LinkOk(t, r.marks, r.counter, queue[0])
  {
    QueueHeadPending(t, s, queue);
    var id := queue[0];
    assert NodeOk(t, id);
    if t[id].prev.Some? {
      assert LinkOk(t, s.marks, s.counter, t[id].prev.value);
    }
  }

  lemma LinkOneKeepsLinks(t: Tree, tip: Option<Id>, s: Links, queue: seq<Id>)
    requires IsTree(t) && queue != [] && LinkInv(t, s, queue) && (tip.Some? ==> tip.value in t) && queue[0] in t
    ensures var r := LinkOne(t, tip, s, queue[0]); LinksOk(t, r.marks, r.counter) && DistinctIds(t, r.marks)
  {
    var r := LinkOne(t, tip, s, queue[0]);
    LinkOneMarks(t, tip, s, queue);
    forall x | x in t ensures LinkOk(t, r.marks, r.counter, x) {
      assert LinkOk(t, s.marks, s.counter, x) && NodeOk(t, x);
    }
    forall x, y | x in t && y in t && x != y && Linked(r.marks[x]) && Linked(r.marks[y])
      ensures r.marks[x].seqId != r.marks[y].seqId {
      assert LinkOk(t, s.marks, s.counter, x) && LinkOk(t, s.marks, s.counter, y);
    }
  }

  lemma LinkOneKeepsQueue(t: Tree, tip: Option<Id>, s: Links, queue: seq<Id>)
    requires IsTree(t) && queue != [] && LinkInv(t, s, queue) && (tip.Some? ==> tip.value in t) && queue[0] in t
    ensures var r := LinkOne(t, tip, s, queue[0]); var q := queue[1..] + Children(s.unlinked, queue[0]);
            Pending(t, r.marks, r.unlinked, q) && Waiting(t, r.marks, r.unlinked) && Ready(t, r.marks, q)
  {
    var id := queue[0];
    var r, q := LinkOne(t, tip, s, id), queue[1..] + Children(s.unlinked, id);
    LinkOneMarks(t, tip, s, queue);
    QueueHeadPending(t, s, queue);
    forall x | Total(r.unlinked, q, x) > 0
      ensures x in t && Total(r.unlinked, q, x) == 1 && !Linked(r.marks[x]) && r.marks[x].txs > 0 {
      PopTotal(s.unlinked, queue, x);
      assert Total(s.unlinked, queue, x) > 0;
    }
    forall p | p in r.unlinked ensures p.1 in t && t[p.1].prev == Some(p.0) && p.0 in t && !Linked(r.marks[p.0]) {
      OthersExact(s.unlinked, id, p);
    }
    forall x | x in q ensures x in t && ParentLinked(t, r.marks, x) {
      ChildrenExact(s.unlinked, id, x);
      assert x in queue || (id, x) in s.unlinked;
    }
  }

  /** Every round of the work list keeps the invariant. */
  lemma LinkOneKeeps(t: Tree, tip: Option<Id>, s: Links, queue: seq<Id>)
    requires IsTree(t) && queue != [] && LinkInv(t, s, queue) && (tip.Some? ==> tip.value in t)
    ensures queue[0] in t
    ensures LinkInv(t, LinkOne(t, tip, s, queue[0]), queue[1..] + Children(s.unlinked, queue[0]))
  {
    assert queue[0] in queue;
    LinkOneKeepsLinks(t, tip, s, queue);
    LinkOneKeepsQueue(t, tip, s, queue);
  }

  // ---------------------------------------------------------------- what the loop achieves

  predicate NewlyLinked(s: Links, r: Links, x: Id)
    requires x in s.marks && x in r.marks
  {
    !Linked(s.marks[x]) && Linked(r.marks[x])
  }

  /** Only newly linked blocks change, in their numbers alone. */
  ghost predicate MarkGrew(s: Links, r: Links, x: Id)
    requires x in s.marks && x in r.marks
  {
    if NewlyLinked(s, r, x)
    then r.marks[x] == s.marks[x].(chainTxs := r.marks[x].chainTxs, seqId := r.marks[x].seqId)
      && r.marks[x].seqId >= s.counter
    else r.marks[x] == s.marks[x]
  }

  /** A newly linked block was queued or waited for a newly linked parent. */
  ghost predicate LinkReason(t: Tree, s: Links, r: Links, queue: seq<Id>, x: Id)
    requires x in t && s.marks.Keys == r.marks.Keys == t.Keys
  {
    || x in queue
    || (t[x].prev.Some? && t[x].prev.value in t && (t[x].prev.value, x) in s.unlinked
        && NewlyLinked(s, r, t[x].prev.value))
  }

  ghost predicate PairDone(s: Links, r: Links, p: (Id, Id))
    requires p.0 in r.marks && p.1 in r.marks && p.1 in s.marks
  {
    && (p in r.unlinked <==> !Linked(r.marks[p.0]))
    && (Linked(r.marks[p.0]) ==> NewlyLinked(s, r, p.1))
  }

  ghost predicate Offered(t: Tree, tip: Option<Id>, s: Links, r: Links, x: Id)
    requires s.marks.Keys == r.marks.Keys == t.Keys && x in t && (tip.Some? ==> tip.value in t)
  {
    x in r.candidates <==> x in s.candidates || (NewlyLinked(s, r, x) && (tip.None? || !Less(t, r.marks, x, tip.value)))
  }

  /** Exactly the blocks reachable from the queue through the unlinked map are linked. */
  ghost predicate Grew(t: Tree, s: Links, queue: seq<Id>, r: Links)
    requires s.marks.Keys == r.marks.Keys == t.Keys && Waiting(t, s.marks, s.unlinked)
  {
    && s.counter <= r.counter
    && (forall x :: x in t ==> MarkGrew(s, r, x))
    && (forall x :: x in t && NewlyLinked(s, r, x) ==> LinkReason(t, s, r, queue, x))
    && (forall x :: x in queue ==> x in t && NewlyLinked(s, r, x))
    && (forall p :: p in s.unlinked ==> PairDone(s, r, p))
    && (forall p :: p in r.unlinked ==> p in s.unlinked)
  }

  lemma GrewNothing(t: Tree, s: Links)
    requires IsTree(t) && LinkInv(t, s, [])
    ensures Grew(t, s, [], s)
  {
  }

  /** The first round followed by the rest. */
  lemma GrewStep(t: Tree, tip: Option<Id>, s: Links, queue: seq<Id>, r: Links)
    requires IsTree(t) && queue != [] && LinkInv(t, s, queue) && (tip.Some? ==> tip.value in t) && queue[0] in t
    requires r.marks.Keys == t.Keys
    requires var s1 := LinkOne(t, tip, s, queue[0]); var q1 := queue[1..] + Children(s.unlinked, queue[0]);
             LinkInv(t, s1, q1) && Grew(t, s1, q1, r)
    ensures Grew(t, s, queue, r)
  {
    var id := queue[0];
    var s1, q1 := LinkOne(t, tip, s, id), queue[1..] + Children(s.unlinked, id);
    LinkOneMarks(t, tip, s, queue);
    forall x | x in t ensures MarkGrew(s, r, x) && NewlyLinked(s, r, x) == (x == id || NewlyLinked(s1, r, x)) {
      assert MarkGrew(s1, r, x);
    }
    forall x | x in t && NewlyLinked(s, r, x) ensures LinkReason(t, s, r, queue, x) {
      if x != id {
        assert LinkReason(t, s1, r, q1, x);
        ReasonBefore(t, tip, s, queue, r, x);
      }
    }
    forall x | x in queue ensures x in t && NewlyLinked(s, r, x) {
      assert x != id ==> x in q1;
    }
    forall p | p in s.unlinked ensures PairDone(s, r, p) {
      PairBefore(t, tip, s, queue, r, p);
    }
    forall p | p in r.unlinked ensures p in s.unlinked {
      OthersExact(s.unlinked, id, p);
    }
  }

  lemma ReasonBefore(t: Tree, tip: Option<Id>, s: Links, queue: seq<Id>, r: Links, x: Id)
    requires IsTree(t) && queue != [] && s.marks.Keys == r.marks.Keys == t.Keys && (tip.Some? ==> tip.value in t)
    requires queue[0] in t && x in t
    requires LinkReason(t, LinkOne(t, tip, s, queue[0]), r, queue[1..] + Children(s.unlinked, queue[0]), x)
    requires Waiting(t, s.marks, s.unlinked)
    requires forall y :: y in t ==>
                           NewlyLinked(s, r, y) == (y == queue[0] || NewlyLinked(LinkOne(t, tip, s, queue[0]), r, y))
    ensures LinkReason(t, s, r, queue, x)
  {
    ChildrenExact(s.unlinked, queue[0], x);
    if t[x].prev.Some? {
      OthersExact(s.unlinked, queue[0], (t[x].prev.value, x));
    }
    assert x in queue[1..] ==> x in queue;
  }

  lemma PairBefore(t: Tree, tip: Option<Id>, s: Links, queue: seq<Id>, r: Links, p: (Id, Id))
    requires IsTree(t) && queue != [] && s.marks.Keys == r.marks.Keys == t.Keys && (tip.Some? ==> tip.value in t)
    requires queue[0] in t
    requires p in s.unlinked && p.0 in t && p.1 in t
    requires var s1 := LinkOne(t, tip, s, queue[0]);
             && (forall x :: x in queue[1..] + Children(s.unlinked, queue[0]) ==> x in t && NewlyLinked(s1, r, x))
             && (p in s1.unlinked ==> PairDone(s1, r, p))
             && (forall q :: q in r.unlinked ==> q in s1.unlinked)
             && (forall y :: y in t ==> NewlyLinked(s, r, y) == (y == queue[0] || NewlyLinked(s1, r, y)))
    ensures PairDone(s, r, p)
  {
    var id := queue[0];
    OthersExact(s.unlinked, id, p);
    ChildrenExact(s.unlinked, id, p.1);
    if p.0 == id {
      assert p.1 in queue[1..] + Children(s.unlinked, id);
      assert NewlyLinked(s, r, id);
    }
  }

  /** The work list keeps the invariant and links exactly what is reachable. */
  lemma {:induction false} LinkAllGrows(t: Tree, tip: Option<Id>, s: Links, queue: seq<Id>)
    requires IsTree(t) && LinkInv(t, s, queue) && (tip.Some? ==> tip.value in t)
    ensures LinkInv(t, LinkAll(t, tip, s, queue), []) && Grew(t, s, queue, LinkAll(t, tip, s, queue))
    decreases |queue| + |s.unlinked|
  {
    if queue == [] {
      GrewNothing(t, s);
    } else {
      LinkOneKeeps(t, tip, s, queue);
      LinkAllGrows(t, tip, LinkOne(t, tip, s, queue[0]), queue[1..] + Children(s.unlinked, queue[0]));
      GrewStep(t, tip, s, queue, LinkAll(t, tip, s, queue));
    }
  }

  lemma LinkAllMark(t: Tree, tip: Option<Id>, s: Links, queue: seq<Id>, x: Id)
    requires IsTree(t) && LinkInv(t, s, queue) && (tip.Some? ==> tip.value in t) && x in t
    ensures LinkAll(t, tip, s, queue).marks.Keys == t.Keys && MarkGrew(s, LinkAll(t, tip, s, queue), x)
  {
    LinkAllGrows(t, tip, s, queue);
  }

  /** A newly linked block becomes a candidate exactly when it is not worse than the tip. */
  lemma {:induction false} LinkAllOffers(t: Tree, tip: Option<Id>, s: Links, queue: seq<Id>, x: Id)
    requires IsTree(t) && LinkInv(t, s, queue) && x in t && (tip.Some? ==> tip.value in t && Linked(s.marks[tip.value]))
    ensures LinkAll(t, tip, s, queue).marks.Keys == t.Keys && Offered(t, tip, s, LinkAll(t, tip, s, queue), x)
    decreases |queue| + |s.unlinked|
  {
    if queue != [] {
      LinkOneKeeps(t, tip, s, queue);
      LinkOneMarks(t, tip, s, queue);
      var s1, q1 := LinkOne(t, tip, s, queue[0]), queue[1..] + Children(s.unlinked, queue[0]);
      LinkAllOffers(t, tip, s1, q1, x);
      LinkAllMark(t, tip, s1, q1, x);
      if tip.Some? {
        LinkAllMark(t, tip, s1, q1, tip.value);
      }
      OfferStep(t, tip, s, queue[0], s1, LinkAll(t, tip, s1, q1), x);
    }
  }

  lemma OfferStep(t: Tree, tip: Option<Id>, s: Links, id: Id, s1: Links, r: Links, x: Id)
    requires IsTree(t) && s.marks.Keys == r.marks.Keys == t.Keys && x in t && id in t && (tip.Some? ==> tip.value in t)
    requires s1 == LinkOne(t, tip, s, id)
    requires tip.Some? ==> Linked(s.marks[tip.value]) && MarkGrew(s1, r, tip.value)
    requires !Linked(s.marks[id]) && Linked(s1.marks[id])
    requires MarkGrew(s1, r, x) && Offered(t, tip, s1, r, x)
    ensures Offered(t, tip, s, r, x)
  {
  }
}
