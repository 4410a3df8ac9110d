/** Block order, usability of candidates and how unusable ones are taken out, the pure side of
    `findMostWorkBlockIndex` and `pruneBlockIndexCandidates`.
 */
module Candidates {
  import opened Basics
  import opened BlockTree
  import opened ActiveChain

  /** The fields of a block index that change after it was added: status bits, sequence number
      and transaction counts. */
  datatype Mark = Mark(failedValid: bool, failedChild: bool, haveData: bool, level: nat, seqId: nat, txs: nat,
                       chainTxs: nat)

  type Marks = map<Id, Mark>

  predicate Valid(m: Mark) {
    !m.failedValid && !m.failedChild
  }

  /** Valid and with data: a block one may switch to. */
  predicate Ok(m: Mark) {
    Valid(m) && m.haveData
  }

  predicate Linked(m: Mark) {
    m.chainTxs != 0
  }

  // ---------------------------------------------------------------- the order

  /** `BlockIndexWorkComparator`: more work is greater, then the earlier sequence number, then
      the smaller address. */
  predicate Less(t: Tree, m: Marks, a: Id, b: Id)
    requires a in t && b in t && a in m && b in m
  {
    if t[a].work != t[b].work then t[a].work < t[b].work
    else if m[a].seqId != m[b].seqId then m[a].seqId > m[b].seqId
    else a > b
  }

  /** The comparator is a strict total order, as the ordered set requires. */
  lemma LessIsStrict(t: Tree, m: Marks, a: Id, b: Id, c: Id)
    requires a in t && b in t && c in t && a in m && b in m && c in m
    ensures !Less(t, m, a, a)
    ensures a != b ==> (Less(t, m, a, b) <==> !Less(t, m, b, a))
    ensures Less(t, m, a, b) && Less(t, m, b, c) ==> Less(t, m, a, c)
  {
  }

  ghost predicate Known(t: Tree, m: Marks, s: set<Id>) {
    forall x :: x in s ==> x in t && x in m
  }

  ghost predicate IsGreatest(t: Tree, m: Marks, s: set<Id>, g: Id)
    requires Known(t, m, s)
  {
    g in s && forall x :: x in s && x != g ==> Less(t, m, x, g)
  }

  /** `*rbegin()` of the ordered set. */
  method Greatest(t: Tree, m: Marks, s: set<Id>) returns (g: Id)
    requires s != {} && Known(t, m, s)
    ensures IsGreatest(t, m, s, g)
  {
    g :| g in s;
    var rest := s - {g};
    while rest != {}
      invariant rest <= s && g in s && g !in rest
      invariant forall x :: x in s && x !in rest && x != g ==> Less(t, m, x, g)
      decreases |rest|
    {
      var y :| y in rest;
      if Less(t, m, g, y) {
        g := y;
      }
      rest := rest - {y};
    }
  }

  /** `*begin()` of the ordered set. */
  method Least(t: Tree, m: Marks, s: set<Id>) returns (g: Id)
    requires s != {} && Known(t, m, s)
    ensures g in s && forall x :: x in s && x != g ==> Less(t, m, g, x)
  {
    g :| g in s;
    var rest := s - {g};
    while rest != {}
      invariant rest <= s && g in s && g !in rest
      invariant forall x :: x in s && x !in rest && x != g ==> Less(t, m, g, x)
      decreases |rest|
    {
      var y :| y in rest;
      if Less(t, m, y, g) {
        g := y;
      }
      rest := rest - {y};
    }
  }

  /** `pruneBlockIndexCandidates`: erase from the front while worse than the tip. What is left
      is exactly what is not worse. */
  method Prune(t: Tree, m: Marks, s: set<Id>, tip: Id) returns (r: set<Id>)
    requires Known(t, m, s) && tip in t && tip in m
    ensures forall x :: x in r <==> x in s && !Less(t, m, x, tip)
  {
    r := s;
    while r != {}
      invariant r <= s && forall x :: x in s && x !in r ==> Less(t, m, x, tip)
      decreases |r|
    {
      var least := Least(t, m, r);
      if !Less(t, m, least, tip) {
        return;
      }
      r := r - {least};
    }
  }

  // ---------------------------------------------------------------- usable candidates

  /** Every block on the way down to the active chain, this one included, is ok. */
  predicate Usable(t: Tree, m: Marks, c: seq<Option<Id>>, id: Id)
    requires IsTree(t) && m.Keys == t.Keys && id in t
    decreases t[id].height
  {
    assert NodeOk(t, id);
    Contains(t, c, id) || (Ok(m[id]) && (t[id].prev.Some? ==> Usable(t, m, c, t[id].prev.value)))
  }

  /** The first block on the way down that is not ok, or null. */
  function FirstBad(t: Tree, m: Marks, c: seq<Option<Id>>, id: Option<Id>): (r: Option<Id>)
    requires IsTree(t) && m.Keys == t.Keys && (id.Some? ==> id.value in t)
    ensures r.Some? ==> id.Some? && r.value in t && t[r.value].height <= t[id.value].height && !Ok(m[r.value])
    decreases Level(t, id)
  {
    if id.None? || Contains(t, c, id.value) then None
    else if !Ok(m[id.value]) then id
    else
    assert NodeOk(t, id.value);
    FirstBad(t, m, c, t[id.value].prev)
  }

  lemma {:induction false} UsableIff(t: Tree, m: Marks, c: seq<Option<Id>>, id: Id)
    requires IsTree(t) && m.Keys == t.Keys && id in t
    ensures Usable(t, m, c, id) <==> FirstBad(t, m, c, Some(id)).None?
    decreases t[id].height
  {
    assert NodeOk(t, id);
    if t[id].prev.Some? {
      UsableIff(t, m, c, t[id].prev.value);
    }
  }

  /** Neither failed nor below a failed block, and with data. */
  ghost predicate Sane(m: Marks, x: Id)
    requires x in m
  {
    m[x].haveData && !m[x].failedValid && !m[x].failedChild
  }

  ghost predicate SaneAbove(t: Tree, m: Marks, id: Id, h: int)
    requires IsTree(t) && m.Keys == t.Keys && id in t
  {
    forall x :: x in t && h < t[x].height && IsAncestor(t, x, id) ==> Sane(m, x)
  }

  lemma {:induction false} ForkBelow(t: Tree, c: seq<Option<Id>>, id: Option<Id>)
    requires IsTree(t) && (id.Some? ==> id.value in t)
    ensures Level(t, Fork(t, c, id)) <= Level(t, id)
    decreases Level(t, id)
  {
    if id.Some? && !Contains(t, c, id.value) {
      assert NodeOk(t, id.value);
      ForkBelow(t, c, t[id.value].prev);
    }
  }

  /** A block is usable if and only if every block on its path above the fork with the active chain has data
      and is neither failed nor below a failed one. */
  lemma {:induction false} UsableExact(t: Tree, m: Marks, c: seq<Option<Id>>, id: Id)
    requires IsTree(t) && m.Keys == t.Keys && id in t
    ensures Usable(t, m, c, id) <==> SaneAbove(t, m, id, Level(t, Fork(t, c, Some(id))))
    decreases t[id].height
  {
    if !Contains(t, c, id) {
      assert NodeOk(t, id);
      var h := Level(t, Fork(t, c, t[id].prev));
      ForkBelow(t, c, t[id].prev);
      if t[id].prev.Some? {
        UsableExact(t, m, c, t[id].prev.value);
        SaneDown(t, m, id, h);
      } else {
        SaneRoot(t, m, id);
      }
    }
  }

  lemma SaneDown(t: Tree, m: Marks, id: Id, h: int)
    requires IsTree(t) && m.Keys == t.Keys && id in t && h < t[id].height && t[id].prev.Some?
    ensures t[id].prev.value in t
    ensures SaneAbove(t, m, id, h) <==> Sane(m, id) && SaneAbove(t, m, t[id].prev.value, h)
  {
    assert NodeOk(t, id);
    var p := t[id].prev.value;
    assert IsAncestor(t, id, id);
    forall x | x in t && x != id ensures IsAncestor(t, x, id) <==> IsAncestor(t, x, p) {
    }
    assert !IsAncestor(t, id, p);
  }

  lemma SaneRoot(t: Tree, m: Marks, id: Id)
    requires IsTree(t) && m.Keys == t.Keys && id in t && t[id].prev.None?
    ensures SaneAbove(t, m, id, -1) <==> Sane(m, id)
  {
    assert NodeOk(t, id);
    assert IsAncestor(t, id, id);
  }

  /** A strict ancestor is failed. */
  predicate DescendsFromFailed(t: Tree, m: Marks, id: Id)
    requires IsTree(t) && m.Keys == t.Keys && id in t
    decreases t[id].height
  {
    assert NodeOk(t, id);
    t[id].prev.Some? && (!Valid(m[t[id].prev.value]) || DescendsFromFailed(t, m, t[id].prev.value))
  }

  // ---------------------------------------------------------------- condemning a candidate

  datatype Selection = Selection(marks: Marks, candidates: set<Id>, unlinked: seq<(Id, Id)>)

  /** One step of the loop that takes out the chain from a candidate down to its bad block. */
  function CondemnOne(t: Tree, s: Selection, id: Id, prev: Id, failed: bool): Selection
    requires id in s.marks
  {
    Selection(if failed then s.marks[id := s.marks[id].(failedChild := true)] else s.marks,
              s.candidates - {id},
              if failed then s.unlinked else s.unlinked + [(prev, id)])
  }

  /** The whole loop. */
  function Condemn(t: Tree, s: Selection, from: Id, bad: Id, failed: bool): Selection
    requires IsTree(t) && s.marks.Keys == t.Keys && from in t && bad in t && IsAncestor(t, bad, from)
    decreases t[from].height
  {
    if from == bad then s.(candidates := s.candidates - {bad}) else
    assert NodeOk(t, from);
    var prev := t[from].prev.value;
    Condemn(t, CondemnOne(t, s, from, prev, failed), prev, bad, failed)
  }

  /** `x` is on the way from `from` down to height `h`. */
  ghost predicate OnWay(t: Tree, from: Id, h: nat, x: Id)
    requires IsTree(t) && from in t && x in t
  {
    h <= t[x].height && IsAncestor(t, x, from)
  }

  lemma WayDown(t: Tree, from: Id, h: nat, x: Id)
    requires IsTree(t) && from in t && x in t && h < t[from].height
    ensures t[from].prev.Some? && t[from].prev.value in t
    ensures OnWay(t, from, h, x) <==> x == from || OnWay(t, t[from].prev.value, h, x)
  {
    assert NodeOk(t, from);
  }

  /** Pairs of a parent and a child that lead from `from` down to `bad`, one block at a time. */
  ghost predicate LeadDown(t: Tree, pairs: seq<(Id, Id)>, from: Id, bad: Id) {
    if pairs == [] then from == bad
    else pairs[0].1 == from && from in t && t[from].prev == Some(pairs[0].0) && LeadDown(t, pairs[1..], pairs[0].0, bad)
  }

  /** The loop takes exactly the blocks from `from` down to `bad` out of the candidates, and if `bad` failed,
      marks exactly those above it as descending from a failed block. */
  lemma {:induction false} CondemnExact(t: Tree, s: Selection, from: Id, bad: Id, failed: bool)
    requires IsTree(t) && s.marks.Keys == t.Keys && from in t && bad in t && IsAncestor(t, bad, from)
    ensures var r := Condemn(t, s, from, bad, failed);
            && r.marks.Keys == t.Keys && r.candidates <= s.candidates
            && forall x :: x in t ==> CondemnedAt(t, s, r, from, bad, failed, x)
    decreases t[from].height
  {
    if from == bad {
      forall x | x in t ensures CondemnedAt(t, s, Condemn(t, s, from, bad, failed), from, bad, failed, x) {
        AncestorTwice(t, from, t[from].height, t[from].height);
      }
    } else {
      assert NodeOk(t, from);
      var p := t[from].prev.value;
      var s1 := CondemnOne(t, s, from, p, failed);
      CondemnExact(t, s1, p, bad, failed);
      CondemnMarks(t, s, s1, Condemn(t, s1, p, bad, failed), from, bad, failed);
    }
  }

  /** If `bad` lacks data, the loop puts exactly the blocks above it among the unlinked, each with its parent
      and from the top down; if it failed, none. */
  lemma {:induction false} CondemnRequeues(t: Tree, s: Selection, from: Id, bad: Id, failed: bool)
      returns (added: seq<(Id, Id)>)
    requires IsTree(t) && s.marks.Keys == t.Keys && from in t && bad in t && IsAncestor(t, bad, from)
    ensures Condemn(t, s, from, bad, failed).unlinked == s.unlinked + added
    ensures if failed then added == [] else LeadDown(t, added, from, bad)
    decreases t[from].height
  {
    added := [];
    if from != bad {
      assert NodeOk(t, from);
      var p := t[from].prev.value;
      var s1 := CondemnOne(t, s, from, p, failed);
      added := CondemnRequeues(t, s1, p, bad, failed);
      if !failed {
        assert s.unlinked + ([(p, from)] + added) == s1.unlinked + added;
        added := [(p, from)] + added;
        assert LeadDown(t, added[1..], p, bad);
      }
    }
  }

  ghost predicate CondemnedAt(t: Tree, s: Selection, r: Selection, from: Id, bad: Id, failed: bool, x: Id)
    requires IsTree(t) && s.marks.Keys == t.Keys == r.marks.Keys && from in t && bad in t && x in t
  {
    var way := OnWay(t, from, t[bad].height, x);
    && (x in r.candidates <==> x in s.candidates && !way)
    && r.marks[x] == if failed && way && x != bad then s.marks[x].(failedChild := true) else s.marks[x]
  }

  lemma CondemnMarks(t: Tree, s: Selection, s1: Selection, r: Selection, from: Id, bad: Id, failed: bool)
    requires IsTree(t) && s.marks.Keys == t.Keys == r.marks.Keys && from in t && bad in t && from != bad
    requires IsAncestor(t, bad, from) && t[from].prev.Some? && t[from].prev.value in t
    requires s1 == CondemnOne(t, s, from, t[from].prev.value, failed) && s1.marks.Keys == t.Keys
    requires forall x :: x in t ==> CondemnedAt(t, s1, r, t[from].prev.value, bad, failed, x)
    ensures forall x :: x in t ==> CondemnedAt(t, s, r, from, bad, failed, x)
  {
    assert NodeOk(t, from);
    var p := t[from].prev.value;
    forall x | x in t ensures CondemnedAt(t, s, r, from, bad, failed, x) {
      assert CondemnedAt(t, s1, r, p, bad, failed, x);
      WayDown(t, from, t[bad].height, x);
    }
  }

  /** From `s` to `r` the greatest candidate `g` was condemned down to the first bad block below it, as failed or
      as lacking data according to that block. */
  ghost predicate RightlyCondemned(t: Tree, c: seq<Option<Id>>, s: Selection, r: Selection, g: Id) {
    && IsTree(t) && s.marks.Keys == t.Keys && s.candidates <= t.Keys && IsGreatest(t, s.marks, s.candidates, g)
    && var bad := FirstBad(t, s.marks, c, Some(g));
       bad.Some? && IsAncestor(t, bad.value, g) && r == Condemn(t, s, g, bad.value, !Valid(s.marks[bad.value]))
  }

  lemma CondemnedRightly(t: Tree, c: seq<Option<Id>>, s: Selection, r: Selection, g: Id, bad: Id)
    requires IsTree(t) && s.marks.Keys == t.Keys && s.candidates <= t.Keys && IsGreatest(t, s.marks, s.candidates, g)
    requires FirstBad(t, s.marks, c, Some(g)) == Some(bad) && bad in t && IsAncestor(t, bad, g)
    requires r == Condemn(t, s, g, bad, !Valid(s.marks[bad]))
    ensures RightlyCondemned(t, c, s, r, g)
  {
  }

  /** A mark that may only have gained "descends from failed", and only rightly so. */
  ghost predicate MarkKept(t: Tree, c: seq<Option<Id>>, m: Marks, n: Marks, x: Id)
    requires IsTree(t) && m.Keys == t.Keys == n.Keys && x in t
  {
    n[x] == m[x] || (n[x] == m[x].(failedChild := true) && DescendsFromFailed(t, m, x) && !Usable(t, m, c, x))
  }

  /** From `s` to `r` only unusable candidates left, and only blocks that descend from failed
      ones were marked so. */
  ghost predicate Culled(t: Tree, c: seq<Option<Id>>, s: Selection, r: Selection)
    requires IsTree(t) && s.marks.Keys == t.Keys && s.candidates <= t.Keys
  {
    && r.marks.Keys == t.Keys && r.candidates <= s.candidates
    && (forall x :: x in s.candidates && x !in r.candidates ==> !Usable(t, s.marks, c, x))
    && (forall x :: x in t ==> MarkKept(t, c, s.marks, r.marks, x))
    && |s.unlinked| <= |r.unlinked| && r.unlinked[..|s.unlinked|] == s.unlinked
    && (forall i :: |s.unlinked| <= i < |r.unlinked| ==> WaitsRightly(t, c, s.marks, r.unlinked[i]))
  }

  /** A pair for the unlinked map: a parent and an unusable child of it. */
  ghost predicate WaitsRightly(t: Tree, c: seq<Option<Id>>, m: Marks, pair: (Id, Id))
    requires IsTree(t) && m.Keys == t.Keys
  {
    pair.1 in t && t[pair.1].prev == Some(pair.0) && !Usable(t, m, c, pair.1)
  }

  /** Culling changes the usability of no block. */
  lemma {:induction false} UsableKept(t: Tree, c: seq<Option<Id>>, m: Marks, n: Marks, id: Id)
    requires IsTree(t) && m.Keys == t.Keys == n.Keys && id in t
    requires forall x :: x in t ==> MarkKept(t, c, m, n, x)
    ensures Usable(t, m, c, id) == Usable(t, n, c, id)
    decreases t[id].height
  {
    assert NodeOk(t, id) && MarkKept(t, c, m, n, id);
    if t[id].prev.Some? {
      UsableKept(t, c, m, n, t[id].prev.value);
    }
  }

  lemma {:induction false} DescendsKept(t: Tree, c: seq<Option<Id>>, m: Marks, n: Marks, id: Id)
    requires IsTree(t) && m.Keys == t.Keys == n.Keys && id in t && DescendsFromFailed(t, n, id)
    requires forall x :: x in t ==> MarkKept(t, c, m, n, x)
    ensures DescendsFromFailed(t, m, id)
    decreases t[id].height
  {
    assert NodeOk(t, id);
    var p := t[id].prev.value;
    assert MarkKept(t, c, m, n, p);
    if Valid(n[p]) {
      DescendsKept(t, c, m, n, p);
    }
  }

  lemma MarksKeptTwice(t: Tree, c: seq<Option<Id>>, m: Marks, n: Marks, o: Marks, x: Id)
    requires IsTree(t) && m.Keys == t.Keys == n.Keys == o.Keys && x in t
    requires forall y :: y in t ==> MarkKept(t, c, m, n, y)
    requires MarkKept(t, c, n, o, x)
    ensures MarkKept(t, c, m, o, x)
  {
    assert MarkKept(t, c, m, n, x);
    if o[x] != n[x] {
      DescendsKept(t, c, m, n, x);
      UsableKept(t, c, m, n, x);
    }
  }

  lemma CulledTwice(t: Tree, c: seq<Option<Id>>, s: Selection, r: Selection, q: Selection)
    requires IsTree(t) && s.marks.Keys == t.Keys && s.candidates <= t.Keys && Culled(t, c, s, r) && Culled(t, c, r, q)
    ensures Culled(t, c, s, q)
  {
    forall x | x in s.candidates && x !in q.candidates ensures !Usable(t, s.marks, c, x) {
      UsableKept(t, c, s.marks, r.marks, x);
    }
    forall x | x in t ensures MarkKept(t, c, s.marks, q.marks, x) {
      MarksKeptTwice(t, c, s.marks, r.marks, q.marks, x);
    }
    WaitsTwice(t, c, s, r, q);
  }

  lemma WaitsTwice(t: Tree, c: seq<Option<Id>>, s: Selection, r: Selection, q: Selection)
    requires IsTree(t) && s.marks.Keys == t.Keys && s.candidates <= t.Keys && Culled(t, c, s, r) && Culled(t, c, r, q)
    ensures |s.unlinked| <= |q.unlinked| && q.unlinked[..|s.unlinked|] == s.unlinked
    ensures forall i :: |s.unlinked| <= i < |q.unlinked| ==> WaitsRightly(t, c, s.marks, q.unlinked[i])
  {
    assert q.unlinked[..|s.unlinked|] == q.unlinked[..|r.unlinked|][..|s.unlinked|];
    forall i | |s.unlinked| <= i < |q.unlinked| ensures WaitsRightly(t, c, s.marks, q.unlinked[i]) {
      if i < |r.unlinked| {
        assert q.unlinked[i] == q.unlinked[..|r.unlinked|][i];
      } else {
        assert WaitsRightly(t, c, r.marks, q.unlinked[i]);
        UsableKept(t, c, s.marks, r.marks, q.unlinked[i].1);
      }
    }
  }

  /** The walk from `from` meets `bad` before the chain, so every block between is unusable. */
  ghost predicate Doomed(t: Tree, m: Marks, c: seq<Option<Id>>, from: Id, bad: Id)
    requires IsTree(t) && m.Keys == t.Keys && from in t
    decreases t[from].height
  {
    && !Contains(t, c, from)
    && (if from == bad then !Ok(m[bad]) else
        assert NodeOk(t, from);
        t[from].prev.Some? && Doomed(t, m, c, t[from].prev.value, bad))
  }

  lemma {:induction false} FirstBadDooms(t: Tree, m: Marks, c: seq<Option<Id>>, from: Id, bad: Id)
    requires IsTree(t) && m.Keys == t.Keys && from in t && FirstBad(t, m, c, Some(from)) == Some(bad)
    ensures Doomed(t, m, c, from, bad)
    decreases t[from].height
  {
    assert NodeOk(t, from);
    if from != bad {
      FirstBadDooms(t, m, c, t[from].prev.value, bad);
    }
  }

  lemma {:induction false} DoomedFacts(t: Tree, m: Marks, c: seq<Option<Id>>, from: Id, bad: Id)
    requires IsTree(t) && m.Keys == t.Keys && from in t && Doomed(t, m, c, from, bad)
    ensures bad in t && IsAncestor(t, bad, from) && !Usable(t, m, c, from)
    ensures from != bad && !Valid(m[bad]) ==> DescendsFromFailed(t, m, from)
    decreases t[from].height
  {
    assert NodeOk(t, from);
    if from != bad {
      DoomedFacts(t, m, c, t[from].prev.value, bad);
    }
  }

  lemma {:induction false} DoomedKept(t: Tree, m: Marks, c: seq<Option<Id>>, from: Id, bad: Id, x: Id, k: Mark)
    requires IsTree(t) && m.Keys == t.Keys && from in t && x in t && t[from].height < t[x].height
    requires Doomed(t, m, c, from, bad)
    ensures Doomed(t, m[x := k], c, from, bad)
    decreases t[from].height
  {
    if from != bad {
      assert NodeOk(t, from);
      DoomedKept(t, m, c, t[from].prev.value, bad, x, k);
    }
  }

  lemma CondemnOneCulls(t: Tree, c: seq<Option<Id>>, s: Selection, from: Id, bad: Id, failed: bool)
    requires IsTree(t) && s.marks.Keys == t.Keys && s.candidates <= t.Keys && from in t && from != bad
    requires Doomed(t, s.marks, c, from, bad) && bad in t && failed == !Valid(s.marks[bad])
    ensures t[from].prev.Some? && t[from].prev.value in t
    ensures Culled(t, c, s, CondemnOne(t, s, from, t[from].prev.value, failed))
  {
    assert NodeOk(t, from);
    DoomedFacts(t, s.marks, c, from, bad);
    var r := CondemnOne(t, s, from, t[from].prev.value, failed);
    assert r.unlinked[..|s.unlinked|] == s.unlinked;
    forall x | x in t ensures MarkKept(t, c, s.marks, r.marks, x) {
    }
  }

  /** Condemning the chain down to its first bad block culls, and takes the candidate out. */
  lemma {:induction false} CondemnCulls(t: Tree, c: seq<Option<Id>>, s: Selection, from: Id, bad: Id, failed: bool)
    requires IsTree(t) && s.marks.Keys == t.Keys && s.candidates <= t.Keys && from in t && bad in t
    requires IsAncestor(t, bad, from) && Doomed(t, s.marks, c, from, bad) && failed == !Valid(s.marks[bad])
    ensures Culled(t, c, s, Condemn(t, s, from, bad, failed)) && from !in Condemn(t, s, from, bad, failed).candidates
    decreases t[from].height
  {
    if from == bad {
      DoomedFacts(t, s.marks, c, bad, bad);
    } else {
      CondemnOneCulls(t, c, s, from, bad, failed);
      var prev := t[from].prev.value;
      var r := CondemnOne(t, s, from, prev, failed);
      assert NodeOk(t, from);
      if failed {
        DoomedKept(t, s.marks, c, prev, bad, from, r.marks[from]);
      }
      DoomedFacts(t, r.marks, c, prev, bad);
      CondemnCulls(t, c, r, prev, bad, failed);
      CulledTwice(t, c, s, r, Condemn(t, r, prev, bad, failed));
    }
  }
}
