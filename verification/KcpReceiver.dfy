/** What the receiving half of an endpoint keeps, for any list of pieces `S` the peer has
    numbered: the queue is a contiguous slice of `S` ending just before `rcvNxt`, and the
    reorder buffer holds later pieces of `S` in order.
 */
module KcpReceiver {
  import opened Basics
  import opened KcpWire
  import opened Kcp

  const LIMIT := 0x8000_0000

  predicate Holds(buf: seq<Numbered>, i: int) {
    exists j :: 0 <= j < |buf| && buf[j].sn == i
  }

  /** Piece `i` has arrived. */
  predicate Has(r: Kcb, i: int) {
    i < r.rcvNxt || Holds(r.rcvBuf, i)
  }

  ghost predicate Ordered(buf: seq<Numbered>) {
    forall i, j :: 0 <= i < j < |buf| ==> buf[i].sn < buf[j].sn
  }

  /** Every entry is numbered in `[lo, hi)` and carries that piece of `S`. */
  ghost predicate Faithful(buf: seq<Numbered>, lo: int, hi: int, S: seq<Frag>) {
    hi <= |S| && forall i :: 0 <= i < |buf| ==> lo <= buf[i].sn < hi && buf[i].frag == S[buf[i].sn]
  }

  /** The receiver invariant without the promise that nothing ready is left waiting. */
  ghost predicate RcvCore(r: Kcb, hi: int, S: seq<Frag>) {
    && r.rcvNxt <= hi <= |S|
    && |r.rcvQueue| <= r.rcvNxt
    && r.rcvQueue == S[r.rcvNxt - |r.rcvQueue|..r.rcvNxt]
    && Ordered(r.rcvBuf)
    && Faithful(r.rcvBuf, r.rcvNxt, hi, S)
  }

  /** The next piece is held back only by a full queue. */
  ghost predicate Settled(r: Kcb) {
    r.rcvBuf != [] && r.rcvBuf[0].sn == r.rcvNxt ==> |r.rcvQueue| >= r.rcvWnd
  }

  ghost predicate RcvInv(r: Kcb, hi: int, S: seq<Frag>) {
    RcvCore(r, hi, S) && Settled(r)
  }

  /** The next piece, if it has arrived, is at the front of the reorder buffer. */
  lemma HeldIsFirst(r: Kcb, hi: int, S: seq<Frag>)
    requires RcvCore(r, hi, S) && Has(r, r.rcvNxt)
    ensures r.rcvBuf != [] && r.rcvBuf[0].sn == r.rcvNxt
  {
  }

  /** `r2` has received at least what `r1` had, and its reader is at the same place. */
  ghost predicate Grew(r1: Kcb, r2: Kcb) {
    && r1.rcvNxt <= r2.rcvNxt
    && r2.rcvNxt - |r2.rcvQueue| == r1.rcvNxt - |r1.rcvQueue|
    && forall i :: Has(r1, i) ==> Has(r2, i)
  }

  /** Only the receiving fields differ. */
  ghost predicate SameButReceived(k1: Kcb, k2: Kcb) {
    k2 == k1.(rcvBuf := k2.rcvBuf, rcvQueue := k2.rcvQueue, rcvNxt := k2.rcvNxt)
  }

  // ---------------------------------------------------------------- moving in-order pieces

  function MoveOne(r: Kcb): Kcb
    requires r.rcvBuf != []
  {
    r.(rcvBuf := r.rcvBuf[1..], rcvQueue := r.rcvQueue + [r.rcvBuf[0].frag], rcvNxt := Add32(r.rcvNxt, 1))
  }

  lemma MoveOneKeeps(r: Kcb, hi: int, S: seq<Frag>)
    requires RcvCore(r, hi, S) && hi < LIMIT
    requires r.rcvBuf != [] && r.rcvBuf[0].sn == r.rcvNxt
    ensures RcvCore(MoveOne(r), hi, S)
    ensures Grew(r, MoveOne(r))
  {
    var r1 := MoveOne(r);
    var from := r.rcvNxt - |r.rcvQueue|;
    assert r1.rcvNxt == r.rcvNxt + 1;
    assert S[from..r1.rcvNxt] == S[from..r.rcvNxt] + [S[r.rcvNxt]];
    forall i | Has(r, i) ensures Has(r1, i) {
      if i > r.rcvNxt {
        var j :| 0 <= j < |r.rcvBuf| && r.rcvBuf[j].sn == i;
        assert r1.rcvBuf[j - 1].sn == i;
      }
    }
  }

  lemma {:induction false} MoveReadyKeeps(r: Kcb, hi: int, S: seq<Frag>)
    requires RcvCore(r, hi, S) && hi < LIMIT
    ensures RcvInv(MoveReady(r), hi, S)
    ensures Grew(r, MoveReady(r))
    ensures SameButReceived(r, MoveReady(r))
    decreases |r.rcvBuf|
  {
    if r.rcvBuf != [] && r.rcvBuf[0].sn == r.rcvNxt && |r.rcvQueue| < r.rcvWnd {
      MoveOneKeeps(r, hi, S);
      MoveReadyKeeps(MoveOne(r), hi, S);
    }
  }

  // ---------------------------------------------------------------- the reorder buffer

  ghost predicate Small(buf: seq<Numbered>) {
    forall i :: 0 <= i < |buf| ==> buf[i].sn < LIMIT
  }

  lemma {:induction false} FindSlotCorrect(buf: seq<Numbered>, sn: U32, i: nat)
    requires Ordered(buf) && Small(buf) && sn < LIMIT && i <= |buf|
    requires forall j :: i <= j < |buf| ==> buf[j].sn > sn
    ensures var s := FindSlot(buf, sn, i);
            && (s.repeated <==> Holds(buf, sn))
            && (!s.repeated ==> forall j :: 0 <= j < s.at ==> buf[j].sn < sn)
            && (!s.repeated ==> forall j :: s.at <= j < |buf| ==> buf[j].sn > sn)
    decreases i
  {
    if i > 0 {
      TimeDiffIsPlain(sn, buf[i - 1].sn);
      if buf[i - 1].sn > sn {
        FindSlotCorrect(buf, sn, i - 1);
      } else if buf[i - 1].sn < sn {
        assert forall j :: 0 <= j < i - 1 ==> buf[j].sn < buf[i - 1].sn;
      }
    }
  }

  /** Putting `x` at index `at` of `buf`. */
  ghost predicate Placed(buf: seq<Numbered>, at: nat, x: Numbered, b: seq<Numbered>) {
    && at <= |buf| && |b| == |buf| + 1 && b[at] == x
    && (forall j :: 0 <= j < at ==> b[j] == buf[j])
    && (forall j :: at <= j < |buf| ==> b[j + 1] == buf[j])
  }

  lemma PlacedHolds(buf: seq<Numbered>, at: nat, x: Numbered, b: seq<Numbered>)
    requires Placed(buf, at, x, b)
    ensures forall i :: Holds(b, i) <==> Holds(buf, i) || i == x.sn
  {
    forall i | Holds(buf, i) ensures Holds(b, i) {
      var j :| 0 <= j < |buf| && buf[j].sn == i;
      if j < at { assert b[j].sn == i; } else { assert b[j + 1].sn == i; }
    }
    forall i | Holds(b, i) && i != x.sn ensures Holds(buf, i) {
      var j :| 0 <= j < |b| && b[j].sn == i;
      if j < at { assert buf[j].sn == i; } else { assert b[(j - 1) + 1] == buf[j - 1]; }
    }
    assert b[at].sn == x.sn;
  }

  lemma PlacedOrdered(buf: seq<Numbered>, at: nat, x: Numbered, b: seq<Numbered>)
    requires Ordered(buf) && Placed(buf, at, x, b)
    requires forall j :: 0 <= j < at ==> buf[j].sn < x.sn
    requires forall j :: at <= j < |buf| ==> buf[j].sn > x.sn
    ensures Ordered(b)
  {
    forall i, j | 0 <= i < j < |b| ensures b[i].sn < b[j].sn {
      if j > at { assert b[(j - 1) + 1] == buf[j - 1]; }
      if i > at { assert b[(i - 1) + 1] == buf[i - 1]; }
    }
  }

  lemma PlacedFaithful(buf: seq<Numbered>, at: nat, x: Numbered, b: seq<Numbered>, lo: int, hi: int, S: seq<Frag>)
    requires Faithful(buf, lo, hi, S) && Placed(buf, at, x, b)
    requires lo <= x.sn < hi && x.frag == S[x.sn]
    ensures Faithful(b, lo, hi, S)
  {
    forall j | 0 <= j < |b| ensures lo <= b[j].sn < hi && b[j].frag == S[b[j].sn] {
      if j > at { assert b[(j - 1) + 1] == buf[j - 1]; }
    }
  }

  /** Insertion keeps the buffer ordered, faithful and duplicate free, and adds exactly the
      new number. */
  lemma InsertKeeps(buf: seq<Numbered>, x: Numbered, lo: int, hi: int, S: seq<Frag>)
    requires Ordered(buf) && Faithful(buf, lo, hi, S) && hi < LIMIT
    requires lo <= x.sn < hi && x.frag == S[x.sn]
    ensures Ordered(Insert(buf, x)) && Faithful(Insert(buf, x), lo, hi, S)
    ensures forall i :: Holds(Insert(buf, x), i) <==> Holds(buf, i) || i == x.sn
  {
    FindSlotCorrect(buf, x.sn, |buf|);
    var s := FindSlot(buf, x.sn, |buf|);
    if !s.repeated {
      var b := buf[..s.at] + [x] + buf[s.at..];
      assert Placed(buf, s.at, x, b);
      PlacedHolds(buf, s.at, x, b);
      PlacedOrdered(buf, s.at, x, b);
      PlacedFaithful(buf, s.at, x, b, lo, hi, S);
    }
  }

  // ---------------------------------------------------------------- one received segment

  /** A push segment of the peer: numbered below `hi` and carrying that piece. */
  ghost predicate Genuine(s: Seg, hi: int, S: seq<Frag>) {
    s.cmd == CMD_PUSH ==> s.sn < hi <= |S| && Frag(s.frg, s.data) == S[s.sn]
  }

  ghost predicate AcksHeld(r: Kcb) {
    forall i :: 0 <= i < |r.acks| ==> Has(r, r.acks[i].sn)
  }

  /** Receiver-visible fields agree. */
  ghost predicate SameReceiver(k1: Kcb, k2: Kcb) {
    && k1.rcvNxt == k2.rcvNxt && k1.rcvWnd == k2.rcvWnd && k1.acks == k2.acks
    && k1.rcvBuf == k2.rcvBuf && k1.rcvQueue == k2.rcvQueue
  }

  lemma ParseDataKeeps(r: Kcb, x: Numbered, hi: int, S: seq<Frag>)
    requires RcvInv(r, hi, S) && hi + r.rcvWnd < LIMIT
    requires x.sn < hi && x.frag == S[x.sn]
    ensures RcvInv(ParseData(r, x), hi, S)
    ensures Grew(r, ParseData(r, x))
    ensures SameButReceived(r, ParseData(r, x))
    ensures x.sn < r.rcvNxt + r.rcvWnd ==> Has(ParseData(r, x), x.sn)
    ensures x.sn < r.rcvNxt || x.sn >= r.rcvNxt + r.rcvWnd ==> ParseData(r, x) == r
  {
    TimeDiffIsPlain(x.sn, Add32(r.rcvNxt, r.rcvWnd));
    TimeDiffIsPlain(x.sn, r.rcvNxt);
    if InWindow(r, x.sn) {
      InsertKeeps(r.rcvBuf, x, r.rcvNxt, hi, S);
      var r1 := r.(rcvBuf := Insert(r.rcvBuf, x));
      assert Has(r1, x.sn);
      assert Grew(r, r1);
      MoveReadyKeeps(r1, hi, S);
    }
  }

  /** Only the receiving fields and the pending acknowledgements differ. */
  ghost predicate SameButArrived(k1: Kcb, k2: Kcb) {
    k2 == k1.(acks := k2.acks, rcvBuf := k2.rcvBuf, rcvQueue := k2.rcvQueue, rcvNxt := k2.rcvNxt)
  }

  lemma ProcessPushKeeps(r: Kcb, s: Seg, hi: int, S: seq<Frag>)
    requires RcvInv(r, hi, S) && hi + r.rcvWnd < LIMIT && AcksHeld(r)
    requires s.cmd == CMD_PUSH && Genuine(s, hi, S)
    ensures var r1 := ProcessPush(r, s); RcvInv(r1, hi, S) && Grew(r, r1) && AcksHeld(r1) && SameButArrived(r, r1)
  {
    TimeDiffIsPlain(s.sn, Add32(r.rcvNxt, r.rcvWnd));
    TimeDiffIsPlain(s.sn, r.rcvNxt);
    if s.sn < r.rcvNxt + r.rcvWnd {
      var r0 := r.(acks := r.acks + [Ack(s.sn, s.ts)]);
      assert SameHeld(r, r0);
      if s.sn >= r.rcvNxt {
        ArrivalKeeps(r, r0, Numbered(s.sn, Frag(s.frg, s.data)), s, hi, S);
      } else {
        AcksStayHeld(r, s, r0);
      }
    }
  }

  ghost predicate SameHeld(k1: Kcb, k2: Kcb) {
    k1.rcvNxt == k2.rcvNxt && k1.rcvWnd == k2.rcvWnd && k1.rcvBuf == k2.rcvBuf && k1.rcvQueue == k2.rcvQueue
  }

  lemma ArrivalKeeps(r: Kcb, r0: Kcb, x: Numbered, s: Seg, hi: int, S: seq<Frag>)
    requires RcvInv(r, hi, S) && hi + r.rcvWnd < LIMIT && AcksHeld(r) && SameHeld(r, r0)
    requires r0 == r.(acks := r.acks + [Ack(s.sn, s.ts)])
    requires x.sn == s.sn < hi && x.frag == S[x.sn] && x.sn < r.rcvNxt + r.rcvWnd
    ensures var r1 := ParseData(r0, x); RcvInv(r1, hi, S) && Grew(r, r1) && AcksHeld(r1) && SameButArrived(r, r1)
  {
    ParseDataKeeps(r0, x, hi, S);
    AcksStayHeld(r, s, ParseData(r0, x));
  }

  lemma AcksStayHeld(r: Kcb, s: Seg, r1: Kcb)
    requires AcksHeld(r) && (forall i :: Has(r, i) ==> Has(r1, i)) && Has(r1, s.sn)
    requires r1.acks == r.acks + [Ack(s.sn, s.ts)]
    ensures AcksHeld(r1)
  {
  }

  lemma ProcessAsReceiver(r: Kcb, s: Seg, hi: int, S: seq<Frag>)
    requires RcvInv(r, hi, S) && hi + r.rcvWnd < LIMIT && AcksHeld(r) && Genuine(s, hi, S)
    ensures var r1 := Process(r, s); RcvInv(r1, hi, S) && Grew(r, r1) && AcksHeld(r1)
  {
    var k1 := Shrink(r.(rmtWnd := s.wnd, sndBuf := DropBelow(r.sndBuf, s.una)));
    assert SameReceiver(r, k1);
    if s.cmd == CMD_PUSH {
      ProcessPushKeeps(k1, s, hi, S);
    } else {
      assert SameReceiver(r, Process(r, s));
    }
  }
}
