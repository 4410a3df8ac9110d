/** What the sending half of an endpoint keeps, for the list of pieces `S` cut from all the
    messages it accepted: the first `sndNxt` are numbered, the rest wait in the queue, and
    the send buffer holds some of the numbered ones in order.
 */
module KcpSender {
  import opened Basics
  import opened KcpWire
  import opened Kcp
  import opened KcpReceiver

  predicate InFlight(buf: seq<Outgoing>, i: int) {
    exists j :: 0 <= j < |buf| && buf[j].sn == i
  }

  ghost predicate Ascending(buf: seq<Outgoing>) {
    forall i, j :: 0 <= i < j < |buf| ==> buf[i].sn < buf[j].sn
  }

  /** Every entry is numbered below `hi` and carries that piece of `S`. */
  ghost predicate Numbering(buf: seq<Outgoing>, hi: int, S: seq<Frag>) {
    hi <= |S| && forall i :: 0 <= i < |buf| ==> buf[i].sn < hi && buf[i].frag == S[buf[i].sn]
  }

  ghost predicate SndInv(s: Kcb, S: seq<Frag>) {
    && s.sndNxt <= |S|
    && s.sndQueue == S[s.sndNxt..]
    && Numbering(s.sndBuf, s.sndNxt, S)
    && Ascending(s.sndBuf)
    && s.sndUna == (if s.sndBuf != [] then s.sndBuf[0].sn else s.sndNxt)
  }

  // ---------------------------------------------------------------- acknowledgements

  ghost predicate SmallOut(buf: seq<Outgoing>) {
    forall i :: 0 <= i < |buf| ==> buf[i].sn < LIMIT
  }

  /** `b` holds only entries of `buf`, in the same order. */
  ghost predicate Thinned(buf: seq<Outgoing>, b: seq<Outgoing>) {
    Ascending(b) && forall j :: 0 <= j < |b| ==> b[j] in buf
  }

  /** A cumulative acknowledgement removes exactly the entries below it. */
  lemma {:induction false} DropBelowExact(buf: seq<Outgoing>, una: U32)
    requires Ascending(buf) && SmallOut(buf) && una < LIMIT
    ensures Thinned(buf, DropBelow(buf, una))
    ensures forall i :: InFlight(DropBelow(buf, una), i) <==> InFlight(buf, i) && i >= una
    decreases |buf|
  {
    if buf != [] {
      TimeDiffIsPlain(una, buf[0].sn);
      if una > buf[0].sn {
        DropBelowExact(buf[1..], una);
        forall i | InFlight(buf, i) && i >= una ensures InFlight(buf[1..], i) {
          var j :| 0 <= j < |buf| && buf[j].sn == i;
          assert buf[1..][j - 1].sn == i;
        }
      }
    }
  }

  /** A selective acknowledgement removes exactly its own entry. */
  lemma {:induction false} DropAckedExact(buf: seq<Outgoing>, sn: U32)
    requires Ascending(buf) && SmallOut(buf) && sn < LIMIT
    ensures Thinned(buf, DropAcked(buf, sn))
    ensures forall i :: InFlight(DropAcked(buf, sn), i) <==> InFlight(buf, i) && i != sn
    decreases |buf|
  {
    if buf != [] {
      TimeDiffIsPlain(sn, buf[0].sn);
      HeadTail(buf);
      if buf[0].sn < sn {
        var rest := DropAcked(buf[1..], sn);
        DropAckedExact(buf[1..], sn);
        HeadTail([buf[0]] + rest);
        assert ([buf[0]] + rest)[1..] == rest;
      }
    }
  }

  lemma HeadTail(buf: seq<Outgoing>)
    requires buf != []
    ensures forall i :: InFlight(buf, i) <==> i == buf[0].sn || InFlight(buf[1..], i)
  {
    forall i | InFlight(buf, i) && i != buf[0].sn ensures InFlight(buf[1..], i) {
      var j :| 0 <= j < |buf| && buf[j].sn == i;
      assert buf[1..][j - 1].sn == i;
    }
    forall i | InFlight(buf[1..], i) ensures InFlight(buf, i) {
      var j :| 0 <= j < |buf[1..]| && buf[1..][j].sn == i;
      assert buf[j + 1].sn == i;
    }
    assert buf[0].sn == buf[0].sn;
  }

  lemma ThinnedKeeps(s: Kcb, S: seq<Frag>, b: seq<Outgoing>)
    requires SndInv(s, S) && Thinned(s.sndBuf, b)
    ensures SndInv(Shrink(s.(sndBuf := b)), S)
  {
    forall j | 0 <= j < |b| ensures b[j].sn < s.sndNxt && b[j].frag == S[b[j].sn] {
      assert b[j] in s.sndBuf;
    }
  }

  /** `ikcp_shrink_buf` makes `sndUna` the least number in flight, and `sndNxt` when nothing is. */
  lemma ShrinkIsLeast(k: Kcb)
    requires Ascending(k.sndBuf)
    ensures var u := Shrink(k).sndUna;
            && (forall i :: InFlight(k.sndBuf, i) ==> u <= i)
            && (if k.sndBuf == [] then u == k.sndNxt else InFlight(k.sndBuf, u))
  {
    forall i | InFlight(k.sndBuf, i) ensures Shrink(k).sndUna <= i {
      var j :| 0 <= j < |k.sndBuf| && k.sndBuf[j].sn == i;
      assert j > 0 ==> k.sndBuf[0].sn < k.sndBuf[j].sn;
    }
    if k.sndBuf != [] {
      assert k.sndBuf[0].sn == Shrink(k).sndUna;
    }
  }

  /** `ikcp_waitsnd` counts the pieces not yet acknowledged: those in flight and those not yet
      numbered. It is zero exactly when everything accepted was numbered and acknowledged. */
  lemma WaitSndCounts(k: Kcb, S: seq<Frag>)
    requires SndInv(k, S)
    ensures WaitSnd(k) == |k.sndBuf| + (|S| - k.sndNxt)
    ensures WaitSnd(k) == 0 <==> k.sndNxt == |S| && forall i :: !InFlight(k.sndBuf, i)
  {
    if k.sndBuf != [] {
      assert InFlight(k.sndBuf, k.sndBuf[0].sn);
    }
  }

  /** The number a segment acknowledges selectively, if any. */
  predicate Acknowledges(s: Seg, i: int) {
    i < s.una || (s.cmd == CMD_ACK && i == s.sn)
  }

  lemma ParseAckExact(k: Kcb, sn: U32, S: seq<Frag>)
    requires SndInv(k, S) && |S| < LIMIT && sn < LIMIT
    ensures SndInv(Shrink(ParseAck(k, sn)), S)
    ensures forall i :: InFlight(ParseAck(k, sn).sndBuf, i) <==> InFlight(k.sndBuf, i) && i != sn
  {
    TimeDiffIsPlain(sn, k.sndUna);
    TimeDiffIsPlain(sn, k.sndNxt);
    DropAckedExact(k.sndBuf, sn);
    ThinnedKeeps(k, S, DropAcked(k.sndBuf, sn));
    if sn < k.sndUna {
      forall j | 0 <= j < |k.sndBuf| ensures k.sndBuf[j].sn != sn {
        assert j > 0 ==> k.sndBuf[0].sn < k.sndBuf[j].sn;
      }
    }
  }

  /** A received segment takes out of the send buffer exactly what it acknowledges, whether
      or not the peer was honest. */
  lemma ProcessAsSender(k: Kcb, s: Seg, S: seq<Frag>)
    requires SndInv(k, S) && |S| < LIMIT && s.una < LIMIT && (s.cmd == CMD_ACK ==> s.sn < LIMIT)
    ensures SndInv(Process(k, s), S)
    ensures forall i :: InFlight(Process(k, s).sndBuf, i) <==> InFlight(k.sndBuf, i) && !Acknowledges(s, i)
    ensures Process(k, s).sndNxt == k.sndNxt
  {
    DropBelowExact(k.sndBuf, s.una);
    var k0 := k.(rmtWnd := s.wnd);
    assert SndInv(k0, S);
    ThinnedKeeps(k0, S, DropBelow(k.sndBuf, s.una));
    var k1 := Shrink(k.(rmtWnd := s.wnd, sndBuf := DropBelow(k.sndBuf, s.una)));
    assert SndInv(k1, S);
    if s.cmd == CMD_ACK {
      ParseAckExact(k1, s.sn, S);
    } else if s.cmd == CMD_PUSH {
      PushLeavesSender(k1, s);
    }
  }

  lemma PushLeavesSender(k: Kcb, s: Seg)
    ensures SameSender(k, ProcessPush(k, s))
  {
    var k1 := k.(acks := k.acks + [Ack(s.sn, s.ts)]);
    var x := Numbered(s.sn, Frag(s.frg, s.data));
    MoveLeavesSender(k1.(rcvBuf := Insert(k1.rcvBuf, x)));
  }

  lemma {:induction false} MoveLeavesSender(k: Kcb)
    ensures SameSender(k, MoveReady(k))
    decreases |k.rcvBuf|
  {
    if k.rcvBuf != [] && k.rcvBuf[0].sn == k.rcvNxt && |k.rcvQueue| < k.rcvWnd {
      MoveLeavesSender(MoveOne(k));
    }
  }

  ghost predicate SameSender(k1: Kcb, k2: Kcb) {
    && k1.sndNxt == k2.sndNxt && k1.sndUna == k2.sndUna
    && k1.sndBuf == k2.sndBuf && k1.sndQueue == k2.sndQueue
    && k1.conv == k2.conv && k1.mtu == k2.mtu && k1.rcvWnd == k2.rcvWnd && k1.updated == k2.updated
  }

  // ---------------------------------------------------------------- numbering

  function NumberOne(k: Kcb): Kcb
    requires k.sndQueue != []
  {
    k.(sndQueue := k.sndQueue[1..],
       sndBuf := k.sndBuf + [Outgoing(k.sndNxt, k.sndQueue[0], 0)],
       sndNxt := Add32(k.sndNxt, 1))
  }

  /** Everything numbered so far stays in flight and every new number enters flight. */
  ghost predicate Launched(k1: Kcb, k2: Kcb) {
    && k1.sndNxt <= k2.sndNxt
    && (forall i :: InFlight(k1.sndBuf, i) ==> InFlight(k2.sndBuf, i))
    && (forall i :: k1.sndNxt <= i < k2.sndNxt ==> InFlight(k2.sndBuf, i))
  }

  lemma NumberOneKeeps(k: Kcb, S: seq<Frag>)
    requires SndInv(k, S) && |S| < LIMIT && k.sndQueue != []
    ensures SndInv(NumberOne(k), S)
    ensures Launched(k, NumberOne(k))
  {
    var k1 := NumberOne(k);
    assert k1.sndNxt == k.sndNxt + 1;
    assert k1.sndQueue == S[k.sndNxt..][1..] == S[k1.sndNxt..];
    assert k1.sndBuf[|k.sndBuf|].sn == k.sndNxt;
    forall i | InFlight(k.sndBuf, i) ensures InFlight(k1.sndBuf, i) {
      var j :| 0 <= j < |k.sndBuf| && k.sndBuf[j].sn == i;
      assert k1.sndBuf[j].sn == i;
    }
  }

  lemma {:induction false} NumberKeeps(k: Kcb, cwnd: U32, S: seq<Frag>)
    requires SndInv(k, S) && |S| < LIMIT
    ensures SndInv(Number(k, cwnd), S)
    ensures Launched(k, Number(k, cwnd))
    ensures var k2 := Number(k, cwnd); k2 == k.(sndQueue := k2.sndQueue, sndBuf := k2.sndBuf, sndNxt := k2.sndNxt)
    decreases |k.sndQueue|
  {
    if TimeDiff(k.sndNxt, Add32(k.sndUna, cwnd)) < 0 && k.sndQueue != [] {
      NumberOneKeeps(k, S);
      NumberKeeps(NumberOne(k), cwnd, S);
    }
  }

  lemma {:induction false} CountSendsSame(env: Env, buf: seq<Outgoing>)
    ensures var b := CountSends(env, buf);
            |b| == |buf| && forall i :: 0 <= i < |buf| ==> b[i].sn == buf[i].sn && b[i].frag == buf[i].frag
    decreases |buf|
  {
    if buf != [] {
      CountSendsSame(env, buf[1..]);
    }
  }

  /** A flush keeps the sender invariant and loses no number. */
  lemma FlushAsSender(k: Kcb, env: Env, S: seq<Frag>)
    requires SndInv(k, S) && |S| < LIMIT
    ensures SndInv(Flush(k, env), S)
    ensures Launched(k, Flush(k, env))
  {
    if k.updated {
      var k1 := Number(k, SendWindow(k, env));
      NumberKeeps(k, SendWindow(k, env), S);
      CountSendsSame(env, k1.sndBuf);
      var b := CountSends(env, k1.sndBuf);
      forall i | InFlight(k1.sndBuf, i) ensures InFlight(b, i) {
        var j :| 0 <= j < |k1.sndBuf| && k1.sndBuf[j].sn == i;
        assert b[j].sn == i;
      }
    }
  }

  lemma FlushAsReceiver(k: Kcb, env: Env)
    ensures var k1 := Flush(k, env);
            k1.rcvNxt == k.rcvNxt && k1.rcvBuf == k.rcvBuf && k1.rcvQueue == k.rcvQueue && k1.rcvWnd == k.rcvWnd
    ensures var k1 := Flush(k, env); k1.conv == k.conv && k1.mtu == k.mtu
    ensures k.updated ==> Flush(k, env).acks == []
    ensures !k.updated ==> Flush(k, env) == k
  {
    NumberLeavesReceiver(k, SendWindow(k, env));
  }

  lemma {:induction false} NumberLeavesReceiver(k: Kcb, cwnd: U32)
    ensures var k2 := Number(k, cwnd); k2 == k.(sndQueue := k2.sndQueue, sndBuf := k2.sndBuf, sndNxt := k2.sndNxt)
    decreases |k.sndQueue|
  {
    if TimeDiff(k.sndNxt, Add32(k.sndUna, cwnd)) < 0 && k.sndQueue != [] {
      NumberLeavesReceiver(NumberOne(k), cwnd);
    }
  }

  // ---------------------------------------------------------------- what a flush puts on the wire

  /** An honest segment of `k`: it acknowledges only what `k` has, and pushes only pieces
      numbered below `hi`. */
  ghost predicate Honest(k: Kcb, x: Seg, hi: int, S: seq<Frag>) {
    && x.una <= k.rcvNxt
    && (x.cmd == CMD_ACK ==> Has(k, x.sn))
    && Genuine(x, hi, S)
  }

  /** A segment `k` may hand to the packer. */
  ghost predicate Packable(k: Kcb, x: Seg) {
    Sendable(k.conv, x) && OVERHEAD + |x.data| <= k.mtu
  }

  ghost predicate GoodSegs(k: Kcb, segs: seq<Seg>, hi: int, S: seq<Frag>) {
    forall i :: 0 <= i < |segs| ==> Honest(k, segs[i], hi, S) && Packable(k, segs[i])
  }

  ghost predicate ShortPieces(S: seq<Frag>, k: Kcb)
    requires k.Configured()
  {
    forall i :: 0 <= i < |S| ==> |S[i].data| <= k.Mss()
  }

  lemma {:induction false} AckSegsGood(k: Kcb, acks: seq<Ack>, hi: int, S: seq<Frag>)
    requires k.Configured()
    requires forall i :: 0 <= i < |acks| ==> Has(k, acks[i].sn)
    ensures GoodSegs(k, AckSegs(k, acks), hi, S)
    decreases |acks|
  {
    if acks != [] {
      AckSegsGood(k, acks[1..], hi, S);
    }
  }

  lemma {:induction false} PushSegsGood(k: Kcb, env: Env, buf: seq<Outgoing>, hi: int, S: seq<Frag>)
    requires k.Configured() && Numbering(buf, hi, S) && ShortPieces(S, k)
    ensures GoodSegs(k, PushSegs(k, env, buf), hi, S)
    decreases |buf|
  {
    if buf != [] {
      PushSegsGood(k, env, buf[1..], hi, S);
    }
  }

  lemma FlushSegsGood(k: Kcb, env: Env, S: seq<Frag>)
    requires k.Configured() && SndInv(k, S) && |S| < LIMIT && AcksHeld(k) && ShortPieces(S, k)
    ensures GoodSegs(k, FlushSegs(k, env), Flush(k, env).sndNxt, S)
  {
    if k.updated {
      var k1 := Number(k, SendWindow(k, env));
      NumberKeeps(k, SendWindow(k, env), S);
      AckSegsGood(k, k.acks, k1.sndNxt, S);
      PushSegsGood(k, env, k1.sndBuf, k1.sndNxt, S);
    }
  }

  /** Every datagram a flush outputs is non-empty, within the mtu, parses cleanly, and its
      segments are honest. */
  lemma FlushOutputGood(k: Kcb, env: Env, S: seq<Frag>, d: Bytes, x: Seg)
    requires k.Configured() && SndInv(k, S) && |S| < LIMIT && AcksHeld(k) && ShortPieces(S, k)
    requires d in FlushOutput(k, env)
    ensures Datagram(k.conv, k.mtu, d)
    ensures x in Parse(k.conv, d).segs ==> Honest(k, x, Flush(k, env).sndNxt, S)
  {
    FlushCarriesSegments(k, env, S);
    FlushSegsGood(k, env, S);
    if x in Parse(k.conv, d).segs {
      ParseEachMember(k.conv, FlushOutput(k, env), d);
      OnWireHonest(k, FlushSegs(k, env), Flush(k, env).sndNxt, S, x);
    }
  }

  lemma OnWireHonest(k: Kcb, segs: seq<Seg>, hi: int, S: seq<Frag>, x: Seg)
    requires GoodSegs(k, segs, hi, S) && x in AllOnWire(segs)
    ensures Honest(k, x, hi, S)
  {
    var i :| 0 <= i < |segs| && AllOnWire(segs)[i] == x;
    assert Honest(k, segs[i], hi, S);
  }

  /** The datagrams of a flush carry exactly the acknowledgements, probes and data segments
      of that flush, in that order. */
  lemma FlushCarriesSegments(k: Kcb, env: Env, S: seq<Frag>)
    requires k.Configured() && SndInv(k, S) && |S| < LIMIT && AcksHeld(k) && ShortPieces(S, k)
    ensures Carries(k.conv, k.mtu, FlushOutput(k, env), FlushSegs(k, env))
  {
    var segs := FlushSegs(k, env);
    FlushSegsGood(k, env, S);
    assert [] + segs == segs;
    PackCorrect(k.conv, k.mtu, [], segs);
  }
}
