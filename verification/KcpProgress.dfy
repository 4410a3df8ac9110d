/** What keeps the transport moving: queued pieces are numbered while the window has room, a due
    piece is put on the wire, it arrives when its datagram does, and its acknowledgement takes it
    out of the sender's buffer.
 */
module KcpProgress {
  import opened Basics
  import opened KcpWire
  import opened Kcp
  import opened KcpReceiver
  import opened KcpSender
  import opened KcpMessages
  import opened KcpNetwork

  // ---------------------------------------------------------------- numbering

  /** Where numbering stops: at the window's edge or when the queue is empty. */
  function NumberedUpTo(nxt: int, una: int, cwnd: int, waiting: nat): int {
    if una + cwnd <= nxt then nxt else if una + cwnd <= nxt + waiting then una + cwnd else nxt + waiting
  }

  /** A flush numbers exactly as many pieces as the window admits. */
  lemma {:induction false} NumberFillsWindow(k: Kcb, cwnd: U32)
    requires k.sndUna + cwnd < LIMIT && k.sndNxt + |k.sndQueue| < LIMIT
    ensures Number(k, cwnd).sndNxt == NumberedUpTo(k.sndNxt, k.sndUna, cwnd, |k.sndQueue|)
    decreases |k.sndQueue|
  {
    TimeDiffIsPlain(k.sndNxt, Add32(k.sndUna, cwnd));
    if k.sndNxt < k.sndUna + cwnd && k.sndQueue != [] {
      NumberFillsWindow(NumberOne(k), cwnd);
    }
  }

  // ---------------------------------------------------------------- onto the wire

  lemma {:induction false} ParseEachSource(conv: U32, ds: seq<Bytes>, x: Seg) returns (d: Bytes)
    requires x in ParseEach(conv, ds)
    ensures d in ds && x in Parse(conv, d).segs
    decreases |ds|
  {
    if x in Parse(conv, ds[0]).segs {
      d := ds[0];
    } else {
      d := ParseEachSource(conv, ds[1..], x);
    }
  }

  /** Every segment of a flush is in one of its datagrams. */
  lemma FlushPuts(k: Kcb, env: Env, S: seq<Frag>, s: Seg) returns (d: Bytes)
    requires k.Configured() && SndInv(k, S) && |S| < LIMIT && AcksHeld(k) && ShortPieces(S, k)
    requires s in FlushSegs(k, env)
    ensures d in FlushOutput(k, env) && OnWire(s) in Parse(k.conv, d).segs
  {
    FlushCarriesSegments(k, env, S);
    var segs := FlushSegs(k, env);
    var i :| 0 <= i < |segs| && segs[i] == s;
    assert AllOnWire(segs)[i] == OnWire(s);
    d := ParseEachSource(k.conv, FlushOutput(k, env), OnWire(s));
  }

  lemma {:induction false} PushSegsHas(k: Kcb, env: Env, buf: seq<Outgoing>, j: nat)
    requires j < |buf| && Due(buf[j], env)
    ensures PushSeg(k, env.now, buf[j]) in PushSegs(k, env, buf)
    decreases |buf|
  {
    if j > 0 {
      PushSegsHas(k, env, buf[1..], j - 1);
    }
  }

  lemma {:induction false} AckSegsHas(k: Kcb, acks: seq<Ack>, a: Ack)
    requires a in acks
    ensures AckSeg(k, a) in AckSegs(k, acks)
    decreases |acks|
  {
    if acks[0] != a {
      AckSegsHas(k, acks[1..], a);
    }
  }

  // ---------------------------------------------------------------- arrival

  /** A data segment within the window is received and acknowledged. */
  lemma ProcessArrives(r: Kcb, s: Seg, hi: int, S: seq<Frag>)
    requires RcvInv(r, hi, S) && hi + r.rcvWnd < LIMIT && AcksHeld(r)
    requires s.cmd == CMD_PUSH && Genuine(s, hi, S) && s.sn < r.rcvNxt + r.rcvWnd
    ensures Has(Process(r, s), s.sn) && Ack(s.sn, s.ts) in Process(r, s).acks
  {
    var k := Shrink(r.(rmtWnd := s.wnd, sndBuf := DropBelow(r.sndBuf, s.una)));
    assert SameReceiver(r, k);
    PushArrives(k, s, hi, S);
  }

  lemma PushArrives(r: Kcb, s: Seg, hi: int, S: seq<Frag>)
    requires RcvInv(r, hi, S) && hi + r.rcvWnd < LIMIT
    requires s.cmd == CMD_PUSH && Genuine(s, hi, S) && s.sn < r.rcvNxt + r.rcvWnd
    ensures Has(ProcessPush(r, s), s.sn) && Ack(s.sn, s.ts) in ProcessPush(r, s).acks
  {
    TimeDiffIsPlain(s.sn, Add32(r.rcvNxt, r.rcvWnd));
    TimeDiffIsPlain(s.sn, r.rcvNxt);
    var r0 := r.(acks := r.acks + [Ack(s.sn, s.ts)]);
    assert r0.acks[|r.acks|] == Ack(s.sn, s.ts);
    if s.sn >= r.rcvNxt {
      assert SameHeld(r, r0);
      ParseDataKeeps(r0, Numbered(s.sn, Frag(s.frg, s.data)), hi, S);
    }
  }

  lemma ProcessKeepsAck(k: Kcb, s: Seg, a: Ack)
    requires a in k.acks
    ensures a in Process(k, s).acks
  {
    var k1 := Shrink(k.(rmtWnd := s.wnd, sndBuf := DropBelow(k.sndBuf, s.una)));
    if s.cmd == CMD_PUSH {
      var k2 := k1.(acks := k1.acks + [Ack(s.sn, s.ts)]);
      MoveLeavesAcks(k2.(rcvBuf := Insert(k2.rcvBuf, Numbered(s.sn, Frag(s.frg, s.data)))));
    }
  }

  lemma {:induction false} ProcessAllKeepsAck(k: Kcb, segs: seq<Seg>, a: Ack)
    requires a in k.acks
    ensures a in ProcessAll(k, segs).acks
    decreases |segs|
  {
    if segs != [] {
      ProcessKeepsAck(k, segs[0], a);
      ProcessAllKeepsAck(Process(k, segs[0]), segs[1..], a);
    }
  }

  /** So it is when it comes among other segments of a datagram. */
  lemma {:induction false} ProcessAllArrives(x: Kcb, y: Kcb, segs: seq<Seg>, s: Seg, Sx: seq<Frag>, Sy: seq<Frag>)
    requires SndInv(x, Sx) && AcksHeld(x) && RcvInv(x, y.sndNxt, Sy) && NothingLost(x, y)
    requires RcvCore(y, x.sndNxt, Sx)
    requires forall z :: z in segs ==> Honest(y, z, y.sndNxt, Sy)
    requires |Sx| < LIMIT && |Sy| + x.rcvWnd < LIMIT
    requires s in segs && s.cmd == CMD_PUSH && s.sn < x.rcvNxt + x.rcvWnd
    ensures Has(ProcessAll(x, segs), s.sn) && Ack(s.sn, s.ts) in ProcessAll(x, segs).acks
    decreases |segs|
  {
    var x1 := Process(x, segs[0]);
    assert segs[0] in segs;
    ProcessOneKeeps(x, y, segs[0], Sx, Sy);
    if segs[0] == s {
      ProcessArrives(x, s, y.sndNxt, Sy);
      ProcessAllKeeps(x1, y, segs[1..], Sx, Sy);
      ProcessAllKeepsAck(x1, segs[1..], Ack(s.sn, s.ts));
    } else {
      ProcessAllArrives(x1, y, segs[1..], s, Sx, Sy);
    }
  }

  /** A selective acknowledgement among other segments takes its piece out of the buffer. */
  lemma {:induction false} ProcessAllReleases(x: Kcb, y: Kcb, segs: seq<Seg>, i: int, Sx: seq<Frag>, Sy: seq<Frag>)
    requires SndInv(x, Sx) && AcksHeld(x) && RcvInv(x, y.sndNxt, Sy) && NothingLost(x, y)
    requires RcvCore(y, x.sndNxt, Sx)
    requires forall z :: z in segs ==> Honest(y, z, y.sndNxt, Sy)
    requires |Sx| < LIMIT && |Sy| + x.rcvWnd < LIMIT
    requires !InFlight(x.sndBuf, i) || exists s :: s in segs && s.cmd == CMD_ACK && s.sn == i
    ensures !InFlight(ProcessAll(x, segs).sndBuf, i)
    decreases |segs|
  {
    if segs != [] {
      assert segs[0] in segs;
      ProcessOneKeeps(x, y, segs[0], Sx, Sy);
      HonestIsSmall(y, segs[0], x.sndNxt, Sx, Sy);
      ProcessAsSender(x, segs[0], Sx);
      ProcessAllReleases(Process(x, segs[0]), y, segs[1..], i, Sx, Sy);
    }
  }

  // ---------------------------------------------------------------- a round trip

  /** Everything the invariant says of the pair, in both directions. */
  ghost predicate Connected(x: Side, y: Side) {
    && SideInv(x) && SideInv(y) && PairInv(x, y) && PairInv(y, x) && x.kcb.conv == y.kcb.conv
    && BoundedFrom(x, y) && BoundedFrom(y, x)
  }

  lemma StaysConnected(x: Side, y: Side, e: Event)
    requires Connected(x, y) && !e.SendMessage?
    ensures Connected(Act(x, y.out, e), y) && Connected(y, Act(x, y.out, e))
  {
    ActKeeps(x, y, e);
    ActKeepsConfiguration(x, y.out, e);
    StaysBounded(x, Act(x, y.out, e), y);
  }

  lemma StaysBounded(x: Side, x1: Side, y: Side)
    requires BoundedFrom(x, y) && BoundedFrom(y, x) && x1.sent == x.sent
    requires x1.kcb.mtu == x.kcb.mtu && x1.kcb.rcvWnd == x.kcb.rcvWnd
    ensures BoundedFrom(x1, y) && BoundedFrom(y, x1)
  {
  }

  /** The states of runs are such states, in both directions. */
  lemma ReachableConnected(n: Net, run: seq<Step>)
    requires Initial(n) && Bounded(Exec(n, run))
    ensures Connected(Exec(n, run).a, Exec(n, run).b) && Connected(Exec(n, run).b, Exec(n, run).a)
  {
    RunKeeps(n, run);
  }

  /** There are networks to start from. */
  lemma SomeNetwork(conv: U32, mtu: nat, wnd: U32) returns (n: Net)
    requires 50 <= mtu < 0x8000_0000 && wnd < LIMIT
    ensures Initial(n) && Bounded(n)
  {
    var side := Side(Create(conv, mtu, wnd, wnd), {}, [], []);
    n := Net(side, side);
  }

  lemma PiecesFit(x: Side)
    requires SideInv(x)
    ensures ShortPieces(Stream(x), x.kcb)
  {
    PiecesShort(x.kcb.Mss(), x.sent);
  }

  /** Flushing puts a due piece on the wire. */
  lemma PieceGoesOut(x: Side, y: Side, env: Env, j: nat) returns (d: Bytes, s: Seg)
    requires Connected(x, y) && x.kcb.updated
    requires var buf := Number(x.kcb, SendWindow(x.kcb, env)).sndBuf; j < |buf| && Due(buf[j], env)
    ensures d in Act(x, y.out, FlushNow(env)).out && s in Parse(x.kcb.conv, d).segs
    ensures s.cmd == CMD_PUSH && s.sn == Number(x.kcb, SendWindow(x.kcb, env)).sndBuf[j].sn
  {
    var buf := Number(x.kcb, SendWindow(x.kcb, env)).sndBuf;
    PushSegsHas(x.kcb, env, buf, j);
    PiecesFit(x);
    s := PushSeg(x.kcb, env.now, buf[j]);
    d := FlushPuts(x.kcb, env, Stream(x), s);
    s := OnWire(s);
  }

  /** Delivering that datagram makes the piece arrive, and owes its acknowledgement. */
  lemma PieceArrives(x: Side, y: Side, d: Bytes, s: Seg)
    requires Connected(x, y) && d in x.out && s in Parse(y.kcb.conv, d).segs
    requires s.cmd == CMD_PUSH && s.sn < y.kcb.rcvNxt + y.kcb.rcvWnd
    ensures var y1 := Act(y, x.out, Deliver(d)); Has(y1.kcb, s.sn) && Ack(s.sn, s.ts) in y1.kcb.acks
  {
    assert HonestDatagram(x.kcb, d, x.kcb.sndNxt, Stream(x));
    ProcessAllArrives(y.kcb, x.kcb, Parse(y.kcb.conv, d).segs, s, Stream(y), Stream(x));
  }

  /** Flushing puts an owed acknowledgement on the wire. */
  lemma AckGoesOut(y: Side, x: Side, env: Env, a: Ack) returns (d: Bytes, s: Seg)
    requires Connected(y, x) && y.kcb.updated && a in y.kcb.acks
    ensures d in Act(y, x.out, FlushNow(env)).out && s in Parse(y.kcb.conv, d).segs && s.cmd == CMD_ACK && s.sn == a.sn
  {
    AckSegsHas(y.kcb, y.kcb.acks, a);
    PiecesFit(y);
    s := AckSeg(y.kcb, a);
    d := FlushPuts(y.kcb, env, Stream(y), s);
    s := OnWire(s);
  }

  /** Delivering that datagram takes the piece out of the send buffer. */
  lemma PieceReleased(x: Side, y: Side, d: Bytes, s: Seg)
    requires Connected(x, y) && d in y.out && s in Parse(x.kcb.conv, d).segs && s.cmd == CMD_ACK
    ensures !InFlight(Act(x, y.out, Deliver(d)).kcb.sndBuf, s.sn)
  {
    assert HonestDatagram(y.kcb, d, y.kcb.sndNxt, Stream(y));
    ProcessAllReleases(x.kcb, y.kcb, Parse(x.kcb.conv, d).segs, s.sn, Stream(x), Stream(y));
  }

  lemma DeliverKeepsUpdated(y: Side, wire: set<Bytes>, d: Bytes)
    requires y.kcb.Configured()
    ensures Act(y, wire, Deliver(d)).kcb.updated == y.kcb.updated
  {
    ProcessAllKeepsUpdated(y.kcb, Parse(y.kcb.conv, d).segs);
  }

  lemma {:induction false} ProcessAllKeepsUpdated(k: Kcb, segs: seq<Seg>)
    ensures ProcessAll(k, segs).updated == k.updated
    decreases |segs|
  {
    if segs != [] {
      PushLeavesSender(Shrink(k.(rmtWnd := segs[0].wnd, sndBuf := DropBelow(k.sndBuf, segs[0].una))), segs[0]);
      ProcessAllKeepsUpdated(Process(k, segs[0]), segs[1..]);
    }
  }

  /** In every connected state, so in every reachable one: a piece that is due and within the receiver's
      window can be brought over and acknowledged in one round trip, whatever the windows and
      clocks of the two flushes. */
  lemma RoundTrip(x: Side, y: Side, there: Env, back: Env, j: nat) returns (d: Bytes, e: Bytes)
    requires Connected(x, y) && x.kcb.updated && y.kcb.updated
    requires var buf := Number(x.kcb, SendWindow(x.kcb, there)).sndBuf;
             j < |buf| && Due(buf[j], there) && buf[j].sn < y.kcb.rcvNxt + y.kcb.rcvWnd
    ensures var i := Number(x.kcb, SendWindow(x.kcb, there)).sndBuf[j].sn;
            var x1 := Act(x, y.out, FlushNow(there));
            var y1 := Act(y, x1.out, Deliver(d));
            d in x1.out && Has(y1.kcb, i) && y1.kcb.Configured()
    ensures var i := Number(x.kcb, SendWindow(x.kcb, there)).sndBuf[j].sn;
            var x1 := Act(x, y.out, FlushNow(there));
            var y2 := Act(Act(y, x1.out, Deliver(d)), x1.out, FlushNow(back));
            e in y2.out && x1.kcb.Configured() && !InFlight(Act(x1, y2.out, Deliver(e)).kcb.sndBuf, i)
  {
    var s, t;
    d, s := PieceGoesOut(x, y, there, j);
    var x1 := Act(x, y.out, FlushNow(there));
    StaysConnected(x, y, FlushNow(there));
    PieceArrives(x1, y, d, s);
    var y1 := Act(y, x1.out, Deliver(d));
    StaysConnected(y, x1, Deliver(d));
    DeliverKeepsUpdated(y, x1.out, d);
    e, t := AckGoesOut(y1, x1, back, Ack(s.sn, s.ts));
    var y2 := Act(y1, x1.out, FlushNow(back));
    StaysConnected(y1, x1, FlushNow(back));
    PieceReleased(x1, y2, e, t);
  }

  // ---------------------------------------------------------------- messages and the window

  ghost predicate WithinWindow(k: Kcb) {
    |k.rcvQueue| <= k.rcvWnd
  }

  lemma {:induction false} MoveStaysWithin(k: Kcb)
    requires WithinWindow(k)
    ensures WithinWindow(MoveReady(k))
    decreases |k.rcvBuf|
  {
    if k.rcvBuf != [] && k.rcvBuf[0].sn == k.rcvNxt && |k.rcvQueue| < k.rcvWnd {
      MoveStaysWithin(MoveOne(k));
    }
  }

  lemma ProcessStaysWithin(k: Kcb, s: Seg)
    requires WithinWindow(k)
    ensures WithinWindow(Process(k, s))
  {
    var k1 := Shrink(k.(rmtWnd := s.wnd, sndBuf := DropBelow(k.sndBuf, s.una)));
    var k2 := k1.(acks := k1.acks + [Ack(s.sn, s.ts)]);
    MoveStaysWithin(k2.(rcvBuf := Insert(k2.rcvBuf, Numbered(s.sn, Frag(s.frg, s.data)))));
  }

  lemma {:induction false} ProcessAllStaysWithin(k: Kcb, segs: seq<Seg>)
    requires WithinWindow(k)
    ensures WithinWindow(ProcessAll(k, segs))
    decreases |segs|
  {
    if segs != [] {
      ProcessStaysWithin(k, segs[0]);
      ProcessAllStaysWithin(Process(k, segs[0]), segs[1..]);
    }
  }

  /** The receive queue never outgrows the window. */
  lemma ActStaysWithin(x: Side, wire: set<Bytes>, e: Event)
    requires x.kcb.Configured() && WithinWindow(x.kcb)
    ensures WithinWindow(Act(x, wire, e).kcb)
  {
    match e
    case RecvMessage(len) =>
      if RecvCode(x.kcb, len) >= 0 {
        RecvShape(x.kcb, len);
        MoveStaysWithin(x.kcb.(rcvQueue := x.kcb.rcvQueue[Taken(x.kcb, len)..]));
      }
    case FlushNow(env) => FlushAsReceiver(x.kcb, env);
    case Deliver(d) => ProcessAllStaysWithin(x.kcb, Parse(x.kcb.conv, d).segs);
    case _ =>
  }

  lemma {:induction false} RunStaysWithin(n: Net, run: seq<Step>)
    requires Initial(n)
    ensures WithinWindow(Exec(n, run).a.kcb) && WithinWindow(Exec(n, run).b.kcb)
    decreases |run|
  {
    if run != [] {
      var before, s := Exec(n, run[..|run| - 1]), run[|run| - 1];
      RunStaysWithin(n, run[..|run| - 1]);
      ActStaysWithin(before.a, before.b.out, s.event);
      ActStaysWithin(before.b, before.a.out, s.event);
    }
  }

  /** A read returns the next message only if that message fits the window. */
  lemma ReadFits(x: Side, y: Side, len: int)
    requires Sound(x) && RcvCore(y.kcb, x.kcb.sndNxt, Stream(x)) && ReadSoFar(x, y) && WithinWindow(y.kcb)
    requires RecvCode(y.kcb, len) >= 0
    ensures |y.got| < |x.sent| && |Cut(x.kcb.Mss(), x.sent[|y.got|])| <= y.kcb.rcvWnd
  {
    RecvReturnsNext(x, y, len);
  }

  /** Message `k` of `x` has more pieces than the window of `y`. */
  ghost predicate Oversize(x: Side, y: Side, k: nat) {
    Sound(x) && k < |x.sent| && |Cut(x.kcb.Mss(), x.sent[k])| > y.kcb.rcvWnd
  }

  /** If message `k` of `x` is oversize, `y` got only messages before it. */
  ghost predicate Blocked(x: Side, y: Side, k: nat) {
    Oversize(x, y, k) ==> |y.got| <= k
  }

  lemma ReadStaysBlocked(x: Side, y: Side, e: Event, k: nat)
    requires Sound(x) && RcvCore(y.kcb, x.kcb.sndNxt, Stream(x)) && ReadSoFar(x, y) && WithinWindow(y.kcb)
    requires y.kcb.Configured()
    requires Blocked(x, y, k)
    ensures Blocked(x, Act(y, x.out, e), k)
  {
    ActKeepsConfiguration(y, x.out, e);
    if e.RecvMessage? && RecvCode(y.kcb, e.len) >= 0 {
      ReadFits(x, y, e.len);
    }
  }

  lemma SendStaysBlocked(x: Side, y: Side, e: Event, k: nat)
    requires Sound(x) && y.got <= x.sent && Blocked(x, y, k)
    ensures Blocked(Act(x, y.out, e), y, k)
  {
    ActKeepsConfiguration(x, y.out, e);
  }

  lemma {:induction false} RunStaysBlocked(n: Net, run: seq<Step>, k: nat)
    requires Initial(n) && Bounded(Exec(n, run))
    ensures Blocked(Exec(n, run).a, Exec(n, run).b, k) && Blocked(Exec(n, run).b, Exec(n, run).a, k)
    decreases |run|
  {
    if run != [] {
      var z, s := run[..|run| - 1], run[|run| - 1];
      var before := Exec(n, z);
      BoundedBefore(before, s);
      RunKeeps(n, z);
      RunStaysWithin(n, z);
      RunStaysBlocked(n, z, k);
      if s.atA {
        SendStaysBlocked(before.a, before.b, s.event, k);
        ReadStaysBlocked(before.b, before.a, s.event, k);
      } else {
        SendStaysBlocked(before.b, before.a, s.event, k);
        ReadStaysBlocked(before.a, before.b, s.event, k);
      }
    }
  }

  /** `ikcp_send` accepts messages of up to 255 pieces whatever the peer's window. One with more
      pieces than that window is never delivered, nor is anything after it: in every run and either
      direction the peer gets only messages before it. */
  lemma OversizeBlocks(n: Net, run: seq<Step>, k: nat)
    requires Initial(n) && Bounded(Exec(n, run))
    ensures var r := Exec(n, run);
            && (Oversize(r.a, r.b, k) ==> |r.b.got| <= k)
            && (Oversize(r.b, r.a, k) ==> |r.a.got| <= k)
  {
    RunStaysBlocked(n, run, k);
  }

  /** It happens: any message of up to 255 pieces can be sent at once, however small the window. */
  lemma OversizeHappens(n: Net, msg: Bytes)
    requires Initial(n) && Bounded(n) && Accepted(n.a.kcb.Mss(), msg) && n.b.kcb.rcvWnd < LIMIT - 255
    requires |Cut(n.a.kcb.Mss(), msg)| > n.b.kcb.rcvWnd
    ensures var r := Exec(n, [Step(true, SendMessage(msg))]); Bounded(r) && Oversize(r.a, r.b, 0)
  {
    var run := [Step(true, SendMessage(msg))];
    assert run[..|run| - 1] == [];
    assert Exec(n, run) == Next(n, run[0]);
    CutCorrect(n.a.kcb.Mss(), msg);
    PiecesSnoc(n.a.kcb.Mss(), [], msg);
    assert [] + [msg] == [msg];
  }

  /** Pieces that have arrived wait outside the queue only when it is full. */
  lemma ArrivedIsQueued(r: Kcb, hi: int, S: seq<Frag>, count: nat)
    requires RcvInv(r, hi, S) && count <= r.rcvWnd
    requires var start := r.rcvNxt - |r.rcvQueue|; forall i :: start <= i < start + count ==> Has(r, i)
    ensures |r.rcvQueue| >= count
  {
    if |r.rcvQueue| < count {
      HeldIsFirst(r, hi, S);
    }
  }

  /** A message that fits the window is readable as soon as all its pieces have arrived. */
  lemma FittingIsReadable(x: Side, y: Side, len: nat)
    requires Connected(x, y) && |y.got| < |x.sent|
    requires var m := x.sent[|y.got|]; var start := |Pieces(x.kcb.Mss(), y.got)|; var count := |Cut(x.kcb.Mss(), m)|;
             && count <= y.kcb.rcvWnd && |m| <= len
             && forall i :: start <= i < start + count ==> Has(y.kcb, i)
    ensures RecvCode(y.kcb, len) >= 0 && RecvData(y.kcb) == x.sent[|y.got|]
  {
    var m := x.sent[|y.got|];
    CutCorrect(x.kcb.Mss(), m);
    ArrivedIsQueued(y.kcb, x.kcb.sndNxt, Stream(x), |Cut(x.kcb.Mss(), m)|);
    RecvReturnsNext(x, y, len);
  }

  /** The exact condition: a message whose pieces have all arrived can be read into a large enough
      buffer if and only if it has no more pieces than the window. */
  lemma ReadableIff(x: Side, y: Side, len: nat)
    requires Connected(x, y) && WithinWindow(y.kcb) && |y.got| < |x.sent| && |x.sent[|y.got|]| <= len
    requires var start := |Pieces(x.kcb.Mss(), y.got)|; var count := |Cut(x.kcb.Mss(), x.sent[|y.got|])|;
             forall i :: start <= i < start + count ==> Has(y.kcb, i)
    ensures RecvCode(y.kcb, len) >= 0 <==> |Cut(x.kcb.Mss(), x.sent[|y.got|])| <= y.kcb.rcvWnd
  {
    if RecvCode(y.kcb, len) >= 0 {
      ReadFits(x, y, len);
    }
    if |Cut(x.kcb.Mss(), x.sent[|y.got|])| <= y.kcb.rcvWnd {
      FittingIsReadable(x, y, len);
    }
  }
}
