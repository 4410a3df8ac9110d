/** When everything can be delivered. A header tells only the low 16 bits of the receive window, so an
    endpoint with a window of 2^16 or more may tell that it is closed although it is not. The exact
    condition: no message is too large for the peer's window, and the direction is not stuck on a window
    told to be closed. It is proved for each direction and for both at once.
 */
module KcpStall {
  import opened Basics
  import opened KcpWire
  import opened Kcp
  import opened KcpReceiver
  import opened KcpSender
  import opened KcpMessages
  import opened KcpNetwork
  import opened KcpProgress
  import opened KcpDelivery

  /** `y` waits for a piece that `x` has not numbered, tells that its window is closed, and never told
      of an open one. */
  ghost predicate Stalled(x: Side, y: Side) {
    && Sound(x) && y.got <= x.sent && |y.got| < |x.sent| && Drained(x, y)
    && y.kcb.rcvNxt == x.kcb.sndNxt && Told(y.kcb) == 0 && !Primed(y)
  }

  /** And the window `x` knows of has no room for the next piece. */
  ghost predicate Stuck(x: Side, y: Side, p: Pace) {
    Stalled(x, y) && !Admits(x.kcb, p)
  }

  // ---------------------------------------------------------------- there is no way out

  lemma RecvLeavesWindow(k: Kcb, len: int, p: Pace)
    ensures Admits(Recv(k, len), p) == Admits(k, p) && Recv(k, len).sndNxt == k.sndNxt
  {
    if RecvCode(k, len) >= 0 {
      MoveOnlyReceives(if len < 0 then k else k.(rcvQueue := k.rcvQueue[MessageSpan(k.rcvQueue)..]));
    }
  }

  lemma HoldingFlushStays(k: Kcb, p: Pace, env: Env)
    requires !Admits(k, p) && env.cwnd == p.cwnd && env.nocwnd == p.nocwnd
    ensures !Admits(Flush(k, env), p) && Flush(k, env).sndNxt == k.sndNxt
  {
    assert Number(k, SendWindow(k, env)) == k;
  }

  lemma ClosedAfter(k: Kcb, k1: Kcb, d: Bytes, p: Pace, S: seq<Frag>)
    requires !Admits(k, p) && !Opening(k.conv, d) && k1 == Input(k, d) && SndInv(k1, S) && |S| < LIMIT
    ensures !Admits(k1, p)
  {
    var segs := Parse(k.conv, d).segs;
    if segs != [] {
      LastTells(k, segs);
      ClosedHolds(k1, p, S);
    }
  }

  lemma StuckSending(x: Side, y: Side, e: Event, p: Pace)
    requires Connected(x, y) && Stuck(x, y, p)
    requires e.FlushNow? ==> e.env.cwnd == p.cwnd && e.env.nocwnd == p.nocwnd
    ensures var x1 := Act(x, y.out, e); !Admits(x1.kcb, p) && x1.kcb.sndNxt == x.kcb.sndNxt
  {
    match e
    case RecvMessage(len) => RecvLeavesWindow(x.kcb, len, p);
    case FlushNow(env) => HoldingFlushStays(x.kcb, p, env);
    case Deliver(d) => if d in y.out { StuckHearing(x, y, d, p); }
    case _ =>
  }

  lemma StuckHearing(x: Side, y: Side, d: Bytes, p: Pace)
    requires Connected(x, y) && !Primed(y) && !Admits(x.kcb, p) && d in y.out
    ensures var x1 := Act(x, y.out, Deliver(d)); !Admits(x1.kcb, p) && x1.kcb.sndNxt == x.kcb.sndNxt
  {
    DeliverGrows(x, y, d);
    assert HonestDatagram(y.kcb, d, y.kcb.sndNxt, Stream(y));
    ProcessAllKeeps(x.kcb, y.kcb, Parse(x.kcb.conv, d).segs, Stream(x), Stream(y));
    ClosedAfter(x.kcb, Input(x.kcb, d), d, p, Stream(x));
  }

  lemma StalledSending(x: Side, y: Side, x1: Side)
    requires Stalled(x, y) && Sound(x1) && x.sent <= x1.sent && x1.kcb.mtu == x.kcb.mtu
    requires x1.kcb.sndNxt == x.kcb.sndNxt
    ensures Stalled(x1, y)
  {
  }

  /** Whatever the sender does, the direction stays stuck. */
  lemma SenderStaysStuck(x: Side, y: Side, e: Event, p: Pace)
    requires Connected(x, y) && Stuck(x, y, p)
    requires e.FlushNow? ==> e.env.cwnd == p.cwnd && e.env.nocwnd == p.nocwnd
    ensures Stuck(Act(x, y.out, e), y, p)
  {
    StuckSending(x, y, e, p);
    ActKeeps(x, y, e);
    ActKeepsConfiguration(x, y.out, e);
    StalledSending(x, y, Act(x, y.out, e));
  }

  lemma NothingToRead(x: Side, y: Side, len: int)
    requires Connected(x, y) && Stalled(x, y)
    ensures Act(y, x.out, RecvMessage(len)) == y
  {
    if y.kcb.rcvQueue != [] {
      RecvReturnsNext(x, y, len);
    }
  }

  lemma NothingArrives(x: Side, y: Side, d: Bytes)
    requires Connected(x, y) && Stalled(x, y) && d in x.out
    ensures var k := Act(y, x.out, Deliver(d)).kcb; k.rcvNxt == y.kcb.rcvNxt && |k.rcvQueue| == |y.kcb.rcvQueue|
  {
    DeliverGrows(y, x, d);
    ActKeeps(y, x, Deliver(d));
  }

  lemma StaysUnprimed(y: Side, env: Env)
    requires SideInv(y) && |Stream(y)| < LIMIT && Told(y.kcb) == 0 && !Primed(y)
    ensures !Primed(y.(out := y.out + FlushedSet(y.kcb, env)))
  {
    forall d | d in FlushOutput(y.kcb, env) ensures !Opening(y.kcb.conv, d) {
      ClosedDatagram(y, env, d);
    }
  }

  lemma ClosedDatagram(y: Side, env: Env, d: Bytes)
    requires SideInv(y) && |Stream(y)| < LIMIT && Told(y.kcb) == 0 && d in FlushOutput(y.kcb, env)
    ensures !Opening(y.kcb.conv, d)
  {
    var segs := Parse(y.kcb.conv, d).segs;
    if segs != [] {
      OutputTells(y, env, d, segs[|segs| - 1]);
    }
  }

  lemma StalledReceiving(x: Side, y: Side, y1: Side)
    requires Stalled(x, y) && y1.got == y.got && !Primed(y1) && y1.kcb.rcvWnd == y.kcb.rcvWnd
    requires y1.kcb.rcvNxt == y.kcb.rcvNxt && |y1.kcb.rcvQueue| == |y.kcb.rcvQueue|
    ensures Stalled(x, y1)
  {
  }

  /** And so it does whatever the receiver does. */
  lemma ReceiverStaysStalled(x: Side, y: Side, e: Event)
    requires Connected(x, y) && Stalled(x, y)
    ensures Stalled(x, Act(y, x.out, e))
  {
    ActKeepsConfiguration(y, x.out, e);
    match e
    case RecvMessage(len) => NothingToRead(x, y, len);
    case FlushNow(env) =>
      FlushAsReceiver(y.kcb, env);
      StaysUnprimed(y, env);
      StalledReceiving(x, y, Act(y, x.out, e));
    case Deliver(d) =>
      if d in x.out {
        NothingArrives(x, y, d);
        StalledReceiving(x, y, Act(y, x.out, e));
      }
    case _ => StalledReceiving(x, y, Act(y, x.out, e));
  }

  lemma StuckStep(c: Setup, n: Net, s: Step)
    requires Connected(n.a, n.b) && Connected(n.b, n.a) && Stuck(n.a, n.b, c.a) && Paced(s, c)
    ensures Stuck(Next(n, s).a, Next(n, s).b, c.a)
  {
    if s.atA {
      SenderStaysStuck(n.a, n.b, s.event, c.a);
    } else {
      ReceiverStaysStalled(n.a, n.b, s.event);
    }
  }

  lemma {:induction false} StaysStuck(c: Setup, n: Net, run: seq<Step>, more: seq<Step>)
    requires Initial(n) && AllPaced(more, c) && Bounded(Exec(n, run + more))
    requires Stuck(Exec(n, run).a, Exec(n, run).b, c.a)
    ensures Stuck(Exec(n, run + more).a, Exec(n, run + more).b, c.a)
    decreases |more|
  {
    if more == [] {
      assert run + more == run;
    } else {
      var z, s := more[..|more| - 1], more[|more| - 1];
      assert (run + more)[..|run + more| - 1] == run + z;
      var before := Exec(n, run + z);
      BoundedBefore(before, s);
      StaysStuck(c, n, run, z);
      ReachableConnected(n, run + z);
      StuckStep(c, before, s);
    }
  }

  // ---------------------------------------------------------------- telling an open window

  /** Taking `d` pieces out of a queue that tells a closed window tells an open one. */
  lemma FewerTells(w: int, q: int, q1: int)
    requires 0 <= q1 < q <= w && q - q1 <= 255 && (w - q) % 0x1_0000 == 0
    ensures (w - q1) % 0x1_0000 == q - q1
  {
    var t := (w - q) / 0x1_0000;
    assert w - q1 == t * 0x1_0000 + (q - q1);
  }

  /** And so does adding some. */
  lemma MoreTells(w: int, q: int, q1: int)
    requires 0 <= q < q1 <= w && q1 - q <= 255 && (w - q) % 0x1_0000 == 0
    ensures (w - q1) % 0x1_0000 > 0
  {
    var t := (w - q) / 0x1_0000;
    assert w - q1 == (t - 1) * 0x1_0000 + (0x1_0000 - (q1 - q));
  }

  lemma UnreadyStays(k: Kcb)
    requires Settled(k) && |k.rcvQueue| < k.rcvWnd
    ensures forall q :: MoveReady(k.(rcvQueue := q)) == k.(rcvQueue := q)
  {
  }

  /** How long the queue is after a read. */
  lemma QueueAfterRead(k: Kcb, len: nat, hi: int, S: seq<Frag>)
    requires RcvInv(k, hi, S) && hi < LIMIT && WithinWindow(k) && RecvCode(k, len) >= 0
    ensures var q := |Recv(k, len).rcvQueue|; var t := MessageSpan(k.rcvQueue);
            if |k.rcvQueue| < k.rcvWnd then q == |k.rcvQueue| - t else k.rcvWnd - t <= q <= k.rcvWnd
  {
    var t := MessageSpan(k.rcvQueue);
    var k0 := k.(rcvQueue := k.rcvQueue[t..]);
    RecvShape(k, len);
    TakeThenMove(k, t, hi, S);
    MoveStaysWithin(k0);
    if |k.rcvQueue| < k.rcvWnd {
      UnreadyStays(k);
    }
  }

  /** Reading from a queue that tells a closed window opens it, or the queue was full and is again. */
  lemma ReadTells(k: Kcb, k1: Kcb, len: nat, hi: int, S: seq<Frag>)
    requires RcvInv(k, hi, S) && hi < LIMIT && WithinWindow(k) && RecvCode(k, len) >= 0 && k1 == Recv(k, len)
    requires 1 <= MessageSpan(k.rcvQueue) <= 255 && Told(k) == 0 && k1.rcvWnd == k.rcvWnd
    ensures Told(k1) > 0 || |k1.rcvQueue| == |k.rcvQueue| == k.rcvWnd
  {
    QueueAfterRead(k, len, hi, S);
    if |k1.rcvQueue| < |k.rcvQueue| {
      FewerTells(k.rcvWnd, |k.rcvQueue|, |k1.rcvQueue|);
    }
  }

  lemma ReadNextTells(c: Setup, n: Net) returns (m: Net)
    requires Live(n) && !Drained(n.a, n.b) && Told(n.b.kcb) == 0
    ensures Further(c, n, m) && m.a == n.a && |m.b.got| == |n.b.got| + 1
    ensures n.b.kcb.rcvQueue != []
    ensures Told(m.b.kcb) > 0 || |m.b.kcb.rcvQueue| == |n.b.kcb.rcvQueue| == n.b.kcb.rcvWnd
  {
    var msg := n.a.sent[|n.b.got|];
    CutCorrect(n.a.kcb.Mss(), msg);
    RecvReturnsNext(n.a, n.b, |msg|);
    m := ReadNext(c, n);
    ReadTells(n.b.kcb, m.b.kcb, |msg|, n.a.kcb.sndNxt, Stream(n.a));
  }

  lemma FullIsNotDrained(x: Side, y: Side)
    requires Connected(x, y) && Fits(x, y) && |y.kcb.rcvQueue| == y.kcb.rcvWnd > 0
    ensures !Drained(x, y)
  {
    if Drained(x, y) {
      DrainedFacts(x, y);
    }
  }

  /** What can be read out brings the queue to where it tells an open window. */
  lemma {:induction false} ReadUntilTold(c: Setup, n: Net) returns (m: Net)
    requires Live(n) && Fits(n.a, n.b) && (Told(n.b.kcb) > 0 || !Drained(n.a, n.b))
    ensures Further(c, n, m) && m.a == n.a && Told(m.b.kcb) > 0
    decreases |n.a.sent| - |n.b.got|
  {
    if Told(n.b.kcb) > 0 {
      m := n;
      FurtherNowhere(c, n);
    } else {
      var p := ReadNextTells(c, n);
      FitsKept(c, n, p);
      if Told(p.b.kcb) == 0 {
        FullIsNotDrained(p.a, p.b);
      }
      m := ReadUntilTold(c, p);
      FurtherOn(c, n, p, m);
    }
  }

  // ---------------------------------------------------------------- saying something

  /** A flush of an endpoint with something to send, or a closed window to ask about, is not empty. */
  lemma SomethingToSay(k: Kcb, p: Pace) returns (env: Env, s: Seg)
    requires k.updated && (k.rmtWnd == 0 || k.sndBuf != [] || (k.sndQueue != [] && Admits(k, p)))
    ensures env.cwnd == p.cwnd && env.nocwnd == p.nocwnd && s in FlushSegs(k, env)
  {
    var resend := if k.sndBuf != [] then {k.sndBuf[0].sn} else {};
    env := Flushing(p, true, resend);
    var buf := Number(k, SendWindow(k, env)).sndBuf;
    if k.rmtWnd == 0 {
      s := AckSeg(k, LastAck(k)).(cmd := CMD_WASK);
      assert s in ProbeSegs(k, env);
    } else if k.sndBuf != [] {
      NumberAppends(k, SendWindow(k, env));
      PushSegsHas(k, env, buf, 0);
      s := PushSeg(k, env.now, buf[0]);
    } else {
      NumbersNext(k, p, env);
      PushSegsHas(k, env, buf, 0);
      s := PushSeg(k, env.now, buf[0]);
    }
  }

  /** A flush with room for it numbers the next piece. */
  lemma NumbersMore(k: Kcb, p: Pace, env: Env, S: seq<Frag>)
    requires SndInv(k, S) && |S| < LIMIT && k.updated
    requires Admits(k, p) && k.sndQueue != [] && env.cwnd == p.cwnd && env.nocwnd == p.nocwnd
    ensures k.sndNxt < Flush(k, env).sndNxt
  {
    NumberOneKeeps(k, S);
    NumberKeeps(NumberOne(k), SendWindow(k, env), S);
  }

  /** `b` has something to send, or a closed window to ask about. */
  ghost predicate Voiced(y: Side) {
    y.kcb.rmtWnd == 0 || WaitSnd(y.kcb) > 0
  }

  /** `b` flushes, telling its window. */
  lemma Voice(c: Setup, n: Net) returns (m: Net)
    requires Live(n) && Voiced(n.b) && Running(c.b) && Told(n.b.kcb) > 0
    ensures Further(c, n, m) && m.a == n.a && Primed(m.b)
    ensures n.b.kcb.rmtWnd > 0 && n.b.kcb.sndBuf == [] ==> n.b.kcb.sndNxt < m.b.kcb.sndNxt
  {
    var env, d := SaysSomething(n.b, c.b);
    m := Next(n, Step(false, FlushNow(env)));
    FurtherStep(c, n, Step(false, FlushNow(env)));
    assert d in FlushedSet(n.b.kcb, env);
    SaidPrimes(n.b, m.b, d);
  }

  lemma SaidPrimes(y: Side, y1: Side, d: Bytes)
    requires d in y1.out && y1.kcb.conv == y.kcb.conv && Says(d, y) && Told(y.kcb) > 0
    ensures Primed(y1)
  {
    assert Opening(y1.kcb.conv, d);
  }

  /** Datagram `d` tells the window of `y`. */
  ghost predicate Says(d: Bytes, y: Side) {
    var segs := Parse(y.kcb.conv, d).segs;
    segs != [] && segs[|segs| - 1].wnd == Told(y.kcb)
  }

  lemma SaysSomething(y: Side, p: Pace) returns (env: Env, d: Bytes)
    requires SideInv(y) && |Stream(y)| < LIMIT && LiveSide(y) && Voiced(y) && Running(p)
    ensures env.cwnd == p.cwnd && env.nocwnd == p.nocwnd && d in FlushOutput(y.kcb, env) && Says(d, y)
    ensures y.kcb.rmtWnd > 0 && y.kcb.sndBuf == [] ==> y.kcb.sndNxt < Flush(y.kcb, env).sndNxt
  {
    var k := y.kcb;
    if k.rmtWnd > 0 && k.sndBuf == [] {
      OpenAdmits(k, p, Stream(y));
    }
    var s;
    env, s := SomethingToSay(k, p);
    d := FlushSays(y, env, s);
    if k.rmtWnd > 0 && k.sndBuf == [] {
      NumbersMore(k, p, env, Stream(y));
    }
  }

  lemma FlushSays(y: Side, env: Env, s: Seg) returns (d: Bytes)
    requires SideInv(y) && |Stream(y)| < LIMIT && s in FlushSegs(y.kcb, env)
    ensures d in FlushOutput(y.kcb, env) && Says(d, y)
  {
    PiecesFit(y);
    d := FlushPuts(y.kcb, env, Stream(y), s);
    var segs := Parse(y.kcb.conv, d).segs;
    assert OnWire(s) in segs;
    OutputTells(y, env, d, segs[|segs| - 1]);
  }

  /** Room for one more piece from `x`. */
  ghost predicate Spare(x: Side, y: Side) {
    Sound(x) && |Stream(x)| + 1 + y.kcb.rcvWnd < LIMIT
  }

  lemma EmptyMessage(mss: nat)
    requires mss > 0
    ensures Accepted(mss, []) && |Cut(mss, [])| == 1
  {
    CutCorrect(mss, []);
  }

  /** `y1` is `y` after sending an empty message. */
  ghost predicate JustSent(y: Side, y1: Side) {
    && y1 == y.(kcb := y.kcb.(sndQueue := y1.kcb.sndQueue), sent := y.sent + [[]])
    && WaitSnd(y1.kcb) > 0
  }

  lemma EmptySent(x: Side, wire: set<Bytes>)
    requires SideInv(x)
    ensures var x1 := Act(x, wire, SendMessage([]));
            JustSent(x, x1) && Sound(x1) && |Stream(x1)| == |Stream(x)| + 1
  {
    EmptyMessage(x.kcb.Mss());
    PiecesSnoc(x.kcb.Mss(), x.sent, []);
  }

  /** `b` sends an empty message. */
  lemma SendEmpty(c: Setup, n: Net) returns (m: Net)
    requires Live(n) && Spare(n.b, n.a)
    ensures Live(m) && Leads(c, n, m) && m.a == n.a && JustSent(n.b, m.b) && Told(m.b.kcb) == Told(n.b.kcb)
  {
    var s := Step(false, SendMessage([]));
    m := Next(n, s);
    LeadsStep(c, n, s);
    EmptySent(n.b, n.a.out);
    ActKeeps(n.b, n.a, s.event);
    ActKeepsLive(n.b, n.a.out, s.event);
  }

  /** `m` is further on from `n`: `a` neither sent nor received anything, and `b` may have sent one empty
      message, which is numbered. */
  ghost predicate Onward(c: Setup, n: Net, m: Net) {
    && Live(m) && Leads(c, n, m) && Progressed(n.a, m.a) && SameReceived(n.a, m.a)
    && n.b.out <= m.b.out && m.b.kcb.mtu == n.b.kcb.mtu && m.b.kcb.rcvWnd == n.b.kcb.rcvWnd
    && (m.b.sent == n.b.sent || m.b.sent == n.b.sent + [[]])
    && n.b.kcb.sndNxt <= m.b.kcb.sndNxt && (m.b.sent != n.b.sent ==> n.b.kcb.sndNxt < m.b.kcb.sndNxt)
  }

  lemma FurtherOnward(c: Setup, n: Net, p: Net, m: Net)
    requires Further(c, n, p) && SameReceived(n.a, p.a) && Onward(c, p, m)
    ensures Onward(c, n, m)
  {
    LeadsOn(c, n, p, m);
  }

  /** `b` tells its window, sending an empty message if it has nothing else to say. */
  lemma Speak(c: Setup, n: Net) returns (m: Net)
    requires Live(n) && Running(c.b) && Spare(n.b, n.a) && Told(n.b.kcb) > 0
    ensures Onward(c, n, m) && Primed(m.b)
  {
    if Voiced(n.b) {
      m := Voice(c, n);
    } else {
      m := SpeakUp(c, n);
    }
  }

  lemma SpeakUp(c: Setup, n: Net) returns (m: Net)
    requires Live(n) && Running(c.b) && Spare(n.b, n.a) && Told(n.b.kcb) > 0 && !Voiced(n.b)
    ensures Onward(c, n, m) && Primed(m.b)
  {
    var p := SendEmpty(c, n);
    m := Voice(c, p);
    LeadsOn(c, n, p, m);
    SentOnward(c, n, p, m);
  }

  lemma SentOnward(c: Setup, n: Net, p: Net, m: Net)
    requires Live(m) && Leads(c, n, m) && p.a == n.a && m.a == n.a && JustSent(n.b, p.b)
    requires Progressed(p.b, m.b) && p.b.kcb.sndNxt < m.b.kcb.sndNxt
    ensures Onward(c, n, m)
  {
  }

  /** Unless the direction is stalled, an open window can be told. */
  lemma Prime(c: Setup, n: Net) returns (m: Net)
    requires Live(n) && Running(c.b) && Spare(n.b, n.a) && Fits(n.a, n.b)
    requires !Stalled(n.a, n.b) && !Clears(n.a, n.b)
    ensures Onward(c, n, m) && Primed(m.b)
  {
    if Told(n.b.kcb) > 0 || !Drained(n.a, n.b) {
      m := ReadAndSpeak(c, n);
    } else {
      DrainedFacts(n.a, n.b);
      var p := ResendMissing(c, n);
      FitsKept(c, n, p);
      MissingTells(n, p);
      SpareKept(n, p);
      m := ReadAndSpeak(c, p);
      FurtherOnward(c, n, p, m);
    }
  }

  lemma SpareKept(n: Net, p: Net)
    requires Spare(n.b, n.a) && Progressed(n.a, p.a) && Progressed(n.b, p.b)
    ensures Spare(p.b, p.a)
  {
  }

  lemma ReadAndSpeak(c: Setup, n: Net) returns (m: Net)
    requires Live(n) && Running(c.b) && Spare(n.b, n.a) && Fits(n.a, n.b)
    requires Told(n.b.kcb) > 0 || !Drained(n.a, n.b)
    ensures Onward(c, n, m) && Primed(m.b)
  {
    var p := ReadUntilTold(c, n);
    SpareKept(n, p);
    m := Speak(c, p);
    FurtherOnward(c, n, p, m);
  }

  /** The arrival of a missing piece moves the queue off the point where it tells a closed window. */
  lemma MissingTells(n: Net, m: Net)
    requires Live(n) && Live(m) && Drained(n.a, n.b) && Told(n.b.kcb) == 0
    requires n.b.kcb.rcvNxt < m.b.kcb.rcvNxt && m.b.got == n.b.got && m.a.sent == n.a.sent
    requires m.a.kcb.mtu == n.a.kcb.mtu && m.b.kcb.rcvWnd == n.b.kcb.rcvWnd
    ensures Told(m.b.kcb) > 0 || !Drained(m.a, m.b)
  {
    if Drained(m.a, m.b) {
      DrainedFacts(m.a, m.b);
      QueueGrew(n.a, n.b, m.a, m.b);
      MoreTells(n.b.kcb.rcvWnd, |n.b.kcb.rcvQueue|, |m.b.kcb.rcvQueue|);
    }
  }

  lemma QueueGrew(x: Side, y: Side, x1: Side, y1: Side)
    requires Sound(x) && Sound(x1) && ReadSoFar(x, y) && ReadSoFar(x1, y1)
    requires y1.got == y.got && x1.kcb.mtu == x.kcb.mtu
    ensures y1.kcb.rcvNxt - y.kcb.rcvNxt == |y1.kcb.rcvQueue| - |y.kcb.rcvQueue|
  {
  }

  /** A piece the window has room for is numbered, which ends the stall. */
  lemma Launch(c: Setup, n: Net) returns (m: Net)
    requires Live(n) && !Stuck(n.a, n.b, c.a)
    ensures Further(c, n, m) && SameReceived(n.a, m.a) && m.b == n.b && !Stalled(m.a, m.b)
  {
    if Stalled(n.a, n.b) {
      var env := Flushing(c.a, false, {});
      DrainedFacts(n.a, n.b);
      NumbersMore(n.a.kcb, c.a, env, Stream(n.a));
      m := Next(n, Step(true, FlushNow(env)));
      FurtherStep(c, n, Step(true, FlushNow(env)));
      FlushAsReceiver(n.a.kcb, env);
    } else {
      m := n;
      FurtherNowhere(c, n);
    }
  }

  // ---------------------------------------------------------------- one direction

  /** What it takes for everything from `x` to reach `y`. */
  ghost predicate Flows(x: Side, y: Side, p: Pace) {
    Fits(x, y) && !Stuck(x, y, p)
  }

  lemma OnwardFits(c: Setup, n: Net, m: Net)
    requires Sound(n.a) && Onward(c, n, m) && Fits(n.a, n.b)
    ensures Fits(m.a, m.b)
  {
    SameFits(n.a, n.b, m.a, m.b);
  }

  /** Receive windows the 16 bits of the header can tell to be open whenever they are. */
  predicate Ordinary(w: int) {
    w < 0x1_0000 || w % 0x1_0000 >= 255
  }

  lemma OrdinaryTells(w: int, q: int)
    requires Ordinary(w) && 0 <= q < w && q < 255
    ensures (w - q) % 0x1_0000 > 0
  {
    if w >= 0x1_0000 {
      var t, r := w / 0x1_0000, w % 0x1_0000;
      assert w - q == t * 0x1_0000 + (r - q);
    }
  }

  /** With such a window no direction is ever stuck. */
  lemma OrdinaryNeverStalls(x: Side, y: Side)
    requires Connected(x, y) && Fits(x, y) && Ordinary(y.kcb.rcvWnd)
    ensures !Stalled(x, y)
  {
    if Stalled(x, y) {
      DrainedFacts(x, y);
      OrdinaryTells(y.kcb.rcvWnd, |y.kcb.rcvQueue|);
    }
  }

  /** With a window that fits the header, or room for one more message of the receiver, it can be told. */
  ghost predicate MaySpeak(y: Side, x: Side) {
    y.kcb.rcvWnd < 0x1_0000 || Spare(y, x)
  }

  lemma DeliverOneWay(c: Setup, n: Net) returns (m: Net)
    requires Live(n) && Flows(n.a, n.b, c.a) && MaySpeak(n.b, n.a) && Running(c.a) && Running(c.b)
    ensures Live(m) && Leads(c, n, m) && AllDelivered(m)
  {
    var p := Launch(c, n);
    FitsKept(c, n, p);
    if Clears(p.a, p.b) {
      m := DeliverAll(c, p);
      LeadsOn(c, n, p, m);
    } else {
      var q := Prime(c, p);
      OnwardFits(c, p, q);
      m := DeliverAll(c, q);
      LeadsOn(c, p, q, m);
      LeadsOn(c, n, p, m);
    }
  }

  // ---------------------------------------------------------------- from any run

  /** What `ikcp_create` and `ikcp_wndsize` guarantee of the windows. */
  ghost predicate Sized(n: Net) {
    n.a.kcb.sndWnd > 0 && n.a.kcb.rcvWnd > 0 && n.b.kcb.sndWnd > 0 && n.b.kcb.rcvWnd > 0
  }

  lemma {:induction false} RunKeepsSetup(n: Net, run: seq<Step>)
    requires Initial(n) && Sized(n)
    ensures Sized(Exec(n, run)) && Exec(n, run).a.kcb.rmtWnd < 0x1_0000 && Exec(n, run).b.kcb.rmtWnd < 0x1_0000
    ensures Exec(n, run).a.kcb.rcvWnd == n.a.kcb.rcvWnd && Exec(n, run).b.kcb.rcvWnd == n.b.kcb.rcvWnd
    decreases |run|
  {
    if run != [] {
      var before, s := Exec(n, run[..|run| - 1]), run[|run| - 1];
      RunKeepsSetup(n, run[..|run| - 1]);
      ActKeepsConfiguration(before.a, before.b.out, s.event);
      ActKeepsConfiguration(before.b, before.a.out, s.event);
      ActKeepsSetup(before.a, before.b.out, s.event);
      ActKeepsSetup(before.b, before.a.out, s.event);
      ActKeepsWindow(before.a, before.b.out, s.event);
      ActKeepsWindow(before.b, before.a.out, s.event);
    }
  }

  function Started(x: Side): Side {
    x.(kcb := x.kcb.(updated := true))
  }

  /** Starting both endpoints makes the state of a run live. */
  lemma GoLive(c: Setup, n: Net, run: seq<Step>) returns (m: Net)
    requires Initial(n) && Sized(n) && Bounded(Exec(n, run))
    ensures m == Net(Started(Exec(n, run).a), Started(Exec(n, run).b)) && Live(m) && Leads(c, Exec(n, run), m)
  {
    var r := Exec(n, run);
    ReachableConnected(n, run);
    RunStaysWithin(n, run);
    RunKeepsSetup(n, run);
    var p := Next(r, Step(true, Start));
    m := Next(p, Step(false, Start));
    LeadsStep(c, r, Step(true, Start));
    LeadsStep(c, p, Step(false, Start));
    LeadsOn(c, r, p, m);
    StaysConnected(r.a, r.b, Start);
    StaysConnected(p.b, p.a, Start);
  }

  lemma StartedFlows(x: Side, y: Side, p: Pace)
    requires Flows(x, y, p) && Sound(x)
    ensures Flows(Started(x), Started(y), p)
  {
    SameFits(x, y, Started(x), Started(y));
    StartedAdmits(x.kcb, p);
    if Stalled(Started(x), Started(y)) {
      StartedStalled(x, y);
    }
  }

  lemma StartedAdmits(k: Kcb, p: Pace)
    ensures Admits(k.(updated := true), p) == Admits(k, p)
  {
  }

  lemma StartedStalled(x: Side, y: Side)
    requires Stalled(Started(x), Started(y))
    ensures Stalled(x, y)
  {
    StalledSending(Started(x), Started(y), x);
    if Primed(y) {
      PrimedStays(y, Started(y));
    }
    StalledReceiving(x, Started(y), y);
  }

  lemma StartedSpeaks(y: Side, x: Side)
    requires MaySpeak(y, x)
    ensures MaySpeak(Started(y), Started(x))
  {
  }

  lemma {:induction false} RunGrows(n: Net, run: seq<Step>)
    requires Ready(n)
    ensures n.a.sent <= Exec(n, run).a.sent
    ensures Exec(n, run).a.kcb.mtu == n.a.kcb.mtu && Exec(n, run).b.kcb.rcvWnd == n.b.kcb.rcvWnd
    decreases |run|
  {
    if run != [] {
      var before, s := Exec(n, run[..|run| - 1]), run[|run| - 1];
      RunGrows(n, run[..|run| - 1]);
      SentGrows(before, s);
      ActKeepsConfiguration(before.a, before.b.out, s.event);
      ActKeepsConfiguration(before.b, before.a.out, s.event);
    }
  }

  /** Some continuation of the run at that pace ends with everything read and acknowledged. */
  ghost predicate Deliverable(c: Setup, n: Net, run: seq<Step>)
    requires Ready(n)
  {
    exists more :: AllPaced(more, c) && Bounded(Exec(n, run + more)) && AllDelivered(Exec(n, run + more))
  }

  /** With an oversize message there is none. */
  lemma OversizeForbids(c: Setup, n: Net, run: seq<Step>, k: nat)
    requires Initial(n) && Oversize(Exec(n, run).a, Exec(n, run).b, k)
    ensures !Deliverable(c, n, run)
  {
    forall more | Bounded(Exec(n, run + more)) ensures !AllDelivered(Exec(n, run + more)) {
      ExecAppend(n, run, more);
      RunGrows(Exec(n, run), more);
      StillOversize(Exec(n, run), Exec(n, run + more), k);
      OversizeBlocks(n, run + more, k);
    }
  }

  lemma StillOversize(r: Net, q: Net, k: nat)
    requires Oversize(r.a, r.b, k) && Sound(q.a) && r.a.sent <= q.a.sent
    requires q.a.kcb.mtu == r.a.kcb.mtu && q.b.kcb.rcvWnd == r.b.kcb.rcvWnd
    ensures Oversize(q.a, q.b, k)
  {
  }

  /** In a stuck direction there is none. */
  lemma StuckForbids(c: Setup, n: Net, run: seq<Step>)
    requires Initial(n) && Stuck(Exec(n, run).a, Exec(n, run).b, c.a)
    ensures !Deliverable(c, n, run)
  {
    forall more | AllPaced(more, c) && Bounded(Exec(n, run + more)) ensures !AllDelivered(Exec(n, run + more)) {
      StaysStuck(c, n, run, more);
    }
  }

  /** Otherwise there is. */
  lemma FlowsAllows(c: Setup, n: Net, run: seq<Step>)
    requires Initial(n) && Sized(n) && Bounded(Exec(n, run)) && Running(c.a) && Running(c.b)
    requires Flows(Exec(n, run).a, Exec(n, run).b, c.a) && MaySpeak(Exec(n, run).b, Exec(n, run).a)
    ensures Deliverable(c, n, run)
  {
    var r := Exec(n, run);
    var p := GoLive(c, n, run);
    StartedFlows(r.a, r.b, c.a);
    StartedSpeaks(r.b, r.a);
    var m := DeliverOneWay(c, p);
    LeadsOn(c, r, p, m);
    LeadsDelivers(c, n, run, m);
  }

  lemma LeadsDelivers(c: Setup, n: Net, run: seq<Step>, m: Net)
    requires Ready(n) && Leads(c, Exec(n, run), m) && Bounded(m) && AllDelivered(m)
    ensures Deliverable(c, n, run)
  {
    var more :| AllPaced(more, c) && Exec(Exec(n, run), more) == m;
    ExecAppend(n, run, more);
  }

  /** From the state of any run, and at any pace, some continuation delivers everything and lets the sender
      know if and only if no message accepted so far has more pieces than the peer's window and the
      direction is not stuck. With ordinary windows the size of the messages alone decides. */
  lemma DeliverableIff(c: Setup, n: Net, run: seq<Step>)
    requires Initial(n) && Sized(n) && Bounded(Exec(n, run)) && Running(c.a) && Running(c.b)
    requires MaySpeak(Exec(n, run).b, Exec(n, run).a)
    ensures Deliverable(c, n, run) <==> Flows(Exec(n, run).a, Exec(n, run).b, c.a)
    ensures Ordinary(n.b.kcb.rcvWnd) ==> (Deliverable(c, n, run) <==> Fits(Exec(n, run).a, Exec(n, run).b))
  {
    var r := Exec(n, run);
    if !Fits(r.a, r.b) {
      var k: nat :| Oversize(r.a, r.b, k);
      OversizeForbids(c, n, run, k);
    } else if Stuck(r.a, r.b, c.a) {
      StuckForbids(c, n, run);
    } else {
      FlowsAllows(c, n, run);
    }
    if Ordinary(n.b.kcb.rcvWnd) && Fits(r.a, r.b) {
      ReachableConnected(n, run);
      RunKeepsSetup(n, run);
      OrdinaryNeverStalls(r.a, r.b);
    }
  }

  // ---------------------------------------------------------------- the other direction

  function Mirror(n: Net): Net {
    Net(n.b, n.a)
  }

  function Flip(run: seq<Step>): (r: seq<Step>)
    ensures |r| == |run|
  {
    seq(|run|, i requires 0 <= i < |run| => Step(!run[i].atA, run[i].event))
  }

  lemma FlipTwice(run: seq<Step>)
    ensures Flip(Flip(run)) == run
  {
  }

  lemma FlipAppend(r: seq<Step>, q: seq<Step>)
    ensures Flip(r + q) == Flip(r) + Flip(q)
  {
  }

  lemma {:induction false} ExecMirror(n: Net, run: seq<Step>)
    requires Ready(n)
    ensures Exec(Mirror(n), Flip(run)) == Mirror(Exec(n, run))
    decreases |run|
  {
    if run != [] {
      var z, s := run[..|run| - 1], run[|run| - 1];
      ExecMirror(n, z);
      assert Flip(run)[..|run| - 1] == Flip(z);
    }
  }

  function Swap(c: Setup): Setup {
    Setup(c.b, c.a)
  }

  lemma FlipPaced(run: seq<Step>, c: Setup)
    requires AllPaced(run, c)
    ensures AllPaced(Flip(run), Swap(c))
  {
  }

  lemma LeadsMirror(c: Setup, n: Net, m: Net)
    requires Leads(c, n, m)
    ensures Leads(Swap(c), Mirror(n), Mirror(m))
  {
    var run :| AllPaced(run, c) && Exec(n, run) == m;
    ExecMirror(n, run);
    FlipPaced(run, c);
  }

  /** The same for what `b` sends. */
  ghost predicate DeliverableBack(c: Setup, n: Net, run: seq<Step>)
    requires Ready(n)
  {
    exists more :: AllPaced(more, c) && Bounded(Exec(n, run + more)) && AllDelivered(Mirror(Exec(n, run + more)))
  }

  lemma MirrorDeliverable(c: Setup, n: Net, run: seq<Step>)
    requires Ready(n)
    ensures Deliverable(c, n, run) ==> DeliverableBack(Swap(c), Mirror(n), Flip(run))
    ensures DeliverableBack(c, n, run) ==> Deliverable(Swap(c), Mirror(n), Flip(run))
  {
    forall more | AllPaced(more, c) && Bounded(Exec(n, run + more))
      ensures AllPaced(Flip(more), Swap(c)) && Bounded(Exec(Mirror(n), Flip(run) + Flip(more)))
      ensures Exec(Mirror(n), Flip(run) + Flip(more)) == Mirror(Exec(n, run + more))
    {
      ExecMirror(n, run + more);
      FlipAppend(run, more);
      FlipPaced(more, c);
    }
  }

  lemma DeliverableBackIff(c: Setup, n: Net, run: seq<Step>)
    requires Initial(n) && Sized(n) && Bounded(Exec(n, run)) && Running(c.a) && Running(c.b)
    requires MaySpeak(Exec(n, run).a, Exec(n, run).b)
    ensures DeliverableBack(c, n, run) <==> Flows(Exec(n, run).b, Exec(n, run).a, c.b)
  {
    ExecMirror(n, run);
    DeliverableIff(Swap(c), Mirror(n), Flip(run));
    FlipTwice(run);
    assert Mirror(Mirror(n)) == n && Swap(Swap(c)) == c;
    MirrorDeliverable(c, n, run);
    MirrorDeliverable(Swap(c), Mirror(n), Flip(run));
  }

  // ---------------------------------------------------------------- both directions at once

  lemma OnwardFitsBack(c: Setup, n: Net, m: Net)
    requires Sound(n.b) && Onward(c, n, m) && Fits(n.b, n.a) && n.a.kcb.rcvWnd > 0
    ensures Fits(m.b, m.a)
  {
    if m.b.sent == n.b.sent {
      SameFits(n.b, n.a, m.b, m.a);
    } else {
      EmptyFits(n.b, n.a, m.b, m.a);
    }
  }

  lemma EmptyFits(x: Side, y: Side, x1: Side, y1: Side)
    requires Sound(x) && Fits(x, y) && x1.sent == x.sent + [[]] && x1.kcb.mtu == x.kcb.mtu
    requires y1.kcb.rcvWnd == y.kcb.rcvWnd > 0
    ensures Fits(x1, y1)
  {
    EmptyMessage(x.kcb.Mss());
    forall k: nat ensures !Oversize(x1, y1, k) {
      assert !Oversize(x, y, k);
    }
  }

  /** Opening one direction stalls the other no more than it was. */
  lemma OnwardStalls(c: Setup, n: Net, m: Net)
    requires Live(n) && Onward(c, n, m) && !Stalled(n.b, n.a)
    ensures !Stalled(m.b, m.a)
  {
    NotStalledBack(n.b, n.a, m.b, m.a);
  }

  lemma NotStalledBack(x: Side, y: Side, x1: Side, y1: Side)
    requires Sound(x) && !Stalled(x, y) && y.kcb.rcvNxt <= x.kcb.sndNxt <= x1.kcb.sndNxt
    requires x1.kcb.mtu == x.kcb.mtu && (x1.sent == x.sent || x.kcb.sndNxt < x1.kcb.sndNxt)
    requires SameReceived(y, y1) && Progressed(y, y1) && y.got <= x.sent
    ensures !Stalled(x1, y1)
  {
    if Primed(y) {
      PrimedStays(y, y1);
    }
  }

  lemma PrimedStays(y: Side, y1: Side)
    requires Primed(y) && y.out <= y1.out && y1.kcb.conv == y.kcb.conv
    ensures Primed(y1)
  {
  }

  /** Both directions free to flow: everything fits, nothing is stalled, and each side may speak. */
  ghost predicate Free(n: Net) {
    && Live(n) && Fits(n.a, n.b) && Fits(n.b, n.a) && !Stalled(n.a, n.b) && !Stalled(n.b, n.a)
    && MaySpeak(n.a, n.b) && MaySpeak(n.b, n.a) && n.a.kcb.rcvWnd > 0 && n.b.kcb.rcvWnd > 0
  }

  /** Both directions have what they need. */
  ghost predicate BothClear(n: Net) {
    Live(n) && Fits(n.a, n.b) && Fits(n.b, n.a) && Clears(n.a, n.b) && Clears(n.b, n.a)
  }

  /** A window that is told wrongly needs a receiver that may speak. */
  lemma MustSpeak(x: Side, y: Side)
    requires Sound(x) && MaySpeak(y, x) && !Clears(x, y)
    ensures Spare(y, x)
  {
  }

  lemma SpeakKept(x: Side, y: Side, x1: Side, y1: Side)
    requires MaySpeak(x, y) && Progressed(x, x1) && y1.kcb.rcvWnd == y.kcb.rcvWnd
    ensures MaySpeak(x1, y1)
  {
  }

  /** Open the direction from `a` to `b`, then the other one if need be. */
  lemma OpenFirst(c: Setup, n: Net) returns (m: Net)
    requires Free(n) && !Clears(n.a, n.b) && Running(c.a) && Running(c.b)
    ensures Leads(c, n, m) && BothClear(m)
  {
    MustSpeak(n.a, n.b);
    var p := Prime(c, n);
    OnwardFits(c, n, p);
    OnwardFitsBack(c, n, p);
    OnwardStalls(c, n, p);
    SpeakKept(n.a, n.b, p.a, p.b);
    if Clears(p.b, p.a) {
      m := p;
    } else {
      m := OpenSecond(c, p);
      LeadsOn(c, n, p, m);
    }
  }

  lemma OpenSecond(c: Setup, n: Net) returns (m: Net)
    requires Live(n) && Fits(n.a, n.b) && Fits(n.b, n.a) && !Stalled(n.b, n.a) && MaySpeak(n.a, n.b)
    requires n.b.kcb.rcvWnd > 0 && Primed(n.b) && !Clears(n.b, n.a) && Running(c.a)
    ensures Leads(c, n, m) && BothClear(m)
  {
    MustSpeak(n.b, n.a);
    var q := Prime(Swap(c), Mirror(n));
    OnwardFits(Swap(c), Mirror(n), q);
    OnwardFitsBack(Swap(c), Mirror(n), q);
    CanOpenStays(n.b, q.a);
    m := Mirror(q);
    LeadsMirror(Swap(c), Mirror(n), q);
    assert Swap(Swap(c)) == c && Mirror(Mirror(n)) == n;
  }

  lemma OpenBoth(c: Setup, n: Net) returns (m: Net)
    requires Free(n) && Running(c.a) && Running(c.b)
    ensures Leads(c, n, m) && BothClear(m)
  {
    if !Clears(n.a, n.b) {
      m := OpenFirst(c, n);
    } else if !Clears(n.b, n.a) {
      var q := OpenFirst(Swap(c), Mirror(n));
      m := Mirror(q);
      LeadsMirror(Swap(c), Mirror(n), q);
      assert Swap(Swap(c)) == c && Mirror(Mirror(n)) == n;
    } else {
      m := n;
      LeadsNowhere(c, n);
    }
  }

  lemma FurtherMirror(c: Setup, n: Net, m: Net)
    requires Further(c, n, m)
    ensures Further(Swap(c), Mirror(n), Mirror(m))
  {
    LeadsMirror(c, n, m);
  }

  lemma StaysDelivered(c: Setup, n: Net, m: Net)
    requires AllDelivered(n) && Further(c, n, m)
    ensures AllDelivered(m)
  {
  }

  /** One direction after the other. */
  lemma DeliverBoth(c: Setup, n: Net) returns (m: Net)
    requires BothClear(n) && Running(c.a) && Running(c.b)
    ensures Leads(c, n, m) && Live(m) && AllDelivered(m) && AllDelivered(Mirror(m))
  {
    var p := DeliverAll(c, n);
    FurtherMirror(c, n, p);
    FitsKept(Swap(c), Mirror(n), Mirror(p));
    ClearsStays(n.b, n.a, p.b, p.a);
    var q := DeliverAll(Swap(c), Mirror(p));
    m := Mirror(q);
    FurtherMirror(Swap(c), Mirror(p), q);
    assert Swap(Swap(c)) == c && Mirror(Mirror(p)) == p && Mirror(m) == q;
    StaysDelivered(c, p, m);
    LeadsOn(c, n, p, m);
  }

  /** Number what the windows have room for, on both sides. */
  lemma LaunchBoth(c: Setup, n: Net) returns (m: Net)
    requires Live(n) && Flows(n.a, n.b, c.a) && Flows(n.b, n.a, c.b)
    ensures Further(c, n, m) && !Stalled(m.a, m.b) && !Stalled(m.b, m.a)
  {
    var p := Launch(c, n);
    StuckBefore(n.b, n.a, p.a, c.b);
    var q := Launch(Swap(c), Mirror(p));
    m := Mirror(q);
    FurtherMirror(Swap(c), Mirror(p), q);
    assert Swap(Swap(c)) == c && Mirror(Mirror(p)) == p;
    FurtherOn(c, n, p, m);
    NotStalledBack(p.a, p.b, m.a, m.b);
  }

  lemma StuckBefore(x: Side, y: Side, y1: Side, p: Pace)
    requires Connected(x, y) && !Stuck(x, y, p) && SameReceived(y, y1) && Progressed(y, y1)
    ensures !Stuck(x, y1, p)
  {
    if !Stalled(x, y) {
      NotStalledBack(x, y, x, y1);
    }
  }

  lemma DeliverTwoWays(c: Setup, n: Net) returns (m: Net)
    requires Live(n) && Flows(n.a, n.b, c.a) && Flows(n.b, n.a, c.b) && Running(c.a) && Running(c.b)
    requires MaySpeak(n.a, n.b) && MaySpeak(n.b, n.a) && n.a.kcb.rcvWnd > 0 && n.b.kcb.rcvWnd > 0
    ensures Leads(c, n, m) && Live(m) && AllDelivered(m) && AllDelivered(Mirror(m))
  {
    var p := LaunchBoth(c, n);
    FitsKept(c, n, p);
    FurtherMirror(c, n, p);
    FitsKept(Swap(c), Mirror(n), Mirror(p));
    SpeakKept(n.a, n.b, p.a, p.b);
    SpeakKept(n.b, n.a, p.b, p.a);
    var q := OpenBoth(c, p);
    m := DeliverBoth(c, q);
    LeadsOn(c, p, q, m);
    LeadsOn(c, n, p, m);
  }

  /** Some continuation at that pace ends with everything read and acknowledged in both directions. */
  ghost predicate BothDeliverable(c: Setup, n: Net, run: seq<Step>)
    requires Ready(n)
  {
    exists more :: AllPaced(more, c) && Bounded(Exec(n, run + more))
                   && AllDelivered(Exec(n, run + more)) && AllDelivered(Mirror(Exec(n, run + more)))
  }

  lemma BothFlowAllows(c: Setup, n: Net, run: seq<Step>)
    requires Initial(n) && Sized(n) && Bounded(Exec(n, run)) && Running(c.a) && Running(c.b)
    requires MaySpeak(Exec(n, run).a, Exec(n, run).b) && MaySpeak(Exec(n, run).b, Exec(n, run).a)
    requires Flows(Exec(n, run).a, Exec(n, run).b, c.a) && Flows(Exec(n, run).b, Exec(n, run).a, c.b)
    ensures BothDeliverable(c, n, run)
  {
    var r := Exec(n, run);
    RunKeepsSetup(n, run);
    var p := GoLive(c, n, run);
    StartedFlows(r.a, r.b, c.a);
    StartedFlows(r.b, r.a, c.b);
    StartedSpeaks(r.b, r.a);
    StartedSpeaks(r.a, r.b);
    var m := DeliverTwoWays(c, p);
    LeadsOn(c, r, p, m);
    LeadsDeliversBoth(c, n, run, m);
  }

  lemma LeadsDeliversBoth(c: Setup, n: Net, run: seq<Step>, m: Net)
    requires Ready(n) && Leads(c, Exec(n, run), m) && Bounded(m) && AllDelivered(m) && AllDelivered(Mirror(m))
    ensures BothDeliverable(c, n, run)
  {
    var more :| AllPaced(more, c) && Exec(Exec(n, run), more) == m;
    ExecAppend(n, run, more);
  }

  lemma OrdinaryFlows(c: Setup, n: Net, run: seq<Step>)
    requires Initial(n) && Sized(n) && Bounded(Exec(n, run))
    requires Ordinary(n.a.kcb.rcvWnd) && Ordinary(n.b.kcb.rcvWnd)
    ensures var r := Exec(n, run);
            && (Flows(r.a, r.b, c.a) <==> Fits(r.a, r.b)) && (Flows(r.b, r.a, c.b) <==> Fits(r.b, r.a))
  {
    var r := Exec(n, run);
    ReachableConnected(n, run);
    RunKeepsSetup(n, run);
    if Fits(r.a, r.b) {
      OrdinaryNeverStalls(r.a, r.b);
    }
    if Fits(r.b, r.a) {
      OrdinaryNeverStalls(r.b, r.a);
    }
  }

  /** From the state of any run, one continuation delivers everything in both directions if and only if
      both flow: no direction stands in the way of the other. */
  lemma BothDeliverableIff(c: Setup, n: Net, run: seq<Step>)
    requires Initial(n) && Sized(n) && Bounded(Exec(n, run)) && Running(c.a) && Running(c.b)
    requires MaySpeak(Exec(n, run).a, Exec(n, run).b) && MaySpeak(Exec(n, run).b, Exec(n, run).a)
    ensures BothDeliverable(c, n, run) <==>
            Flows(Exec(n, run).a, Exec(n, run).b, c.a) && Flows(Exec(n, run).b, Exec(n, run).a, c.b)
    ensures Ordinary(n.a.kcb.rcvWnd) && Ordinary(n.b.kcb.rcvWnd) ==>
              (BothDeliverable(c, n, run) <==>
               Fits(Exec(n, run).a, Exec(n, run).b) && Fits(Exec(n, run).b, Exec(n, run).a))
  {
    if Ordinary(n.a.kcb.rcvWnd) && Ordinary(n.b.kcb.rcvWnd) {
      OrdinaryFlows(c, n, run);
    }
    if BothDeliverable(c, n, run) {
      assert Deliverable(c, n, run) && DeliverableBack(c, n, run);
      DeliverableIff(c, n, run);
      DeliverableBackIff(c, n, run);
    } else if Flows(Exec(n, run).a, Exec(n, run).b, c.a) && Flows(Exec(n, run).b, Exec(n, run).a, c.b) {
      BothFlowAllows(c, n, run);
    }
  }

  // ---------------------------------------------------------------- it does get stuck

  /** `b` sends an empty message, which tells that its window is closed. */
  lemma TellClosed(c: Setup, n: Net) returns (m: Net)
    requires Live(n) && Spare(n.b, n.a) && Running(c.b) && Told(n.b.kcb) == 0 && n.b.out == {}
    ensures Live(m) && Leads(c, n, m) && m.a.kcb.rmtWnd == 0 && !Primed(m.b) && SameReceived(n.b, m.b)
    ensures m.a.sent == n.a.sent && m.a.kcb.mtu == n.a.kcb.mtu && m.a.kcb.sndNxt == n.a.kcb.sndNxt
    ensures m.b.kcb.rcvWnd == n.b.kcb.rcvWnd
  {
    var p := SendEmpty(c, n);
    var q, d := SayClosed(c, p);
    m := HearClosed(c, q, d);
    LeadsOn(c, p, q, m);
    LeadsOn(c, n, p, m);
  }

  lemma SayClosed(c: Setup, n: Net) returns (m: Net, d: Bytes)
    requires Live(n) && Voiced(n.b) && Running(c.b) && Told(n.b.kcb) == 0 && n.b.out == {}
    ensures Further(c, n, m) && m.a == n.a && !Primed(m.b) && SameReceived(n.b, m.b) && d in m.b.out
    ensures Closes(n.a.kcb.conv, d)
  {
    var env;
    env, d := SaysSomething(n.b, c.b);
    m := Next(n, Step(false, FlushNow(env)));
    FurtherStep(c, n, Step(false, FlushNow(env)));
    SaidClosed(n.b, m.b, n.a.out, env);
    SaysClosed(d, n.b, n.a.kcb.conv);
  }

  /** A datagram that tells a closed window. */
  ghost predicate Closes(conv: U32, d: Bytes) {
    var segs := Parse(conv, d).segs;
    segs != [] && segs[|segs| - 1].wnd == 0
  }

  lemma SaysClosed(d: Bytes, y: Side, conv: U32)
    requires Says(d, y) && Told(y.kcb) == 0 && conv == y.kcb.conv
    ensures Closes(conv, d)
  {
  }

  lemma SaidClosed(y: Side, y1: Side, wire: set<Bytes>, env: Env)
    requires SideInv(y) && |Stream(y)| < LIMIT && Told(y.kcb) == 0 && y.out == {}
    requires y1 == Act(y, wire, FlushNow(env))
    ensures !Primed(y1) && SameReceived(y, y1) && forall d :: d in FlushOutput(y.kcb, env) ==> d in y1.out
  {
    FlushAsReceiver(y.kcb, env);
    StaysUnprimed(y, env);
  }

  lemma HearClosed(c: Setup, n: Net, d: Bytes) returns (m: Net)
    requires Live(n) && d in n.b.out
    requires Closes(n.a.kcb.conv, d)
    ensures Further(c, n, m) && m.b == n.b && m.a.kcb.rmtWnd == 0 && m.a.kcb.sndNxt == n.a.kcb.sndNxt
  {
    m := Next(n, Step(true, Deliver(d)));
    FurtherStep(c, n, Step(true, Deliver(d)));
    DeliverGrows(n.a, n.b, d);
    LastTells(n.a.kcb, Parse(n.a.kcb.conv, d).segs);
  }

  /** An endpoint whose window is a multiple of 2^16 and that speaks first shuts its peer out: from then on
      not even an empty message of the peer can be delivered, at whatever pace. */
  lemma StuckHappens(c: Setup, n: Net) returns (run: seq<Step>)
    requires Initial(n) && Sized(n) && Bounded(n) && Spare(n.a, n.b) && Spare(n.b, n.a)
    requires n.b.kcb.rcvWnd % 0x1_0000 == 0 && Running(c.b)
    ensures AllPaced(run, c) && Bounded(Exec(n, run))
    ensures Fits(Exec(n, run).a, Exec(n, run).b) && Stuck(Exec(n, run).a, Exec(n, run).b, c.a)
  {
    var p := GoLive(c, n, []);
    var q := TellClosed(c, p);
    var z := SendEmpty(Swap(c), Mirror(q));
    LeadsMirror(Swap(c), Mirror(q), z);
    assert Swap(Swap(c)) == c && Mirror(Mirror(q)) == q;
    LeadsOn(c, n, p, q);
    LeadsOn(c, n, q, Mirror(z));
    run :| AllPaced(run, c) && Exec(n, run) == Mirror(z);
    ShutOut(z.b, z.a, c.a);
  }

  lemma ShutOut(x: Side, y: Side, p: Pace)
    requires Sound(x) && SndInv(x.kcb, Stream(x)) && |Stream(x)| < LIMIT && x.sent == [[]] && x.kcb.rmtWnd == 0
    requires y.got == [] && y.kcb.rcvQueue == [] && y.kcb.rcvWnd > 0 && y.kcb.rcvWnd % 0x1_0000 == 0
    requires y.kcb.rcvNxt == x.kcb.sndNxt && !Primed(y)
    ensures Fits(x, y) && Stuck(x, y, p)
  {
    EmptyMessage(x.kcb.Mss());
    ClosedHolds(x.kcb, p, Stream(x));
  }
}
