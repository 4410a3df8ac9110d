/** Ways on from the states two endpoints can reach, with whatever congestion windows they have: what
    can be read is read, a missing piece is sent again, a closed window is opened, until everything is
    delivered.
 */
module KcpDelivery {
  import opened Basics
  import opened KcpWire
  import opened Kcp
  import opened KcpReceiver
  import opened KcpSender
  import opened KcpMessages
  import opened KcpNetwork
  import opened KcpProgress
  import KcpFlush

  // ---------------------------------------------------------------- the pace of an endpoint

  /** How an endpoint flushes: its congestion window, unless it is configured to have none. */
  datatype Pace = Pace(cwnd: U32, nocwnd: bool)

  datatype Setup = Setup(a: Pace, b: Pace)

  /** After its first flush an endpoint has a congestion window of at least one. */
  predicate Running(p: Pace) {
    p.nocwnd || p.cwnd >= 1
  }

  predicate Paced(s: Step, c: Setup) {
    s.event.FlushNow? ==>
      var p := if s.atA then c.a else c.b;
      s.event.env.cwnd == p.cwnd && s.event.env.nocwnd == p.nocwnd
  }

  ghost predicate AllPaced(run: seq<Step>, c: Setup) {
    forall i :: 0 <= i < |run| ==> Paced(run[i], c)
  }

  function Flushing(p: Pace, probe: bool, resend: set<U32>): Env {
    Env(0, p.cwnd, p.nocwnd, probe, resend)
  }

  // ---------------------------------------------------------------- ways on

  lemma {:induction false} ExecAppend(n: Net, r: seq<Step>, q: seq<Step>)
    requires Ready(n)
    ensures Exec(n, r + q) == Exec(Exec(n, r), q)
    decreases |q|
  {
    if q == [] {
      assert r + q == r;
    } else {
      var z := q[..|q| - 1];
      assert (r + q)[..|r + q| - 1] == r + z;
      ExecAppend(n, r, z);
    }
  }

  /** Some steps at that pace lead from `n` to `m`. */
  ghost predicate Leads(c: Setup, n: Net, m: Net) {
    Ready(n) && exists run :: AllPaced(run, c) && Exec(n, run) == m
  }

  lemma LeadsNowhere(c: Setup, n: Net)
    requires Ready(n)
    ensures Leads(c, n, n)
  {
    assert AllPaced([], c) && Exec(n, []) == n;
  }

  lemma LeadsStep(c: Setup, n: Net, s: Step)
    requires Ready(n) && Paced(s, c)
    ensures Leads(c, n, Next(n, s))
  {
    var run := [s];
    assert run[..|run| - 1] == [];
    assert AllPaced(run, c) && Exec(n, run) == Next(n, s);
  }

  lemma LeadsOn(c: Setup, n: Net, m: Net, p: Net)
    requires Leads(c, n, m) && Leads(c, m, p)
    ensures Leads(c, n, p)
  {
    var r :| AllPaced(r, c) && Exec(n, r) == m;
    var q :| AllPaced(q, c) && Exec(m, q) == p;
    ExecAppend(n, r, q);
    assert AllPaced(r + q, c);
  }

  // ---------------------------------------------------------------- what no step changes

  lemma {:induction false} MoveOnlyReceives(k: Kcb)
    ensures SameButReceived(k, MoveReady(k))
    decreases |k.rcvBuf|
  {
    if k.rcvBuf != [] && k.rcvBuf[0].sn == k.rcvNxt && |k.rcvQueue| < k.rcvWnd {
      MoveOnlyReceives(MoveOne(k));
    }
  }

  lemma PushOnlyReceives(k: Kcb, s: Seg)
    ensures SameButArrived(k, ProcessPush(k, s))
  {
    var k1 := k.(acks := k.acks + [Ack(s.sn, s.ts)]);
    MoveOnlyReceives(k1.(rcvBuf := Insert(k1.rcvBuf, Numbered(s.sn, Frag(s.frg, s.data)))));
  }

  /** What one segment does besides receiving and acknowledging. */
  lemma ProcessFacts(k: Kcb, s: Seg)
    ensures var r := Process(k, s);
            && r.sndWnd == k.sndWnd && r.updated == k.updated && r.rmtWnd == s.wnd
            && r.askTell == (k.askTell || s.cmd == CMD_WASK)
  {
    PushOnlyReceives(Shrink(k.(rmtWnd := s.wnd, sndBuf := DropBelow(k.sndBuf, s.una))), s);
  }

  lemma {:induction false} ProcessAllFacts(k: Kcb, segs: seq<Seg>)
    ensures var r := ProcessAll(k, segs);
            && r.sndWnd == k.sndWnd && r.updated == k.updated
            && (k.askTell || (exists s :: s in segs && s.cmd == CMD_WASK) ==> r.askTell)
    decreases |segs|
  {
    if segs != [] {
      ProcessFacts(k, segs[0]);
      ProcessAllFacts(Process(k, segs[0]), segs[1..]);
    }
  }

  /** A window read from a header has 16 bits. */
  lemma {:induction false} ParsedWindow(conv: U32, b: Bytes, s: Seg)
    requires s in Parse(conv, b).segs
    ensures s.wnd < 0x1_0000
    decreases |b|
  {
    if s != Parse(conv, b).segs[0] {
      ParsedWindow(conv, b[OVERHEAD + DecodeHeader(b).len..], s);
    }
  }

  lemma {:induction false} ProcessAllWindow(k: Kcb, segs: seq<Seg>)
    requires k.rmtWnd < 0x1_0000 && forall s :: s in segs ==> s.wnd < 0x1_0000
    ensures ProcessAll(k, segs).rmtWnd < 0x1_0000
    decreases |segs|
  {
    if segs != [] {
      ProcessFacts(k, segs[0]);
      ProcessAllWindow(Process(k, segs[0]), segs[1..]);
    }
  }

  lemma ActKeepsWindow(x: Side, wire: set<Bytes>, e: Event)
    requires x.kcb.Configured() && x.kcb.rmtWnd < 0x1_0000
    ensures Act(x, wire, e).kcb.rmtWnd < 0x1_0000
  {
    match e
    case RecvMessage(len) =>
      MoveOnlyReceives(if len < 0 then x.kcb else x.kcb.(rcvQueue := x.kcb.rcvQueue[MessageSpan(x.kcb.rcvQueue)..]));
    case FlushNow(env) => NumberLeavesReceiver(x.kcb, SendWindow(x.kcb, env));
    case Deliver(d) =>
      var segs := Parse(x.kcb.conv, d).segs;
      forall s | s in segs ensures s.wnd < 0x1_0000 {
        ParsedWindow(x.kcb.conv, d, s);
      }
      ProcessAllWindow(x.kcb, segs);
    case _ =>
  }

  lemma ActKeepsSetup(x: Side, wire: set<Bytes>, e: Event)
    requires x.kcb.Configured()
    ensures var k := Act(x, wire, e).kcb; k.sndWnd == x.kcb.sndWnd && (x.kcb.updated ==> k.updated)
  {
    match e
    case RecvMessage(len) =>
      MoveOnlyReceives(if len < 0 then x.kcb else x.kcb.(rcvQueue := x.kcb.rcvQueue[MessageSpan(x.kcb.rcvQueue)..]));
    case FlushNow(env) => NumberLeavesReceiver(x.kcb, SendWindow(x.kcb, env));
    case Deliver(d) => ProcessAllFacts(x.kcb, Parse(x.kcb.conv, d).segs);
    case _ =>
  }

  /** With nothing in flight, nothing received puts anything in flight. */
  lemma {:induction false} EmptyStaysEmpty(k: Kcb, segs: seq<Seg>)
    requires k.sndBuf == []
    ensures ProcessAll(k, segs).sndBuf == [] && ProcessAll(k, segs).sndQueue == k.sndQueue
    decreases |segs|
  {
    if segs != [] {
      ProcessLeavesEmpty(k, segs[0]);
      EmptyStaysEmpty(Process(k, segs[0]), segs[1..]);
    }
  }

  lemma ProcessLeavesEmpty(k: Kcb, s: Seg)
    requires k.sndBuf == []
    ensures Process(k, s).sndBuf == [] && Process(k, s).sndQueue == k.sndQueue
  {
    PushLeavesSender(Shrink(k.(rmtWnd := s.wnd, sndBuf := DropBelow(k.sndBuf, s.una))), s);
  }

  lemma IdleStaysIdle(x: Side, wire: set<Bytes>, e: Event)
    requires x.kcb.Configured() && WaitSnd(x.kcb) == 0 && !e.SendMessage?
    ensures WaitSnd(Act(x, wire, e).kcb) == 0
  {
    match e
    case RecvMessage(len) => RecvLeavesSender(x.kcb, len);
    case Deliver(d) => EmptyStaysEmpty(x.kcb, Parse(x.kcb.conv, d).segs);
    case _ =>
  }

  /** An endpoint further on, nothing new having been sent. */
  ghost predicate Progressed(x: Side, x1: Side) {
    && x1.kcb.conv == x.kcb.conv && x1.kcb.mtu == x.kcb.mtu && x1.kcb.rcvWnd == x.kcb.rcvWnd
    && x1.sent == x.sent && x.out <= x1.out && x.got <= x1.got
    && x.kcb.rcvNxt <= x1.kcb.rcvNxt && x.kcb.sndNxt <= x1.kcb.sndNxt
    && (WaitSnd(x.kcb) == 0 ==> WaitSnd(x1.kcb) == 0)
  }

  lemma DeliverGrows(x: Side, y: Side, d: Bytes)
    requires Connected(x, y) && d in y.out
    ensures Grew(x.kcb, Act(x, y.out, Deliver(d)).kcb) && Act(x, y.out, Deliver(d)).kcb.sndNxt == x.kcb.sndNxt
  {
    assert HonestDatagram(y.kcb, d, y.kcb.sndNxt, Stream(y));
    ProcessAllKeeps(x.kcb, y.kcb, Parse(x.kcb.conv, d).segs, Stream(x), Stream(y));
  }

  lemma ActProgresses(x: Side, y: Side, e: Event)
    requires Connected(x, y) && !e.SendMessage?
    ensures Progressed(x, Act(x, y.out, e))
  {
    ActKeepsConfiguration(x, y.out, e);
    if WaitSnd(x.kcb) == 0 {
      IdleStaysIdle(x, y.out, e);
    }
    NumbersGrow(x, y, e);
  }

  lemma NumbersGrow(x: Side, y: Side, e: Event)
    requires Connected(x, y)
    ensures var k := Act(x, y.out, e).kcb; x.kcb.rcvNxt <= k.rcvNxt && x.kcb.sndNxt <= k.sndNxt
  {
    match e
    case RecvMessage(len) =>
      ReadKeeps(y, x, len);
      RecvLeavesSender(x.kcb, len);
    case FlushNow(env) =>
      FlushAsReceiver(x.kcb, env);
      FlushAsSender(x.kcb, env, Stream(x));
    case Deliver(d) => if d in y.out { DeliverGrows(x, y, d); }
    case _ =>
  }

  // ---------------------------------------------------------------- live networks

  /** An endpoint started, with a window to send in; the peer's window came in 16 bits. */
  ghost predicate LiveSide(x: Side) {
    WithinWindow(x.kcb) && x.kcb.updated && x.kcb.sndWnd > 0 && x.kcb.rmtWnd < 0x1_0000
  }

  /** A network in a state of some run, both endpoints started. */
  ghost predicate Live(n: Net) {
    Connected(n.a, n.b) && LiveSide(n.a) && LiveSide(n.b)
  }

  /** `m` is further on from `n`, nothing new having been sent. */
  ghost predicate Further(c: Setup, n: Net, m: Net) {
    Live(m) && Leads(c, n, m) && Progressed(n.a, m.a) && Progressed(n.b, m.b)
  }

  lemma ActKeepsLive(x: Side, wire: set<Bytes>, e: Event)
    requires x.kcb.Configured() && LiveSide(x)
    ensures LiveSide(Act(x, wire, e))
  {
    ActKeepsSetup(x, wire, e);
    ActKeepsWindow(x, wire, e);
    ActStaysWithin(x, wire, e);
  }

  lemma FurtherStep(c: Setup, n: Net, s: Step)
    requires Live(n) && !s.event.SendMessage? && Paced(s, c)
    ensures Further(c, n, Next(n, s))
  {
    LeadsStep(c, n, s);
    if s.atA {
      StaysConnected(n.a, n.b, s.event);
      ActKeepsLive(n.a, n.b.out, s.event);
      ActProgresses(n.a, n.b, s.event);
    } else {
      StaysConnected(n.b, n.a, s.event);
      ActKeepsLive(n.b, n.a.out, s.event);
      ActProgresses(n.b, n.a, s.event);
    }
  }

  lemma FurtherOn(c: Setup, n: Net, m: Net, p: Net)
    requires Further(c, n, m) && Further(c, m, p)
    ensures Further(c, n, p)
  {
    LeadsOn(c, n, m, p);
  }

  lemma FurtherNowhere(c: Setup, n: Net)
    requires Live(n)
    ensures Further(c, n, n)
  {
    LeadsNowhere(c, n);
  }

  // ---------------------------------------------------------------- reading out

  /** `y` has read everything, or the next message is not completely queued. */
  ghost predicate Drained(x: Side, y: Side)
    requires Sound(x) && y.got <= x.sent
  {
    |y.got| == |x.sent| || |y.kcb.rcvQueue| < |Cut(x.kcb.Mss(), x.sent[|y.got|])|
  }

  lemma ReadNext(c: Setup, n: Net) returns (m: Net)
    requires Live(n) && !Drained(n.a, n.b)
    ensures Further(c, n, m) && m.a == n.a && m.b == Act(n.b, n.a.out, RecvMessage(|n.a.sent[|n.b.got|]|))
    ensures RecvCode(n.b.kcb, |n.a.sent[|n.b.got|]|) >= 0 && |m.b.got| == |n.b.got| + 1
  {
    var msg := n.a.sent[|n.b.got|];
    CutCorrect(n.a.kcb.Mss(), msg);
    RecvReturnsNext(n.a, n.b, |msg|);
    m := Next(n, Step(false, RecvMessage(|msg|)));
    FurtherStep(c, n, Step(false, RecvMessage(|msg|)));
  }

  lemma {:induction false} Drain(c: Setup, n: Net) returns (m: Net)
    requires Live(n)
    ensures Further(c, n, m) && m.a == n.a && Drained(m.a, m.b)
    decreases |n.a.sent| - |n.b.got|
  {
    if Drained(n.a, n.b) {
      m := n;
      FurtherNowhere(c, n);
    } else {
      var p := ReadNext(c, n);
      m := Drain(c, p);
      FurtherOn(c, n, p, m);
    }
  }

  ghost predicate Fits(x: Side, y: Side) {
    forall k: nat :: !Oversize(x, y, k)
  }

  /** A drained receiver has everything, or room for the piece it is missing. */
  lemma DrainedFacts(x: Side, y: Side)
    requires Connected(x, y) && Drained(x, y)
    ensures |y.got| == |x.sent| ==> y.got == x.sent && y.kcb.rcvQueue == [] && y.kcb.rcvNxt == |Stream(x)|
    ensures |y.got| < |x.sent| ==> |y.kcb.rcvQueue| < 255 && y.kcb.rcvNxt < |Stream(x)|
    ensures |y.got| < |x.sent| && Fits(x, y) ==> |y.kcb.rcvQueue| < y.kcb.rcvWnd
  {
    if |y.got| < |x.sent| {
      assert Fits(x, y) ==> !Oversize(x, y, |y.got|);
      CutCorrect(x.kcb.Mss(), x.sent[|y.got|]);
      NextFollows(x.kcb.Mss(), x.sent, y.got);
    } else {
      assert y.got == x.sent;
    }
  }

  lemma NextFollows(mss: nat, msgs: seq<Bytes>, got: seq<Bytes>)
    requires AllAccepted(mss, msgs) && got < msgs && AllAccepted(mss, got)
    ensures |Pieces(mss, got)| + |Cut(mss, msgs[|got|])| <= |Pieces(mss, msgs)|
  {
    PiecesSnoc(mss, got, msgs[|got|]);
    PiecesPrefix(mss, msgs, |got| + 1);
    assert msgs[..|got| + 1] == got + [msgs[|got|]];
  }

  // ---------------------------------------------------------------- the send window

  /** A flush at this pace has room for one more number. */
  predicate Admits(k: Kcb, p: Pace) {
    TimeDiff(k.sndNxt, Add32(k.sndUna, SendWindow(k, Flushing(p, false, {})))) < 0
  }

  /** A flush at this pace numbers nothing new. */
  predicate Holding(k: Kcb, p: Pace) {
    !Admits(k, p) || k.sndQueue == []
  }

  lemma HoldingNumbersNothing(k: Kcb, p: Pace, probe: bool, resend: set<U32>)
    requires Holding(k, p)
    ensures Number(k, SendWindow(k, Flushing(p, probe, resend))) == k
  {
  }

  /** With nothing in flight and an open window there is room. */
  lemma OpenAdmits(k: Kcb, p: Pace, S: seq<Frag>)
    requires SndInv(k, S) && |S| < LIMIT && k.sndBuf == [] && k.sndWnd > 0 && 0 < k.rmtWnd < 0x1_0000 && Running(p)
    ensures Admits(k, p)
  {
    TimeDiffIsPlain(k.sndNxt, Add32(k.sndUna, SendWindow(k, Flushing(p, false, {}))));
  }

  /** With a closed window there is none. */
  lemma ClosedHolds(k: Kcb, p: Pace, S: seq<Frag>)
    requires SndInv(k, S) && |S| < LIMIT && k.rmtWnd == 0
    ensures !Admits(k, p)
  {
    TimeDiffIsPlain(k.sndNxt, Add32(k.sndUna, 0));
  }

  /** A flush that has room numbers the next piece, and sends it. */
  lemma NumbersNext(k: Kcb, p: Pace, env: Env)
    requires Admits(k, p) && k.sndQueue != [] && env.cwnd == p.cwnd && env.nocwnd == p.nocwnd
    ensures var buf := Number(k, SendWindow(k, env)).sndBuf;
            |k.sndBuf| < |buf| && buf[|k.sndBuf|].sn == k.sndNxt && Due(buf[|k.sndBuf|], env)
  {
    NumberAppends(NumberOne(k), SendWindow(k, env));
  }

  lemma {:induction false} NumberAppends(k: Kcb, cwnd: U32)
    ensures k.sndBuf <= Number(k, cwnd).sndBuf
    decreases |k.sndQueue|
  {
    if TimeDiff(k.sndNxt, Add32(k.sndUna, cwnd)) < 0 && k.sndQueue != [] {
      NumberAppends(NumberOne(k), cwnd);
    }
  }

  // ---------------------------------------------------------------- what a flush tells

  /** The window the peer is told: its low 16 bits. */
  function Told(k: Kcb): (w: U32)
    ensures w < 0x1_0000
  {
    UnusedWindow(k) % 0x1_0000
  }

  /** All segments parsed from a datagram of a flush carry the same acknowledgement and window. */
  lemma DatagramTells(k: Kcb, env: Env, S: seq<Frag>, d: Bytes, x: Seg)
    requires k.Configured() && SndInv(k, S) && |S| < LIMIT && AcksHeld(k) && ShortPieces(S, k)
    requires d in FlushOutput(k, env) && x in Parse(k.conv, d).segs
    ensures x.una == k.rcvNxt && x.wnd == Told(k)
  {
    var s := FromFlush(k, env, S, d, x);
    TellsOnWire(k, env, s);
  }

  lemma TellsOnWire(k: Kcb, env: Env, s: Seg)
    requires s in FlushSegs(k, env)
    ensures OnWire(s).una == k.rcvNxt && OnWire(s).wnd == Told(k)
  {
    KcpFlush.FlushTells(k, env);
  }

  lemma FromFlush(k: Kcb, env: Env, S: seq<Frag>, d: Bytes, x: Seg) returns (s: Seg)
    requires k.Configured() && SndInv(k, S) && |S| < LIMIT && AcksHeld(k) && ShortPieces(S, k)
    requires d in FlushOutput(k, env) && x in Parse(k.conv, d).segs
    ensures s in FlushSegs(k, env) && x == OnWire(s)
  {
    FlushCarriesSegments(k, env, S);
    s := FromCarried(k.conv, k.mtu, FlushOutput(k, env), FlushSegs(k, env), d, x);
  }

  lemma FromCarried(conv: U32, mtu: nat, ds: seq<Bytes>, segs: seq<Seg>, d: Bytes, x: Seg) returns (s: Seg)
    requires Carries(conv, mtu, ds, segs) && d in ds && x in Parse(conv, d).segs
    ensures s in segs && x == OnWire(s)
  {
    ParseEachMember(conv, ds, d);
    s := OnWireSource(segs, x);
  }

  lemma OnWireSource(segs: seq<Seg>, x: Seg) returns (s: Seg)
    requires x in AllOnWire(segs)
    ensures s in segs && x == OnWire(s)
  {
    var i :| 0 <= i < |segs| && AllOnWire(segs)[i] == x;
    s := segs[i];
  }

  // ---------------------------------------------------------------- clearing the send buffer

  lemma ProcessClears(x: Kcb, s: Seg, S: seq<Frag>)
    requires SndInv(x, S) && |S| < LIMIT && s.una == x.sndNxt && (s.cmd == CMD_ACK ==> s.sn < LIMIT)
    ensures var r := Process(x, s); r.sndBuf == [] && r.rmtWnd == s.wnd && r.sndNxt == x.sndNxt && SndInv(r, S)
  {
    ProcessAsSender(x, s, S);
    ProcessFacts(x, s);
    var r := Process(x, s);
    if r.sndBuf != [] {
      assert InFlight(r.sndBuf, r.sndBuf[0].sn);
    }
  }

  /** Segments that acknowledge everything numbered empty the buffer and tell the window. */
  lemma {:induction false} ProcessAllClears(x: Kcb, segs: seq<Seg>, wnd: U32, S: seq<Frag>)
    requires SndInv(x, S) && |S| < LIMIT && segs != []
    requires forall s :: s in segs ==> s.una == x.sndNxt && s.wnd == wnd && (s.cmd == CMD_ACK ==> s.sn < LIMIT)
    ensures var r := ProcessAll(x, segs); r.sndBuf == [] && r.rmtWnd == wnd && r.sndNxt == x.sndNxt && SndInv(r, S)
    decreases |segs|
  {
    assert segs[0] in segs;
    ProcessClears(x, segs[0], S);
    if segs[1..] != [] {
      ProcessAllClears(Process(x, segs[0]), segs[1..], wnd, S);
    } else {
      assert ProcessAll(Process(x, segs[0]), []) == Process(x, segs[0]);
    }
  }

  // ---------------------------------------------------------------- asking and answering

  /** `b` has all that `a` has numbered, and room for more. */
  ghost predicate CaughtUp(n: Net) {
    n.b.kcb.rcvNxt == n.a.kcb.sndNxt && |n.b.kcb.rcvQueue| < n.b.kcb.rcvWnd
  }

  /** `m` is further on with the same pieces numbered and received. */
  ghost predicate StillCaughtUp(c: Setup, n: Net, m: Net) {
    && Further(c, n, m) && CaughtUp(m) && m.a.kcb.sndNxt == n.a.kcb.sndNxt && m.b.got == n.b.got
  }

  lemma CaughtUpOn(c: Setup, n: Net, m: Net, p: Net)
    requires StillCaughtUp(c, n, m) && StillCaughtUp(c, m, p)
    ensures StillCaughtUp(c, n, p)
  {
    FurtherOn(c, n, m, p);
  }

  lemma HoldingFlushFields(k: Kcb, p: Pace, probe: bool, resend: set<U32>)
    requires Holding(k, p)
    ensures Flush(k, Flushing(p, probe, resend)).sndNxt == k.sndNxt
  {
    HoldingNumbersNothing(k, p, probe, resend);
  }

  /** A flush that numbers nothing, and the delivery of one of its datagrams. */
  lemma HoldingSend(c: Setup, n: Net, probe: bool, resend: set<U32>, d: Bytes) returns (m: Net)
    requires Live(n) && CaughtUp(n) && Holding(n.a.kcb, c.a)
    requires d in FlushOutput(n.a.kcb, Flushing(c.a, probe, resend))
    ensures StillCaughtUp(c, n, m) && m.b.kcb == Input(n.b.kcb, d)
  {
    var p := HoldingFlush(c, n, probe, resend);
    m := DeliverToB(c, p, d);
    CaughtUpOn(c, n, p, m);
  }

  lemma HoldingFlush(c: Setup, n: Net, probe: bool, resend: set<U32>) returns (m: Net)
    requires Live(n) && CaughtUp(n) && Holding(n.a.kcb, c.a)
    ensures StillCaughtUp(c, n, m) && m.b == n.b
    ensures m.a.out == n.a.out + FlushedSet(n.a.kcb, Flushing(c.a, probe, resend))
  {
    var s := Step(true, FlushNow(Flushing(c.a, probe, resend)));
    m := Next(n, s);
    FurtherStep(c, n, s);
    HoldingFlushFields(n.a.kcb, c.a, probe, resend);
  }

  lemma DeliverToB(c: Setup, n: Net, d: Bytes) returns (m: Net)
    requires Live(n) && CaughtUp(n) && d in n.a.out
    ensures StillCaughtUp(c, n, m) && m.b == Act(n.b, n.a.out, Deliver(d)) && m.b.kcb == Input(n.b.kcb, d)
  {
    m := Next(n, Step(false, Deliver(d)));
    FurtherStep(c, n, Step(false, Deliver(d)));
    DeliverGrows(n.b, n.a, d);
  }

  /** Everything `b` has to say is in its next flush. */
  ghost predicate Owes(k: Kcb) {
    k.acks != [] || k.askTell
  }

  lemma OwedIsSent(k: Kcb, env: Env) returns (s: Seg)
    requires Owes(k) && k.updated
    ensures s in FlushSegs(k, env)
  {
    if k.acks != [] {
      AckSegsHas(k, k.acks, k.acks[0]);
      s := AckSeg(k, k.acks[0]);
    } else {
      s := AckSeg(k, LastAck(k)).(cmd := CMD_WINS);
      assert s in ProbeSegs(k, env);
    }
  }

  /** Its reply empties the send buffer of `a` and tells the window. */
  lemma Reply(c: Setup, n: Net) returns (m: Net)
    requires Live(n) && CaughtUp(n) && Owes(n.b.kcb)
    ensures StillCaughtUp(c, n, m) && m.a.kcb.sndBuf == [] && m.a.kcb.rmtWnd == Told(n.b.kcb)
  {
    var p, e := ReplyGoesOut(c, n);
    m := ReplyArrives(c, p, e, Told(n.b.kcb));
    CaughtUpOn(c, n, p, m);
  }

  /** A segment that acknowledges everything below `una` and tells window `wnd`. */
  ghost predicate Tells(z: Seg, una: int, wnd: int) {
    z.una == una && z.wnd == wnd && (z.cmd == CMD_ACK ==> z.sn < LIMIT)
  }

  lemma ReplyArrives(c: Setup, n: Net, e: Bytes, wnd: U32) returns (m: Net)
    requires Live(n) && CaughtUp(n) && e in n.b.out && Parse(n.a.kcb.conv, e).segs != []
    requires forall z :: z in Parse(n.a.kcb.conv, e).segs ==> Tells(z, n.a.kcb.sndNxt, wnd)
    ensures StillCaughtUp(c, n, m) && m.a.kcb.sndBuf == [] && m.a.kcb.rmtWnd == wnd
  {
    InputClears(n.a.kcb, e, wnd, Stream(n.a));
    m := Next(n, Step(true, Deliver(e)));
    FurtherStep(c, n, Step(true, Deliver(e)));
  }

  lemma ReplyGoesOut(c: Setup, n: Net) returns (m: Net, e: Bytes)
    requires Live(n) && CaughtUp(n) && Owes(n.b.kcb)
    ensures StillCaughtUp(c, n, m) && m.a == n.a && e in m.b.out && Parse(n.b.kcb.conv, e).segs != []
    ensures forall z :: z in Parse(n.b.kcb.conv, e).segs ==> Tells(z, n.b.kcb.rcvNxt, Told(n.b.kcb))
  {
    var env := Flushing(c.b, false, {});
    var s := OwedIsSent(n.b.kcb, env);
    PiecesFit(n.b);
    e := FlushPuts(n.b.kcb, env, Stream(n.b), s);
    assert OnWire(s) in Parse(n.b.kcb.conv, e).segs;
    m := Next(n, Step(false, FlushNow(env)));
    FurtherStep(c, n, Step(false, FlushNow(env)));
    FlushAsReceiver(n.b.kcb, env);
    ReplySegs(n.b, m.b, n.a, env, e);
  }

  lemma InputClears(k: Kcb, e: Bytes, wnd: U32, S: seq<Frag>)
    requires SndInv(k, S) && |S| < LIMIT && Parse(k.conv, e).segs != []
    requires forall z :: z in Parse(k.conv, e).segs ==> Tells(z, k.sndNxt, wnd)
    ensures var r := Input(k, e); r.sndBuf == [] && r.rmtWnd == wnd && r.sndNxt == k.sndNxt
  {
    ProcessAllClears(k, Parse(k.conv, e).segs, wnd, S);
  }

  lemma ReplySegs(y: Side, y1: Side, x: Side, env: Env, e: Bytes)
    requires SideInv(y) && |Stream(y)| < LIMIT && e in FlushOutput(y.kcb, env)
    requires Connected(y1, x) && e in y1.out && y1.kcb.conv == y.kcb.conv
    ensures forall z :: z in Parse(y.kcb.conv, e).segs ==> Tells(z, y.kcb.rcvNxt, Told(y.kcb))
  {
    forall z | z in Parse(y.kcb.conv, e).segs ensures Tells(z, y.kcb.rcvNxt, Told(y.kcb)) {
      OutputTells(y, env, e, z);
      SmallInOutput(y1, x, e, z);
    }
  }

  lemma OutputTells(y: Side, env: Env, e: Bytes, z: Seg)
    requires SideInv(y) && |Stream(y)| < LIMIT
    requires e in FlushOutput(y.kcb, env) && z in Parse(y.kcb.conv, e).segs
    ensures z.una == y.kcb.rcvNxt && z.wnd == Told(y.kcb)
  {
    PiecesFit(y);
    DatagramTells(y.kcb, env, Stream(y), e, z);
  }

  lemma SmallInOutput(y: Side, x: Side, e: Bytes, z: Seg)
    requires Connected(y, x) && e in y.out && z in Parse(y.kcb.conv, e).segs
    ensures z.cmd == CMD_ACK ==> z.sn < LIMIT
  {
    assert HonestDatagram(y.kcb, e, y.kcb.sndNxt, Stream(y));
    HonestIsSmall(y.kcb, z, x.kcb.sndNxt, Stream(x), Stream(y));
  }

  /** Resending an acknowledged piece makes `b` owe an acknowledgement. */
  lemma ResendAsks(c: Setup, n: Net) returns (m: Net)
    requires Live(n) && CaughtUp(n) && Holding(n.a.kcb, c.a) && n.a.kcb.sndBuf != []
    ensures StillCaughtUp(c, n, m) && Owes(m.b.kcb)
  {
    var p, d, z := ResendGoesOut(c, n);
    m := ResendArrives(c, p, d, z);
    CaughtUpOn(c, n, p, m);
  }

  lemma ResendGoesOut(c: Setup, n: Net) returns (m: Net, d: Bytes, z: Seg)
    requires Live(n) && CaughtUp(n) && Holding(n.a.kcb, c.a) && n.a.kcb.sndBuf != []
    ensures StillCaughtUp(c, n, m) && m.b == n.b && d in m.a.out && z in Parse(n.a.kcb.conv, d).segs
    ensures z.cmd == CMD_PUSH && z.sn < n.b.kcb.rcvNxt
  {
    d, z := FirstGoesOut(n.a, n.b, c.a);
    m := HoldingFlush(c, n, false, {n.a.kcb.sndBuf[0].sn});
  }

  lemma FirstGoesOut(x: Side, y: Side, p: Pace) returns (d: Bytes, z: Seg)
    requires Connected(x, y) && x.kcb.updated && Holding(x.kcb, p) && x.kcb.sndBuf != []
    ensures d in x.out + FlushedSet(x.kcb, Flushing(p, false, {x.kcb.sndBuf[0].sn}))
    ensures z in Parse(x.kcb.conv, d).segs && z.cmd == CMD_PUSH && z.sn < x.kcb.sndNxt
  {
    var i := x.kcb.sndBuf[0].sn;
    HoldingNumbersNothing(x.kcb, p, false, {i});
    d, z := PieceGoesOut(x, y, Flushing(p, false, {i}), 0);
  }

  lemma ResendArrives(c: Setup, n: Net, d: Bytes, z: Seg) returns (m: Net)
    requires Live(n) && CaughtUp(n) && d in n.a.out && z in Parse(n.b.kcb.conv, d).segs
    requires z.cmd == CMD_PUSH && z.sn < n.b.kcb.rcvNxt
    ensures StillCaughtUp(c, n, m) && Owes(m.b.kcb)
  {
    PieceOwes(n.a, n.b, d, z);
    m := DeliverToB(c, n, d);
  }

  lemma PieceOwes(x: Side, y: Side, d: Bytes, z: Seg)
    requires Connected(x, y) && d in x.out && z in Parse(y.kcb.conv, d).segs
    requires z.cmd == CMD_PUSH && z.sn < y.kcb.rcvNxt
    ensures Owes(Act(y, x.out, Deliver(d)).kcb)
  {
    PieceArrives(x, y, d, z);
  }

  /** With a closed window, a probe makes `b` owe its window. */
  lemma ProbeAsks(c: Setup, n: Net) returns (m: Net)
    requires Live(n) && CaughtUp(n) && n.a.kcb.rmtWnd == 0
    ensures StillCaughtUp(c, n, m) && Owes(m.b.kcb)
  {
    ClosedHolds(n.a.kcb, c.a, Stream(n.a));
    var d, s := ProbeGoesOut(n.a, Flushing(c.a, true, {}));
    m := HoldingSend(c, n, true, {}, d);
    ProbeHeard(n.b.kcb, d, s);
  }

  lemma ProbeGoesOut(x: Side, env: Env) returns (d: Bytes, s: Seg)
    requires SideInv(x) && |Stream(x)| < LIMIT && x.kcb.updated && x.kcb.rmtWnd == 0 && env.probeDue
    ensures d in FlushOutput(x.kcb, env) && s in Parse(x.kcb.conv, d).segs && s.cmd == CMD_WASK
  {
    var z := AckSeg(x.kcb, LastAck(x.kcb)).(cmd := CMD_WASK);
    assert z in ProbeSegs(x.kcb, env);
    PiecesFit(x);
    d := FlushPuts(x.kcb, env, Stream(x), z);
    s := OnWire(z);
  }

  lemma ProbeHeard(k: Kcb, d: Bytes, s: Seg)
    requires s in Parse(k.conv, d).segs && s.cmd == CMD_WASK
    ensures Owes(Input(k, d))
  {
    ProcessAllFacts(k, Parse(k.conv, d).segs);
  }

  /** With nothing more to number at present, what is in flight can be acknowledged. */
  lemma Clear(c: Setup, n: Net) returns (m: Net)
    requires Live(n) && CaughtUp(n) && Holding(n.a.kcb, c.a) && n.a.kcb.sndBuf != []
    ensures StillCaughtUp(c, n, m) && m.a.kcb.sndBuf == []
    ensures n.b.kcb.rcvWnd < 0x1_0000 ==> m.a.kcb.rmtWnd > 0
  {
    var p := ResendAsks(c, n);
    RoomIsTold(p.b.kcb);
    m := Reply(c, p);
    CaughtUpOn(c, n, p, m);
  }

  /** A window of 16 bits with room in it is told to be open. */
  lemma RoomIsTold(k: Kcb)
    ensures |k.rcvQueue| < k.rcvWnd < 0x1_0000 ==> Told(k) > 0
  {
  }

  // ---------------------------------------------------------------- opening the window

  /** A datagram that tells an open window. */
  ghost predicate Opening(conv: U32, d: Bytes) {
    var segs := Parse(conv, d).segs;
    segs != [] && segs[|segs| - 1].wnd > 0
  }

  /** Some datagram that `y` ever output tells an open window. */
  ghost predicate Primed(y: Side) {
    exists d :: d in y.out && Opening(y.kcb.conv, d)
  }

  lemma {:induction false} LastTells(k: Kcb, segs: seq<Seg>)
    requires segs != []
    ensures ProcessAll(k, segs).rmtWnd == segs[|segs| - 1].wnd
    decreases |segs|
  {
    ProcessFacts(k, segs[0]);
    if segs[1..] != [] {
      LastTells(Process(k, segs[0]), segs[1..]);
    } else {
      assert ProcessAll(Process(k, segs[0]), []) == Process(k, segs[0]);
    }
  }

  lemma OpeningOpens(k: Kcb, d: Bytes)
    requires Opening(k.conv, d) && k.sndBuf == []
    ensures Input(k, d).rmtWnd > 0 && Input(k, d).sndBuf == []
  {
    LastTells(k, Parse(k.conv, d).segs);
    EmptyStaysEmpty(k, Parse(k.conv, d).segs);
  }

  /** Such a datagram can be delivered again at any time. */
  lemma Replay(c: Setup, n: Net) returns (m: Net)
    requires Live(n) && CaughtUp(n) && Primed(n.b) && n.a.kcb.sndBuf == []
    ensures StillCaughtUp(c, n, m) && m.a.kcb.sndBuf == [] && m.a.kcb.rmtWnd > 0
  {
    var d :| d in n.b.out && Opening(n.b.kcb.conv, d);
    OpeningOpens(n.a.kcb, d);
    m := Next(n, Step(true, Deliver(d)));
    FurtherStep(c, n, Step(true, Deliver(d)));
    DeliverGrows(n.a, n.b, d);
  }

  /** `a` can always be told of an open window: the window of `y` fits its 16 bits, or an open one was
      told before. */
  ghost predicate CanOpen(y: Side) {
    y.kcb.rcvWnd < 0x1_0000 || Primed(y)
  }

  lemma CanOpenStays(y: Side, y1: Side)
    requires CanOpen(y) && y.out <= y1.out && y1.kcb.conv == y.kcb.conv && y1.kcb.rcvWnd == y.kcb.rcvWnd
    ensures CanOpen(y1)
  {
  }

  /** However the window stands, it can be opened, with nothing left in flight. */
  lemma OpenWindow(c: Setup, n: Net) returns (m: Net)
    requires Live(n) && CaughtUp(n) && Holding(n.a.kcb, c.a) && CanOpen(n.b)
    ensures StillCaughtUp(c, n, m) && m.a.kcb.sndBuf == [] && m.a.kcb.rmtWnd > 0
  {
    if n.a.kcb.sndBuf != [] {
      var p := Clear(c, n);
      CanOpenStays(n.b, p.b);
      m := OpenEmpty(c, p);
      CaughtUpOn(c, n, p, m);
    } else {
      m := OpenEmpty(c, n);
    }
  }

  lemma OpenEmpty(c: Setup, n: Net) returns (m: Net)
    requires Live(n) && CaughtUp(n) && CanOpen(n.b) && n.a.kcb.sndBuf == []
    ensures StillCaughtUp(c, n, m) && m.a.kcb.sndBuf == [] && m.a.kcb.rmtWnd > 0
  {
    if n.a.kcb.rmtWnd > 0 {
      m := n;
      FurtherNowhere(c, n);
    } else if Primed(n.b) {
      m := Replay(c, n);
    } else {
      m := AskWindow(c, n);
    }
  }

  lemma AskWindow(c: Setup, n: Net) returns (m: Net)
    requires Live(n) && CaughtUp(n) && n.b.kcb.rcvWnd < 0x1_0000 && n.a.kcb.rmtWnd == 0
    ensures StillCaughtUp(c, n, m) && m.a.kcb.sndBuf == [] && m.a.kcb.rmtWnd > 0
  {
    var p := ProbeAsks(c, n);
    RoomIsTold(p.b.kcb);
    m := Reply(c, p);
    CaughtUpOn(c, n, p, m);
  }

  // ---------------------------------------------------------------- one piece further

  /** `b` has one piece more, and nothing was read. */
  ghost predicate Ahead(c: Setup, n: Net, m: Net) {
    Further(c, n, m) && n.b.kcb.rcvNxt < m.b.kcb.rcvNxt && m.b.got == n.b.got
  }

  /** Nothing was received at `a`. */
  ghost predicate SameReceived(x: Side, x1: Side) {
    x1.got == x.got && x1.kcb.rcvNxt == x.kcb.rcvNxt && x1.kcb.rcvQueue == x.kcb.rcvQueue
  }

  /** Delivering the piece `b` is missing moves it on. */
  lemma MissingArrives(c: Setup, n: Net, d: Bytes, s: Seg) returns (m: Net)
    requires Live(n) && |n.b.kcb.rcvQueue| < n.b.kcb.rcvWnd && d in n.a.out
    requires s in Parse(n.b.kcb.conv, d).segs && s.cmd == CMD_PUSH && s.sn == n.b.kcb.rcvNxt
    ensures Ahead(c, n, m) && m.a == n.a
  {
    m := Next(n, Step(false, Deliver(d)));
    FurtherStep(c, n, Step(false, Deliver(d)));
    PieceArrives(n.a, n.b, d, s);
    DeliverGrows(n.b, n.a, d);
    MovesOn(n.b.kcb, m.b.kcb, m.a.kcb.sndNxt, Stream(m.a));
  }

  lemma MovesOn(r: Kcb, r1: Kcb, hi: int, S: seq<Frag>)
    requires RcvInv(r1, hi, S) && Grew(r, r1) && Has(r1, r.rcvNxt) && |r.rcvQueue| < r.rcvWnd == r1.rcvWnd
    ensures r.rcvNxt < r1.rcvNxt
  {
    if r.rcvNxt == r1.rcvNxt {
      HeldIsFirst(r1, hi, S);
    }
  }

  /** Flush, and deliver the datagram with the missing piece. */
  lemma FlushMissing(c: Setup, n: Net, resend: set<U32>, j: nat) returns (m: Net)
    requires Live(n) && |n.b.kcb.rcvQueue| < n.b.kcb.rcvWnd
    requires var env := Flushing(c.a, false, resend);
             var buf := Number(n.a.kcb, SendWindow(n.a.kcb, env)).sndBuf;
             j < |buf| && Due(buf[j], env) && buf[j].sn == n.b.kcb.rcvNxt
    ensures Ahead(c, n, m) && SameReceived(n.a, m.a)
  {
    var env := Flushing(c.a, false, resend);
    var d, s := PieceGoesOut(n.a, n.b, env, j);
    var p := Next(n, Step(true, FlushNow(env)));
    FurtherStep(c, n, Step(true, FlushNow(env)));
    FlushAsReceiver(n.a.kcb, env);
    m := MissingArrives(c, p, d, s);
    FurtherOn(c, n, p, m);
  }

  /** The missing piece is numbered: send it again. */
  lemma ResendMissing(c: Setup, n: Net) returns (m: Net)
    requires Live(n) && |n.b.kcb.rcvQueue| < n.b.kcb.rcvWnd && n.b.kcb.rcvNxt < n.a.kcb.sndNxt
    ensures Ahead(c, n, m) && SameReceived(n.a, m.a)
  {
    var i := n.b.kcb.rcvNxt;
    NumberAppends(n.a.kcb, SendWindow(n.a.kcb, Flushing(c.a, false, {i})));
    MissingInFlight(n);
    var j :| 0 <= j < |n.a.kcb.sndBuf| && n.a.kcb.sndBuf[j].sn == i;
    m := FlushMissing(c, n, {i}, j);
  }

  lemma MissingInFlight(n: Net)
    requires Live(n) && |n.b.kcb.rcvQueue| < n.b.kcb.rcvWnd && n.b.kcb.rcvNxt < n.a.kcb.sndNxt
    ensures InFlight(n.a.kcb.sndBuf, n.b.kcb.rcvNxt)
  {
    if Has(n.b.kcb, n.b.kcb.rcvNxt) {
      HeldIsFirst(n.b.kcb, n.a.kcb.sndNxt, Stream(n.a));
    }
  }

  /** It is not numbered, and the window has no room: open the window, number it and send it. */
  lemma SendMissing(c: Setup, n: Net) returns (m: Net)
    requires Live(n) && CaughtUp(n) && n.b.kcb.rcvNxt < |Stream(n.a)| && CanOpen(n.b) && Running(c.a)
    requires !Admits(n.a.kcb, c.a)
    ensures Ahead(c, n, m)
  {
    var p := OpenWindow(c, n);
    SameStream(n.a, p.a);
    m := SendFirst(c, p);
    FurtherOn(c, n, p, m);
  }

  lemma SameStream(x: Side, x1: Side)
    requires Sound(x) && Progressed(x, x1)
    ensures Sound(x1) && Stream(x1) == Stream(x)
  {
  }

  lemma SendFirst(c: Setup, n: Net) returns (m: Net)
    requires Live(n) && CaughtUp(n) && n.b.kcb.rcvNxt < |Stream(n.a)| && Running(c.a)
    requires n.a.kcb.sndBuf == [] && n.a.kcb.rmtWnd > 0
    ensures Ahead(c, n, m)
  {
    OpenAdmits(n.a.kcb, c.a, Stream(n.a));
    m := SendNext(c, n);
  }

  lemma SendNext(c: Setup, n: Net) returns (m: Net)
    requires Live(n) && CaughtUp(n) && n.b.kcb.rcvNxt < |Stream(n.a)| && Admits(n.a.kcb, c.a)
    ensures Ahead(c, n, m)
  {
    NumbersNext(n.a.kcb, c.a, Flushing(c.a, false, {}));
    m := FlushMissing(c, n, {}, |n.a.kcb.sndBuf|);
  }

  lemma Advance(c: Setup, n: Net) returns (m: Net)
    requires Live(n) && |n.b.kcb.rcvQueue| < n.b.kcb.rcvWnd && n.b.kcb.rcvNxt < |Stream(n.a)|
    requires CanOpen(n.b) && Running(c.a)
    ensures Ahead(c, n, m)
  {
    if n.b.kcb.rcvNxt < n.a.kcb.sndNxt {
      m := ResendMissing(c, n);
    } else if Admits(n.a.kcb, c.a) {
      m := SendNext(c, n);
    } else {
      m := SendMissing(c, n);
    }
  }

  // ---------------------------------------------------------------- everything

  /** Everything `a` sent was read by `b`, and `a` knows. */
  ghost predicate AllDelivered(n: Net) {
    n.b.got == n.a.sent && WaitSnd(n.a.kcb) == 0
  }

  /** Once everything was read, one more exchange tells `a`. */
  lemma Settle(c: Setup, n: Net) returns (m: Net)
    requires Live(n) && Fits(n.a, n.b) && n.b.got == n.a.sent
    requires n.b.kcb.rcvQueue == [] && n.b.kcb.rcvNxt == |Stream(n.a)|
    ensures Further(c, n, m) && AllDelivered(m)
  {
    AllNumbered(n.a, n.b);
    if n.a.kcb.sndBuf == [] {
      m := n;
      FurtherNowhere(c, n);
    } else {
      FittingNeedsRoom(n.a, n.b);
      m := SettleFlight(c, n);
    }
  }

  lemma SettleFlight(c: Setup, n: Net) returns (m: Net)
    requires Live(n) && CaughtUp(n) && n.b.got == n.a.sent && n.a.kcb.sndQueue == [] && n.a.kcb.sndBuf != []
    ensures Further(c, n, m) && AllDelivered(m)
  {
    m := Clear(c, n);
    SameQueue(n.a, m.a);
  }

  lemma SameQueue(x: Side, x1: Side)
    requires SideInv(x) && SideInv(x1) && Progressed(x, x1) && x1.kcb.sndNxt == x.kcb.sndNxt
    ensures x1.kcb.sndQueue == x.kcb.sndQueue
  {
    SameStream(x, x1);
  }

  lemma AllNumbered(x: Side, y: Side)
    requires Connected(x, y) && y.kcb.rcvNxt == |Stream(x)|
    ensures x.kcb.sndNxt == |Stream(x)| && x.kcb.sndQueue == []
  {
  }

  lemma FittingNeedsRoom(x: Side, y: Side)
    requires Sound(x) && Fits(x, y) && |Stream(x)| > 0
    ensures y.kcb.rcvWnd > 0
  {
    assert !Oversize(x, y, 0);
    CutCorrect(x.kcb.Mss(), x.sent[0]);
  }

  lemma FitsKept(c: Setup, n: Net, m: Net)
    requires Sound(n.a) && Further(c, n, m) && Fits(n.a, n.b)
    ensures Fits(m.a, m.b) && Stream(m.a) == Stream(n.a)
  {
    SameFits(n.a, n.b, m.a, m.b);
  }

  lemma SameFits(x: Side, y: Side, x1: Side, y1: Side)
    requires Sound(x) && Fits(x, y) && x1.sent == x.sent && x1.kcb.mtu == x.kcb.mtu && y1.kcb.rcvWnd == y.kcb.rcvWnd
    ensures Fits(x1, y1)
  {
    forall k: nat ensures !Oversize(x1, y1, k) {
      assert !Oversize(x, y, k);
    }
  }

  /** The direction from `x` to `y` has what it needs: `y` has all the pieces, or can open the window. */
  ghost predicate Clears(x: Side, y: Side) {
    Sound(x) && (CanOpen(y) || y.kcb.rcvNxt == |Stream(x)|)
  }

  lemma ClearsStays(x: Side, y: Side, x1: Side, y1: Side)
    requires Clears(x, y) && Connected(x1, y1) && Progressed(x, x1) && Progressed(y, y1)
    ensures Clears(x1, y1)
  {
    if CanOpen(y) {
      CanOpenStays(y, y1);
    }
  }

  /** From a live network whose messages all fit, everything can be delivered. */
  lemma {:induction false} DeliverAll(c: Setup, n: Net) returns (m: Net)
    requires Live(n) && Fits(n.a, n.b) && Clears(n.a, n.b) && Running(c.a)
    ensures Further(c, n, m) && AllDelivered(m)
    decreases |Stream(n.a)| - n.b.kcb.rcvNxt
  {
    var p := Drain(c, n);
    FitsKept(c, n, p);
    DrainedFacts(p.a, p.b);
    ClearsStays(n.a, n.b, p.a, p.b);
    if |p.b.got| == |p.a.sent| {
      m := Settle(c, p);
      FurtherOn(c, n, p, m);
    } else {
      var q := Advance(c, p);
      FurtherOn(c, n, p, q);
      FitsKept(c, n, q);
      ClearsStays(p.a, p.b, q.a, q.b);
      m := DeliverAll(c, q);
      FurtherOn(c, n, q, m);
    }
  }
}
