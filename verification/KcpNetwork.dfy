/** Two KCP endpoints over a network that may lose, duplicate and reorder datagrams but not
    forge them: a datagram can be delivered at any time, any number of times, once its
    sender has output it.

    Runs are arbitrary interleavings of sends, receives, flushes and deliveries with
    arbitrary clocks, windows and retransmission decisions. The theorems are at the end.
 */
module KcpNetwork {
  import opened KcpWire
  import opened Kcp
  import opened KcpReceiver
  import opened KcpSender
  import opened KcpMessages

  /** An endpoint, the datagrams it ever output, the messages its user handed over and the
      messages its user was given. */
  datatype Side = Side(kcb: Kcb, out: set<Bytes>, sent: seq<Bytes>, got: seq<Bytes>)

  datatype Net = Net(a: Side, b: Side)

  datatype Event =
    | Start
    | SendMessage(msg: Bytes)
    | RecvMessage(len: int)
    | FlushNow(env: Env)
    | Deliver(d: Bytes)

  /** The datagrams of one flush. */
  function FlushedSet(k: Kcb, env: Env): set<Bytes> {
    set d | d in FlushOutput(k, env)
  }

  /** One event at endpoint `x`; `wire` is what the peer has output so far. */
  function Act(x: Side, wire: set<Bytes>, e: Event): Side
    requires x.kcb.Configured()
  {
    match e
    case Start => x.(kcb := x.kcb.(updated := true))
    case SendMessage(m) =>
      x.(kcb := Send(x.kcb, m), sent := if SendCode(x.kcb, m) == 0 then x.sent + [m] else x.sent)
    case RecvMessage(len) =>
      x.(kcb := Recv(x.kcb, len),
         got := if len >= 0 && RecvCode(x.kcb, len) >= 0 then x.got + [RecvData(x.kcb)] else x.got)
    case FlushNow(env) =>
      x.(kcb := Flush(x.kcb, env), out := x.out + FlushedSet(x.kcb, env))
    case Deliver(d) => if d in wire then x.(kcb := Input(x.kcb, d)) else x
  }

  /** `atA` says at which endpoint the event happens. */
  datatype Step = Step(atA: bool, event: Event)

  ghost predicate Ready(n: Net) {
    n.a.kcb.Configured() && n.b.kcb.Configured()
  }

  function Next(n: Net, s: Step): Net
    requires Ready(n)
  {
    if s.atA then n.(a := Act(n.a, n.b.out, s.event)) else n.(b := Act(n.b, n.a.out, s.event))
  }

  lemma ActKeepsConfiguration(x: Side, wire: set<Bytes>, e: Event)
    requires x.kcb.Configured()
    ensures var y := Act(x, wire, e);
            y.kcb.conv == x.kcb.conv && y.kcb.mtu == x.kcb.mtu && y.kcb.rcvWnd == x.kcb.rcvWnd
  {
    match e
    case RecvMessage(len) =>
      MoveLeavesSender(if len < 0 then x.kcb else x.kcb.(rcvQueue := x.kcb.rcvQueue[MessageSpan(x.kcb.rcvQueue)..]));
    case FlushNow(env) => FlushAsReceiver(x.kcb, env);
    case Deliver(d) => ProcessAllKeepsConfiguration(x.kcb, Parse(x.kcb.conv, d).segs);
    case _ =>
  }

  lemma {:induction false} ProcessAllKeepsConfiguration(k: Kcb, segs: seq<Seg>)
    ensures var k1 := ProcessAll(k, segs); k1.conv == k.conv && k1.mtu == k.mtu && k1.rcvWnd == k.rcvWnd
    decreases |segs|
  {
    if segs != [] {
      ProcessKeepsConfiguration(k, segs[0]);
      ProcessAllKeepsConfiguration(Process(k, segs[0]), segs[1..]);
    }
  }

  lemma ProcessKeepsConfiguration(k: Kcb, s: Seg)
    ensures var k1 := Process(k, s); k1.conv == k.conv && k1.mtu == k.mtu && k1.rcvWnd == k.rcvWnd
  {
    PushLeavesSender(Shrink(k.(rmtWnd := s.wnd, sndBuf := DropBelow(k.sndBuf, s.una))), s);
  }

  /** The state after a run. */
  ghost function Exec(n: Net, run: seq<Step>): (r: Net)
    requires Ready(n)
    ensures Ready(r)
    decreases |run|
  {
    if run == [] then n
    else
      var before := Exec(n, run[..|run| - 1]);
      var s := run[|run| - 1];
      ActKeepsConfiguration(if s.atA then before.a else before.b,
                            if s.atA then before.b.out else before.a.out, s.event);
      Next(before, s)
  }

  /** Two fresh endpoints of one conversation, each with its own mtu and windows. */
  ghost predicate Initial(n: Net) {
    && Ready(n) && n.a.kcb.conv == n.b.kcb.conv
    && n.a == Side(Create(n.a.kcb.conv, n.a.kcb.mtu, n.a.kcb.sndWnd, n.a.kcb.rcvWnd), {}, [], [])
    && n.b == Side(Create(n.b.kcb.conv, n.b.kcb.mtu, n.b.kcb.sndWnd, n.b.kcb.rcvWnd), {}, [], [])
  }

  // ---------------------------------------------------------------- the invariant

  ghost predicate Sound(x: Side) {
    x.kcb.Configured() && AllAccepted(x.kcb.Mss(), x.sent)
  }

  /** All pieces of all messages accepted at `x`. */
  ghost function Stream(x: Side): seq<Frag>
    requires Sound(x)
  {
    Pieces(x.kcb.Mss(), x.sent)
  }

  /** Everything `x` ever output parses cleanly and is honest. */
  ghost predicate HonestOutput(x: Side)
    requires Sound(x)
  {
    forall d :: d in x.out ==> HonestDatagram(x.kcb, d, x.kcb.sndNxt, Stream(x))
  }

  ghost predicate HonestDatagram(k: Kcb, d: Bytes, hi: int, S: seq<Frag>) {
    && Parse(k.conv, d).code == 0
    && forall s :: s in Parse(k.conv, d).segs ==> Honest(k, s, hi, S)
  }

  ghost predicate SideInv(x: Side) {
    Sound(x) && SndInv(x.kcb, Stream(x)) && AcksHeld(x.kcb) && HonestOutput(x)
  }

  /** Every numbered piece is still in flight or has arrived. */
  ghost predicate NothingLost(s: Kcb, r: Kcb) {
    forall i :: 0 <= i < s.sndNxt ==> InFlight(s.sndBuf, i) || Has(r, i)
  }

  /** What `y`'s user got is a prefix of what `x`'s user sent, and the queue starts where
      that prefix ends. */
  ghost predicate ReadSoFar(x: Side, y: Side)
    requires Sound(x)
  {
    && y.got <= x.sent
    && AllAccepted(x.kcb.Mss(), y.got)
    && |Pieces(x.kcb.Mss(), y.got)| == y.kcb.rcvNxt - |y.kcb.rcvQueue|
  }

  /** The invariant of the direction from `x` to `y`. */
  ghost predicate PairInv(x: Side, y: Side)
    requires Sound(x)
  {
    && RcvInv(y.kcb, x.kcb.sndNxt, Stream(x))
    && NothingLost(x.kcb, y.kcb)
    && ReadSoFar(x, y)
  }

  ghost predicate Inv(n: Net) {
    && n.a.kcb.conv == n.b.kcb.conv
    && SideInv(n.a) && SideInv(n.b)
    && PairInv(n.a, n.b) && PairInv(n.b, n.a)
  }

  /** Fewer than 2^31 segments in each direction, counting one receive window of slack. */
  ghost predicate BoundedFrom(x: Side, y: Side) {
    Sound(x) && |Stream(x)| + y.kcb.rcvWnd < LIMIT
  }

  ghost predicate Bounded(n: Net) {
    BoundedFrom(n.a, n.b) && BoundedFrom(n.b, n.a)
  }

  // ---------------------------------------------------------------- deliveries

  /** Everything delivery of honest segments from `y` keeps at `x`. */
  lemma {:induction false} ProcessAllKeeps(x: Kcb, y: Kcb, segs: seq<Seg>, Sx: seq<Frag>, Sy: seq<Frag>)
    requires SndInv(x, Sx) && AcksHeld(x) && RcvInv(x, y.sndNxt, Sy) && NothingLost(x, y)
    requires RcvCore(y, x.sndNxt, Sx)
    requires forall s :: s in segs ==> Honest(y, s, y.sndNxt, Sy)
    requires |Sx| < LIMIT && |Sy| + x.rcvWnd < LIMIT
    ensures var x1 := ProcessAll(x, segs);
            && SndInv(x1, Sx) && AcksHeld(x1) && RcvInv(x1, y.sndNxt, Sy) && NothingLost(x1, y)
            && Grew(x, x1) && x1.sndNxt == x.sndNxt
    decreases |segs|
  {
    if segs != [] {
      assert segs[0] in segs;
      ProcessOneKeeps(x, y, segs[0], Sx, Sy);
      ProcessAllKeeps(Process(x, segs[0]), y, segs[1..], Sx, Sy);
      GrewTransitive(x, Process(x, segs[0]), ProcessAll(x, segs));
    }
  }

  lemma ProcessOneKeeps(x: Kcb, y: Kcb, s: Seg, Sx: seq<Frag>, Sy: seq<Frag>)
    requires SndInv(x, Sx) && AcksHeld(x) && RcvInv(x, y.sndNxt, Sy) && NothingLost(x, y)
    requires RcvCore(y, x.sndNxt, Sx) && Honest(y, s, y.sndNxt, Sy)
    requires |Sx| < LIMIT && |Sy| + x.rcvWnd < LIMIT
    ensures var x1 := Process(x, s);
            && SndInv(x1, Sx) && AcksHeld(x1) && RcvInv(x1, y.sndNxt, Sy) && NothingLost(x1, y)
            && Grew(x, x1) && x1.sndNxt == x.sndNxt && x1.rcvWnd == x.rcvWnd
  {
    HonestIsSmall(y, s, x.sndNxt, Sx, Sy);
    ProcessAsSender(x, s, Sx);
    ProcessAsReceiver(x, s, y.sndNxt, Sy);
    ProcessKeepsConfiguration(x, s);
    AcknowledgedHasArrived(x, y, s);
  }

  lemma HonestIsSmall(y: Kcb, s: Seg, hi: int, Sx: seq<Frag>, Sy: seq<Frag>)
    requires Honest(y, s, y.sndNxt, Sy) && RcvCore(y, hi, Sx) && |Sx| < LIMIT
    ensures s.una < LIMIT && (s.cmd == CMD_ACK ==> s.sn < LIMIT)
  {
  }

  /** What an honest segment removes from the send buffer has arrived. */
  lemma AcknowledgedHasArrived(x: Kcb, y: Kcb, s: Seg)
    requires NothingLost(x, y) && Process(x, s).sndNxt == x.sndNxt
    requires s.una <= y.rcvNxt && (s.cmd == CMD_ACK ==> Has(y, s.sn))
    requires forall i :: InFlight(Process(x, s).sndBuf, i) <==> InFlight(x.sndBuf, i) && !Acknowledges(s, i)
    ensures NothingLost(Process(x, s), y)
  {
  }

  lemma GrewTransitive(r1: Kcb, r2: Kcb, r3: Kcb)
    requires Grew(r1, r2) && Grew(r2, r3)
    ensures Grew(r1, r3)
  {
  }

  /** Honest output stays honest while the endpoint only gains pieces and numbers. */
  lemma OutputStaysHonest(x: Side, x1: Side)
    requires Sound(x) && Sound(x1) && HonestOutput(x)
    requires x1.out == x.out && x1.kcb.conv == x.kcb.conv && x.kcb.sndNxt <= x1.kcb.sndNxt <= |Stream(x1)|
    requires Stream(x) <= Stream(x1) && x.kcb.sndNxt <= |Stream(x)|
    requires x.kcb.rcvNxt <= x1.kcb.rcvNxt && forall i :: Has(x.kcb, i) ==> Has(x1.kcb, i)
    ensures HonestOutput(x1)
  {
    forall d | d in x1.out ensures HonestDatagram(x1.kcb, d, x1.kcb.sndNxt, Stream(x1)) {
      assert HonestDatagram(x.kcb, d, x.kcb.sndNxt, Stream(x));
      forall s | s in Parse(x.kcb.conv, d).segs ensures Honest(x1.kcb, s, x1.kcb.sndNxt, Stream(x1)) {
        assert Honest(x.kcb, s, x.kcb.sndNxt, Stream(x));
      }
    }
  }

  lemma DeliverKeeps(x: Side, y: Side, d: Bytes)
    requires SideInv(x) && SideInv(y) && PairInv(x, y) && PairInv(y, x) && x.kcb.conv == y.kcb.conv
    requires BoundedFrom(x, y) && BoundedFrom(y, x) && d in y.out
    ensures var x1 := Act(x, y.out, Deliver(d)); SideInv(x1) && PairInv(x1, y) && PairInv(y, x1)
  {
    if |d| >= OVERHEAD {
      assert HonestDatagram(y.kcb, d, y.kcb.sndNxt, Stream(y));
      SegmentsKeep(x, Act(x, y.out, Deliver(d)), y, Parse(x.kcb.conv, d).segs);
    }
  }

  lemma SegmentsKeep(x: Side, x1: Side, y: Side, segs: seq<Seg>)
    requires SideInv(x) && SideInv(y) && PairInv(x, y) && PairInv(y, x)
    requires BoundedFrom(x, y) && BoundedFrom(y, x) && x1 == x.(kcb := ProcessAll(x.kcb, segs))
    requires forall s :: s in segs ==> Honest(y.kcb, s, y.kcb.sndNxt, Stream(y))
    ensures SideInv(x1) && PairInv(x1, y) && PairInv(y, x1)
  {
    ProcessAllKeepsConfiguration(x.kcb, segs);
    ProcessAllKeeps(x.kcb, y.kcb, segs, Stream(x), Stream(y));
    GrewSide(x, x1);
    GrewPairs(x, x1, y);
  }

  lemma GrewSide(x: Side, x1: Side)
    requires SideInv(x) && x1.sent == x.sent && x1.out == x.out && x1.kcb.conv == x.kcb.conv
    requires x1.kcb.mtu == x.kcb.mtu && x1.kcb.sndNxt == x.kcb.sndNxt && Grew(x.kcb, x1.kcb)
    requires SndInv(x1.kcb, Stream(x)) && AcksHeld(x1.kcb)
    ensures SideInv(x1)
  {
    OutputStaysHonest(x, x1);
  }

  lemma GrewPairs(x: Side, x1: Side, y: Side)
    requires Sound(x) && Sound(x1) && Sound(y) && PairInv(x, y) && PairInv(y, x) && x1.sent == x.sent && x1.got == x.got
    requires x1.kcb.mtu == x.kcb.mtu && x1.kcb.sndNxt == x.kcb.sndNxt && Grew(x.kcb, x1.kcb)
    requires RcvInv(x1.kcb, y.kcb.sndNxt, Stream(y)) && NothingLost(x1.kcb, y.kcb)
    ensures PairInv(x1, y) && PairInv(y, x1)
  {
  }

  // ---------------------------------------------------------------- flushes

  lemma FlushKeepsPairs(x: Side, x1: Side, y: Side)
    requires SideInv(x) && SideInv(x1) && Sound(y) && PairInv(x, y) && PairInv(y, x)
    requires x1.sent == x.sent && x1.got == x.got && x1.kcb.mtu == x.kcb.mtu && Launched(x.kcb, x1.kcb)
    requires x1.kcb.rcvNxt == x.kcb.rcvNxt && x1.kcb.rcvWnd == x.kcb.rcvWnd
    requires x1.kcb.rcvBuf == x.kcb.rcvBuf && x1.kcb.rcvQueue == x.kcb.rcvQueue
    ensures PairInv(x1, y) && PairInv(y, x1)
  {
    PairAdvance(x, x1, y);
    PairFrame(y, x, x1);
  }

  lemma FlushKeepsSide(x: Side, x1: Side, wire: set<Bytes>, env: Env)
    requires SideInv(x) && |Stream(x)| < LIMIT
    requires x1 == Act(x, wire, FlushNow(env))
    ensures SideInv(x1) && FlushedFields(x, x1)
  {
    FlushFields(x, x1, wire, env);
    FlushHonest(x, x1, env);
  }

  /** What a flush leaves alone, and that it only adds to what is in flight. */
  ghost predicate FlushedFields(x: Side, x1: Side) {
    && x1.sent == x.sent && x1.got == x.got && x1.kcb.mtu == x.kcb.mtu && Launched(x.kcb, x1.kcb)
    && x1.kcb.rcvNxt == x.kcb.rcvNxt && x1.kcb.rcvWnd == x.kcb.rcvWnd
    && x1.kcb.rcvBuf == x.kcb.rcvBuf && x1.kcb.rcvQueue == x.kcb.rcvQueue
  }

  lemma FlushFields(x: Side, x1: Side, wire: set<Bytes>, env: Env)
    requires SideInv(x) && |Stream(x)| < LIMIT
    requires x1 == Act(x, wire, FlushNow(env))
    ensures FlushedFields(x, x1) && Sound(x1) && AcksHeld(x1.kcb) && SndInv(x1.kcb, Stream(x1))
  {
    FlushBlock(x.kcb, env, Stream(x));
  }

  lemma FlushBlock(k: Kcb, env: Env, S: seq<Frag>)
    requires SndInv(k, S) && |S| < LIMIT && AcksHeld(k)
    ensures var k1 := Flush(k, env);
            && SndInv(k1, S) && AcksHeld(k1) && Launched(k, k1) && k1.mtu == k.mtu && k1.rcvNxt == k.rcvNxt
            && k1.rcvWnd == k.rcvWnd && k1.rcvBuf == k.rcvBuf && k1.rcvQueue == k.rcvQueue
  {
    FlushAsReceiver(k, env);
    FlushAsSender(k, env, S);
    FlushAcksHeld(k, env);
  }

  lemma FlushAcksHeld(k: Kcb, env: Env)
    requires AcksHeld(k)
    ensures AcksHeld(Flush(k, env))
  {
    FlushAsReceiver(k, env);
  }

  /** A direction's invariant reads only the receiving fields of its receiver. */
  lemma PairFrame(y: Side, x: Side, x1: Side)
    requires Sound(y) && PairInv(y, x) && x1.got == x.got
    requires x1.kcb.rcvNxt == x.kcb.rcvNxt && x1.kcb.rcvWnd == x.kcb.rcvWnd
    requires x1.kcb.rcvBuf == x.kcb.rcvBuf && x1.kcb.rcvQueue == x.kcb.rcvQueue
    ensures PairInv(y, x1)
  {
    assert forall i :: Has(x.kcb, i) <==> Has(x1.kcb, i);
  }

  /** Numbering more pieces of the same stream keeps a direction's invariant. */
  lemma PairAdvance(x: Side, x1: Side, y: Side)
    requires Sound(x) && Sound(x1) && PairInv(x, y) && x1.sent == x.sent && x1.kcb.mtu == x.kcb.mtu
    requires Launched(x.kcb, x1.kcb) && x1.kcb.sndNxt <= |Stream(x)|
    ensures PairInv(x1, y)
  {
    FlushKeepsReception(x.kcb, x1.kcb, y.kcb, Stream(x));
  }

  lemma FlushHonest(x: Side, x1: Side, env: Env)
    requires SideInv(x) && |Stream(x)| < LIMIT
    requires x1.kcb == Flush(x.kcb, env) && x1.sent == x.sent && Sound(x1)
    requires x1.out == x.out + FlushedSet(x.kcb, env)
    ensures HonestOutput(x1)
  {
    OldStaysHonest(x, x1, env);
    forall d | d in x1.out ensures HonestDatagram(x1.kcb, d, x1.kcb.sndNxt, Stream(x1)) {
      if d in x.out {
        assert d in x1.(out := x.out).out;
      } else {
        PiecesShort(x.kcb.Mss(), x.sent);
        FlushDatagramHonest(x.kcb, env, Stream(x), d);
      }
    }
  }

  lemma OldStaysHonest(x: Side, x1: Side, env: Env)
    requires SideInv(x) && |Stream(x)| < LIMIT
    requires x1.kcb == Flush(x.kcb, env) && x1.sent == x.sent && Sound(x1)
    ensures HonestOutput(x1.(out := x.out)) && Stream(x1) == Stream(x)
  {
    FlushAsReceiver(x.kcb, env);
    FlushAsSender(x.kcb, env, Stream(x));
    OutputStaysHonest(x, x1.(out := x.out));
  }

  lemma FlushDatagramHonest(k: Kcb, env: Env, S: seq<Frag>, d: Bytes)
    requires k.Configured() && SndInv(k, S) && |S| < LIMIT && AcksHeld(k) && ShortPieces(S, k)
    requires d in FlushOutput(k, env)
    ensures HonestDatagram(Flush(k, env), d, Flush(k, env).sndNxt, S)
  {
    FlushAsReceiver(k, env);
    forall s | s in Parse(k.conv, d).segs ensures Honest(Flush(k, env), s, Flush(k, env).sndNxt, S) {
      FlushOutputGood(k, env, S, d, s);
    }
    FlushCarriesSegments(k, env, S);
  }

  lemma FlushKeepsReception(k: Kcb, k1: Kcb, y: Kcb, S: seq<Frag>)
    requires Launched(k, k1) && NothingLost(k, y) && RcvInv(y, k.sndNxt, S) && k1.sndNxt <= |S|
    ensures NothingLost(k1, y) && RcvInv(y, k1.sndNxt, S)
  {
    assert Faithful(y.rcvBuf, y.rcvNxt, k1.sndNxt, S);
  }

  // ---------------------------------------------------------------- sends

  lemma SendKeeps(x: Side, y: Side, m: Bytes)
    requires SideInv(x) && PairInv(x, y) && Sound(y) && PairInv(y, x)
    ensures var x1 := Act(x, y.out, SendMessage(m)); SideInv(x1) && PairInv(x1, y) && PairInv(y, x1)
  {
    var x1 := Act(x, y.out, SendMessage(m));
    if SendCode(x.kcb, m) == 0 {
      SendExtendsStream(x, x1, m);
      OutputStaysHonest(x, x1);
      LongerStream(x.kcb, y.kcb, Stream(x), Stream(x1));
    }
  }

  lemma SendExtendsStream(x: Side, x1: Side, m: Bytes)
    requires Sound(x) && SndInv(x.kcb, Stream(x)) && SendCode(x.kcb, m) == 0
    requires x1.kcb == Send(x.kcb, m) && x1.sent == x.sent + [m]
    ensures Sound(x1) && Stream(x) <= Stream(x1) && SndInv(x1.kcb, Stream(x1))
  {
    PiecesSnoc(x.kcb.Mss(), x.sent, m);
    LongerQueue(x.kcb, x1.kcb, Stream(x), Cut(x.kcb.Mss(), m));
  }

  lemma LongerQueue(k: Kcb, k1: Kcb, S: seq<Frag>, f: seq<Frag>)
    requires SndInv(k, S) && k1 == k.(sndQueue := k.sndQueue + f)
    ensures SndInv(k1, S + f) && S <= S + f
  {
    assert (S + f)[k.sndNxt..] == S[k.sndNxt..] + f;
  }

  lemma LongerStream(s: Kcb, r: Kcb, S: seq<Frag>, S1: seq<Frag>)
    requires S <= S1 && RcvInv(r, s.sndNxt, S)
    ensures RcvInv(r, s.sndNxt, S1)
  {
    var from := r.rcvNxt - |r.rcvQueue|;
    assert S1[from..r.rcvNxt] == S[from..r.rcvNxt];
  }

  // ---------------------------------------------------------------- receives

  /** A successful read of the queue returns the next message of the peer, byte for byte,
      and reports failure exactly when that message has not arrived completely or does not
      fit the caller's buffer. */
  lemma RecvReturnsNext(x: Side, y: Side, len: int)
    requires Sound(x) && RcvCore(y.kcb, x.kcb.sndNxt, Stream(x)) && ReadSoFar(x, y) && y.kcb.rcvQueue != []
    ensures |y.got| < |x.sent|
    ensures var m := x.sent[|y.got|];
            var whole := |Cut(x.kcb.Mss(), m)| <= |y.kcb.rcvQueue|;
            && (whole ==> RecvData(y.kcb) == m && MessageSpan(y.kcb.rcvQueue) == |Cut(x.kcb.Mss(), m)|)
            && (RecvCode(y.kcb, len) >= 0 <==> whole && |m| <= if len < 0 then -len else len)
            && (RecvCode(y.kcb, len) >= 0 ==> RecvCode(y.kcb, len) == |m|)
            && (RecvCode(y.kcb, len) == -2 <==> !whole)
            && (RecvCode(y.kcb, len) == -3 <==> whole && |m| > if len < 0 then -len else len)
    ensures AllAccepted(x.kcb.Mss(), y.got + [x.sent[|y.got|]])
    ensures |Pieces(x.kcb.Mss(), y.got + [x.sent[|y.got|]])|
            == |Pieces(x.kcb.Mss(), y.got)| + |Cut(x.kcb.Mss(), x.sent[|y.got|])|
  {
    var mss, k, q := x.kcb.Mss(), |y.got|, y.kcb.rcvQueue;
    assert y.got == x.sent[..k];
    QueueAtBoundary(mss, x.sent, k, y.kcb.rcvNxt);
    var m := x.sent[k];
    assert y.got + [m] == x.sent[..k + 1];
    if |Cut(mss, m)| <= |q| {
      ReadBack(mss, q, m);
    } else {
      PartialMessage(mss, q, m);
    }
  }

  lemma TakeKeeps(r: Kcb, n: nat, hi: int, S: seq<Frag>)
    requires RcvCore(r, hi, S) && n <= |r.rcvQueue|
    ensures RcvCore(r.(rcvQueue := r.rcvQueue[n..]), hi, S)
  {
    var from := r.rcvNxt - |r.rcvQueue|;
    assert S[from..r.rcvNxt][n..] == S[from + n..r.rcvNxt];
  }

  /** The receiver of direction `x` to `y` after `y` reads. */
  lemma ReadKeeps(x: Side, y: Side, len: int)
    requires Sound(x) && RcvInv(y.kcb, x.kcb.sndNxt, Stream(x)) && ReadSoFar(x, y) && |Stream(x)| < LIMIT
    requires y.kcb.Configured()
    ensures var y1 := Act(y, x.out, RecvMessage(len));
            && RcvInv(y1.kcb, x.kcb.sndNxt, Stream(x)) && ReadSoFar(x, y1)
            && y.kcb.rcvNxt <= y1.kcb.rcvNxt && (forall i :: Has(y.kcb, i) ==> Has(y1.kcb, i))
  {
    if RecvCode(y.kcb, len) >= 0 {
      var y1 := Act(y, x.out, RecvMessage(len));
      TakeThenMove(y.kcb, Taken(y.kcb, len), x.kcb.sndNxt, Stream(x));
      RecvShape(y.kcb, len);
      var r := MoveReady(y.kcb.(rcvQueue := y.kcb.rcvQueue[Taken(y.kcb, len)..]));
      SameReceiverSame(r, y1.kcb, x.kcb.sndNxt, Stream(x));
      ReadAdvances(x, y, y1, len);
    }
  }

  lemma SameReceiverSame(r: Kcb, r1: Kcb, hi: int, S: seq<Frag>)
    requires SameReceiver(r1, r) && RcvInv(r, hi, S)
    ensures RcvInv(r1, hi, S) && forall i :: Has(r, i) ==> Has(r1, i)
  {
  }

  lemma ReadAdvances(x: Side, y: Side, y1: Side, len: int)
    requires Sound(x) && RcvCore(y.kcb, x.kcb.sndNxt, Stream(x)) && ReadSoFar(x, y) && RecvCode(y.kcb, len) >= 0
    requires y1.got == if len >= 0 then y.got + [RecvData(y.kcb)] else y.got
    requires y1.kcb.rcvNxt - |y1.kcb.rcvQueue| == y.kcb.rcvNxt - |y.kcb.rcvQueue| + Taken(y.kcb, len)
    ensures ReadSoFar(x, y1)
  {
    RecvReturnsNext(x, y, len);
  }

  /** How many pieces a successful read removes. */
  function Taken(k: Kcb, len: int): (n: nat)
    ensures n <= |k.rcvQueue|
  {
    if len < 0 then 0 else MessageSpan(k.rcvQueue)
  }

  lemma RecvShape(k: Kcb, len: int)
    requires RecvCode(k, len) >= 0
    ensures SameReceiver(Recv(k, len), MoveReady(k.(rcvQueue := k.rcvQueue[Taken(k, len)..])))
  {
    assert k.rcvQueue[0..] == k.rcvQueue;
  }

  lemma TakeThenMove(r: Kcb, n: nat, hi: int, S: seq<Frag>)
    requires RcvCore(r, hi, S) && n <= |r.rcvQueue| && hi < LIMIT
    ensures var r1 := MoveReady(r.(rcvQueue := r.rcvQueue[n..]));
            && RcvInv(r1, hi, S) && r.rcvNxt <= r1.rcvNxt && (forall i :: Has(r, i) ==> Has(r1, i))
            && r1.rcvNxt - |r1.rcvQueue| == r.rcvNxt - |r.rcvQueue| + n && r1.rcvWnd == r.rcvWnd
  {
    TakeKeeps(r, n, hi, S);
    var r0 := r.(rcvQueue := r.rcvQueue[n..]);
    MoveReadyKeeps(r0, hi, S);
    assert forall i :: Has(r, i) <==> Has(r0, i);
  }

  lemma RecvKeeps(x: Side, y: Side, len: int)
    requires SideInv(x) && Sound(y) && PairInv(x, y) && PairInv(y, x)
    requires BoundedFrom(x, y) && BoundedFrom(y, x)
    ensures var x1 := Act(x, y.out, RecvMessage(len)); SideInv(x1) && PairInv(x1, y) && PairInv(y, x1)
  {
    var x1 := Act(x, y.out, RecvMessage(len));
    ReadKeeps(y, x, len);
    RecvLeavesSender(x.kcb, len);
    SameSenderSide(x, x1);
    SameSenderPair(x, x1, y);
    assert NothingLost(y.kcb, x1.kcb);
  }

  lemma SameSenderPair(x: Side, x1: Side, y: Side)
    requires Sound(x) && Sound(x1) && PairInv(x, y) && Stream(x1) == Stream(x)
    requires SameSender(x.kcb, x1.kcb) && x1.sent == x.sent && x1.kcb.mtu == x.kcb.mtu
    ensures PairInv(x1, y)
  {
  }

  lemma SameSenderSide(x: Side, x1: Side)
    requires SideInv(x) && SameSender(x.kcb, x1.kcb) && x1.kcb.acks == x.kcb.acks
    requires x1.out == x.out && x1.sent == x.sent
    requires x.kcb.rcvNxt <= x1.kcb.rcvNxt && forall i :: Has(x.kcb, i) ==> Has(x1.kcb, i)
    ensures SideInv(x1) && Stream(x1) == Stream(x)
  {
    SameSenderInv(x.kcb, x1.kcb, Stream(x));
    OutputStaysHonest(x, x1);
  }

  lemma SameSenderInv(k: Kcb, k1: Kcb, S: seq<Frag>)
    requires SndInv(k, S) && AcksHeld(k) && SameSender(k, k1) && k1.acks == k.acks
    requires forall i :: Has(k, i) ==> Has(k1, i)
    ensures SndInv(k1, S) && AcksHeld(k1)
  {
  }

  lemma RecvLeavesSender(k: Kcb, len: int)
    ensures SameSender(k, Recv(k, len)) && Recv(k, len).acks == k.acks
  {
    if RecvCode(k, len) >= 0 {
      var k1 := if len < 0 then k else k.(rcvQueue := k.rcvQueue[MessageSpan(k.rcvQueue)..]);
      MoveLeavesSender(k1);
      MoveLeavesAcks(k1);
    }
  }

  lemma {:induction false} MoveLeavesAcks(k: Kcb)
    ensures MoveReady(k).acks == k.acks
    decreases |k.rcvBuf|
  {
    if k.rcvBuf != [] && k.rcvBuf[0].sn == k.rcvNxt && |k.rcvQueue| < k.rcvWnd {
      MoveLeavesAcks(MoveOne(k));
    }
  }

  /** A flush, with any window, resend choice and clock, keeps the invariant of both sides. */
  lemma FlushKeeps(x: Side, y: Side, env: Env)
    requires SideInv(x) && SideInv(y) && PairInv(x, y) && PairInv(y, x)
    requires BoundedFrom(x, y)
    ensures var x1 := Act(x, y.out, FlushNow(env)); SideInv(x1) && PairInv(x1, y) && PairInv(y, x1)
  {
    FlushKeepsSide(x, Act(x, y.out, FlushNow(env)), y.out, env);
    FlushKeepsPairs(x, Act(x, y.out, FlushNow(env)), y);
  }

  // ---------------------------------------------------------------- steps and runs

  lemma ActKeeps(x: Side, y: Side, e: Event)
    requires SideInv(x) && SideInv(y) && PairInv(x, y) && PairInv(y, x) && x.kcb.conv == y.kcb.conv
    requires BoundedFrom(x, y) && BoundedFrom(y, x)
    ensures var x1 := Act(x, y.out, e); SideInv(x1) && PairInv(x1, y) && PairInv(y, x1)
  {
    match e
    case Start =>
      var x1 := Act(x, y.out, Start);
      assert SndInv(x1.kcb, Stream(x));
      OutputStaysHonest(x, x1);
    case SendMessage(m) => SendKeeps(x, y, m);
    case RecvMessage(len) => RecvKeeps(x, y, len);
    case FlushNow(env) => FlushKeeps(x, y, env);
    case Deliver(d) => if d in y.out { DeliverKeeps(x, y, d); }
  }

  lemma NextKeeps(n: Net, s: Step)
    requires Inv(n) && Bounded(n)
    ensures Inv(Next(n, s))
  {
    if s.atA {
      ActKeeps(n.a, n.b, s.event);
      ActKeepsConfiguration(n.a, n.b.out, s.event);
    } else {
      ActKeeps(n.b, n.a, s.event);
      ActKeepsConfiguration(n.b, n.a.out, s.event);
    }
  }

  lemma InitialInv(n: Net)
    requires Initial(n)
    ensures Inv(n)
  {
  }

  /** Traffic only grows, so a bound on the last state of a run bounds all of it. */
  lemma SentGrows(n: Net, s: Step)
    requires Ready(n)
    ensures var n1 := Next(n, s); n.a.sent <= n1.a.sent && n.b.sent <= n1.b.sent
  {
  }

  lemma BoundedBefore(n: Net, s: Step)
    requires Ready(n) && Ready(Next(n, s)) && Bounded(Next(n, s))
    ensures Bounded(n)
  {
    var n1 := Next(n, s);
    SentGrows(n, s);
    ActKeepsConfiguration(if s.atA then n.a else n.b, if s.atA then n.b.out else n.a.out, s.event);
    BoundedEarlier(n.a, n.b, n1.a, n1.b);
    BoundedEarlier(n.b, n.a, n1.b, n1.a);
  }

  lemma BoundedEarlier(x: Side, y: Side, x1: Side, y1: Side)
    requires BoundedFrom(x1, y1) && x.sent <= x1.sent && x.kcb.mtu == x1.kcb.mtu && y.kcb.rcvWnd == y1.kcb.rcvWnd
    ensures BoundedFrom(x, y)
  {
    PiecesPrefix(x1.kcb.Mss(), x1.sent, |x.sent|);
    assert x1.sent[..|x.sent|] == x.sent;
  }

  /** The invariant holds in every state of every run with fewer than 2^31 segments. */
  lemma {:induction false} RunKeeps(n: Net, run: seq<Step>)
    requires Initial(n) && Bounded(Exec(n, run))
    ensures Inv(Exec(n, run))
    decreases |run|
  {
    if run == [] {
      InitialInv(n);
    } else {
      var before, s := Exec(n, run[..|run| - 1]), run[|run| - 1];
      BoundedBefore(before, s);
      RunKeeps(n, run[..|run| - 1]);
      NextKeeps(before, s);
    }
  }

  // ---------------------------------------------------------------- theorems

  /** In-order, exactly-once, byte-exact delivery in both directions, in every run. */
  lemma ReliableDelivery(n: Net, run: seq<Step>)
    requires Initial(n) && Bounded(Exec(n, run))
    ensures var r := Exec(n, run); r.b.got <= r.a.sent && r.a.got <= r.b.sent
  {
    RunKeeps(n, run);
  }

  /** No segment is ever lost: each numbered piece is still in flight or has arrived. */
  lemma NoSegmentLost(n: Net, run: seq<Step>, i: nat)
    requires Initial(n) && Bounded(Exec(n, run))
    ensures var r := Exec(n, run);
            && (i < r.a.kcb.sndNxt ==> InFlight(r.a.kcb.sndBuf, i) || Has(r.b.kcb, i))
            && (i < r.b.kcb.sndNxt ==> InFlight(r.b.kcb.sndBuf, i) || Has(r.a.kcb, i))
  {
    RunKeeps(n, run);
  }

  /** Every piece of every message of `x` has arrived at `y`; unless the queue of `y` is full, all of
      them are in that queue or already read, and nothing else is. */
  ghost predicate AllArrived(x: Side, y: Side) {
    && Sound(x)
    && (forall i :: 0 <= i < |Stream(x)| ==> Has(y.kcb, i))
    && (|y.kcb.rcvQueue| < y.kcb.rcvWnd ==>
          && y.kcb.rcvNxt == |Stream(x)|
          && AllAccepted(x.kcb.Mss(), y.got)
          && Pieces(x.kcb.Mss(), y.got) + y.kcb.rcvQueue == Stream(x))
  }

  lemma QuietSide(x: Side, y: Side)
    requires SideInv(x) && PairInv(x, y) && WaitSnd(x.kcb) == 0
    ensures AllArrived(x, y)
  {
    assert x.kcb.sndNxt == |Stream(x)|;
    forall i | 0 <= i < |Stream(x)| ensures Has(y.kcb, i) {
      assert !InFlight(x.kcb.sndBuf, i);
    }
    if |y.kcb.rcvQueue| < y.kcb.rcvWnd {
      AllArrivedAllQueued(y.kcb, Stream(x));
      ReadPlusQueue(x, y);
    }
  }

  /** `ikcp_waitsnd` = 0 at either endpoint means that every piece of every message it accepted has
      arrived at the peer, and reading them out yields exactly the messages sent. */
  lemma QuietMeansArrived(n: Net, run: seq<Step>)
    requires Initial(n) && Bounded(Exec(n, run))
    ensures var r := Exec(n, run);
            && (WaitSnd(r.a.kcb) == 0 ==> AllArrived(r.a, r.b))
            && (WaitSnd(r.b.kcb) == 0 ==> AllArrived(r.b, r.a))
  {
    RunKeeps(n, run);
    var r := Exec(n, run);
    if WaitSnd(r.a.kcb) == 0 {
      QuietSide(r.a, r.b);
    }
    if WaitSnd(r.b.kcb) == 0 {
      QuietSide(r.b, r.a);
    }
  }

  lemma AllArrivedAllQueued(y: Kcb, S: seq<Frag>)
    requires RcvInv(y, |S|, S) && |y.rcvQueue| < y.rcvWnd && forall i :: 0 <= i < |S| ==> Has(y, i)
    ensures y.rcvNxt == |S|
  {
    if y.rcvNxt < |S| && Has(y, y.rcvNxt) {
      HeldIsFirst(y, |S|, S);
    }
  }

  /** What was read and what is queued together are the first `rcvNxt` pieces. */
  lemma ReadPlusQueue(x: Side, y: Side)
    requires Sound(x) && RcvCore(y.kcb, x.kcb.sndNxt, Stream(x)) && ReadSoFar(x, y)
    ensures Pieces(x.kcb.Mss(), y.got) + y.kcb.rcvQueue == Stream(x)[..y.kcb.rcvNxt]
  {
    PiecesPrefix(x.kcb.Mss(), x.sent, |y.got|);
    assert x.sent[..|y.got|] == y.got;
  }
}
