/** What a flush puts out, and nothing else: the owed acknowledgements, the window probes, and the pieces
    that are new or to be sent again; how many pieces it numbers; and what makes it tell its window.
 */
module KcpFlush {
  import opened Basics
  import opened KcpWire
  import opened Kcp
  import opened KcpReceiver
  import opened KcpSender
  import opened KcpMessages
  import opened KcpNetwork
  import opened KcpProgress

  // ---------------------------------------------------------------- numbering

  /** The entries numbering adds behind those in flight. */
  ghost predicate Added(k: Kcb, buf: seq<Outgoing>, nxt: int, S: seq<Frag>) {
    && k.sndNxt <= nxt <= |S| && |buf| == |k.sndBuf| + (nxt - k.sndNxt)
    && (forall j :: 0 <= j < |k.sndBuf| ==> buf[j] == k.sndBuf[j])
    && (forall j :: |k.sndBuf| <= j < |buf| ==> IsNew(buf[j], k.sndNxt + j - |k.sndBuf|, S))
  }

  ghost predicate IsNew(o: Outgoing, sn: int, S: seq<Frag>) {
    o.sn == sn && 0 <= sn < |S| && o.frag == S[sn] && o.xmit == 0
  }

  lemma {:induction false} NumberAdds(k: Kcb, cwnd: U32, S: seq<Frag>)
    requires SndInv(k, S) && |S| < LIMIT
    ensures Added(k, Number(k, cwnd).sndBuf, Number(k, cwnd).sndNxt, S)
    decreases |k.sndQueue|
  {
    if TimeDiff(k.sndNxt, Add32(k.sndUna, cwnd)) < 0 && k.sndQueue != [] {
      var k1 := NumberOne(k);
      NumberOneKeeps(k, S);
      NumberAdds(k1, cwnd, S);
      AddedOne(k, k1, Number(k, cwnd).sndBuf, Number(k, cwnd).sndNxt, S);
    }
  }

  lemma AddedOne(k: Kcb, k1: Kcb, buf: seq<Outgoing>, nxt: int, S: seq<Frag>)
    requires SndInv(k, S) && |S| < LIMIT && k.sndQueue != [] && k1 == NumberOne(k) && Added(k1, buf, nxt, S)
    ensures Added(k, buf, nxt, S)
  {
    var n := |k.sndBuf|;
    assert k1.sndBuf[n] == Outgoing(k.sndNxt, S[k.sndNxt], 0);
    forall j | 0 <= j < n ensures buf[j] == k.sndBuf[j] {
      assert buf[j] == k1.sndBuf[j];
    }
  }

  /** A flush numbers pieces up to the least of four limits: the window of the sender, the window told by
      the peer, the congestion window unless there is none, and what there is to send. */
  lemma FlushNumbers(k: Kcb, env: Env, S: seq<Frag>)
    requires SndInv(k, S) && k.updated && k.sndUna + k.sndWnd < LIMIT && |S| < LIMIT
    ensures var n := Flush(k, env).sndNxt;
            && k.sndNxt <= n <= |S|
            && (n > k.sndNxt ==> n <= k.sndUna + k.sndWnd && n <= k.sndUna + k.rmtWnd)
            && (n > k.sndNxt && !env.nocwnd ==> n <= k.sndUna + env.cwnd)
            && (n < |S| ==> || n >= k.sndUna + k.sndWnd || n >= k.sndUna + k.rmtWnd
                            || (!env.nocwnd && n >= k.sndUna + env.cwnd))
  {
    NumberFillsWindow(k, SendWindow(k, env));
  }

  /** A fresh endpoint sends at most 32 pieces before it hears of its peer. */
  lemma FirstFlush(conv: U32, mtu: nat, sndWnd: U32, rcvWnd: U32, f: seq<Frag>, env: Env)
    requires sndWnd < LIMIT && |f| < LIMIT && env.nocwnd
    ensures var k := Create(conv, mtu, sndWnd, rcvWnd).(sndQueue := f, updated := true);
            Flush(k, env).sndNxt == Least(Least(sndWnd, 32), |f|)
  {
    var k := Create(conv, mtu, sndWnd, rcvWnd).(sndQueue := f, updated := true);
    assert SndInv(k, f);
    FlushNumbers(k, env, f);
  }

  /** A fresh endpoint puts out nothing: before the first update because it was not started, and after it
      because it owes, asks and holds nothing. */
  lemma FreshIsSilent(conv: U32, mtu: nat, sndWnd: U32, rcvWnd: U32, env: Env)
    ensures FlushSegs(Create(conv, mtu, sndWnd, rcvWnd), env) == []
    ensures FlushSegs(Create(conv, mtu, sndWnd, rcvWnd).(updated := true), env) == []
  {
  }

  function Least(a: int, b: int): int {
    if a <= b then a else b
  }

  // ---------------------------------------------------------------- the pieces sent

  /** Number `i` is to be sent by a flush that numbers up to `nxt`: it is new, or in flight and either never
      sent or chosen to be sent again. */
  ghost predicate Wanted(k: Kcb, env: Env, nxt: int, i: int) {
    || k.sndNxt <= i < nxt
    || Chosen(k.sndBuf, env, i)
  }

  /** Every segment of `d` pushes the piece of its number, and the numbers go up. */
  ghost predicate Pushes(k: Kcb, env: Env, d: seq<Seg>, S: seq<Frag>) {
    && (forall j :: 0 <= j < |d| ==> IsPush(k, env, d[j], S))
    && (forall i, j :: 0 <= i < j < |d| ==> d[i].sn < d[j].sn)
  }

  ghost predicate IsPush(k: Kcb, env: Env, s: Seg, S: seq<Frag>) {
    && s.conv == k.conv && s.cmd == CMD_PUSH && s.ts == env.now && s.sn < |S|
    && s.frg == S[s.sn].frg && s.data == S[s.sn].data
  }

  ghost predicate Pushed(d: seq<Seg>, i: int) {
    exists j :: 0 <= j < |d| && d[j].sn == i
  }

  /** Entry of number `i` in `buf` that was never sent or is chosen. */
  ghost predicate Chosen(buf: seq<Outgoing>, env: Env, i: int) {
    exists j :: 0 <= j < |buf| && buf[j].sn == i && (buf[j].xmit == 0 || buf[j].sn in env.resend)
  }

  lemma {:induction false} PushSegsExact(k: Kcb, env: Env, buf: seq<Outgoing>, hi: int, S: seq<Frag>)
    requires Ascending(buf) && Numbering(buf, hi, S)
    ensures Pushes(k, env, PushSegs(k, env, buf), S)
    ensures forall i :: Pushed(PushSegs(k, env, buf), i) <==> Chosen(buf, env, i)
    decreases |buf|
  {
    if buf != [] {
      var rest, d := buf[1..], PushSegs(k, env, buf[1..]);
      PushSegsExact(k, env, rest, hi, S);
      ChosenFirst(buf, env);
      if buf[0].xmit == 0 || buf[0].sn in env.resend {
        LaterNumbers(buf, env, d);
        PushedFirst(PushSeg(k, env.now, buf[0]), d);
        PushesFirst(k, env, buf[0], d, S);
      } else {
        assert [] + d == d;
      }
    }
  }

  lemma ChosenFirst(buf: seq<Outgoing>, env: Env)
    requires buf != []
    ensures forall i :: Chosen(buf, env, i) <==>
                        || (i == buf[0].sn && (buf[0].xmit == 0 || buf[0].sn in env.resend))
                        || Chosen(buf[1..], env, i)
  {
    forall i | Chosen(buf[1..], env, i) ensures Chosen(buf, env, i) {
      var j :| 0 <= j < |buf[1..]| && buf[1..][j].sn == i && (buf[1..][j].xmit == 0 || buf[1..][j].sn in env.resend);
      assert buf[j + 1] == buf[1..][j];
    }
    forall i | Chosen(buf, env, i) && !(i == buf[0].sn && (buf[0].xmit == 0 || buf[0].sn in env.resend))
      ensures Chosen(buf[1..], env, i)
    {
      var j :| 0 <= j < |buf| && buf[j].sn == i && (buf[j].xmit == 0 || buf[j].sn in env.resend);
      assert buf[1..][j - 1] == buf[j];
    }
  }

  lemma LaterNumbers(buf: seq<Outgoing>, env: Env, d: seq<Seg>)
    requires buf != [] && Ascending(buf) && forall i :: Pushed(d, i) <==> Chosen(buf[1..], env, i)
    ensures forall j :: 0 <= j < |d| ==> buf[0].sn < d[j].sn
  {
    forall j | 0 <= j < |d| ensures buf[0].sn < d[j].sn {
      assert Pushed(d, d[j].sn);
      var m :| 0 <= m < |buf[1..]| && buf[1..][m].sn == d[j].sn;
      assert buf[m + 1] == buf[1..][m];
    }
  }

  lemma PushedFirst(s: Seg, d: seq<Seg>)
    ensures forall i :: Pushed([s] + d, i) <==> i == s.sn || Pushed(d, i)
  {
    forall i | Pushed(d, i) ensures Pushed([s] + d, i) {
      var j :| 0 <= j < |d| && d[j].sn == i;
      assert ([s] + d)[j + 1].sn == i;
    }
    assert ([s] + d)[0].sn == s.sn;
  }

  lemma PushesFirst(k: Kcb, env: Env, o: Outgoing, d: seq<Seg>, S: seq<Frag>)
    requires Pushes(k, env, d, S) && o.sn < |S| && o.frag == S[o.sn] && forall j :: 0 <= j < |d| ==> o.sn < d[j].sn
    ensures Pushes(k, env, [PushSeg(k, env.now, o)] + d, S)
  {
    var all := [PushSeg(k, env.now, o)] + d;
    forall j | 0 <= j < |all| ensures IsPush(k, env, all[j], S) {
      assert j > 0 ==> all[j] == d[j - 1];
    }
  }

  lemma FlushPushesExact(k: Kcb, env: Env, S: seq<Frag>)
    requires SndInv(k, S) && |S| < LIMIT && k.updated
    ensures var d := PushSegs(k, env, Number(k, SendWindow(k, env)).sndBuf);
            Pushes(k, env, d, S) && forall i :: Pushed(d, i) <==> Wanted(k, env, Flush(k, env).sndNxt, i)
  {
    var k1 := Number(k, SendWindow(k, env));
    NumberAdds(k, SendWindow(k, env), S);
    NumberKeeps(k, SendWindow(k, env), S);
    PushSegsExact(k, env, k1.sndBuf, k1.sndNxt, S);
    ChosenIsWanted(k, env, k1.sndBuf, k1.sndNxt, S);
  }

  lemma ChosenIsWanted(k: Kcb, env: Env, buf: seq<Outgoing>, nxt: int, S: seq<Frag>)
    requires Added(k, buf, nxt, S)
    ensures forall i :: Chosen(buf, env, i) <==> Wanted(k, env, nxt, i)
  {
    var n := |k.sndBuf|;
    forall i | Wanted(k, env, nxt, i) ensures Chosen(buf, env, i) {
      if k.sndNxt <= i < nxt {
        assert IsNew(buf[n + i - k.sndNxt], i, S);
      } else {
        var j :| 0 <= j < n && k.sndBuf[j].sn == i && (k.sndBuf[j].xmit == 0 || k.sndBuf[j].sn in env.resend);
        assert buf[j].sn == i;
      }
    }
    forall i | Chosen(buf, env, i) ensures Wanted(k, env, nxt, i) {
      var j :| 0 <= j < |buf| && buf[j].sn == i && (buf[j].xmit == 0 || buf[j].sn in env.resend);
      if j < n {
        assert k.sndBuf[j].sn == i;
      } else {
        assert IsNew(buf[j], k.sndNxt + j - n, S);
      }
    }
  }

  lemma {:induction false} CountSendsExact(env: Env, buf: seq<Outgoing>)
    ensures var b := CountSends(env, buf);
            |b| == |buf| && forall j :: 0 <= j < |buf| ==>
              b[j] == buf[j].(xmit := buf[j].xmit + if buf[j].xmit == 0 || buf[j].sn in env.resend then 1 else 0)
    decreases |buf|
  {
    if buf != [] {
      CountSendsExact(env, buf[1..]);
    }
  }

  /** The transmission count grows by one for exactly the pieces sent; a new piece has been sent once. */
  lemma FlushCounts(k: Kcb, env: Env, S: seq<Frag>)
    requires SndInv(k, S) && |S| < LIMIT && k.updated
    ensures var r := Flush(k, env); var n := |k.sndBuf|;
            && n <= |r.sndBuf| == n + (r.sndNxt - k.sndNxt)
            && (forall j :: 0 <= j < n ==>
                  var o := k.sndBuf[j];
                  r.sndBuf[j] == o.(xmit := o.xmit + if o.xmit == 0 || o.sn in env.resend then 1 else 0))
            && (forall j :: n <= j < |r.sndBuf| ==>
                  r.sndBuf[j].sn == k.sndNxt + j - n && r.sndBuf[j].xmit == 1)
  {
    var k1 := Number(k, SendWindow(k, env));
    NumberAdds(k, SendWindow(k, env), S);
    CountSendsExact(env, k1.sndBuf);
    forall j | |k.sndBuf| <= j < |k1.sndBuf|
      ensures k1.sndBuf[j].sn == k.sndNxt + j - |k.sndBuf| && k1.sndBuf[j].xmit == 0
    {
      assert IsNew(k1.sndBuf[j], k.sndNxt + j - |k.sndBuf|, S);
    }
  }

  // ---------------------------------------------------------------- everything in a flush

  /** One acknowledgement for each one owed, in order, with the number and the time of what it answers. */
  ghost predicate Answers(k: Kcb, a: seq<Seg>) {
    |a| == |k.acks| && forall i :: 0 <= i < |a| ==> IsAnswer(k, a[i], k.acks[i])
  }

  ghost predicate IsAnswer(k: Kcb, s: Seg, owed: Ack) {
    s.conv == k.conv && s.cmd == CMD_ACK && s.frg == 0 && s.sn == owed.sn && s.ts == owed.ts && s.data == []
  }

  lemma {:induction false} AckSegsAnswer(k: Kcb, acks: seq<Ack>)
    ensures var a := AckSegs(k, acks);
            |a| == |acks| && forall i :: 0 <= i < |a| ==> IsAnswer(k, a[i], acks[i])
    decreases |acks|
  {
    if acks != [] {
      AckSegsAnswer(k, acks[1..]);
    }
  }

  /** A question for the window if the peer's is closed and a probe is due, and the own window if it was
      asked for. */
  ghost predicate Probes(k: Kcb, env: Env, p: seq<Seg>) {
    var asks := k.askSend || (k.rmtWnd == 0 && env.probeDue);
    && |p| == (if asks then 1 else 0) + (if k.askTell then 1 else 0)
    && (asks ==> p[0].cmd == CMD_WASK) && (k.askTell ==> p[|p| - 1].cmd == CMD_WINS)
    && forall i :: 0 <= i < |p| ==> IsProbe(k, p[i])
  }

  /** A probe repeats the number and time of the last acknowledgement, zero without one. */
  ghost predicate IsProbe(k: Kcb, s: Seg) {
    && s.conv == k.conv && s.frg == 0 && s.data == []
    && (if k.acks == [] then s.sn == 0 && s.ts == 0
        else s.sn == k.acks[|k.acks| - 1].sn && s.ts == k.acks[|k.acks| - 1].ts)
  }

  /** Every segment acknowledges all that is in the queue or read, and tells the room left in the queue. */
  ghost predicate AllTell(k: Kcb, segs: seq<Seg>) {
    forall s :: s in segs ==> s.una == k.rcvNxt && s.wnd == Room(|k.rcvQueue|, k.rcvWnd)
  }

  function Room(held: nat, window: nat): nat {
    if held < window then window - held else 0
  }

  lemma {:induction false} PushSegsTell(k: Kcb, env: Env, buf: seq<Outgoing>)
    ensures AllTell(k, PushSegs(k, env, buf))
    decreases |buf|
  {
    if buf != [] {
      PushSegsTell(k, env, buf[1..]);
    }
  }

  lemma {:induction false} AckSegsTell(k: Kcb, acks: seq<Ack>)
    ensures AllTell(k, AckSegs(k, acks))
    decreases |acks|
  {
    if acks != [] {
      AckSegsTell(k, acks[1..]);
    }
  }

  /** All segments of a flush carry the same acknowledgement and window. */
  lemma FlushTells(k: Kcb, env: Env)
    ensures AllTell(k, FlushSegs(k, env))
  {
    AckSegsTell(k, k.acks);
    PushSegsTell(k, env, Number(k, SendWindow(k, env)).sndBuf);
    TellTogether(k, AckSegs(k, k.acks), ProbeSegs(k, env), PushSegs(k, env, Number(k, SendWindow(k, env)).sndBuf));
  }

  /** All a flush puts out: one answer for each acknowledgement owed; the probes that are due; and, in order
      of number and each once, exactly the pieces newly numbered, those in flight never sent, and those in
      flight chosen to be sent again. Before the first update it puts out nothing. */
  lemma FlushExact(k: Kcb, env: Env, S: seq<Frag>) returns (a: seq<Seg>, p: seq<Seg>, d: seq<Seg>)
    requires SndInv(k, S) && |S| < LIMIT
    ensures FlushSegs(k, env) == (if k.updated then a + p + d else [])
    ensures k.updated ==> Answers(k, a) && Probes(k, env, p) && Pushes(k, env, d, S) && AllTell(k, a + p + d)
    ensures k.updated ==> forall i :: Pushed(d, i) <==> Wanted(k, env, Flush(k, env).sndNxt, i)
  {
    a, p, d := AckSegs(k, k.acks), ProbeSegs(k, env), PushSegs(k, env, Number(k, SendWindow(k, env)).sndBuf);
    if k.updated {
      AckSegsAnswer(k, k.acks);
      FlushPushesExact(k, env, S);
      FlushTells(k, env);
    }
  }

  lemma TellTogether(k: Kcb, a: seq<Seg>, p: seq<Seg>, d: seq<Seg>)
    requires AllTell(k, a) && AllTell(k, p) && AllTell(k, d)
    ensures AllTell(k, a + p + d)
  {
  }

  // ---------------------------------------------------------------- what is taken in

  /** `ikcp_input` on any bytes: fewer than a header are refused with -1 and change nothing; otherwise it acts on
      exactly the segments encoded at the front, in order, and its code is the first defect behind them. */
  lemma InputExact(k: Kcb, d: Bytes) returns (segs: seq<Seg>)
    ensures |d| < 24 ==> InputCode(k, d) == -1 && Input(k, d) == k
    ensures |d| >= 24 ==> Input(k, d) == ProcessAll(k, segs) && AllSendable(k.conv, segs)
    ensures |d| >= 24 ==> var n := |EncodeAll(segs)|;
                          n <= |d| && EncodeAll(segs) == d[..n] && InputCode(k, d) == Defect(k.conv, d[n..]) <= 0
  {
    segs := Parse(k.conv, d).segs;
    ParseExact(k.conv, d);
  }

  // ---------------------------------------------------------------- what is owed

  /** A data segment below the end of the window is owed one acknowledgement, whether it is new, repeated or
      old; nothing else is. */
  lemma OwedExactly(k: Kcb, s: Seg)
    requires s.sn < LIMIT && k.rcvNxt + k.rcvWnd < LIMIT
    ensures Process(k, s).acks
            == k.acks + if s.cmd == CMD_PUSH && s.sn < k.rcvNxt + k.rcvWnd then [Ack(s.sn, s.ts)] else []
  {
    TimeDiffIsPlain(s.sn, Add32(k.rcvNxt, k.rcvWnd));
    var k1 := Shrink(k.(rmtWnd := s.wnd, sndBuf := DropBelow(k.sndBuf, s.una)));
    var k2 := k1.(acks := k1.acks + [Ack(s.sn, s.ts)]);
    MoveLeavesAcks(k2.(rcvBuf := Insert(k2.rcvBuf, Numbered(s.sn, Frag(s.frg, s.data)))));
  }

  /** A flush settles all acknowledgements and questions. */
  lemma FlushSettles(k: Kcb, env: Env)
    requires k.updated
    ensures var r := Flush(k, env); r.acks == [] && !r.askSend && !r.askTell && r.rmtWnd == k.rmtWnd
  {
    NumberLeavesReceiver(k, SendWindow(k, env));
  }

  // ---------------------------------------------------------------- telling the window

  lemma {:induction false} MoveLeavesTell(k: Kcb)
    ensures MoveReady(k).askTell == k.askTell
    decreases |k.rcvBuf|
  {
    if k.rcvBuf != [] && k.rcvBuf[0].sn == k.rcvNxt && |k.rcvQueue| < k.rcvWnd {
      MoveLeavesTell(MoveOne(k));
    }
  }

  lemma {:induction false} PushSegsPush(k: Kcb, env: Env, buf: seq<Outgoing>)
    ensures forall s :: s in PushSegs(k, env, buf) ==> s.cmd == CMD_PUSH
    decreases |buf|
  {
    if buf != [] {
      PushSegsPush(k, env, buf[1..]);
    }
  }

  lemma {:induction false} AckSegsAck(k: Kcb, acks: seq<Ack>)
    ensures forall s :: s in AckSegs(k, acks) ==> s.cmd == CMD_ACK
    decreases |acks|
  {
    if acks != [] {
      AckSegsAck(k, acks[1..]);
    }
  }

  /** The flush carries a segment with command `cmd`. */
  ghost predicate Sends(k: Kcb, env: Env, cmd: Byte) {
    exists s :: s in FlushSegs(k, env) && s.cmd == cmd
  }

  lemma SendsTell(k: Kcb, env: Env)
    requires k.updated
    ensures Sends(k, env, CMD_WINS) <==> k.askTell
    ensures Sends(k, env, CMD_WASK) <==> k.askSend || (k.rmtWnd == 0 && env.probeDue)
  {
    AckSegsAck(k, k.acks);
    PushSegsPush(k, env, Number(k, SendWindow(k, env)).sndBuf);
    if k.askTell {
      assert AckSeg(k, LastAck(k)).(cmd := CMD_WINS) in ProbeSegs(k, env);
    }
    if Asking(k, env) {
      assert AckSeg(k, LastAck(k)).(cmd := CMD_WASK) in ProbeSegs(k, env);
    }
  }

  lemma RecvAsksToTell(k: Kcb, len: int)
    ensures Recv(k, len).askTell <==>
            k.askTell || (RecvCode(k, len) >= 0 && |Recv(k, len).rcvQueue| < k.rcvWnd <= |k.rcvQueue|)
    ensures Recv(k, len).updated == k.updated
  {
    if RecvCode(k, len) >= 0 {
      var k1 := if len < 0 then k else k.(rcvQueue := k.rcvQueue[MessageSpan(k.rcvQueue)..]);
      MoveLeavesTell(k1);
      MoveLeavesSender(k1);
    }
  }

  /** A read makes the next flush tell the window if and only if it succeeds and brings a full queue below
      the window, unless that was due already. */
  lemma TellsAfterRead(k: Kcb, len: int, env: Env)
    requires k.updated
    ensures Sends(Recv(k, len), env, CMD_WINS) <==>
            k.askTell || (RecvCode(k, len) >= 0 && |Recv(k, len).rcvQueue| < k.rcvWnd <= |k.rcvQueue|)
  {
    RecvAsksToTell(k, len);
    SendsTell(Recv(k, len), env);
  }

  /** So does a question for it, and no other segment. */
  lemma TellsAfterQuestion(k: Kcb, s: Seg, env: Env)
    requires k.updated
    ensures Sends(Process(k, s), env, CMD_WINS) <==> k.askTell || s.cmd == CMD_WASK
  {
    var k1 := Shrink(k.(rmtWnd := s.wnd, sndBuf := DropBelow(k.sndBuf, s.una)));
    var k2 := k1.(acks := k1.acks + [Ack(s.sn, s.ts)]);
    MoveLeavesTell(k2.(rcvBuf := Insert(k2.rcvBuf, Numbered(s.sn, Frag(s.frg, s.data)))));
    PushLeavesSender(k1, s);
    SendsTell(Process(k, s), env);
  }
}
