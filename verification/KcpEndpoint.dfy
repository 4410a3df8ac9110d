/** The control block of `ikcp.c` as an object: its four queues, its pending
    acknowledgements and its counters are updated in place by loops, and every entry point
    is proved to do what the functions of module `Kcp` say.
 */
module KcpEndpoint {
  import opened Basics
  import opened KcpWire
  import K = Kcp

  class Endpoint {
    const conv: U32
    const mtu: nat
    const sndWnd: U32
    const rcvWnd: U32
    var sndUna: U32
    var sndNxt: U32
    var rcvNxt: U32
    var rmtWnd: U32
    var askSend: bool
    var askTell: bool
    var updated: bool
    var sndQueue: seq<K.Frag>
    var sndBuf: seq<K.Outgoing>
    var rcvBuf: seq<K.Numbered>
    var rcvQueue: seq<K.Frag>
    var acks: seq<K.Ack>

    ghost function State(): K.Kcb
      reads this
    {
      K.Kcb(conv, mtu, sndWnd, rcvWnd, sndUna, sndNxt, rcvNxt, rmtWnd, askSend, askTell, updated,
            sndQueue, sndBuf, rcvBuf, rcvQueue, acks)
    }

    /** `ikcp_create`. */
    constructor (conv: U32, mtu: nat, sndWnd: U32, rcvWnd: U32)
      ensures State() == K.Create(conv, mtu, sndWnd, rcvWnd)
    {
      this.conv, this.mtu, this.sndWnd, this.rcvWnd := conv, mtu, sndWnd, rcvWnd;
      sndUna, sndNxt, rcvNxt, rmtWnd := 0, 0, 0, 32;
      askSend, askTell, updated := false, false, false;
      sndQueue, sndBuf, rcvBuf, rcvQueue, acks := [], [], [], [], [];
    }

    // ------------------------------------------------------------- sending

    /** `ikcp_send` in message mode. */
    method Send(msg: Bytes) returns (code: int)
      requires State().Configured()
      modifies this`sndQueue
      ensures State() == K.Send(old(State()), msg)
      ensures code == K.SendCode(old(State()), msg)
    {
      var mss := mtu - OVERHEAD;
      var count := if |msg| <= mss then 1 else (|msg| + mss - 1) / mss;
      if count > 255 {
        return -2;
      }
      var rest, i := msg, 0;
      while i < count
        invariant 0 <= i <= count
        invariant sndQueue + K.Fragments(mss, rest, count - i) == old(sndQueue) + K.Fragments(mss, msg, count)
      {
        var size := if |rest| > mss then mss else |rest|;
        sndQueue := sndQueue + [K.Frag(count - i - 1, rest[..size])];
        rest := rest[size..];
        i := i + 1;
      }
      code := 0;
    }

    // ------------------------------------------------------------- receiving

    /** The loop at the end of `ikcp_recv` and `ikcp_parse_data`. */
    method MoveReady()
      modifies this`rcvBuf, this`rcvQueue, this`rcvNxt
      ensures State() == K.MoveReady(old(State()))
    {
      while rcvBuf != [] && rcvBuf[0].sn == rcvNxt && |rcvQueue| < rcvWnd
        invariant K.MoveReady(State()) == K.MoveReady(old(State()))
        decreases |rcvBuf|
      {
        var x := rcvBuf[0];
        rcvBuf := rcvBuf[1..];
        rcvQueue := rcvQueue + [x.frag];
        rcvNxt := K.Add32(rcvNxt, 1);
      }
    }

    /** `ikcp_peeksize`. */
    method PeekSize() returns (size: int)
      ensures size == K.PeekSize(rcvQueue)
    {
      if rcvQueue == [] {
        return -1;
      }
      if rcvQueue[0].frg == 0 {
        return |rcvQueue[0].data|;
      }
      if |rcvQueue| < rcvQueue[0].frg + 1 {
        return -1;
      }
      size := 0;
      var p := rcvQueue;
      while p != []
        invariant size + |K.Payload(p[..K.MessageSpan(p)])| == |K.Payload(rcvQueue[..K.MessageSpan(rcvQueue)])|
        decreases |p|
      {
        HeadOfMessage(p);
        size := size + |p[0].data|;
        if p[0].frg == 0 {
          return;
        }
        p := p[1..];
      }
    }

    /** `ikcp_recv`: `data` is what is copied to the caller. */
    method Recv(len: int) returns (code: int, data: Bytes)
      modifies this`rcvBuf, this`rcvQueue, this`rcvNxt, this`askTell
      ensures State() == K.Recv(old(State()), len)
      ensures code == K.RecvCode(old(State()), len)
      ensures code >= 0 ==> data == K.RecvData(old(State()))
    {
      data := [];
      if rcvQueue == [] {
        return -1, data;
      }
      var peek := len < 0;
      var size := PeekSize();
      if size < 0 {
        return -2, data;
      }
      if size > (if len < 0 then -len else len) {
        return -3, data;
      }
      var recover := |rcvQueue| >= rcvWnd;
      data := Merge(peek);
      MoveReady();
      if |rcvQueue| < rcvWnd && recover {
        askTell := true;
      }
      code := |data|;
    }

    /** The merging loop of `ikcp_recv`. */
    method Merge(peek: bool) returns (data: Bytes)
      modifies this`rcvQueue
      ensures data == K.RecvData(old(State()))
      ensures rcvQueue == if peek then old(rcvQueue) else old(rcvQueue)[K.MessageSpan(old(rcvQueue))..]
    {
      data := [];
      var p := rcvQueue;
      ghost var q := rcvQueue;
      while p != []
        invariant |p| <= |q| && p == q[|q| - |p|..]
        invariant rcvQueue == if peek then q else p
        invariant |q| - |p| + K.MessageSpan(p) == K.MessageSpan(q)
        invariant data + K.Payload(p[..K.MessageSpan(p)]) == K.Payload(q[..K.MessageSpan(q)])
        decreases |p|
      {
        HeadOfMessage(p);
        var x := p[0];
        data := data + x.data;
        p := p[1..];
        if !peek {
          rcvQueue := rcvQueue[1..];
        }
        if x.frg == 0 {
          break;
        }
      }
    }

    // ------------------------------------------------------------- input

    /** `ikcp_parse_una`. */
    method ParseUna(una: U32)
      modifies this`sndBuf
      ensures sndBuf == K.DropBelow(old(sndBuf), una)
    {
      while sndBuf != [] && K.TimeDiff(una, sndBuf[0].sn) > 0
        invariant K.DropBelow(sndBuf, una) == K.DropBelow(old(sndBuf), una)
        decreases |sndBuf|
      {
        sndBuf := sndBuf[1..];
      }
    }

    /** `ikcp_shrink_buf`. */
    method ShrinkBuf()
      modifies this`sndUna
      ensures State() == K.Shrink(old(State()))
    {
      if sndBuf != [] {
        sndUna := sndBuf[0].sn;
      } else {
        sndUna := sndNxt;
      }
    }

    /** `ikcp_parse_ack`. */
    method ParseAck(sn: U32)
      modifies this`sndBuf
      ensures State() == K.ParseAck(old(State()), sn)
    {
      if K.TimeDiff(sn, sndUna) < 0 || K.TimeDiff(sn, sndNxt) >= 0 {
        return;
      }
      var p := 0;
      while p < |sndBuf|
        invariant 0 <= p <= |sndBuf| && sndBuf == old(sndBuf)
        invariant K.DropAcked(sndBuf, sn) == sndBuf[..p] + K.DropAcked(sndBuf[p..], sn)
      {
        DropAckedAt(sndBuf, sn, p);
        if sndBuf[p].sn == sn {
          sndBuf := sndBuf[..p] + sndBuf[p + 1..];
          return;
        }
        if K.TimeDiff(sn, sndBuf[p].sn) < 0 {
          return;
        }
        p := p + 1;
      }
      assert sndBuf[..p] == sndBuf;
    }

    /** `ikcp_parse_data`. */
    method ParseData(x: K.Numbered)
      modifies this`rcvBuf, this`rcvQueue, this`rcvNxt
      ensures State() == K.ParseData(old(State()), x)
    {
      if K.TimeDiff(x.sn, K.Add32(rcvNxt, rcvWnd)) >= 0 || K.TimeDiff(x.sn, rcvNxt) < 0 {
        return;
      }
      var p, repeated := |rcvBuf|, false;
      while p > 0
        invariant 0 <= p <= |rcvBuf| && !repeated
        invariant K.FindSlot(rcvBuf, x.sn, p) == K.FindSlot(rcvBuf, x.sn, |rcvBuf|)
      {
        if rcvBuf[p - 1].sn == x.sn {
          repeated := true;
          break;
        }
        if K.TimeDiff(x.sn, rcvBuf[p - 1].sn) > 0 {
          break;
        }
        p := p - 1;
      }
      if !repeated {
        rcvBuf := rcvBuf[..p] + [x] + rcvBuf[p..];
      }
      MoveReady();
    }

    /** The body of the loop of `ikcp_input`, after the header checks. */
    method Process(s: Seg)
      modifies this
      ensures State() == K.Process(old(State()), s)
    {
      rmtWnd := s.wnd;
      ParseUna(s.una);
      ShrinkBuf();
      if s.cmd == CMD_ACK {
        ParseAck(s.sn);
        ShrinkBuf();
      } else if s.cmd == CMD_PUSH {
        if K.TimeDiff(s.sn, K.Add32(rcvNxt, rcvWnd)) < 0 {
          acks := acks + [K.Ack(s.sn, s.ts)];
          if K.TimeDiff(s.sn, rcvNxt) >= 0 {
            ParseData(K.Numbered(s.sn, K.Frag(s.frg, s.data)));
          }
        }
      } else if s.cmd == CMD_WASK {
        askTell := true;
      }
    }

    /** `ikcp_input` on any bytes, honest or not. */
    method Input(d: Bytes) returns (code: int)
      modifies this
      ensures State() == K.Input(old(State()), d)
      ensures code == K.InputCode(old(State()), d)
    {
      if |d| < OVERHEAD {
        return -1;
      }
      var b := d;
      while |b| >= OVERHEAD
        invariant K.ProcessAll(State(), Parse(conv, b).segs) == K.ProcessAll(old(State()), Parse(conv, d).segs)
        invariant Parse(conv, b).code == Parse(conv, d).code
        decreases |b|
      {
        var h := DecodeHeader(b);
        if h.conv != conv {
          return -1;
        }
        if |b| - OVERHEAD < h.len {
          return -2;
        }
        if !KnownCommand(h.cmd) {
          return -3;
        }
        ghost var rest := Parse(conv, b[OVERHEAD + h.len..]).segs;
        assert ([FirstSegment(b)] + rest)[1..] == rest;
        Process(FirstSegment(b));
        b := b[OVERHEAD + h.len..];
      }
      code := 0;
    }

    // ------------------------------------------------------------- flushing

    /** `ikcp_flush`: `out` lists the datagrams handed to the output callback, in order. */
    method Flush(env: K.Env) returns (out: seq<Bytes>)
      modifies this`sndNxt, this`sndQueue, this`sndBuf, this`acks, this`askSend, this`askTell
      ensures State() == K.Flush(old(State()), env)
      ensures out == K.FlushOutput(old(State()), env)
    {
      if !updated {
        return [];
      }
      ghost var k := State();
      ghost var pushes := K.PushSegs(k, env, K.Number(k, K.SendWindow(k, env)).sndBuf);
      var wnd := if |rcvQueue| < rcvWnd then rcvWnd - |rcvQueue| else 0;
      var buffer: Bytes;
      buffer, out := FlushControl(wnd, env, pushes);
      NumberWindow(env);
      PushFrame(k, State(), env, sndBuf);
      buffer, out := FlushData(wnd, env, buffer, out);
      if |buffer| > 0 {
        out := out + [buffer];
      }
    }

    /** The acknowledgements and probes; `pushes` is what the flush will send afterwards. */
    method FlushControl(wnd: U32, env: K.Env, ghost pushes: seq<Seg>) returns (buffer: Bytes, out: seq<Bytes>)
      requires wnd == K.UnusedWindow(State())
      ensures out + Pack(mtu, buffer, pushes)
           == Pack(mtu, [], K.AckSegs(State(), acks) + K.ProbeSegs(State(), env) + pushes)
    {
      ghost var a, p := K.AckSegs(State(), acks), K.ProbeSegs(State(), env);
      assert a + (p + pushes) == a + p + pushes;
      buffer, out := FlushAcks(wnd, p + pushes);
      buffer, out := FlushProbes(wnd, env, buffer, out, pushes);
    }

    /** Clears what the first part of a flush has sent, computes the send window and numbers
        queued segments. */
    method NumberWindow(env: K.Env)
      modifies this`sndNxt, this`sndQueue, this`sndBuf, this`acks, this`askSend, this`askTell
      ensures var k := old(State());
              State() == K.Number(k, K.SendWindow(k, env)).(acks := [], askSend := false, askTell := false)
    {
      ghost var k := State();
      acks, askSend, askTell := [], false, false;
      var cwnd := K.Min(sndWnd, rmtWnd);
      if !env.nocwnd {
        cwnd := K.Min(env.cwnd, cwnd);
      }
      NumberFrame(k, State(), cwnd);
      NumberQueued(cwnd);
    }

    /** The acknowledgement loop; `rest` is what the flush will send afterwards. */
    method FlushAcks(wnd: U32, ghost rest: seq<Seg>) returns (buffer: Bytes, out: seq<Bytes>)
      requires wnd == K.UnusedWindow(State())
      ensures out + Pack(mtu, buffer, rest) == Pack(mtu, [], K.AckSegs(State(), acks) + rest)
    {
      buffer, out := [], [];
      var i := 0;
      assert acks[0..] == acks;
      while i < |acks|
        invariant 0 <= i <= |acks|
        invariant out + Pack(mtu, buffer, K.AckSegs(State(), acks[i..]) + rest)
                  == Pack(mtu, [], K.AckSegs(State(), acks) + rest)
      {
        var s := Seg(conv, CMD_ACK, 0, wnd, acks[i].ts, acks[i].sn, rcvNxt, []);
        ghost var later := K.AckSegs(State(), acks[i + 1..]) + rest;
        assert acks[i..][1..] == acks[i + 1..];
        assert K.AckSegs(State(), acks[i..]) + rest == [s] + later;
        buffer, out := Append(mtu, buffer, out, s, later);
        i := i + 1;
      }
      assert K.AckSegs(State(), acks[i..]) + rest == rest;
    }

    /** The two window-probe segments. */
    method FlushProbes(wnd: U32, env: K.Env, buffer0: Bytes, out0: seq<Bytes>, ghost rest: seq<Seg>)
      returns (buffer: Bytes, out: seq<Bytes>)
      requires wnd == K.UnusedWindow(State())
      ensures out + Pack(mtu, buffer, rest) == out0 + Pack(mtu, buffer0, K.ProbeSegs(State(), env) + rest)
    {
      buffer, out := buffer0, out0;
      var last := if acks == [] then K.Ack(0, 0) else acks[|acks| - 1];
      var ask := askSend;
      if rmtWnd == 0 && env.probeDue {
        ask := true;
      }
      var wask := Seg(conv, CMD_WASK, 0, wnd, last.ts, last.sn, rcvNxt, []);
      var wins := Seg(conv, CMD_WINS, 0, wnd, last.ts, last.sn, rcvNxt, []);
      ghost var tell := (if askTell then [wins] else []) + rest;
      assert K.ProbeSegs(State(), env) + rest == (if ask then [wask] else []) + tell;
      if ask {
        buffer, out := Append(mtu, buffer, out, wask, tell);
      } else {
        assert [] + tell == tell;
      }
      if askTell {
        buffer, out := Append(mtu, buffer, out, wins, rest);
      } else {
        assert [] + rest == rest;
      }
    }

    /** The loop that moves segments from the queue to the send buffer. */
    method NumberQueued(cwnd: U32)
      modifies this`sndNxt, this`sndQueue, this`sndBuf
      ensures State() == K.Number(old(State()), cwnd)
    {
      while K.TimeDiff(sndNxt, K.Add32(sndUna, cwnd)) < 0 && sndQueue != []
        invariant K.Number(State(), cwnd) == K.Number(old(State()), cwnd)
        decreases |sndQueue|
      {
        var x := sndQueue[0];
        sndQueue := sndQueue[1..];
        sndBuf := sndBuf + [K.Outgoing(sndNxt, x, 0)];
        sndNxt := K.Add32(sndNxt, 1);
      }
    }

    /** The transmission loop over the send buffer. */
    method FlushData(wnd: U32, env: K.Env, buffer0: Bytes, out0: seq<Bytes>) returns (buffer: Bytes, out: seq<Bytes>)
      requires wnd == K.UnusedWindow(State())
      modifies this`sndBuf
      ensures sndBuf == K.CountSends(env, old(sndBuf))
      ensures out + Emit(buffer) == out0 + Pack(mtu, buffer0, K.PushSegs(old(State()), env, old(sndBuf)))
    {
      buffer, out := buffer0, out0;
      ghost var k, all := State(), sndBuf;
      var i := 0;
      assert all[0..] == all;
      while i < |sndBuf|
        invariant 0 <= i <= |sndBuf| == |all|
        invariant Counted(env, all, sndBuf, i)
        invariant out + Pack(mtu, buffer, K.PushSegs(k, env, all[i..]))
                  == out0 + Pack(mtu, buffer0, K.PushSegs(k, env, all))
      {
        var o := sndBuf[i];
        PushSegsAt(k, env, all, i);
        if o.xmit == 0 || o.sn in env.resend {
          sndBuf := sndBuf[i := o.(xmit := o.xmit + 1)];
          var s := Seg(conv, CMD_PUSH, o.frag.frg, wnd, env.now, o.sn, rcvNxt, o.frag.data);
          buffer, out := Append(mtu, buffer, out, s, K.PushSegs(k, env, all[i + 1..]));
        }
        i := i + 1;
      }
      CountedAll(env, all, sndBuf);
      assert all[i..] == [];
    }

    // ------------------------------------------------------------- the rest

    /** The part of `ikcp_update` that enables flushing. */
    method Start()
      modifies this`updated
      ensures State() == old(State()).(updated := true)
    {
      updated := true;
    }

    /** `ikcp_waitsnd`. */
    method WaitSnd() returns (n: nat)
      ensures n == K.WaitSnd(State())
    {
      n := |sndBuf| + |sndQueue|;
    }
  }

  /** Encoding one more segment: push the buffer out first if the segment does not fit. */
  method Append(mtu: nat, buffer0: Bytes, out0: seq<Bytes>, s: Seg, ghost later: seq<Seg>)
    returns (buffer: Bytes, out: seq<Bytes>)
    ensures out + Pack(mtu, buffer, later) == out0 + Pack(mtu, buffer0, [s] + later)
  {
    buffer, out := buffer0, out0;
    assert ([s] + later)[1..] == later;
    if |buffer| + OVERHEAD + |s.data| > mtu {
      if |buffer| > 0 {
        out := out + [buffer];
      }
      buffer := [];
    }
    ghost var e := Encode(s);
    assert [] + e == e;
    buffer := buffer + Encode(s);
  }

  /** The first `i` entries have been visited by the transmission loop. */
  ghost predicate Counted(env: K.Env, all: seq<K.Outgoing>, buf: seq<K.Outgoing>, i: nat) {
    && i <= |all| == |buf|
    && (forall j :: i <= j < |all| ==> buf[j] == all[j])
    && (forall j :: 0 <= j < i ==> buf[j] == if K.Due(all[j], env) then all[j].(xmit := all[j].xmit + 1) else all[j])
  }

  lemma {:induction false} CountedAll(env: K.Env, all: seq<K.Outgoing>, buf: seq<K.Outgoing>)
    requires Counted(env, all, buf, |all|)
    ensures buf == K.CountSends(env, all)
    decreases |all|
  {
    if all != [] {
      CountedAll(env, all[1..], buf[1..]);
      assert buf == [buf[0]] + buf[1..];
    }
  }

  lemma PushSegsAt(k: K.Kcb, env: K.Env, all: seq<K.Outgoing>, i: nat)
    requires i < |all|
    ensures K.PushSegs(k, env, all[i..]) ==
            if K.Due(all[i], env) then [K.PushSeg(k, env.now, all[i])] + K.PushSegs(k, env, all[i + 1..])
            else K.PushSegs(k, env, all[i + 1..])
  {
    assert all[i..][1..] == all[i + 1..];
  }

  lemma {:induction false} PushFrame(k: K.Kcb, k1: K.Kcb, env: K.Env, buf: seq<K.Outgoing>)
    requires k1.conv == k.conv && k1.rcvNxt == k.rcvNxt && K.UnusedWindow(k1) == K.UnusedWindow(k)
    ensures K.PushSegs(k1, env, buf) == K.PushSegs(k, env, buf)
    decreases |buf|
  {
    if buf != [] {
      PushFrame(k, k1, env, buf[1..]);
    }
  }

  lemma DropAckedAt(buf: seq<K.Outgoing>, sn: U32, p: nat)
    requires p < |buf| && K.DropAcked(buf, sn) == buf[..p] + K.DropAcked(buf[p..], sn)
    ensures K.DropAcked(buf, sn) ==
            if buf[p].sn == sn then buf[..p] + buf[p + 1..]
            else if K.TimeDiff(sn, buf[p].sn) < 0 then buf
            else buf[..p + 1] + K.DropAcked(buf[p + 1..], sn)
  {
    SplitAt(buf, p);
    if buf[p].sn != sn && K.TimeDiff(sn, buf[p].sn) >= 0 {
      Regroup(buf[..p], buf[p], K.DropAcked(buf[p + 1..], sn));
    }
  }

  lemma SplitAt(buf: seq<K.Outgoing>, p: nat)
    requires p < |buf|
    ensures buf[p..][0] == buf[p] && buf[p..][1..] == buf[p + 1..] && buf[..p] + buf[p..] == buf
    ensures buf[..p + 1] == buf[..p] + [buf[p]]
  {
  }

  lemma Regroup(a: seq<K.Outgoing>, x: K.Outgoing, b: seq<K.Outgoing>)
    ensures a + ([x] + b) == (a + [x]) + b
  {
  }

  lemma HeadOfMessage(p: seq<K.Frag>)
    requires p != []
    ensures p[0].frg == 0 ==> K.MessageSpan(p) == 1 && K.Payload(p[..1]) == p[0].data
    ensures p[0].frg != 0 ==> K.MessageSpan(p) == 1 + K.MessageSpan(p[1..])
    ensures p[0].frg != 0 ==> K.Payload(p[..K.MessageSpan(p)]) == p[0].data + K.Payload(p[1..][..K.MessageSpan(p[1..])])
  {
    if p[0].frg == 0 {
      assert p[..1][1..] == [];
    } else {
      var n := K.MessageSpan(p);
      assert p[..n][1..] == p[1..][..n - 1];
    }
  }

  /** Numbering does not look at acknowledgements or probe flags. */
  lemma {:induction false} NumberFrame(k: K.Kcb, k1: K.Kcb, cwnd: U32)
    requires k1 == k.(acks := [], askSend := false, askTell := false)
    ensures K.Number(k1, cwnd) == K.Number(k, cwnd).(acks := [], askSend := false, askTell := false)
    decreases |k.sndQueue|
  {
    if K.TimeDiff(k.sndNxt, K.Add32(k.sndUna, cwnd)) < 0 && k.sndQueue != [] {
      var n := k.(sndQueue := k.sndQueue[1..], sndBuf := k.sndBuf + [K.Outgoing(k.sndNxt, k.sndQueue[0], 0)],
                  sndNxt := K.Add32(k.sndNxt, 1));
      NumberFrame(n, n.(acks := [], askSend := false, askTell := false), cwnd);
    }
  }
}
