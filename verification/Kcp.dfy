/** One KCP endpoint as a value: what each entry point of `ikcp.c` does to the control
    block in message mode. The class `KcpEndpoint.Endpoint` is proved against these
    functions, and `KcpNetwork` proves what two endpoints promise each other.

    Left to parameters: the clock, the congestion window, the retransmission decision and
    the window-probe timer.
 */
module Kcp {
  import opened Basics
  import opened KcpWire

  /** One piece of a message; `frg` counts the pieces still to come. */
  datatype Frag = Frag(frg: Byte, data: Bytes)

  /** A received segment waiting for its turn. */
  datatype Numbered = Numbered(sn: U32, frag: Frag)

  /** A segment in flight, with its transmission count. */
  datatype Outgoing = Outgoing(sn: U32, frag: Frag, xmit: nat)

  datatype Ack = Ack(sn: U32, ts: U32)

  datatype Kcb = Kcb(
    conv: U32, mtu: nat, sndWnd: U32, rcvWnd: U32,
    sndUna: U32, sndNxt: U32, rcvNxt: U32, rmtWnd: U32,
    askSend: bool, askTell: bool, updated: bool,
    sndQueue: seq<Frag>, sndBuf: seq<Outgoing>,
    rcvBuf: seq<Numbered>, rcvQueue: seq<Frag>, acks: seq<Ack>)
  {
    /** What `ikcp_create` and `ikcp_setmtu` guarantee of the configuration. */
    ghost predicate Configured() {
      50 <= mtu < 0x8000_0000
    }

    function Mss(): nat
      requires Configured()
    {
      mtu - OVERHEAD
    }
  }

  function Create(conv: U32, mtu: nat, sndWnd: U32, rcvWnd: U32): Kcb {
    Kcb(conv, mtu, sndWnd, rcvWnd, 0, 0, 0, 32, false, false, false, [], [], [], [], [])
  }

  // ---------------------------------------------------------------- 32 bit time

  /** 32 bit addition with wrap-around. */
  function Add32(x: U32, y: U32): U32 {
    if x + y >= 0x1_0000_0000 then x + y - 0x1_0000_0000 else x + y
  }

  /** It is the sum modulo 2^32. */
  lemma Add32IsSum(x: U32, y: U32)
    ensures Add32(x, y) == (x + y) % 0x1_0000_0000
  {
  }

  /** `_itimediff`: the 32 bit difference read as a signed number. */
  function TimeDiff(later: U32, earlier: U32): int {
    var d: int := later - earlier;
    if d >= 0x8000_0000 then d - 0x1_0000_0000 else if d < -0x8000_0000 then d + 0x1_0000_0000 else d
  }

  /** `_itimediff` is congruent to the difference, in the signed 32 bit range. */
  lemma TimeDiffIsSigned32(later: U32, earlier: U32)
    ensures -0x8000_0000 <= TimeDiff(later, earlier) < 0x8000_0000
    ensures (TimeDiff(later, earlier) - (later - earlier)) % 0x1_0000_0000 == 0
  {
  }

  /** `_itimediff` is the plain difference exactly when that fits 32 signed bits. */
  lemma TimeDiffIsPlain(later: U32, earlier: U32)
    ensures TimeDiff(later, earlier) == later - earlier <==> -0x8000_0000 <= later - earlier < 0x8000_0000
  {
  }

  // ---------------------------------------------------------------- sending

  function FragmentCount(mss: nat, len: nat): nat
    requires mss > 0
  {
    if len <= mss then 1 else (len + mss - 1) / mss
  }

  /** The fragmenting loop of `ikcp_send`, with `count` pieces still to cut. */
  function Fragments(mss: nat, msg: Bytes, count: nat): seq<Frag>
    requires count <= 255
    decreases count
  {
    if count == 0 then []
    else
      var size := if |msg| > mss then mss else |msg|;
      [Frag(count - 1, msg[..size])] + Fragments(mss, msg[size..], count - 1)
  }

  function SendCode(k: Kcb, msg: Bytes): int
    requires k.Configured()
  {
    if FragmentCount(k.Mss(), |msg|) > 255 then -2 else 0
  }

  function Send(k: Kcb, msg: Bytes): Kcb
    requires k.Configured()
  {
    var count := FragmentCount(k.Mss(), |msg|);
    if count > 255 then k
    else k.(sndQueue := k.sndQueue + Fragments(k.Mss(), msg, count))
  }

  // ---------------------------------------------------------------- receiving

  /** The loop that moves in-order segments from the reorder buffer to the queue. */
  function MoveReady(k: Kcb): Kcb
    decreases |k.rcvBuf|
  {
    if k.rcvBuf != [] && k.rcvBuf[0].sn == k.rcvNxt && |k.rcvQueue| < k.rcvWnd then
      MoveReady(k.(rcvBuf := k.rcvBuf[1..], rcvQueue := k.rcvQueue + [k.rcvBuf[0].frag], rcvNxt := Add32(k.rcvNxt, 1)))
    else k
  }

  /** How many fragments the loop of `ikcp_recv` consumes: up to and including the first
      one that ends a message. */
  function MessageSpan(q: seq<Frag>): (n: nat)
    ensures n <= |q|
  {
    if q == [] then 0 else if q[0].frg == 0 then 1 else 1 + MessageSpan(q[1..])
  }

  function Payload(q: seq<Frag>): Bytes {
    if q == [] then [] else q[0].data + Payload(q[1..])
  }

  function PeekSize(q: seq<Frag>): int {
    if q == [] then -1
    else if q[0].frg == 0 then |q[0].data|
    else if |q| < q[0].frg + 1 then -1
    else |Payload(q[..MessageSpan(q)])|
  }

  /** `ikcp_recv` with a buffer of `|len|` bytes; a negative `len` peeks. */
  function RecvCode(k: Kcb, len: int): int {
    if k.rcvQueue == [] then -1
    else if PeekSize(k.rcvQueue) < 0 then -2
    else if PeekSize(k.rcvQueue) > (if len < 0 then -len else len) then -3
    else |RecvData(k)|
  }

  function RecvData(k: Kcb): Bytes {
    Payload(k.rcvQueue[..MessageSpan(k.rcvQueue)])
  }

  function Recv(k: Kcb, len: int): Kcb {
    if RecvCode(k, len) < 0 then k
    else
      var k1 := if len < 0 then k else k.(rcvQueue := k.rcvQueue[MessageSpan(k.rcvQueue)..]);
      var k2 := MoveReady(k1);
      if |k2.rcvQueue| < k.rcvWnd <= |k.rcvQueue| then k2.(askTell := true) else k2
  }

  // ---------------------------------------------------------------- acknowledgements

  /** `ikcp_parse_una`. */
  function DropBelow(buf: seq<Outgoing>, una: U32): seq<Outgoing> {
    if buf != [] && TimeDiff(una, buf[0].sn) > 0 then DropBelow(buf[1..], una) else buf
  }

  /** The scan of `ikcp_parse_ack`. */
  function DropAcked(buf: seq<Outgoing>, sn: U32): seq<Outgoing> {
    if buf == [] then buf
    else if buf[0].sn == sn then buf[1..]
    else if TimeDiff(sn, buf[0].sn) < 0 then buf
    else [buf[0]] + DropAcked(buf[1..], sn)
  }

  function ParseAck(k: Kcb, sn: U32): Kcb {
    if TimeDiff(sn, k.sndUna) < 0 || TimeDiff(sn, k.sndNxt) >= 0 then k
    else k.(sndBuf := DropAcked(k.sndBuf, sn))
  }

  /** `ikcp_shrink_buf`. */
  function Shrink(k: Kcb): Kcb {
    k.(sndUna := if k.sndBuf != [] then k.sndBuf[0].sn else k.sndNxt)
  }

  // ---------------------------------------------------------------- data

  /** Where the backward scan of `ikcp_parse_data` over `buf[..i]` stops. */
  datatype Slot = Slot(at: nat, repeated: bool)

  function FindSlot(buf: seq<Numbered>, sn: U32, i: nat): (s: Slot)
    requires i <= |buf|
    ensures s.at <= i
  {
    if i == 0 then Slot(0, false)
    else if buf[i - 1].sn == sn then Slot(i, true)
    else if TimeDiff(sn, buf[i - 1].sn) > 0 then Slot(i, false)
    else FindSlot(buf, sn, i - 1)
  }

  function Insert(buf: seq<Numbered>, x: Numbered): seq<Numbered> {
    var s := FindSlot(buf, x.sn, |buf|);
    if s.repeated then buf else buf[..s.at] + [x] + buf[s.at..]
  }

  predicate InWindow(k: Kcb, sn: U32) {
    TimeDiff(sn, Add32(k.rcvNxt, k.rcvWnd)) < 0 && TimeDiff(sn, k.rcvNxt) >= 0
  }

  function ParseData(k: Kcb, x: Numbered): Kcb {
    if !InWindow(k, x.sn) then k else MoveReady(k.(rcvBuf := Insert(k.rcvBuf, x)))
  }

  /** The effect of one received segment. */
  function Process(k: Kcb, s: Seg): Kcb {
    var k1 := Shrink(k.(rmtWnd := s.wnd, sndBuf := DropBelow(k.sndBuf, s.una)));
    if s.cmd == CMD_ACK then Shrink(ParseAck(k1, s.sn))
    else if s.cmd == CMD_PUSH then ProcessPush(k1, s)
    else if s.cmd == CMD_WASK then k1.(askTell := true)
    else k1
  }

  function ProcessPush(k: Kcb, s: Seg): Kcb {
    if TimeDiff(s.sn, Add32(k.rcvNxt, k.rcvWnd)) < 0 then
      var k1 := k.(acks := k.acks + [Ack(s.sn, s.ts)]);
      if TimeDiff(s.sn, k.rcvNxt) >= 0 then ParseData(k1, Numbered(s.sn, Frag(s.frg, s.data))) else k1
    else k
  }

  function ProcessAll(k: Kcb, segs: seq<Seg>): Kcb
    decreases |segs|
  {
    if segs == [] then k else ProcessAll(Process(k, segs[0]), segs[1..])
  }

  function InputCode(k: Kcb, d: Bytes): int {
    if |d| < OVERHEAD then -1 else Parse(k.conv, d).code
  }

  function Input(k: Kcb, d: Bytes): Kcb {
    if |d| < OVERHEAD then k else ProcessAll(k, Parse(k.conv, d).segs)
  }

  // ---------------------------------------------------------------- flushing

  /** What a flush reads from outside the modelled state. */
  datatype Env = Env(now: U32, cwnd: U32, nocwnd: bool, probeDue: bool, resend: set<U32>)

  function Min(a: U32, b: U32): U32 {
    if a <= b then a else b
  }

  function SendWindow(k: Kcb, env: Env): U32 {
    var w := Min(k.sndWnd, k.rmtWnd);
    if env.nocwnd then w else Min(env.cwnd, w)
  }

  function UnusedWindow(k: Kcb): U32 {
    if |k.rcvQueue| < k.rcvWnd then k.rcvWnd - |k.rcvQueue| else 0
  }

  function AckSeg(k: Kcb, a: Ack): Seg {
    Seg(k.conv, CMD_ACK, 0, UnusedWindow(k), a.ts, a.sn, k.rcvNxt, [])
  }

  function AckSegs(k: Kcb, acks: seq<Ack>): seq<Seg> {
    if acks == [] then [] else [AckSeg(k, acks[0])] + AckSegs(k, acks[1..])
  }

  /** The probe segments reuse the scratch segment, so they carry the last ack's numbers. */
  function LastAck(k: Kcb): Ack {
    if k.acks == [] then Ack(0, 0) else k.acks[|k.acks| - 1]
  }

  predicate Asking(k: Kcb, env: Env) {
    k.askSend || (k.rmtWnd == 0 && env.probeDue)
  }

  function ProbeSegs(k: Kcb, env: Env): seq<Seg> {
    (if Asking(k, env) then [AckSeg(k, LastAck(k)).(cmd := CMD_WASK)] else [])
    + (if k.askTell then [AckSeg(k, LastAck(k)).(cmd := CMD_WINS)] else [])
  }

  /** The loop that numbers queued fragments while the send window has room. */
  function Number(k: Kcb, cwnd: U32): Kcb
    decreases |k.sndQueue|
  {
    if TimeDiff(k.sndNxt, Add32(k.sndUna, cwnd)) < 0 && k.sndQueue != [] then
      Number(k.(sndQueue := k.sndQueue[1..],
                sndBuf := k.sndBuf + [Outgoing(k.sndNxt, k.sndQueue[0], 0)],
                sndNxt := Add32(k.sndNxt, 1)), cwnd)
    else k
  }

  predicate Due(o: Outgoing, env: Env) {
    o.xmit == 0 || o.sn in env.resend
  }

  function PushSeg(k: Kcb, now: U32, o: Outgoing): Seg {
    Seg(k.conv, CMD_PUSH, o.frag.frg, UnusedWindow(k), now, o.sn, k.rcvNxt, o.frag.data)
  }

  function PushSegs(k: Kcb, env: Env, buf: seq<Outgoing>): seq<Seg> {
    if buf == [] then []
    else (if Due(buf[0], env) then [PushSeg(k, env.now, buf[0])] else []) + PushSegs(k, env, buf[1..])
  }

  function CountSends(env: Env, buf: seq<Outgoing>): seq<Outgoing> {
    if buf == [] then []
    else [if Due(buf[0], env) then buf[0].(xmit := buf[0].xmit + 1) else buf[0]] + CountSends(env, buf[1..])
  }

  function Flush(k: Kcb, env: Env): Kcb {
    if !k.updated then k
    else
      var k1 := Number(k, SendWindow(k, env));
      k1.(acks := [], askSend := false, askTell := false, sndBuf := CountSends(env, k1.sndBuf))
  }

  function FlushSegs(k: Kcb, env: Env): seq<Seg> {
    if !k.updated then []
    else AckSegs(k, k.acks) + ProbeSegs(k, env) + PushSegs(k, env, Number(k, SendWindow(k, env)).sndBuf)
  }

  function FlushOutput(k: Kcb, env: Env): seq<Bytes> {
    Pack(k.mtu, [], FlushSegs(k, env))
  }

  /** `ikcp_waitsnd`. */
  function WaitSnd(k: Kcb): nat {
    |k.sndBuf| + |k.sndQueue|
  }
}
