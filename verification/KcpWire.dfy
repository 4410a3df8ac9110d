/** The KCP wire format: segment headers, the greedy packing of segments into datagrams
    done by `ikcp_flush`, and the parse loop of `ikcp_input`.
 */
module KcpWire {
  import opened Basics

  type Bytes = seq<Byte>

  const OVERHEAD := 24
  const CMD_PUSH: Byte := 81
  const CMD_ACK: Byte := 82
  const CMD_WASK: Byte := 83
  const CMD_WINS: Byte := 84

  /** A segment as it is handed to `ikcp_encode_seg`. The window field is 32 bits wide in
      memory and cut to 16 bits on the wire. */
  datatype Seg = Seg(conv: U32, cmd: Byte, frg: Byte, wnd: U32, ts: U32, sn: U32, una: U32, data: Bytes)

  /** The eight header fields of the 24 byte header. */
  datatype Header = Header(conv: U32, cmd: Byte, frg: Byte, wnd: U32, ts: U32, sn: U32, una: U32, len: U32)

  predicate KnownCommand(cmd: Byte) {
    cmd == CMD_PUSH || cmd == CMD_ACK || cmd == CMD_WASK || cmd == CMD_WINS
  }

  // ---------------------------------------------------------------- integers

  function Encode32(x: U32): (r: Bytes)
    ensures |r| == 4
  {
    [x % 0x100, x / 0x100 % 0x100, x / 0x1_0000 % 0x100, x / 0x100_0000]
  }

  function Decode32(b: Bytes, at: nat): U32
    requires at + 4 <= |b|
  {
    var b0: int, b1: int, b2: int, b3: int := b[at], b[at + 1], b[at + 2], b[at + 3];
    b0 + 0x100 * b1 + 0x1_0000 * b2 + 0x100_0000 * b3
  }

  function Encode16(x: U32): (r: Bytes)
    ensures |r| == 2
  {
    [x % 0x100, x / 0x100 % 0x100]
  }

  function Decode16(b: Bytes, at: nat): (r: U32)
    requires at + 2 <= |b|
    ensures r < 0x1_0000
  {
    var b0: int, b1: int := b[at], b[at + 1];
    b0 + 0x100 * b1
  }

  /** The four bytes of a number, low byte first. */
  lemma FourBytes(x: nat)
    ensures x % 0x100 + 0x100 * (x / 0x100 % 0x100) + 0x1_0000 * (x / 0x1_0000 % 0x100)
            + 0x100_0000 * (x / 0x100_0000) == x
  {
    var q, r := x / 0x100, x / 0x1_0000;
    assert r == q / 0x100 && x / 0x100_0000 == r / 0x100;
    assert x == 0x100 * q + x % 0x100 && q == 0x100 * r + q % 0x100 && r == 0x100 * (r / 0x100) + r % 0x100;
  }

  /** Decoding at any offset undoes the 32 bit encoder. */
  lemma RoundTrip32(x: U32, before: Bytes, after: Bytes)
    ensures Decode32(before + Encode32(x) + after, |before|) == x
  {
    var b, e, n := before + Encode32(x) + after, Encode32(x), |before|;
    assert b[n] == e[0] && b[n + 1] == e[1] && b[n + 2] == e[2] && b[n + 3] == e[3];
    FourBytes(x);
  }

  /** The 16 bit codec keeps exactly the low 16 bits. */
  lemma RoundTrip16(x: U32, before: Bytes, after: Bytes)
    ensures Decode16(before + Encode16(x) + after, |before|) == x % 0x1_0000
  {
    var b := before + Encode16(x) + after;
    assert b[|before| + 0] == Encode16(x)[0];
    assert b[|before| + 1] == Encode16(x)[1];
    LowBytes16(x);
  }

  lemma LowBytes16(x: nat)
    ensures x % 0x100 + 0x100 * (x / 0x100 % 0x100) == x % 0x1_0000
  {
    var q := x / 0x100;
    assert x == 0x100 * q + x % 0x100 && q == 0x100 * (q / 0x100) + q % 0x100;
    assert x == 0x1_0000 * (q / 0x100) + (0x100 * (q % 0x100) + x % 0x100);
  }

  // ---------------------------------------------------------------- segments

  /** The 24 header bytes; the length field is 32 bits wide. */
  function EncodeHeader(s: Seg): (r: Bytes)
    ensures |r| == OVERHEAD
  {
    Encode32(s.conv) + [s.cmd, s.frg] + Encode16(s.wnd) + Encode32(s.ts)
    + Encode32(s.sn) + Encode32(s.una) + Encode32(|s.data| % 0x1_0000_0000)
  }

  function DecodeHeader(b: Bytes): Header
    requires |b| >= OVERHEAD
  {
    Header(Decode32(b, 0), b[4], b[5], Decode16(b, 6), Decode32(b, 8), Decode32(b, 12), Decode32(b, 16),
           Decode32(b, 20))
  }

  function Encode(s: Seg): (r: Bytes)
    ensures |r| == OVERHEAD + |s.data|
  {
    EncodeHeader(s) + s.data
  }

  /** What the receiver sees of a segment: everything but the high window bits. */
  function OnWire(s: Seg): Seg {
    s.(wnd := s.wnd % 0x1_0000)
  }

  lemma HeaderRoundTrip(s: Seg, rest: Bytes)
    requires |s.data| < 0x1_0000_0000
    ensures DecodeHeader(Encode(s) + rest)
         == Header(s.conv, s.cmd, s.frg, s.wnd % 0x1_0000, s.ts, s.sn, s.una, |s.data|)
  {
    HeaderSplit(s, rest);
    LowHeader(s, HighBytes(s) + s.data + rest);
    HighHeader(s, LowBytes(s), s.data + rest);
  }

  function LowBytes(s: Seg): Bytes {
    Encode32(s.conv) + [s.cmd, s.frg] + Encode16(s.wnd)
  }

  function HighBytes(s: Seg): Bytes
    requires |s.data| < 0x1_0000_0000
  {
    Encode32(s.ts) + Encode32(s.sn) + Encode32(s.una) + Encode32(|s.data|)
  }

  lemma HeaderSplit(s: Seg, rest: Bytes)
    requires |s.data| < 0x1_0000_0000
    ensures Encode(s) + rest == LowBytes(s) + (HighBytes(s) + s.data + rest)
    ensures Encode(s) + rest == LowBytes(s) + HighBytes(s) + (s.data + rest)
  {
    HeaderParts(s);
    assert Encode(s) == LowBytes(s) + HighBytes(s) + s.data;
  }

  lemma HeaderParts(s: Seg)
    requires |s.data| < 0x1_0000_0000
    ensures EncodeHeader(s) == LowBytes(s) + HighBytes(s)
  {
    JoinParts(Encode32(s.ts), Encode32(s.sn), Encode32(s.una), Encode32(|s.data|), LowBytes(s), EncodeHeader(s));
  }

  lemma LowHeader(s: Seg, after: Bytes)
    ensures var b := LowBytes(s) + after;
            Decode32(b, 0) == s.conv && b[4] == s.cmd && b[5] == s.frg && Decode16(b, 6) == s.wnd % 0x1_0000
  {
    var c, w := Encode32(s.conv), Encode16(s.wnd);
    var k: Bytes := [s.cmd, s.frg];
    var b := c + k + w + after;
    RoundTrip32(s.conv, [], k + w + after);
    assert b == [] + c + (k + w + after);
    RoundTrip16(s.wnd, c + k, after);
  }

  lemma HighHeader(s: Seg, low: Bytes, after: Bytes)
    requires |low| == 8 && |s.data| < 0x1_0000_0000
    ensures var b := low + HighBytes(s) + after;
            && Decode32(b, 8) == s.ts && Decode32(b, 12) == s.sn
            && Decode32(b, 16) == s.una && Decode32(b, 20) == |s.data|
  {
    var t, n, u, l := Encode32(s.ts), Encode32(s.sn), Encode32(s.una), Encode32(|s.data|);
    var b := low + (t + n + u + l) + after;
    RoundTrip32(s.ts, low, n + u + l + after);
    assert b == low + t + (n + u + l + after);
    RoundTrip32(s.sn, low + t, u + l + after);
    assert b == (low + t) + n + (u + l + after);
    RoundTrip32(s.una, low + t + n, l + after);
    assert b == (low + t + n) + u + (l + after);
    RoundTrip32(|s.data|, low + t + n + u, after);
    assert b == (low + t + n + u) + l + after;
  }

  /** The number at `at`, low byte first. */
  function Little32(b: Bytes, at: nat): int
    requires at + 4 <= |b|
  {
    b[at] as int + 0x100 * b[at + 1] as int + 0x1_0000 * b[at + 2] as int + 0x100_0000 * b[at + 3] as int
  }

  function Little16(b: Bytes, at: nat): int
    requires at + 2 <= |b|
  {
    b[at] as int + 0x100 * b[at + 1] as int
  }

  /** The layout of a segment on the wire, byte by byte, and the codes of its commands. */
  lemma WireLayout(s: Seg)
    requires |s.data| < 0x1_0000_0000
    ensures var e := Encode(s);
            && |e| == 24 + |s.data| && e[24..] == s.data
            && Little32(e, 0) == s.conv && e[4] == s.cmd && e[5] == s.frg && Little16(e, 6) == s.wnd % 0x1_0000
            && Little32(e, 8) == s.ts && Little32(e, 12) == s.sn && Little32(e, 16) == s.una
            && Little32(e, 20) == |s.data|
    ensures CMD_PUSH == 81 && CMD_ACK == 82 && CMD_WASK == 83 && CMD_WINS == 84
  {
    HeaderRoundTrip(s, []);
    assert Encode(s) + [] == Encode(s);
  }

  // ---------------------------------------------------------------- the parse loop

  /** The segments `ikcp_input` acts on before it stops, and its return code:
      0 at the end of the datagram, -1 for a foreign conversation, -2 for a length that
      runs past the end, -3 for an unknown command. */
  datatype Parsed = Parsed(segs: seq<Seg>, code: int)

  function Parse(conv: U32, b: Bytes): Parsed
    decreases |b|
  {
    if |b| < OVERHEAD then Parsed([], 0)
    else
      var h := DecodeHeader(b);
      if h.conv != conv then Parsed([], -1)
      else if |b| - OVERHEAD < h.len then Parsed([], -2)
      else if !KnownCommand(h.cmd) then Parsed([], -3)
      else
        var rest := Parse(conv, b[OVERHEAD + h.len..]);
        Parsed([FirstSegment(b)] + rest.segs, rest.code)
  }

  /** The segment at the head of a buffer that holds all of it. */
  function FirstSegment(b: Bytes): Seg
    requires |b| >= OVERHEAD && OVERHEAD + DecodeHeader(b).len <= |b|
  {
    var h := DecodeHeader(b);
    Seg(h.conv, h.cmd, h.frg, h.wnd, h.ts, h.sn, h.una, b[OVERHEAD..OVERHEAD + h.len])
  }

  /** A segment that the encoder can represent and the peer's parser accepts. */
  predicate Sendable(conv: U32, s: Seg) {
    s.conv == conv && KnownCommand(s.cmd) && |s.data| < 0x1_0000_0000
  }

  predicate AllSendable(conv: U32, segs: seq<Seg>) {
    forall i :: 0 <= i < |segs| ==> Sendable(conv, segs[i])
  }

  function EncodeAll(segs: seq<Seg>): (r: Bytes) {
    if segs == [] then [] else Encode(segs[0]) + EncodeAll(segs[1..])
  }

  function AllOnWire(segs: seq<Seg>): (r: seq<Seg>)
    ensures |r| == |segs| && forall i :: 0 <= i < |segs| ==> r[i] == OnWire(segs[i])
  {
    seq(|segs|, i requires 0 <= i < |segs| => OnWire(segs[i]))
  }

  /** Parsing one encoded segment consumes exactly that segment. */
  lemma ParseStep(conv: U32, s: Seg, rest: Bytes)
    requires Sendable(conv, s)
    ensures Parse(conv, Encode(s) + rest) ==
            Parsed([OnWire(s)] + Parse(conv, rest).segs, Parse(conv, rest).code)
  {
    var b := Encode(s) + rest;
    HeaderRoundTrip(s, rest);
    var h := DecodeHeader(b);
    assert b[OVERHEAD + h.len..] == rest;
    assert b[OVERHEAD..OVERHEAD + h.len] == s.data;
    assert FirstSegment(b) == OnWire(s);
  }

  /** The parse loop of `ikcp_input` inverts concatenated `ikcp_encode_seg` output. */
  lemma {:induction false} ParseEncodeAll(conv: U32, segs: seq<Seg>)
    requires AllSendable(conv, segs)
    ensures Parse(conv, EncodeAll(segs)) == Parsed(AllOnWire(segs), 0)
    decreases |segs|
  {
    if segs != [] {
      ParseEncodeAll(conv, segs[1..]);
      ParseStep(conv, segs[0], EncodeAll(segs[1..]));
      OnWireFirst(segs);
    }
  }

  lemma Bytes32(b: Bytes, at: nat)
    requires at + 4 <= |b|
    ensures Encode32(Decode32(b, at)) == b[at..at + 4]
  {
    var b0: int, b1: int, b2: int, b3: int := b[at], b[at + 1], b[at + 2], b[at + 3];
    Digits256(b0, b1, b2, b3);
  }

  lemma Digits256(b0: int, b1: int, b2: int, b3: int)
    requires 0 <= b0 < 0x100 && 0 <= b1 < 0x100 && 0 <= b2 < 0x100 && 0 <= b3 < 0x100
    ensures var x := b0 + 0x100 * b1 + 0x1_0000 * b2 + 0x100_0000 * b3;
            x % 0x100 == b0 && x / 0x100 % 0x100 == b1 && x / 0x1_0000 % 0x100 == b2 && x / 0x100_0000 == b3
  {
    var q, r := b1 + 0x100 * b2 + 0x1_0000 * b3, b2 + 0x100 * b3;
    var x := b0 + 0x100 * q;
    assert x / 0x100 == q;
    assert q == b1 + 0x100 * r && q / 0x100 == r;
    assert x / 0x1_0000 == q / 0x100 && x / 0x100_0000 == r / 0x100;
  }

  lemma Bytes16(b: Bytes, at: nat)
    requires at + 2 <= |b|
    ensures Encode16(Decode16(b, at)) == b[at..at + 2]
  {
  }

  /** Encoding a parsed segment gives its bytes back. */
  lemma EncodeOfFirst(b: Bytes)
    requires |b| >= OVERHEAD && OVERHEAD + DecodeHeader(b).len <= |b|
    ensures Encode(FirstSegment(b)) == b[..OVERHEAD + DecodeHeader(b).len]
  {
    var k := OVERHEAD + DecodeHeader(b).len;
    HeaderOfFirst(b);
    assert b[..24] + b[24..k] == b[..k];
  }

  lemma HeaderOfFirst(b: Bytes)
    requires |b| >= OVERHEAD && OVERHEAD + DecodeHeader(b).len <= |b|
    ensures EncodeHeader(FirstSegment(b)) == b[..24]
  {
    var s := FirstSegment(b);
    HeaderParts(s);
    LowOfHeader(b);
    HighOfHeader(b);
    assert LowBytes(s) == b[..8] && HighBytes(s) == b[8..24];
    assert b[..8] + b[8..24] == b[..24];
  }

  lemma JoinParts(t: Bytes, n: Bytes, u: Bytes, l: Bytes, low: Bytes, all: Bytes)
    requires all == low + t + n + u + l
    ensures all == low + (t + n + u + l)
  {
  }

  lemma LowOfHeader(b: Bytes)
    requires |b| >= OVERHEAD
    ensures Encode32(Decode32(b, 0)) + [b[4], b[5]] + Encode16(Decode16(b, 6)) == b[..8]
  {
    Bytes32(b, 0);
    Bytes16(b, 6);
  }

  lemma HighOfHeader(b: Bytes)
    requires |b| >= OVERHEAD
    ensures Encode32(Decode32(b, 8)) + Encode32(Decode32(b, 12)) + Encode32(Decode32(b, 16)) + Encode32(Decode32(b, 20))
            == b[8..24]
  {
    Bytes32(b, 8);
    Bytes32(b, 12);
    Bytes32(b, 16);
    Bytes32(b, 20);
  }

  /** What is wrong with the segment at the start of `b`: 0 when there is no whole header left, -1 for another
      conversation, -2 for a length beyond the end, -3 for an unknown command, 1 for nothing. */
  function Defect(conv: U32, b: Bytes): int {
    if |b| < 24 then 0
    else if Little32(b, 0) != conv then -1
    else if Little32(b, 20) > |b| - 24 then -2
    else if b[4] < 81 || b[4] > 84 then -3
    else 1
  }

  /** The parse loop on any bytes: what it takes are exactly the encoded segments at the front, each of this
      conversation, and its code is the first defect behind them. */
  lemma {:induction false} ParseExact(conv: U32, b: Bytes)
    ensures var r := Parse(conv, b); var n := |EncodeAll(r.segs)|;
            n <= |b| && EncodeAll(r.segs) == b[..n] && Defect(conv, b[n..]) == r.code && r.code <= 0
    ensures AllSendable(conv, Parse(conv, b).segs)
    decreases |b|
  {
    if GoesOn(conv, b) {
      var k := OVERHEAD + DecodeHeader(b).len;
      ParseExact(conv, b[k..]);
      EncodeOfFirst(b);
      ParsedOne(conv, b, k, Parse(conv, b[k..]).segs);
      ParsedSendable(conv, b, Parse(conv, b[k..]).segs);
    } else {
      StopsWith(conv, b);
      assert b[0..] == b;
    }
  }

  /** The loop takes the segment at the start of `b`. */
  predicate GoesOn(conv: U32, b: Bytes) {
    && |b| >= OVERHEAD && DecodeHeader(b).conv == conv && OVERHEAD + DecodeHeader(b).len <= |b|
    && KnownCommand(DecodeHeader(b).cmd)
  }

  lemma StopsWith(conv: U32, b: Bytes)
    requires !GoesOn(conv, b)
    ensures Parse(conv, b).segs == [] && Parse(conv, b).code == Defect(conv, b) <= 0
  {
  }

  lemma ParsedSendable(conv: U32, b: Bytes, rest: seq<Seg>)
    requires GoesOn(conv, b) && AllSendable(conv, rest)
    ensures AllSendable(conv, [FirstSegment(b)] + rest)
  {
  }

  lemma ParsedOne(conv: U32, b: Bytes, k: nat, rest: seq<Seg>)
    requires |b| >= OVERHEAD && k == OVERHEAD + DecodeHeader(b).len <= |b| && Encode(FirstSegment(b)) == b[..k]
    requires var n := |EncodeAll(rest)|; n <= |b| - k && EncodeAll(rest) == b[k..][..n]
    ensures var all := EncodeAll([FirstSegment(b)] + rest);
            |all| == k + |EncodeAll(rest)| && all == b[..|all|] && b[|all|..] == b[k..][|EncodeAll(rest)|..]
  {
    var n := |EncodeAll(rest)|;
    assert ([FirstSegment(b)] + rest)[1..] == rest;
    assert b[..k] + b[k..][..n] == b[..k + n];
  }

  lemma OnWireFirst(segs: seq<Seg>)
    requires segs != []
    ensures AllOnWire(segs) == [OnWire(segs[0])] + AllOnWire(segs[1..])
  {
  }

  lemma {:induction false} EncodeAllSnoc(segs: seq<Seg>, s: Seg)
    ensures EncodeAll(segs + [s]) == EncodeAll(segs) + Encode(s)
    decreases |segs|
  {
    if segs == [] {
      assert [s][1..] == [];
      assert EncodeAll([s]) == Encode(s) + EncodeAll([s][1..]);
      assert segs + [s] == [s];
    } else {
      assert (segs + [s])[1..] == segs[1..] + [s];
      EncodeAllSnoc(segs[1..], s);
      assert EncodeAll(segs + [s]) == Encode(segs[0]) + (EncodeAll(segs[1..]) + Encode(s));
    }
  }

  // ---------------------------------------------------------------- packing

  /** `ikcp_output` drops a call with nothing to send. */
  function Emit(buffer: Bytes): seq<Bytes> {
    if buffer == [] then [] else [buffer]
  }

  /** The datagrams `ikcp_flush` outputs when it has `buffer` pending and `segs` still to
      encode: a segment that would not fit pushes the buffer out first. */
  function Pack(mtu: nat, buffer: Bytes, segs: seq<Seg>): seq<Bytes>
    decreases |segs|
  {
    if segs == [] then Emit(buffer)
    else
      var e := Encode(segs[0]);
      if |buffer| + |e| > mtu then Emit(buffer) + Pack(mtu, e, segs[1..])
      else Pack(mtu, buffer + e, segs[1..])
  }

  function Concat<T>(parts: seq<seq<T>>): seq<T> {
    if parts == [] then [] else parts[0] + Concat(parts[1..])
  }

  /** All segments found in a list of datagrams, in order. */
  function ParseEach(conv: U32, ds: seq<Bytes>): seq<Seg> {
    if ds == [] then [] else Parse(conv, ds[0]).segs + ParseEach(conv, ds[1..])
  }

  ghost predicate Datagram(conv: U32, mtu: nat, d: Bytes) {
    0 < |d| <= mtu && Parse(conv, d).code == 0
  }

  /** `ds` carries exactly `segs`: every datagram is non-empty, fits the mtu and parses
      cleanly, together they are the encoded segments, and they parse to the segments in
      order. */
  ghost predicate Carries(conv: U32, mtu: nat, ds: seq<Bytes>, segs: seq<Seg>)
  {
    && (forall d :: d in ds ==> Datagram(conv, mtu, d))
    && Concat(ds) == EncodeAll(segs)
    && ParseEach(conv, ds) == AllOnWire(segs)
  }

  /** Packing loses nothing, whatever is already pending in the buffer. */
  lemma {:induction false} PackCorrect(conv: U32, mtu: nat, pending: seq<Seg>, segs: seq<Seg>)
    requires AllSendable(conv, pending) && AllSendable(conv, segs)
    requires |EncodeAll(pending)| <= mtu
    requires forall i :: 0 <= i < |segs| ==> OVERHEAD + |segs[i].data| <= mtu
    ensures Carries(conv, mtu, Pack(mtu, EncodeAll(pending), segs), pending + segs)
    decreases |segs|
  {
    if segs == [] {
      EmitCorrect(conv, mtu, pending);
      assert pending + segs == pending;
    } else if |EncodeAll(pending)| + |Encode(segs[0])| > mtu {
      SingleSegment(segs[0]);
      PackCorrect(conv, mtu, [segs[0]], segs[1..]);
      PackOverflow(conv, mtu, pending, segs);
    } else {
      EncodeAllSnoc(pending, segs[0]);
      PackCorrect(conv, mtu, pending + [segs[0]], segs[1..]);
      assert pending + segs == (pending + [segs[0]]) + segs[1..];
    }
  }

  /** No segment could have gone into the datagram before: for each datagram but the first, its first
      segment would have made the one before it longer than the mtu. */
  ghost predicate Tight(conv: U32, mtu: nat, ds: seq<Bytes>) {
    forall i :: 0 < i < |ds| ==>
      Parse(conv, ds[i]).segs != [] && |ds[i - 1]| + OVERHEAD + |Parse(conv, ds[i]).segs[0].data| > mtu
  }

  /** Packing is greedy, so a flush needs no more datagrams than that. */
  lemma {:induction false} PackTight(conv: U32, mtu: nat, pending: seq<Seg>, segs: seq<Seg>)
    requires AllSendable(conv, pending) && AllSendable(conv, segs)
    ensures Tight(conv, mtu, Pack(mtu, EncodeAll(pending), segs))
    ensures pending != [] ==> Pack(mtu, EncodeAll(pending), segs) != []
    ensures pending != [] ==> StartsWith(conv, Pack(mtu, EncodeAll(pending), segs)[0], OnWire(pending[0]))
    decreases |segs|
  {
    if segs == [] {
      EmittedStarts(conv, pending);
    } else if |EncodeAll(pending)| + |Encode(segs[0])| > mtu {
      SingleSegment(segs[0]);
      PackTight(conv, mtu, [segs[0]], segs[1..]);
      EmittedStarts(conv, pending);
    } else {
      EncodeAllSnoc(pending, segs[0]);
      PackTight(conv, mtu, pending + [segs[0]], segs[1..]);
    }
  }

  ghost predicate StartsWith(conv: U32, d: Bytes, s: Seg) {
    Parse(conv, d).segs != [] && Parse(conv, d).segs[0] == s
  }

  lemma EmittedStarts(conv: U32, pending: seq<Seg>)
    requires AllSendable(conv, pending)
    ensures pending != [] ==> EncodeAll(pending) != [] && StartsWith(conv, EncodeAll(pending), OnWire(pending[0]))
  {
    ParseEncodeAll(conv, pending);
  }

  /** The buffer is pushed out and the segment starts the next one. */
  lemma PackOverflow(conv: U32, mtu: nat, pending: seq<Seg>, segs: seq<Seg>)
    requires AllSendable(conv, pending) && segs != []
    requires |EncodeAll(pending)| <= mtu < |EncodeAll(pending)| + |Encode(segs[0])|
    requires Carries(conv, mtu, Pack(mtu, Encode(segs[0]), segs[1..]), [segs[0]] + segs[1..])
    ensures Carries(conv, mtu, Pack(mtu, EncodeAll(pending), segs), pending + segs)
  {
    var buffer := EncodeAll(pending);
    EmitCorrect(conv, mtu, pending);
    assert [segs[0]] + segs[1..] == segs;
    CarriesAppend(conv, mtu, Emit(buffer), pending, Pack(mtu, Encode(segs[0]), segs[1..]), segs);
  }

  lemma SingleSegment(s: Seg)
    ensures EncodeAll([s]) == Encode(s)
  {
    EncodeAllSnoc([], s);
    assert [] + [s] == [s];
  }

  lemma CarriesAppend(conv: U32, mtu: nat, d1: seq<Bytes>, s1: seq<Seg>, d2: seq<Bytes>, s2: seq<Seg>)
    requires Carries(conv, mtu, d1, s1) && Carries(conv, mtu, d2, s2)
    ensures Carries(conv, mtu, d1 + d2, s1 + s2)
  {
    assert Concat(d1 + d2) == EncodeAll(s1 + s2) by {
      ConcatAppend(d1, d2);
      EncodeAllAppend(s1, s2);
    }
    assert ParseEach(conv, d1 + d2) == AllOnWire(s1 + s2) by {
      ParseEachAppend(conv, d1, d2);
      AllOnWireAppend(s1, s2);
    }
    forall d | d in d1 + d2 ensures Datagram(conv, mtu, d) {
      assert d in d1 || d in d2;
    }
  }

  lemma AllOnWireAppend(a: seq<Seg>, b: seq<Seg>)
    ensures AllOnWire(a) + AllOnWire(b) == AllOnWire(a + b)
  {
  }

  lemma EmitCorrect(conv: U32, mtu: nat, pending: seq<Seg>)
    requires AllSendable(conv, pending) && |EncodeAll(pending)| <= mtu
    ensures Carries(conv, mtu, Emit(EncodeAll(pending)), pending)
  {
    var b := EncodeAll(pending);
    ParseEncodeAll(conv, pending);
    if b != [] {
      assert Concat([b]) == b + Concat([b][1..]);
      assert ParseEach(conv, [b]) == Parse(conv, b).segs + ParseEach(conv, [b][1..]);
    }
  }

  lemma {:induction false} ConcatAppend<T>(a: seq<seq<T>>, b: seq<seq<T>>)
    ensures Concat(a + b) == Concat(a) + Concat(b)
    decreases |a|
  {
    if a == [] {
      assert a + b == b;
    } else {
      assert (a + b)[1..] == a[1..] + b;
      ConcatAppend(a[1..], b);
    }
  }

  lemma {:induction false} ParseEachAppend(conv: U32, a: seq<Bytes>, b: seq<Bytes>)
    ensures ParseEach(conv, a + b) == ParseEach(conv, a) + ParseEach(conv, b)
    decreases |a|
  {
    if a == [] {
      assert a + b == b;
    } else {
      assert (a + b)[1..] == a[1..] + b;
      ParseEachAppend(conv, a[1..], b);
    }
  }

  lemma {:induction false} EncodeAllAppend(a: seq<Seg>, b: seq<Seg>)
    ensures EncodeAll(a + b) == EncodeAll(a) + EncodeAll(b)
    decreases |a|
  {
    if a == [] {
      assert a + b == b;
    } else {
      assert (a + b)[1..] == a[1..] + b;
      EncodeAllAppend(a[1..], b);
    }
  }

  /** Each datagram's own segments are among the segments packed. */
  lemma {:induction false} ParseEachMember(conv: U32, ds: seq<Bytes>, d: Bytes)
    requires d in ds
    ensures forall x :: x in Parse(conv, d).segs ==> x in ParseEach(conv, ds)
    decreases |ds|
  {
    if d != ds[0] {
      assert d in ds[1..];
      ParseEachMember(conv, ds[1..], d);
    }
  }
}
