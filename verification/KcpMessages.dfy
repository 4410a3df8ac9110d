/** Fragmentation and reassembly: `ikcp_send` cuts a message into pieces, and a queue that
    starts with those pieces makes `ikcp_recv` return exactly that message.
 */
module KcpMessages {
  import opened KcpWire
  import opened Kcp

  /** Messages `ikcp_send` takes: at most 255 pieces. */
  predicate Accepted(mss: nat, msg: Bytes)
    requires mss > 0
  {
    FragmentCount(mss, |msg|) <= 255
  }

  function Cut(mss: nat, msg: Bytes): seq<Frag>
    requires mss > 0 && Accepted(mss, msg)
  {
    Fragments(mss, msg, FragmentCount(mss, |msg|))
  }

  lemma FragmentCountEnough(mss: nat, len: nat)
    requires mss > 0
    ensures FragmentCount(mss, len) >= 1 && len <= FragmentCount(mss, len) * mss
  {
    if len > mss {
      var q := (len + mss - 1) / mss;
      assert len + mss - 1 == q * mss + (len + mss - 1) % mss;
      assert q >= 1 by { assert q < 1 ==> q * mss <= 0; }
    } else {
      assert FragmentCount(mss, len) == 1;
    }
  }

  lemma RoomLeft(mss: nat, len: nat, count: nat)
    requires count > 0 && len <= count * mss
    ensures len > mss ==> len - mss <= (count - 1) * mss
    ensures 0 <= (count - 1) * mss
  {
  }

  /** The pieces of a message: numbered down to zero, none longer than `mss`, and together
      the message. */
  ghost predicate PiecesOf(mss: nat, f: seq<Frag>, msg: Bytes) {
    && (forall i :: 0 <= i < |f| ==> f[i].frg == |f| - 1 - i && |f[i].data| <= mss)
    && Payload(f) == msg
  }

  lemma {:induction false} FragmentsCorrect(mss: nat, msg: Bytes, count: nat)
    requires count <= 255 && |msg| <= count * mss
    ensures |Fragments(mss, msg, count)| == count
    ensures PiecesOf(mss, Fragments(mss, msg, count), msg)
    decreases count
  {
    if count > 0 {
      var size := if |msg| > mss then mss else |msg|;
      RoomLeft(mss, |msg|, count);
      FragmentsCorrect(mss, msg[size..], count - 1);
      assert msg == msg[..size] + msg[size..];
    }
  }

  /** Cutting and reassembling is the identity, for every accepted message. */
  lemma CutCorrect(mss: nat, msg: Bytes)
    requires mss > 0 && Accepted(mss, msg)
    ensures 1 <= |Cut(mss, msg)| <= 255
    ensures PiecesOf(mss, Cut(mss, msg), msg)
  {
    FragmentCountEnough(mss, |msg|);
    FragmentsCorrect(mss, msg, FragmentCount(mss, |msg|));
  }

  /** All pieces but the last are full, and only an empty message has an empty piece. */
  ghost predicate Filled(mss: nat, f: seq<Frag>, len: nat) {
    && f != []
    && (forall i :: 0 <= i < |f| - 1 ==> |f[i].data| == mss)
    && (f[|f| - 1].data == [] <==> len == 0)
  }

  /** `count` pieces are just enough for `len` bytes. */
  ghost predicate JustEnough(mss: nat, len: nat, count: nat) {
    len <= count * mss && (if count == 1 then true else count > 1 && (count - 1) * mss < len)
  }

  lemma FragmentCountLeast(mss: nat, len: nat)
    requires mss > 0
    ensures JustEnough(mss, len, FragmentCount(mss, len))
  {
    FragmentCountEnough(mss, len);
    if len > mss {
      var q := (len + mss - 1) / mss;
      assert q * mss <= len + mss - 1;
      assert (q - 1) * mss == q * mss - mss;
      assert q > 1 by { assert q <= 1 ==> q * mss <= mss; }
    }
  }

  lemma {:induction false} FragmentsFilled(mss: nat, msg: Bytes, count: nat)
    requires mss > 0 && 1 <= count <= 255 && JustEnough(mss, |msg|, count)
    ensures Filled(mss, Fragments(mss, msg, count), |msg|)
    decreases count
  {
    var f := Fragments(mss, msg, count);
    if count == 1 {
      assert f == [Frag(0, msg[..|msg|])] + Fragments(mss, msg[|msg|..], 0);
    } else {
      OneFull(mss, |msg|, count);
      FragmentsFilled(mss, msg[mss..], count - 1);
      assert f == [Frag(count - 1, msg[..mss])] + Fragments(mss, msg[mss..], count - 1);
    }
  }

  lemma OneFull(mss: nat, len: nat, count: nat)
    requires mss > 0 && count > 1 && JustEnough(mss, len, count)
    ensures len > mss && JustEnough(mss, len - mss, count - 1)
  {
    assert (count - 1) * mss == count * mss - mss;
    assert (count - 2) * mss == (count - 1) * mss - mss;
    assert (count - 1) * mss >= mss by { assert (count - 2) * mss >= 0; }
  }

  /** A message is cut into as few pieces as possible: all but the last are full, and the last is empty
      only for an empty message. */
  lemma CutFilled(mss: nat, msg: Bytes)
    requires mss > 0 && Accepted(mss, msg)
    ensures Filled(mss, Cut(mss, msg), |msg|)
    ensures JustEnough(mss, |msg|, |Cut(mss, msg)|)
  {
    FragmentCountEnough(mss, |msg|);
    FragmentCountLeast(mss, |msg|);
    FragmentsFilled(mss, msg, FragmentCount(mss, |msg|));
    FragmentsCorrect(mss, msg, FragmentCount(mss, |msg|));
  }

  /** `ikcp_send` accepts exactly the messages that fit 255 full pieces, and refuses the others with -2. */
  lemma SendCodeIff(k: Kcb, msg: Bytes)
    requires k.Configured()
    ensures SendCode(k, msg) == if |msg| <= 255 * k.Mss() then 0 else -2
    ensures Accepted(k.Mss(), msg) <==> |msg| <= 255 * k.Mss()
  {
    var mss, count := k.Mss(), FragmentCount(k.Mss(), |msg|);
    FragmentCountEnough(mss, |msg|);
    FragmentCountLeast(mss, |msg|);
    if count <= 255 {
      Monotone(count, 255, mss);
    } else {
      Monotone(255, count - 1, mss);
    }
  }

  lemma Monotone(a: nat, b: nat, m: nat)
    requires a <= b
    ensures a * m <= b * m
  {
  }

  // ---------------------------------------------------------------- all messages of a sender

  ghost predicate AllAccepted(mss: nat, msgs: seq<Bytes>) {
    mss > 0 && forall i :: 0 <= i < |msgs| ==> Accepted(mss, msgs[i])
  }

  /** The pieces of all messages, in the order they were accepted. */
  ghost function Pieces(mss: nat, msgs: seq<Bytes>): seq<Frag>
    requires AllAccepted(mss, msgs)
  {
    if msgs == [] then [] else Pieces(mss, msgs[..|msgs| - 1]) + Cut(mss, msgs[|msgs| - 1])
  }

  lemma PiecesSnoc(mss: nat, msgs: seq<Bytes>, m: Bytes)
    requires AllAccepted(mss, msgs) && Accepted(mss, m)
    ensures AllAccepted(mss, msgs + [m])
    ensures Pieces(mss, msgs + [m]) == Pieces(mss, msgs) + Cut(mss, m)
  {
    assert (msgs + [m])[..|msgs + [m]| - 1] == msgs;
  }

  lemma {:induction false} PiecesPrefix(mss: nat, msgs: seq<Bytes>, k: nat)
    requires AllAccepted(mss, msgs) && k <= |msgs|
    ensures AllAccepted(mss, msgs[..k])
    ensures Pieces(mss, msgs[..k]) <= Pieces(mss, msgs)
    decreases |msgs|
  {
    if k == |msgs| {
      assert msgs[..k] == msgs;
    } else {
      var front := msgs[..|msgs| - 1];
      PiecesPrefix(mss, front, k);
      assert front[..k] == msgs[..k];
    }
  }

  lemma {:induction false} PiecesShort(mss: nat, msgs: seq<Bytes>)
    requires AllAccepted(mss, msgs)
    ensures forall i :: 0 <= i < |Pieces(mss, msgs)| ==> |Pieces(mss, msgs)[i].data| <= mss
    ensures |Pieces(mss, msgs)| >= |msgs|
    decreases |msgs|
  {
    if msgs != [] {
      PiecesShort(mss, msgs[..|msgs| - 1]);
      CutCorrect(mss, msgs[|msgs| - 1]);
    }
  }

  // ---------------------------------------------------------------- reading a message back

  lemma {:induction false} SpanOfPieces(q: seq<Frag>, count: nat)
    requires 1 <= count <= |q|
    requires forall i :: 0 <= i < count ==> q[i].frg == count - 1 - i
    ensures MessageSpan(q) == count
    decreases count
  {
    if count > 1 {
      SpanOfPieces(q[1..], count - 1);
    }
  }

  lemma SinglePayload(f: Frag)
    ensures Payload([f]) == f.data
  {
    assert [f][1..] == [];
  }

  /** The pieces a read takes: up to and including the first that ends a message, or all. */
  lemma {:induction false} SpanEndsFirst(q: seq<Frag>)
    ensures q != [] ==> MessageSpan(q) >= 1
    ensures forall i :: 0 <= i < MessageSpan(q) - 1 ==> q[i].frg != 0
    ensures MessageSpan(q) < |q| ==> MessageSpan(q) >= 1 && q[MessageSpan(q) - 1].frg == 0
    decreases |q|
  {
    if q != [] && q[0].frg != 0 {
      SpanEndsFirst(q[1..]);
    }
  }

  /** The size of the next message: -1 if and only if nothing is queued or its first piece promises more pieces
      than there are, and else the length of what a read would merge. */
  lemma PeekCodes(q: seq<Frag>)
    ensures PeekSize(q) == if q == [] || |q| <= q[0].frg then -1 else |Payload(q[..MessageSpan(q)])|
  {
    if q != [] && q[0].frg == 0 {
      SinglePayload(q[0]);
      assert q[..1] == [q[0]];
    }
  }

  /** The codes of `ikcp_recv` on any queue, from an honest peer or not: -1 if and only if it is empty, -2 if
      and only if its first piece promises more pieces than there are, -3 if and only if what would be
      merged is longer than the buffer, and else the length of what is merged. */
  lemma RecvCodes(k: Kcb, len: int)
    ensures var q, room := k.rcvQueue, if len < 0 then -len else len;
            && (RecvCode(k, len) == -1 <==> q == [])
            && (RecvCode(k, len) == -2 <==> q != [] && |q| <= q[0].frg)
            && (RecvCode(k, len) == -3 <==> q != [] && |q| > q[0].frg && |RecvData(k)| > room)
            && (RecvCode(k, len) >= 0 <==> q != [] && |q| > q[0].frg && |RecvData(k)| <= room)
            && (RecvCode(k, len) >= 0 ==> RecvCode(k, len) == |RecvData(k)|)
  {
    PeekCodes(k.rcvQueue);
  }

  /** A queue that starts with a whole message yields that message. */
  lemma ReadBack(mss: nat, q: seq<Frag>, msg: Bytes)
    requires mss > 0 && Accepted(mss, msg) && Cut(mss, msg) <= q
    ensures q != [] && MessageSpan(q) == |Cut(mss, msg)|
    ensures Payload(q[..MessageSpan(q)]) == msg && PeekSize(q) == |msg|
  {
    var f := Cut(mss, msg);
    CutCorrect(mss, msg);
    assert forall i :: 0 <= i < |f| ==> q[i] == f[i];
    SpanOfPieces(q, |f|);
    assert q[..|f|] == f;
    if q[0].frg == 0 {
      assert f == [q[0]];
      SinglePayload(q[0]);
    }
  }

  /** A queue that holds only part of a message yields nothing. */
  lemma PartialMessage(mss: nat, q: seq<Frag>, msg: Bytes)
    requires mss > 0 && Accepted(mss, msg) && q < Cut(mss, msg) && q != []
    ensures PeekSize(q) == -1
  {
    var f := Cut(mss, msg);
    CutCorrect(mss, msg);
    assert q[0] == f[0];
  }

  /** Position `k` of the message list starts at `|Pieces(msgs[..k])|`; a non-empty queue
      starting there belongs to message `k`. */
  lemma QueueAtBoundary(mss: nat, msgs: seq<Bytes>, k: nat, to: nat)
    requires AllAccepted(mss, msgs) && k <= |msgs|
    requires AllAccepted(mss, msgs[..k])
    requires |Pieces(mss, msgs[..k])| < to <= |Pieces(mss, msgs)|
    ensures k < |msgs|
    ensures var q := Pieces(mss, msgs)[|Pieces(mss, msgs[..k])|..to];
            var f := Cut(mss, msgs[k]);
            q < f || f <= q
    ensures AllAccepted(mss, msgs[..k + 1])
    ensures |Pieces(mss, msgs[..k + 1])| == |Pieces(mss, msgs[..k])| + |Cut(mss, msgs[k])|
  {
    assert msgs[..|msgs|] == msgs;
    assert k != |msgs|;
    assert msgs[..k + 1] == msgs[..k] + [msgs[k]];
    PiecesSnoc(mss, msgs[..k], msgs[k]);
    PiecesPrefix(mss, msgs, k + 1);
    SliceOfPrefix(Pieces(mss, msgs), Pieces(mss, msgs[..k]), Cut(mss, msgs[k]), to);
  }

  lemma SliceOfPrefix(S: seq<Frag>, before: seq<Frag>, f: seq<Frag>, to: nat)
    requires before + f <= S && |before| < to <= |S|
    ensures var q := S[|before|..to]; q < f || f <= q
  {
    var q := S[|before|..to];
    assert forall i :: 0 <= i < |f| ==> S[|before| + i] == (before + f)[|before| + i] == f[i];
    assert forall i :: 0 <= i < |q| ==> q[i] == S[|before| + i];
  }
}
