// Safety of aan over every run: the invariant of the two endpoints and what follows from it.

/** The inductive invariant of the two-endpoint machine. */
module AanSafety {
  import opened AanModel

  // ----- the invariant -----------------------------------------------------

  /** Messages that have been written to some connection, or would have been had there been one. */
  function Sent(q: Queues): int {
    q.lastacked + |q.unacked| - if q.writing then 1 else 0
  }

  /** The client's log: only its last body may be empty, and an empty body means the client has finished. */
  predicate LogInv(q: Queues) {
    && (forall i :: 0 <= i < |q.log| ==> |q.log[i]| <= BUFSIZE)
    && (forall i :: 0 <= i < |q.log| - 1 ==> q.log[i] != [])
    && (q.clientEof <==> q.log != [] && q.log[|q.log| - 1] == [])
    && (q.hand.Some? ==> !q.clientEof)
  }

  /** bs holds the messages of the log numbered from n on. */
  predicate Consecutive(bs: seq<Buf>, n: nat, log: seq<Bytes>) {
    && n + |bs| <= |log|
    && forall i :: 0 <= i < |bs| ==> bs[i].num == n + i && bs[i].body == log[n + i]
  }

  /** unacked and unsent hold the log from lastacked to its end. */
  predicate QueueInv(q: Queues) {
    && Consecutive(q.unacked, q.lastacked, q.log)
    && Consecutive(q.unsent, q.lastacked + |q.unacked|, q.log)
    && q.lastacked + |q.unacked| + |q.unsent| == |q.log|
    && (q.writing ==> q.unacked != [])
  }

  predicate AcksBelow(bs: seq<Buf>, bound: nat) {
    forall i :: 0 <= i < |bs| ==> bs[i].acked <= bound
  }

  /** No buffer acknowledges more than has been accepted. */
  predicate AckInv(q: Queues, inmsg: nat) {
    && AcksBelow(q.empty, inmsg) && AcksBelow(q.unsent, inmsg) && AcksBelow(q.unacked, inmsg)
    && (q.hand.Some? ==> q.hand.value.acked <= inmsg)
  }

  function Count(bs: seq<Buf>, id: nat): nat {
    if bs == [] then 0 else Count(bs[..|bs| - 1], id) + if bs[|bs| - 1].id == id then 1 else 0
  }

  /** In how many of the four places buffer `id` is. */
  function Places(q: Queues, id: nat): nat {
    Count(q.empty, id) + Count(q.unsent, id) + Count(q.unacked, id) +
    if q.hand.Some? && q.hand.value.id == id then 1 else 0
  }

  /** Every buffer of the pool is in exactly one place. */
  ghost predicate PoolInv(q: Queues) {
    && |q.empty| + |q.unsent| + |q.unacked| + (if q.hand.Some? then 1 else 0) == NBUF
    && forall id: nat :: Places(q, id) == if id < NBUF then 1 else 0
  }

  ghost predicate SendInv(q: Queues, inmsg: nat) {
    LogInv(q) && QueueInv(q) && AckInv(q, inmsg) && PoolInv(q)
  }

  /** What the peer has accepted, and has handed to its client but for the body it still holds. */
  predicate DeliveryInv(q: Queues, rx: Intake) {
    && q.lastacked <= rx.inmsg <= Sent(q) && rx.inmsg <= |q.log|
    && rx.delivered + (if rx.pending.Some? then [rx.pending.value] else []) == q.log[..rx.inmsg]
    && (forall i :: 0 <= i < rx.inmsg ==> q.log[i] != [])
    && (rx.stopped ==> q.clientEof && rx.inmsg == |q.log| - 1 && rx.pending.None?)
  }

  /** The data frames are messages of the log with consecutive numbers from `first`, their acks within the bound. */
  predicate InOrder(frames: seq<Frame>, first: nat, log: seq<Bytes>, bound: nat) {
    frames != [] ==>
      match frames[0]
      case Timer(acked) => acked <= bound && InOrder(frames[1..], first, log, bound)
      case Data(num, acked, body) =>
        num == first < |log| && body == log[first] && acked <= bound && InOrder(frames[1..], first + 1, log, bound)
  }

  /** The number after the last data frame. */
  function End(frames: seq<Frame>, first: nat): nat {
    if frames == [] then first else End(frames[1..], if frames[0].Data? then first + 1 else first)
  }

  /** The peer may still read connection e. */
  predicate Readable(rx: Intake, l: Link, e: nat) {
    !rx.stopped && (l.conn == Some(e) || e >= l.joined)
  }

  /** The wire w of connection e: messages in order, up to the last one sent on a connection that is still whole. */
  predicate WireOk(w: Wire, q: Queues, inmsg: nat, l: Link, rx: Intake, pl: Link, e: nat) {
    && InOrder(w.frames, w.first, q.log, inmsg)
    && End(w.frames, w.first) <= Sent(q)
    && (l.conn == Some(e) && !w.cut ==> End(w.frames, w.first) == Sent(q))
    && (e >= l.joined ==> w.frames == [])
    && (Readable(rx, pl, e) ==> w.first <= rx.inmsg)
  }

  /** Every connection from s to p, used, current or still to come. */
  ghost predicate WireInv(s: Side, p: Side) {
    && (s.link.conn.Some? ==> s.link.joined == s.link.conn.value + 1)
    && forall e: nat :: WireOk(WireAt(s.link.out, e), s.q, s.rx.inmsg, s.link, p.rx, p.link, e)
  }

  /** All that is invariant about the messages from s to p and the acks p sends back for them. */
  ghost predicate Half(s: Side, p: Side) {
    SendInv(s.q, s.rx.inmsg) && DeliveryInv(s.q, p.rx) && WireInv(s, p)
  }

  ghost predicate Inv(w: World) {
    Half(w.a, w.b) && Half(w.b, w.a)
  }

  // ----- facts about the pool ----------------------------------------------

  lemma {:induction false} CountConcat(a: seq<Buf>, b: seq<Buf>, id: nat)
    ensures Count(a + b, id) == Count(a, id) + Count(b, id)
  {
    if b == [] {
      assert a + b == a;
    } else {
      var n := |b| - 1;
      assert (a + b)[..|a + b| - 1] == a + b[..n];
      CountConcat(a, b[..n], id);
    }
  }

  lemma CountSplit(bs: seq<Buf>, n: nat, id: nat)
    requires n <= |bs|
    ensures Count(bs, id) == Count(bs[..n], id) + Count(bs[n..], id)
  {
    var a, b := bs[..n], bs[n..];
    assert bs == a + b;
    CountConcat(a, b, id);
  }

  lemma CountFirst(bs: seq<Buf>, id: nat)
    requires bs != []
    ensures Count(bs, id) == Count(bs[1..], id) + if bs[0].id == id then 1 else 0
  {
    CountSplit(bs, 1, id);
    assert bs[..1] == [bs[0]] && [bs[0]][..0] == [];
  }

  lemma CountSnoc(bs: seq<Buf>, b: Buf, id: nat)
    ensures Count(bs + [b], id) == Count(bs, id) + if b.id == id then 1 else 0
  {
    assert (bs + [b])[..|bs|] == bs;
  }

  lemma {:induction false} FreedCount(bs: seq<Buf>, id: nat)
    ensures |Freed(bs)| == |bs| && Count(Freed(bs), id) == Count(bs, id)
  {
    if bs != [] {
      FreedCount(bs[1..], id);
      CountFirst(bs, id);
      CountFirst(Freed(bs), id);
      assert Freed(bs)[1..] == Freed(bs[1..]);
    }
  }

  lemma {:induction false} FreedAcks(bs: seq<Buf>, bound: nat)
    requires AcksBelow(bs, bound)
    ensures AcksBelow(Freed(bs), bound)
  {
    if bs != [] {
      FreedAcks(bs[1..], bound);
    }
  }

  /** Changing the header of the last buffer moves nothing. */
  lemma CountUpdateLast(bs: seq<Buf>, b: Buf, id: nat)
    requires bs != [] && b.id == bs[|bs| - 1].id
    ensures Count(bs[|bs| - 1 := b], id) == Count(bs, id)
  {
    assert bs[|bs| - 1 := b][..|bs| - 1] == bs[..|bs| - 1];
  }

  lemma {:induction false} CountInitial(bs: seq<Buf>, id: nat)
    requires forall i :: 0 <= i < |bs| ==> bs[i].id == i
    ensures Count(bs, id) == if id < |bs| then 1 else 0
  {
    if bs != [] {
      CountInitial(bs[..|bs| - 1], id);
    }
  }

  // ----- facts about wires -------------------------------------------------

  lemma {:induction false} InOrderGrows(frames: seq<Frame>, first: nat, log: seq<Bytes>, bound: nat, log': seq<Bytes>,
                                        bound': nat)
    requires InOrder(frames, first, log, bound) && log <= log' && bound <= bound'
    ensures InOrder(frames, first, log', bound')
  {
    if frames != [] {
      InOrderGrows(frames[1..], if frames[0].Data? then first + 1 else first, log, bound, log', bound');
    }
  }

  /** What may be appended to a wire. */
  predicate Fits(f: Frame, n: int, log: seq<Bytes>, bound: nat) {
    f.acked <= bound && (f.Data? ==> f.num == n < |log| && f.body == log[n])
  }

  lemma {:induction false} InOrderSnoc(frames: seq<Frame>, first: nat, log: seq<Bytes>, bound: nat, f: Frame)
    requires InOrder(frames, first, log, bound) && Fits(f, End(frames, first), log, bound)
    ensures InOrder(frames + [f], first, log, bound)
    ensures End(frames + [f], first) == End(frames, first) + if f.Data? then 1 else 0
  {
    if frames == [] {
      assert frames + [f] == [f];
    } else {
      assert (frames + [f])[1..] == frames[1..] + [f];
      InOrderSnoc(frames[1..], if frames[0].Data? then first + 1 else first, log, bound, f);
    }
  }

  lemma {:induction false} InOrderPrefix(frames: seq<Frame>, first: nat, log: seq<Bytes>, bound: nat, n: nat)
    requires InOrder(frames, first, log, bound) && n <= |frames|
    ensures InOrder(frames[..n], first, log, bound)
    ensures first <= End(frames[..n], first) <= End(frames, first)
  {
    if n > 0 {
      assert frames[..n][1..] == frames[1..][..n - 1];
      InOrderPrefix(frames[1..], if frames[0].Data? then first + 1 else first, log, bound, n - 1);
    } else if frames != [] {
      InOrderPrefix(frames[1..], if frames[0].Data? then first + 1 else first, log, bound, 0);
    }
  }

  lemma {:induction false} EndAtLeast(frames: seq<Frame>, first: nat)
    ensures first <= End(frames, first)
  {
    if frames != [] {
      EndAtLeast(frames[1..], if frames[0].Data? then first + 1 else first);
    }
  }

  lemma {:induction false} FramesInOrder(bs: seq<Buf>, n: nat, log: seq<Bytes>, bound: nat)
    requires Consecutive(bs, n, log) && AcksBelow(bs, bound)
    ensures InOrder(Frames(bs), n, log, bound) && End(Frames(bs), n) == n + |bs|
  {
    if bs != [] {
      var k := |bs| - 1;
      FramesInOrder(bs[..k], n, log, bound);
      InOrderSnoc(Frames(bs[..k]), n, log, bound, FrameOf(bs[k]));
    }
  }

  /** Adding a frame to a wire that is in order. */
  lemma AppendKeeps(w: Wire, f: Frame, log: seq<Bytes>, bound: nat)
    requires InOrder(w.frames, w.first, log, bound) && (!w.cut ==> Fits(f, End(w.frames, w.first), log, bound))
    ensures var w' := Append(w, f);
            && w'.first == w.first && w'.cut == w.cut && InOrder(w'.frames, w'.first, log, bound)
            && End(w'.frames, w'.first) == End(w.frames, w.first) + if f.Data? && !w.cut then 1 else 0
  {
    if !w.cut {
      InOrderSnoc(w.frames, w.first, log, bound, f);
    }
  }

  // ----- the sending half --------------------------------------------------

  lemma TakeBufferKeeps(q: Queues, inmsg: nat)
    requires SendInv(q, inmsg) && q.empty != [] && q.hand.None? && !q.clientEof
    ensures SendInv(TakeBuffer(q), inmsg)
  {
    forall id: nat ensures Places(TakeBuffer(q), id) == Places(q, id) {
      CountFirst(q.empty, id);
    }
  }

  lemma QueueReadKeeps(q: Queues, inmsg: nat, data: Bytes)
    requires SendInv(q, inmsg) && q.hand.Some? && |data| <= BUFSIZE
    ensures SendInv(QueueRead(q, data), inmsg)
  {
    var b := q.hand.value.(num := |q.log|, body := data);
    forall id: nat ensures Places(QueueRead(q, data), id) == Places(q, id) {
      CountSnoc(q.unsent, b, id);
    }
  }

  lemma MoveToUnackedKeeps(q: Queues, inmsg: nat, connected: bool)
    requires SendInv(q, inmsg) && q.unsent != []
    ensures SendInv(MoveToUnacked(q, connected), inmsg)
  {
    forall id: nat ensures Places(MoveToUnacked(q, connected), id) == Places(q, id) {
      CountFirst(q.unsent, id);
      CountSnoc(q.unacked, q.unsent[0], id);
    }
  }

  lemma RefreshedKeeps(q: Queues, inmsg: nat)
    requires SendInv(q, inmsg) && q.unacked != []
    ensures SendInv(Refreshed(q, inmsg), inmsg)
  {
    var n := |q.unacked| - 1;
    forall id: nat ensures Places(Refreshed(q, inmsg), id) == Places(q, id) {
      CountUpdateLast(q.unacked, q.unacked[n].(acked := inmsg), id);
    }
  }

  /** An ack the peer could have sent never runs past what has been sent. */
  lemma AckIsSafe(q: Queues, rx: Intake, acked: nat)
    requires QueueInv(q) && DeliveryInv(q, rx) && acked <= rx.inmsg
    ensures AckLoopSafe(q, acked) && q.lastacked + Acks(q, acked) <= rx.inmsg
    ensures q.writing ==> Acks(q, acked) < |q.unacked|
  {
  }

  lemma AcknowledgePool(q: Queues, acked: nat)
    requires PoolInv(q) && AckLoopSafe(q, acked)
    ensures PoolInv(Acknowledge(q, acked))
  {
    var n := Acks(q, acked);
    forall id: nat ensures Places(Acknowledge(q, acked), id) == Places(q, id) {
      FreedCount(q.unacked[..n], id);
      CountConcat(q.empty, Freed(q.unacked[..n]), id);
      CountSplit(q.unacked, n, id);
    }
    FreedCount(q.unacked[..n], 0);
  }

  lemma AcknowledgeKeeps(q: Queues, inmsg: nat, acked: nat)
    requires SendInv(q, inmsg) && AckLoopSafe(q, acked) && (q.writing ==> Acks(q, acked) < |q.unacked|)
    ensures SendInv(Acknowledge(q, acked), inmsg + 1)
  {
    AcknowledgePool(q, acked);
    FreedAcks(q.unacked[..Acks(q, acked)], inmsg);
  }

  lemma InitialSend()
    ensures SendInv(InitialSide().q, 0)
  {
    var q := InitialSide().q;
    forall id: nat ensures Places(q, id) == if id < NBUF then 1 else 0 {
      CountInitial(q.empty, id);
    }
  }

  // ----- one step, seen from the messages of the endpoint that takes it -----

  /** Changes to the queues alone leave the connections as they were. */
  lemma SameWires(s: Side, q: Queues, p: Side)
    requires WireInv(s, p) && s.q.log <= q.log
    requires Sent(q) >= Sent(s.q) && (s.link.conn.Some? ==> Sent(q) == Sent(s.q))
    ensures WireInv(s.(q := q), p)
  {
    forall e: nat ensures WireOk(WireAt(s.link.out, e), q, s.rx.inmsg, s.link, p.rx, p.link, e) {
      var w := WireAt(s.link.out, e);
      assert WireOk(w, s.q, s.rx.inmsg, s.link, p.rx, p.link, e);
      InOrderGrows(w.frames, w.first, s.q.log, s.rx.inmsg, q.log, s.rx.inmsg);
    }
  }

  lemma QueueReadDelivery(q: Queues, rx: Intake, data: Bytes)
    requires DeliveryInv(q, rx) && q.hand.Some? && !q.clientEof
    ensures DeliveryInv(QueueRead(q, data), rx)
  {
    assert QueueRead(q, data).log[..rx.inmsg] == q.log[..rx.inmsg];
  }

  /** The current connection after the next data frame, or a timer message, has been written to it. */
  lemma SendFrameWires(s: Side, q: Queues, p: Side, f: Frame, ok: bool)
    requires WireInv(s, p) && q.log == s.q.log
    requires Fits(f, Sent(s.q), q.log, s.rx.inmsg)
    requires Sent(q) == Sent(s.q) + if f.Data? then 1 else 0
    ensures WireInv(s.(q := q, link := SendFrame(s.link, f, ok)), p)
  {
    var l := SendFrame(s.link, f, ok);
    forall e: nat ensures WireOk(WireAt(l.out, e), q, s.rx.inmsg, l, p.rx, p.link, e) {
      var w := WireAt(s.link.out, e);
      assert WireOk(w, s.q, s.rx.inmsg, s.link, p.rx, p.link, e);
      if s.link.conn == Some(e) && ok {
        AppendKeeps(w, f, q.log, s.rx.inmsg);
      }
    }
  }

  lemma WriteLastKeeps(s: Side, p: Side, ok: bool)
    requires Half(s, p) && s.q.writing
    ensures Half(WriteLast(s, ok), p)
  {
    var q := Refreshed(s.q, s.rx.inmsg);
    var b := q.unacked[|q.unacked| - 1];
    RefreshedKeeps(s.q, s.rx.inmsg);
    assert b.body == s.q.log[s.q.lastacked + |q.unacked| - 1];
    SendFrameWires(s, q, p, FrameOf(b), ok);
  }

  lemma WriteTimerKeeps(s: Side, p: Side, ok: bool, giveUp: bool)
    requires Half(s, p)
    ensures Half(WriteTimer(s, ok, giveUp), p)
  {
    SendFrameWires(s, s.q, p, Timer(s.rx.inmsg), ok);
    var s1 := s.(link := SendFrame(s.link, Timer(s.rx.inmsg), ok));
    SameLinkWires(s1, s1.link.(failed := s1.link.failed || giveUp), p);
  }

  /** Whether the main loop has given up does not matter to the connections. */
  lemma SameLinkWires(s: Side, l: Link, p: Side)
    requires WireInv(s, p) && (l.out, l.joined) == (s.link.out, s.link.joined)
    requires l.conn == s.link.conn || l.conn.None?
    ensures WireInv(s.(link := l), p)
  {
    forall e: nat ensures WireOk(WireAt(l.out, e), s.q, s.rx.inmsg, l, p.rx, p.link, e) {
      assert WireOk(WireAt(s.link.out, e), s.q, s.rx.inmsg, s.link, p.rx, p.link, e);
    }
  }

  lemma SeveredWires(s: Side, p: Side, e: nat)
    requires WireInv(s, p)
    ensures WireInv(s.(link := Severed(s.link, e)), p)
  {
    var l := Severed(s.link, e);
    forall i: nat ensures WireOk(WireAt(l.out, i), s.q, s.rx.inmsg, l, p.rx, p.link, i) {
      assert WireOk(WireAt(s.link.out, i), s.q, s.rx.inmsg, s.link, p.rx, p.link, i);
    }
  }

  lemma CutWires(s: Side, p: Side, e: nat, left: nat)
    requires WireInv(s, p) && left <= |WireAt(s.link.out, e).frames|
    ensures WireInv(s.(link := s.link.(out := s.link.out[e := CutWire(WireAt(s.link.out, e), left)])), p)
  {
    var out := s.link.out[e := CutWire(WireAt(s.link.out, e), left)];
    var l := s.link.(out := out);
    forall i: nat ensures WireOk(WireAt(out, i), s.q, s.rx.inmsg, l, p.rx, p.link, i) {
      var w := WireAt(s.link.out, i);
      assert WireOk(w, s.q, s.rx.inmsg, s.link, p.rx, p.link, i);
      if i == e {
        InOrderPrefix(w.frames, w.first, s.q.log, s.rx.inmsg, left);
      }
    }
  }

  lemma SynchronizedWires(s: Side, p: Side, e: nat, sent: nat)
    requires Half(s, p) && Enabled(s, p, Reconnect(e, sent))
    ensures WireInv(s.(link := Synchronized(s.link, s.q, e, sent)), p)
  {
    var l := Synchronized(s.link, s.q, e, sent);
    forall i: nat ensures WireOk(WireAt(l.out, i), s.q, s.rx.inmsg, l, p.rx, p.link, i) {
      assert WireOk(WireAt(s.link.out, i), s.q, s.rx.inmsg, s.link, p.rx, p.link, i);
      if i == e {
        FramesInOrder(s.q.unacked[..sent], s.q.lastacked, s.q.log, s.rx.inmsg);
        assert s.q.unacked[..|s.q.unacked|] == s.q.unacked;
      }
    }
  }

  // ----- one step, seen from the peer's messages ----------------------------

  /** A step that receives nothing and opens no connection used up before does not disturb the peer's messages. */
  lemma PeerKeeps(p: Side, s: Side, s': Side)
    requires Half(p, s) && s'.rx == s.rx
    requires forall e: nat :: Readable(s'.rx, s'.link, e) ==> Readable(s.rx, s.link, e)
    ensures Half(p, s')
  {
    forall e: nat ensures WireOk(WireAt(p.link.out, e), p.q, p.rx.inmsg, p.link, s'.rx, s'.link, e) {
      assert WireOk(WireAt(p.link.out, e), p.q, p.rx.inmsg, p.link, s.rx, s.link, e);
    }
  }

  // ----- receiving ---------------------------------------------------------

  /** The ack a frame at the head of a wire carries. */
  lemma HeadFrame(s: Side, p: Side)
    requires Half(p, s) && s.link.conn.Some? && !s.rx.stopped && WireAt(p.link.out, s.link.conn.value).frames != []
    ensures var w := WireAt(p.link.out, s.link.conn.value);
            var f := w.frames[0];
            && f.acked <= p.rx.inmsg && w.first <= s.rx.inmsg
            && (f.Data? ==> f.num == w.first < |p.q.log| && w.first < Sent(p.q) && f.body == p.q.log[f.num])
  {
    var e := s.link.conn.value;
    var w := WireAt(p.link.out, e);
    EndAtLeast(w.frames[1..], w.first + 1);
    assert WireOk(WireAt(p.link.out, e), p.q, p.rx.inmsg, p.link, s.rx, s.link, e);
  }

  /** Neither the wait for an unacked buffer nor the bug message of fromnet can happen. */
  lemma ReceiveIsSafe(s: Side, p: Side)
    requires Half(s, p) && Half(p, s)
    ensures Safe(s, p, Receive)
  {
    if Enabled(s, p, Receive) {
      HeadFrame(s, p);
      AckIsSafe(s.q, p.rx, WireAt(p.link.out, s.link.conn.value).frames[0].acked);
    }
  }

  /** The acks s sends may grow with what it has accepted. */
  lemma TakenWires(s: Side, p: Side, f: Frame)
    requires WireInv(s, p) && (Expected(s.rx, f) ==> AckLoopSafe(s.q, f.acked))
    ensures WireInv(Taken(s, f), p)
  {
    var s' := Taken(s, f);
    forall e: nat ensures WireOk(WireAt(s'.link.out, e), s'.q, s'.rx.inmsg, s'.link, p.rx, p.link, e) {
      var w := WireAt(s.link.out, e);
      assert WireOk(w, s.q, s.rx.inmsg, s.link, p.rx, p.link, e);
      InOrderGrows(w.frames, w.first, s.q.log, s.rx.inmsg, s.q.log, s'.rx.inmsg);
    }
  }

  /** Receiving, as far as the messages s sends are concerned. */
  lemma TakenKeeps(s: Side, p: Side, f: Frame)
    requires Half(s, p) && f.acked <= p.rx.inmsg
    ensures (Expected(s.rx, f) ==> AckLoopSafe(s.q, f.acked)) && Half(Taken(s, f), p)
  {
    AckIsSafe(s.q, p.rx, f.acked);
    TakenWires(s, p, f);
    if Expected(s.rx, f) {
      AcknowledgeKeeps(s.q, s.rx.inmsg, f.acked);
    }
  }

  /** Receiving, as far as the delivery of the peer's messages is concerned. */
  lemma TakenDelivery(s: Side, q: Queues, f: Frame, n: nat)
    requires DeliveryInv(q, s.rx) && LogInv(q) && s.rx.pending.None? && !s.rx.stopped && n <= s.rx.inmsg
    requires f.Data? ==> f.num == n < Sent(q) && n < |q.log| && f.body == q.log[n]
    requires Expected(s.rx, f) ==> AckLoopSafe(s.q, f.acked)
    ensures DeliveryInv(q, Taken(s, f).rx)
    ensures f.Data? && !Taken(s, f).rx.stopped ==> n + 1 <= Taken(s, f).rx.inmsg
  {
    if Expected(s.rx, f) {
      assert q.log[..n + 1] == q.log[..n] + [q.log[n]];
    }
  }

  lemma PoppedWires(p: Side, s: Side, rx: Intake)
    requires WireInv(p, s) && s.link.conn.Some? && !s.rx.stopped && rx.inmsg >= s.rx.inmsg
    requires WireAt(p.link.out, s.link.conn.value).frames != []
    requires rx.stopped || Popped(WireAt(p.link.out, s.link.conn.value)).first <= rx.inmsg
    ensures var e := s.link.conn.value;
            WireInv(p.(link := p.link.(out := p.link.out[e := Popped(WireAt(p.link.out, e))])), s.(rx := rx))
  {
    var c := s.link.conn.value;
    var l := p.link.(out := p.link.out[c := Popped(WireAt(p.link.out, c))]);
    forall e: nat ensures WireOk(WireAt(l.out, e), p.q, p.rx.inmsg, l, rx, s.link, e) {
      assert WireOk(WireAt(p.link.out, e), p.q, p.rx.inmsg, p.link, s.rx, s.link, e);
    }
  }

  lemma ReceiveOwn(s: Side, p: Side)
    requires Half(s, p) && Half(p, s) && Enabled(s, p, Receive)
    ensures Safe(s, p, Receive) && Half(After(s, p, Receive).0, After(s, p, Receive).1)
  {
    HeadFrame(s, p);
    ReceiveIsSafe(s, p);
    TakenKeeps(s, p, WireAt(p.link.out, s.link.conn.value).frames[0]);
    PeerKeeps(After(s, p, Receive).0, p, After(s, p, Receive).1);
  }

  lemma ReceivePeer(s: Side, p: Side)
    requires Half(p, s) && Enabled(s, p, Receive) && Safe(s, p, Receive)
    ensures Half(After(s, p, Receive).1, After(s, p, Receive).0)
  {
    var w := WireAt(p.link.out, s.link.conn.value);
    HeadFrame(s, p);
    TakenDelivery(s, p.q, w.frames[0], w.first);
    var rx := Taken(s, w.frames[0]).rx;
    PoppedWires(p, s, rx);
    PeerSameReader(After(s, p, Receive).1, s.(rx := rx), After(s, p, Receive).0);
  }

  /** Only what an endpoint has received, and where it reads, matters to its peer. */
  lemma PeerSameReader(p: Side, s: Side, s': Side)
    requires WireInv(p, s) && s'.rx == s.rx && s'.link == s.link
    ensures WireInv(p, s')
  {
    forall e: nat ensures WireOk(WireAt(p.link.out, e), p.q, p.rx.inmsg, p.link, s'.rx, s'.link, e) {
      assert WireOk(WireAt(p.link.out, e), p.q, p.rx.inmsg, p.link, s.rx, s.link, e);
    }
  }

  // ----- every step --------------------------------------------------------

  lemma QueueStepKeeps(s: Side, p: Side, step: Step)
    requires Half(s, p) && Enabled(s, p, step) && (step.TakeEmpty? || step.ClientRead? || step.Transmit?)
    ensures Half(After(s, p, step).0, p)
  {
    match step
    case TakeEmpty =>
      TakeBufferKeeps(s.q, s.rx.inmsg);
      SameWires(s, TakeBuffer(s.q), p);
    case ClientRead(data) =>
      QueueReadKeeps(s.q, s.rx.inmsg, data);
      QueueReadDelivery(s.q, p.rx, data);
      SameWires(s, QueueRead(s.q, data), p);
    case Transmit =>
      MoveToUnackedKeeps(s.q, s.rx.inmsg, s.link.conn.Some?);
      SameWires(s, MoveToUnacked(s.q, s.link.conn.Some?), p);
  }

  lemma LinkStepKeeps(s: Side, p: Side, step: Step)
    requires Half(s, p) && Enabled(s, p, step)
    requires step.Write? || step.TimerWrite? || step.Reconnect? || step.Cut?
    ensures Half(After(s, p, step).0, p)
  {
    match step
    case Write(ok) => WriteLastKeeps(s, p, ok);
    case TimerWrite(ok, giveUp) => WriteTimerKeeps(s, p, ok, giveUp);
    case Reconnect(e, sent) => SynchronizedWires(s, p, e, sent);
    case Cut(e, left) => CutWires(s, p, e, left);
  }

  lemma HangupKeeps(s: Side, p: Side)
    requires Half(s, p) && Half(p, s) && Enabled(s, p, Hangup)
    ensures var (s', p') := After(s, p, Hangup); Half(s', p') && Half(p', s')
  {
    var e := s.link.conn.value;
    var (s', p') := After(s, p, Hangup);
    SeveredWires(s, p, e);
    SameLinkWires(s.(link := Severed(s.link, e)), s'.link, p);
    PeerKeeps(s', p, p');
    SeveredWires(p, s, e);
    PeerKeeps(p', s, s');
  }

  lemma DeliverKeeps(s: Side, p: Side)
    requires Half(s, p) && Half(p, s) && Enabled(s, p, Deliver)
    ensures var s' := After(s, p, Deliver).0; Half(s', p) && Half(p, s')
  {
    var s' := After(s, p, Deliver).0;
    forall e: nat ensures WireOk(WireAt(s.link.out, e), s.q, s'.rx.inmsg, s.link, p.rx, p.link, e) {
      assert WireOk(WireAt(s.link.out, e), s.q, s.rx.inmsg, s.link, p.rx, p.link, e);
    }
    forall e: nat ensures WireOk(WireAt(p.link.out, e), p.q, p.rx.inmsg, p.link, s'.rx, s.link, e) {
      assert WireOk(WireAt(p.link.out, e), p.q, p.rx.inmsg, p.link, s.rx, s.link, e);
    }
  }

  /** The invariant is kept by every step, and no step of fromnet goes wrong. */
  lemma StepKeeps(s: Side, p: Side, step: Step)
    requires Half(s, p) && Half(p, s) && Enabled(s, p, step)
    ensures Safe(s, p, step)
    ensures var (s', p') := After(s, p, step); Half(s', p') && Half(p', s')
  {
    match step
    case Receive =>
      ReceiveOwn(s, p);
      ReceivePeer(s, p);
    case Hangup => HangupKeeps(s, p);
    case Deliver => DeliverKeeps(s, p);
    case TakeEmpty =>
      QueueStepKeeps(s, p, step);
      PeerKeeps(p, s, After(s, p, step).0);
    case ClientRead(_) =>
      QueueStepKeeps(s, p, step);
      PeerKeeps(p, s, After(s, p, step).0);
    case Transmit =>
      QueueStepKeeps(s, p, step);
      PeerKeeps(p, s, After(s, p, step).0);
    case Write(_) =>
      LinkStepKeeps(s, p, step);
      PeerKeeps(p, s, After(s, p, step).0);
    case TimerWrite(_, _) =>
      LinkStepKeeps(s, p, step);
      PeerKeeps(p, s, After(s, p, step).0);
    case Reconnect(_, _) =>
      LinkStepKeeps(s, p, step);
      PeerKeeps(p, s, After(s, p, step).0);
    case Cut(_, _) =>
      LinkStepKeeps(s, p, step);
      PeerKeeps(p, s, After(s, p, step).0);
  }

  lemma InitialHolds()
    ensures Inv(World(InitialSide(), InitialSide()))
  {
    InitialSend();
  }

  // ----- runs --------------------------------------------------------------

  /** A run from the start: who takes which step in between is given by `acts`. */
  predicate IsRun(ws: seq<World>, acts: seq<(bool, Step)>) {
    && |ws| == |acts| + 1
    && ws[0] == World(InitialSide(), InitialSide())
    && forall i :: 0 <= i < |acts| ==> Next(ws[i], ws[i + 1], acts[i].0, acts[i].1)
  }

  lemma {:induction false} RunKeeps(ws: seq<World>, acts: seq<(bool, Step)>, i: nat)
    requires IsRun(ws, acts) && i < |ws|
    ensures Inv(ws[i])
  {
    if i == 0 {
      InitialHolds();
    } else {
      RunKeeps(ws, acts, i - 1);
      var w := ws[i - 1];
      assert Next(w, ws[i], acts[i - 1].0, acts[i - 1].1);
      if acts[i - 1].0 {
        StepKeeps(w.a, w.b, acts[i - 1].1);
      } else {
        StepKeeps(w.b, w.a, acts[i - 1].1);
      }
    }
  }

  /** A stream as the bytes of its message bodies. */
  function Flatten(bodies: seq<Bytes>): Bytes {
    if bodies == [] then [] else Flatten(bodies[..|bodies| - 1]) + bodies[|bodies| - 1]
  }

  lemma {:induction false} FlattenPrefix(a: seq<Bytes>, b: seq<Bytes>)
    requires a <= b
    ensures Flatten(a) <= Flatten(b)
  {
    if |a| < |b| {
      assert a <= b[..|b| - 1];
      FlattenPrefix(a, b[..|b| - 1]);
    } else {
      assert a == b;
    }
  }

  /** `to` has been handed nothing but the beginning of what `from` was given, without loss, repetition or disorder. */
  predicate Faithful(from: Side, to: Side) {
    && to.rx.delivered <= from.q.log
    && Flatten(to.rx.delivered) <= Flatten(from.q.log)
    && (to.rx.stopped ==> from.q.clientEof && Flatten(to.rx.delivered) == Flatten(from.q.log))
  }

  lemma HalfIsFaithful(s: Side, p: Side)
    requires Half(s, p)
    ensures Faithful(s, p)
  {
    FlattenPrefix(p.rx.delivered, s.q.log);
    if p.rx.stopped {
      assert s.q.log[..|s.q.log| - 1] == p.rx.delivered;
    }
  }

  /**
   * The reliable-channel property. In every state of every run, with connections cut and remade at will, what each
   * client has been given is a prefix of what the other client supplied; and an endpoint that has stopped on an
   * empty message has passed on the whole stream.
   */
  lemma ReliableDelivery(ws: seq<World>, acts: seq<(bool, Step)>, i: nat)
    requires IsRun(ws, acts) && i < |ws|
    ensures Faithful(ws[i].a, ws[i].b) && Faithful(ws[i].b, ws[i].a)
  {
    RunKeeps(ws, acts, i);
    HalfIsFaithful(ws[i].a, ws[i].b);
    HalfIsFaithful(ws[i].b, ws[i].a);
  }

  /** The bookkeeping of an endpoint: pool, consecutive numbers, and where the peer has got to. */
  ghost predicate Accounted(s: Side, p: Side) {
    && PoolInv(s.q)
    && Consecutive(s.q.unacked, s.q.lastacked, s.q.log)
    && s.q.lastacked <= p.rx.inmsg <= s.q.lastacked + |s.q.unacked|
    && |s.q.log| <= p.rx.inmsg + NBUF
  }

  /** In every state of every run the pool is intact and fromnet can do any step it is offered without a hitch. */
  lemma NeverStuck(ws: seq<World>, acts: seq<(bool, Step)>, i: nat, step: Step)
    requires IsRun(ws, acts) && i < |ws|
    ensures Safe(ws[i].a, ws[i].b, step) && Safe(ws[i].b, ws[i].a, step)
    ensures Accounted(ws[i].a, ws[i].b) && Accounted(ws[i].b, ws[i].a)
  {
    RunKeeps(ws, acts, i);
    ReceiveIsSafe(ws[i].a, ws[i].b);
    ReceiveIsSafe(ws[i].b, ws[i].a);
  }
}
