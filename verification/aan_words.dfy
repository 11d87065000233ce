// The 32-bit comparisons of aan: when they agree with the unbounded counters of the model.

/** Message numbers in flight stay within a window, so that comparing them modulo 2^32 loses nothing. */
module AanWords {
  import opened AanModel
  import opened AanSafety
  import opened Le32

  const HALF := 0x8000_0000

  /** What a ulong holds of a counter. */
  function Word(n: nat): nat {
    n % WORD
  }

  /** A ulong difference read as a long. */
  function SignedDifference(a: nat, b: nat): int {
    var d := (Word(a) - Word(b)) % WORD;
    if d >= HALF then d - WORD else d
  }

  // ----- the window --------------------------------------------------------

  /** A connection whose frames, present or to come, p has still to read. */
  predicate Live(s: Side, e: nat) {
    s.link.conn == Some(e) || WireAt(s.link.out, e).frames != []
  }

  /** The wire of connection e begins at lastacked until p joins it, and within the window from then on. */
  predicate WindowAt(s: Side, p: Side, e: nat) {
    Live(s, e) ==>
      var first := WireAt(s.link.out, e).first;
      && (e >= p.link.joined ==> first == s.q.lastacked)
      && (p.link.conn == Some(e) ==> p.rx.inmsg <= first + NBUF)
  }

  ghost predicate Window(s: Side, p: Side) {
    forall e: nat :: WindowAt(s, p, e)
  }

  lemma InWindow(s: Side, p: Side)
    requires Half(s, p)
    ensures p.rx.inmsg <= s.q.lastacked + NBUF
  {
  }

  /** A new connection begins at lastacked. */
  lemma ReconnectWindow(s: Side, p: Side, c: nat, sent: nat)
    requires Half(s, p) && Half(p, s) && Enabled(s, p, Reconnect(c, sent)) && Window(s, p)
    ensures var (s', p') := After(s, p, Reconnect(c, sent)); Window(s', p')
  {
    var (s', p') := After(s, p, Reconnect(c, sent));
    InWindow(s, p);
    forall e: nat ensures WindowAt(s', p', e) {
      assert WindowAt(s, p, e);
    }
  }

  /** A write adds a frame to the current connection, or cuts it. */
  lemma SendFrameKeeps(l: Link, f: Frame, ok: bool, e: nat)
    ensures var l' := SendFrame(l, f, ok);
            && l'.conn == l.conn && l'.joined == l.joined && WireAt(l'.out, e).first == WireAt(l.out, e).first
            && (WireAt(l'.out, e).frames != [] ==> WireAt(l.out, e).frames != [] || l.conn == Some(e))
  {
  }

  lemma LastWriteWindow(s: Side, p: Side, ok: bool)
    requires s.q.unacked != [] && Window(s, p)
    ensures Window(WriteLast(s, ok), p)
  {
    var q := Refreshed(s.q, s.rx.inmsg);
    forall e: nat ensures WindowAt(WriteLast(s, ok), p, e) {
      SendFrameKeeps(s.link, FrameOf(q.unacked[|q.unacked| - 1]), ok, e);
      assert WindowAt(s, p, e);
    }
  }

  lemma TimerWriteWindow(s: Side, p: Side, ok: bool, giveUp: bool)
    requires Window(s, p)
    ensures Window(WriteTimer(s, ok, giveUp), p)
  {
    forall e: nat ensures WindowAt(WriteTimer(s, ok, giveUp), p, e) {
      SendFrameKeeps(s.link, Timer(s.rx.inmsg), ok, e);
      assert WindowAt(s, p, e);
    }
  }

  /** Steps of s other than receiving. */
  lemma OwnWindow(s: Side, p: Side, step: Step)
    requires Half(s, p) && Half(p, s) && Enabled(s, p, step) && !step.Receive? && Window(s, p)
    ensures var (s', p') := After(s, p, step); Window(s', p')
  {
    match step
    case Reconnect(c, sent) => ReconnectWindow(s, p, c, sent);
    case Write(ok) => LastWriteWindow(s, p, ok);
    case TimerWrite(ok, giveUp) => TimerWriteWindow(s, p, ok, giveUp);
    case _ => RestWindow(s, p, step);
  }

  lemma RestWindow(s: Side, p: Side, step: Step)
    requires Half(s, p) && Half(p, s) && Enabled(s, p, step) && Window(s, p)
    requires !step.Receive? && !step.Reconnect? && !step.Write? && !step.TimerWrite?
    ensures var (s', p') := After(s, p, step); Window(s', p')
  {
    var (s', p') := After(s, p, step);
    forall e: nat ensures WindowAt(s', p', e) {
      assert WindowAt(s, p, e);
    }
  }

  lemma ReconnectPeerWindow(s: Side, p: Side, c: nat, sent: nat)
    requires Half(s, p) && Half(p, s) && Enabled(s, p, Reconnect(c, sent)) && Window(p, s)
    ensures var (s', p') := After(s, p, Reconnect(c, sent)); Window(p', s')
  {
    var (s', p') := After(s, p, Reconnect(c, sent));
    InWindow(p, s);
    forall e: nat ensures WindowAt(p', s', e) {
      assert WindowAt(p, s, e);
    }
  }

  /** Steps of s other than receiving, as far as the other direction is concerned. */
  lemma PeerWindow(s: Side, p: Side, step: Step)
    requires Half(s, p) && Half(p, s) && Enabled(s, p, step) && !step.Receive? && Window(p, s)
    ensures var (s', p') := After(s, p, step); Window(p', s')
  {
    if step.Reconnect? {
      ReconnectPeerWindow(s, p, step.e, step.sent);
    } else {
      var (s', p') := After(s, p, step);
      assert s'.link.joined == s.link.joined && s'.rx.inmsg == s.rx.inmsg;
      assert s'.link.conn == s.link.conn || s'.link.conn == None;
      assert p'.q == p.q && (p'.link.conn == p.link.conn);
      forall e: nat ensures WindowAt(p', s', e) {
        assert WindowAt(p, s, e);
      }
    }
  }

  /** An ack can only arrive on a connection both have joined, so it moves the start of none still to be joined. */
  lemma ReceiveOwnWindow(s: Side, p: Side)
    requires Half(s, p) && Half(p, s) && Enabled(s, p, Receive) && Window(s, p)
    ensures Safe(s, p, Receive)
    ensures var (s', p') := After(s, p, Receive); Window(s', p')
  {
    ReceiveIsSafe(s, p);
    var (s', p') := After(s, p, Receive);
    var c := s.link.conn.value;
    assert WireOk(WireAt(p.link.out, c), p.q, p.rx.inmsg, p.link, s.rx, s.link, c);
    forall e: nat ensures WindowAt(s', p', e) {
      assert WindowAt(s, p, e);
      assert WireOk(WireAt(s.link.out, e), s.q, s.rx.inmsg, s.link, p.rx, p.link, e);
    }
  }

  lemma ReceivePeerWindow(s: Side, p: Side)
    requires Half(s, p) && Half(p, s) && Enabled(s, p, Receive) && Safe(s, p, Receive) && Window(p, s)
    ensures var (s', p') := After(s, p, Receive); Window(p', s')
  {
    var (s', p') := After(s, p, Receive);
    HeadFrame(s, p);
    forall e: nat ensures WindowAt(p', s', e) {
      assert WindowAt(p, s, e);
    }
  }

  lemma {:induction false} RunWindow(ws: seq<World>, acts: seq<(bool, Step)>, i: nat)
    requires IsRun(ws, acts) && i < |ws|
    ensures Window(ws[i].a, ws[i].b) && Window(ws[i].b, ws[i].a)
  {
    if i > 0 {
      RunWindow(ws, acts, i - 1);
      RunKeeps(ws, acts, i - 1);
      var w, step := ws[i - 1], acts[i - 1].1;
      assert Next(w, ws[i], acts[i - 1].0, step);
      if acts[i - 1].0 {
        StepWindow(w.a, w.b, step);
      } else {
        StepWindow(w.b, w.a, step);
      }
    }
  }

  lemma StepWindow(s: Side, p: Side, step: Step)
    requires Half(s, p) && Half(p, s) && Enabled(s, p, step) && Safe(s, p, step) && Window(s, p) && Window(p, s)
    ensures var (s', p') := After(s, p, step); Window(s', p') && Window(p', s')
  {
    if step.Receive? {
      ReceiveOwnWindow(s, p);
      ReceivePeerWindow(s, p);
    } else {
      OwnWindow(s, p, step);
      PeerWindow(s, p, step);
    }
  }

  // ----- the comparisons ---------------------------------------------------

  lemma CloseWords(a: nat, b: nat)
    requires -WORD < a - b < WORD
    ensures Word(a) == Word(b) <==> a == b
  {
  }

  /** The endpoint in question, and its peer. */
  function Self(w: World, first: bool): Side {
    if first then w.a else w.b
  }

  function Peer(w: World, first: bool): Side {
    if first then w.b else w.a
  }

  /** The frame that the endpoint reads next. */
  function Due(w: World, first: bool): Frame
    requires Enabled(Self(w, first), Peer(w, first), Receive)
  {
    WireAt(Peer(w, first).link.out, Self(w, first).link.conn.value).frames[0]
  }

  /**
   * In every state of every run, comparing a data frame's 32-bit number with the 32-bit inmsg tells whether it is
   * the message that is due.
   */
  lemma NumberTestAgrees(ws: seq<World>, acts: seq<(bool, Step)>, i: nat, first: bool)
    requires IsRun(ws, acts) && i < |ws|
    requires Enabled(Self(ws[i], first), Peer(ws[i], first), Receive) && Due(ws[i], first).Data?
    ensures var num, inmsg := Due(ws[i], first).num, Self(ws[i], first).rx.inmsg;
            Word(num) == Word(inmsg) <==> num == inmsg
  {
    var s, p := Self(ws[i], first), Peer(ws[i], first);
    RunKeeps(ws, acts, i);
    RunWindow(ws, acts, i);
    HeadFrame(s, p);
    assert WindowAt(p, s, s.link.conn.value);
    CloseWords(Due(ws[i], first).num, s.rx.inmsg);
  }

  /** The ack test, given that an ack never runs more than a pool ahead: how stale an ack it bears. */
  lemma AckTestAgrees(acked: nat, lastacked: nat)
    requires acked <= lastacked + NBUF
    ensures (SignedDifference(acked, lastacked) > 0 <==> acked > lastacked) <==>
            acked > lastacked || (lastacked - acked) % WORD <= HALF
  {
    if acked > lastacked {
      var d := acked - lastacked;
      assert (Word(acked) - Word(lastacked)) % WORD == d % WORD == d by { DifferenceModulo(acked, lastacked, d); }
    } else {
      var d: int := lastacked - acked;
      DifferenceModulo(acked, lastacked, -d);
      NegatedModulo(d);
    }
  }

  lemma DifferenceModulo(a: nat, b: nat, d: int)
    requires d == a - b
    ensures (Word(a) - Word(b)) % WORD == d % WORD
  {
    var k: int := a / WORD;
    k := k - b / WORD;
    assert d == (Word(a) - Word(b)) + k * WORD;
  }

  lemma NegatedModulo(d: int)
    requires d >= 0
    ensures (-d) % WORD == if d % WORD == 0 then 0 else WORD - d % WORD
  {
    var q: int, r: int := d / WORD, d % WORD;
    assert -d == (-q) * WORD - r;
  }

  /**
   * In every state of every run in which fewer than 2^31 messages have been acknowledged, the 32-bit ack test on the
   * frame that is due agrees with the unbounded one, however stale the ack a retransmitted buffer carries.
   */
  lemma AckTestInRuns(ws: seq<World>, acts: seq<(bool, Step)>, i: nat, first: bool)
    requires IsRun(ws, acts) && i < |ws|
    requires Enabled(Self(ws[i], first), Peer(ws[i], first), Receive) && Self(ws[i], first).q.lastacked <= HALF
    ensures var acked, lastacked := Due(ws[i], first).acked, Self(ws[i], first).q.lastacked;
            SignedDifference(acked, lastacked) > 0 <==> acked > lastacked
  {
    var s, p := Self(ws[i], first), Peer(ws[i], first);
    RunKeeps(ws, acts, i);
    HeadFrame(s, p);
    AckTestAgrees(Due(ws[i], first).acked, s.q.lastacked);
  }

  /**
   * The message that ends a stream has no body, as a timer message has none, and is told from one by its number not
   * being 2^32 - 1: in every run this works unless the stream is a multiple of 2^32 messages long.
   */
  lemma EndTestInRuns(ws: seq<World>, acts: seq<(bool, Step)>, i: nat, first: bool)
    requires IsRun(ws, acts) && i < |ws|
    requires Enabled(Self(ws[i], first), Peer(ws[i], first), Receive)
    requires Due(ws[i], first).Data? && Due(ws[i], first).body == []
    ensures Peer(ws[i], first).q.clientEof
    ensures Word(Due(ws[i], first).num) == WORD - 1 <==> |Peer(ws[i], first).q.log| % WORD == 0
  {
    var s, p := Self(ws[i], first), Peer(ws[i], first);
    RunKeeps(ws, acts, i);
    HeadFrame(s, p);
    assert Due(ws[i], first).num + 1 == |p.q.log|;
  }
}
