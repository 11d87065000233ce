// What aan's endpoints can still do: from every state a new connection brings everything across.

/** Continuations of runs of the machine of sys/src/cmd/aan.c, for an endpoint s and its peer p. */
module AanProgress {
  import opened AanModel
  import opened AanSafety
  import opened AanWords

  // ----- continuations ----------------------------------------------------------------

  /** These steps, of s or of p, lead from one state of the two to another. */
  predicate Runs(s: Side, p: Side, acts: seq<(bool, Step)>, s': Side, p': Side)
    decreases |acts|
  {
    if acts == [] then (s', p') == (s, p)
    else
      var (own, step) := acts[0];
      if own then
        Enabled(s, p, step) && Safe(s, p, step) &&
        Runs(After(s, p, step).0, After(s, p, step).1, acts[1..], s', p')
      else
        Enabled(p, s, step) && Safe(p, s, step) &&
        Runs(After(p, s, step).1, After(p, s, step).0, acts[1..], s', p')
  }

  ghost predicate Leads(s: Side, p: Side, s': Side, p': Side) {
    exists acts :: Runs(s, p, acts, s', p')
  }

  /** A state that two endpoints come to from the start. */
  ghost predicate Reached(s: Side, p: Side) {
    Leads(InitialSide(), InitialSide(), s, p)
  }

  lemma LeadsNowhere(s: Side, p: Side)
    ensures Leads(s, p, s, p)
  {
    assert Runs(s, p, [], s, p);
  }

  lemma {:induction false} RunsConcat(s: Side, p: Side, a: seq<(bool, Step)>, t: Side, u: Side, b: seq<(bool, Step)>,
                                      s': Side, p': Side)
    requires Runs(s, p, a, t, u) && Runs(t, u, b, s', p')
    ensures Runs(s, p, a + b, s', p')
    decreases |a|
  {
    if a == [] {
      assert a + b == b;
    } else {
      assert (a + b)[1..] == a[1..] + b;
      var (own, step) := a[0];
      if own {
        RunsConcat(After(s, p, step).0, After(s, p, step).1, a[1..], t, u, b, s', p');
      } else {
        RunsConcat(After(p, s, step).1, After(p, s, step).0, a[1..], t, u, b, s', p');
      }
    }
  }

  lemma LeadsOn(s: Side, p: Side, t: Side, u: Side, s': Side, p': Side)
    requires Leads(s, p, t, u) && Leads(t, u, s', p')
    ensures Leads(s, p, s', p')
  {
    var a :| Runs(s, p, a, t, u);
    var b :| Runs(t, u, b, s', p');
    RunsConcat(s, p, a, t, u, b, s', p');
  }

  /** The same steps with the endpoints exchanged. */
  function Exchanged(acts: seq<(bool, Step)>): seq<(bool, Step)> {
    if acts == [] then [] else [(!acts[0].0, acts[0].1)] + Exchanged(acts[1..])
  }

  lemma {:induction false} RunsExchanged(s: Side, p: Side, acts: seq<(bool, Step)>, s': Side, p': Side)
    requires Runs(s, p, acts, s', p')
    ensures Runs(p, s, Exchanged(acts), p', s')
    decreases |acts|
  {
    if acts != [] {
      var (own, step) := acts[0];
      assert Exchanged(acts)[1..] == Exchanged(acts[1..]);
      if own {
        RunsExchanged(After(s, p, step).0, After(s, p, step).1, acts[1..], s', p');
      } else {
        RunsExchanged(After(p, s, step).1, After(p, s, step).0, acts[1..], s', p');
      }
    }
  }

  lemma LeadsExchanged(s: Side, p: Side, s': Side, p': Side)
    requires Leads(s, p, s', p')
    ensures Leads(p, s, p', s')
  {
    var acts :| Runs(s, p, acts, s', p');
    RunsExchanged(s, p, acts, s', p');
  }

  lemma {:induction false} RunsHold(s: Side, p: Side, acts: seq<(bool, Step)>, s': Side, p': Side)
    requires Half(s, p) && Half(p, s) && Runs(s, p, acts, s', p')
    ensures Half(s', p') && Half(p', s')
    decreases |acts|
  {
    if acts != [] {
      var (own, step) := acts[0];
      if own {
        StepKeeps(s, p, step);
        RunsHold(After(s, p, step).0, After(s, p, step).1, acts[1..], s', p');
      } else {
        StepKeeps(p, s, step);
        RunsHold(After(p, s, step).1, After(p, s, step).0, acts[1..], s', p');
      }
    }
  }

  lemma ReachedHolds(s: Side, p: Side)
    requires Reached(s, p)
    ensures Half(s, p) && Half(p, s)
  {
    var acts :| Runs(InitialSide(), InitialSide(), acts, s, p);
    InitialHolds();
    RunsHold(InitialSide(), InitialSide(), acts, s, p);
  }

  /** A step of s. */
  lemma Own(s: Side, p: Side, step: Step)
    requires Reached(s, p) && Enabled(s, p, step)
    ensures Safe(s, p, step)
    ensures var (s', p') := After(s, p, step); Leads(s, p, s', p') && Reached(s', p')
  {
    ReachedHolds(s, p);
    StepKeeps(s, p, step);
    var (s', p') := After(s, p, step);
    assert Runs(s', p', [(true, step)][1..], s', p');
    assert Runs(s, p, [(true, step)], s', p');
    LeadsOn(InitialSide(), InitialSide(), s, p, s', p');
  }

  lemma ReachedExchanged(s: Side, p: Side)
    requires Reached(s, p)
    ensures Reached(p, s)
  {
    LeadsExchanged(InitialSide(), InitialSide(), s, p);
  }

  /** A step of p. */
  lemma Other(s: Side, p: Side, step: Step)
    requires Reached(s, p) && Enabled(p, s, step)
    ensures Safe(p, s, step)
    ensures var (p', s') := After(p, s, step); Leads(s, p, s', p') && Reached(s', p')
  {
    ReachedExchanged(s, p);
    Own(p, s, step);
    var (p', s') := After(p, s, step);
    LeadsExchanged(p, s, p', s');
    ReachedExchanged(p', s');
  }

  /** A step of s at the end of others. */
  lemma ThenOwn(s: Side, p: Side, t: Side, u: Side, step: Step)
    requires Leads(s, p, t, u) && Reached(t, u) && Enabled(t, u, step)
    ensures Safe(t, u, step)
    ensures var (t', u') := After(t, u, step); Leads(s, p, t', u') && Reached(t', u')
  {
    Own(t, u, step);
    var (t', u') := After(t, u, step);
    LeadsOn(s, p, t, u, t', u');
  }

  lemma ThenOther(s: Side, p: Side, t: Side, u: Side, step: Step)
    requires Leads(s, p, t, u) && Reached(t, u) && Enabled(u, t, step)
    ensures Safe(u, t, step)
    ensures var (u', t') := After(u, t, step); Leads(s, p, t', u') && Reached(t', u')
  {
    Other(t, u, step);
    var (u', t') := After(u, t, step);
    LeadsOn(s, p, t, u, t', u');
  }

  // ----- both sides open a new connection -----------------------------------------------

  predicate Working(s: Side) {
    !s.done && !s.rx.stopped
  }

  /** Nothing is held halfway, and there is no connection. */
  predicate Resting(s: Side) {
    Working(s) && s.rx.pending.None? && !s.q.writing && s.link.conn.None?
  }

  predicate SameStream(s: Side, s': Side) {
    s'.q.log == s.q.log && s'.q.clientEof == s.q.clientEof
  }

  /** The same messages, as many of them waiting. */
  predicate SameQueue(s: Side, s': Side) {
    SameStream(s, s') && s'.q.unsent == s.q.unsent
  }

  /** A write under way fails. */
  lemma EndWrite(s: Side, p: Side) returns (s': Side)
    requires Reached(s, p) && Working(s)
    ensures Leads(s, p, s', p) && Reached(s', p) && Working(s') && SameQueue(s, s') && !s'.q.writing
  {
    LeadsNowhere(s, p);
    s' := s;
    if s.q.writing {
      ReachedHolds(s, p);
      Own(s, p, Write(false));
      s' := WriteLast(s, false);
    }
  }

  /** What is held is delivered. */
  lemma EndDelivery(s: Side, p: Side) returns (s': Side)
    requires Reached(s, p)
    ensures Leads(s, p, s', p) && Reached(s', p) && s'.rx.pending.None?
    ensures (s'.q, s'.link, s'.done, s'.rx.stopped, s'.rx.inmsg) == (s.q, s.link, s.done, s.rx.stopped, s.rx.inmsg)
  {
    LeadsNowhere(s, p);
    s' := s;
    if s.rx.pending.Some? {
      Own(s, p, Deliver);
      s' := After(s, p, Deliver).0;
    }
  }

  /** The connection is given up. */
  lemma EndConnection(s: Side, p: Side) returns (s': Side, p': Side)
    requires Reached(s, p)
    ensures Leads(s, p, s', p') && Reached(s', p') && s'.link.conn.None?
    ensures (s'.q, s'.rx, s'.done) == (s.q, s.rx, s.done)
    ensures (p'.q, p'.rx, p'.done, p'.link.conn) == (p.q, p.rx, p.done, p.link.conn)
  {
    LeadsNowhere(s, p);
    s', p' := s, p;
    if s.link.conn.Some? {
      Own(s, p, Hangup);
      s', p' := After(s, p, Hangup).0, After(s, p, Hangup).1;
    }
  }

  lemma Rest(s: Side, p: Side) returns (s': Side, p': Side)
    requires Reached(s, p) && Working(s)
    ensures Leads(s, p, s', p') && Reached(s', p') && Resting(s') && SameQueue(s, s')
    ensures (p'.q, p'.rx, p'.done, p'.link.conn) == (p.q, p.rx, p.done, p.link.conn)
  {
    var t := EndWrite(s, p);
    var u := EndDelivery(t, p);
    LeadsOn(s, p, t, p, u, p);
    s', p' := EndConnection(u, p);
    LeadsOn(s, p, u, p, s', p');
  }

  /** A number beyond all of these. */
  lemma {:induction false} Beyond(s: set<nat>) returns (n: nat)
    ensures forall k :: k in s ==> k < n
    decreases |s|
  {
    n := 0;
    if s != {} {
      var k :| k in s;
      var m := Beyond(s - {k});
      n := if m > k then m else k + 1;
      assert forall i :: i in s ==> i == k || i in s - {k};
    }
  }

  /** Connection e is open on both sides and whole, and nothing is held halfway. */
  predicate Joined(s: Side, p: Side, e: nat) {
    Open(s, e) && Open(p, e)
  }

  predicate Open(s: Side, e: nat) {
    && !s.rx.stopped && s.rx.pending.None? && !s.q.writing && s.link.conn == Some(e) && !s.link.failed
    && !WireAt(s.link.out, e).cut
  }

  lemma Rejoin(s: Side, p: Side) returns (s': Side, p': Side, e: nat)
    requires Reached(s, p) && Working(s) && Working(p)
    ensures Leads(s, p, s', p') && Reached(s', p') && Joined(s', p', e) && SameQueue(s, s') && SameQueue(p, p')
  {
    var t, u := Rest(s, p);
    ReachedExchanged(t, u);
    var u', t' := Rest(u, t);
    LeadsExchanged(u, t, u', t');
    ReachedExchanged(u', t');
    LeadsOn(s, p, t, u, t', u');
    var m := Beyond(t'.link.out.Keys);
    var n := Beyond(u'.link.out.Keys);
    e := m + n + t'.link.joined + u'.link.joined;
    s', p' := OpenBoth(s, p, t', u', e);
  }

  /** Both endpoints at rest take up connection e, which neither has used. */
  lemma OpenBoth(s: Side, p: Side, t: Side, u: Side, e: nat) returns (s': Side, p': Side)
    requires Leads(s, p, t, u) && Reached(t, u) && Resting(t) && Resting(u)
    requires e !in t.link.out && e !in u.link.out && e >= t.link.joined && e >= u.link.joined
    ensures Leads(s, p, s', p') && Reached(s', p') && Joined(s', p', e) && SameQueue(t, s') && SameQueue(u, p')
  {
    ThenOwn(s, p, t, u, Reconnect(e, |t.q.unacked|));
    s' := After(t, u, Reconnect(e, |t.q.unacked|)).0;
    ThenOther(s, p, s', u, Reconnect(e, |u.q.unacked|));
    p' := After(u, s', Reconnect(e, |u.q.unacked|)).0;
  }

  // ----- everything is sent and read ----------------------------------------------------

  /** The first message that waits is written. */
  lemma WriteOne(s: Side, p: Side, e: nat) returns (s': Side)
    requires Reached(s, p) && Open(s, e) && s.q.unsent != []
    ensures Leads(s, p, s', p) && Reached(s', p) && Open(s', e) && SameStream(s, s') && s'.rx == s.rx
    ensures s'.q.unsent == s.q.unsent[1..]
    ensures WireAt(s'.link.out, e).frames == WireAt(s.link.out, e).frames +
                                             [Data(s.q.unsent[0].num, s.rx.inmsg, s.q.unsent[0].body)]
  {
    LeadsNowhere(s, p);
    ThenOwn(s, p, s, p, Transmit);
    var t := After(s, p, Transmit).0;
    ThenOwn(s, p, t, p, Write(true));
    s' := After(t, p, Write(true)).0;
  }

  lemma {:induction false} Flush(s: Side, p: Side, e: nat) returns (s': Side)
    requires Reached(s, p) && Open(s, e)
    ensures Leads(s, p, s', p) && Reached(s', p) && Open(s', e) && SameStream(s, s') && s'.rx == s.rx
    ensures s'.q.unsent == []
    decreases |s.q.unsent|
  {
    LeadsNowhere(s, p);
    s' := s;
    if s.q.unsent != [] {
      var t := WriteOne(s, p, e);
      s' := Flush(t, p, e);
      LeadsOn(s, p, t, p, s', p);
    }
  }

  /** A frame from s is read by p, and its body delivered if it is accepted. */
  lemma Accept(s: Side, p: Side, e: nat) returns (s': Side, p': Side)
    requires Reached(s, p) && Joined(s, p, e) && WireAt(s.link.out, e).frames != []
    ensures Leads(s, p, s', p') && Reached(s', p') && (s'.q, s'.rx) == (s.q, s.rx) && Open(s', e)
    ensures WireAt(s'.link.out, e) == Popped(WireAt(s.link.out, e))
    ensures (p'.rx.stopped || Open(p', e)) && p'.rx.pending.None? && SameQueue(p, p')
    ensures var f := WireAt(s.link.out, e).frames[0];
            && (Expected(p.rx, f) ==> AckLoopSafe(p.q, f.acked))
            && p'.q == Taken(p, f).q && p'.rx.inmsg == Taken(p, f).rx.inmsg && p'.rx.stopped == Taken(p, f).rx.stopped
  {
    LeadsNowhere(s, p);
    ThenOther(s, p, s, p, Receive);
    var (u, t) := After(p, s, Receive);
    ReachedHolds(s, p);
    WritingStays(p, s, WireAt(s.link.out, e).frames[0]);
    ReachedExchanged(t, u);
    var u' := EndDelivery(u, t);
    LeadsExchanged(u, t, u', t);
    ReachedExchanged(u', t);
    LeadsOn(s, p, t, u, t, u');
    s', p' := t, u';
  }

  lemma WritingStays(p: Side, s: Side, f: Frame)
    requires Expected(p.rx, f) ==> AckLoopSafe(p.q, f.acked)
    ensures Taken(p, f).q.writing == p.q.writing && Taken(p, f).link == p.link && SameQueue(p, Taken(p, f))
  {
  }

  /** All that is on its way is read, unless the end of the stream is. */
  lemma {:induction false} Drain(s: Side, p: Side, e: nat) returns (s': Side, p': Side)
    requires Reached(s, p) && Joined(s, p, e)
    ensures Leads(s, p, s', p') && Reached(s', p') && s'.q == s.q && p'.rx.pending.None?
    ensures Open(s', e) && SameQueue(p, p')
    ensures p'.rx.stopped || (Open(p', e) && WireAt(s'.link.out, e).frames == [])
    decreases |WireAt(s.link.out, e).frames|
  {
    LeadsNowhere(s, p);
    s', p' := s, p;
    if WireAt(s.link.out, e).frames != [] {
      var t, u := Accept(s, p, e);
      s', p' := t, u;
      if !u.rx.stopped {
        s', p' := Drain(t, u, e);
        LeadsOn(s, p, t, u, s', p');
      }
    }
  }

  /** Nothing is unsent or on its way: what has been delivered is all of the log. */
  lemma NothingMissing(s: Side, p: Side, e: nat)
    requires Reached(s, p) && p.rx.pending.None? && s.q.unsent == [] && Open(s, e)
    requires p.rx.stopped || (Open(p, e) && WireAt(s.link.out, e).frames == [])
    ensures Flatten(p.rx.delivered) == Flatten(s.q.log)
    ensures !p.rx.stopped ==> p.rx.inmsg == |s.q.log|
  {
    ReachedHolds(s, p);
    if p.rx.stopped {
      HalfIsFaithful(s, p);
    } else {
      assert WireOk(WireAt(s.link.out, e), s.q, s.rx.inmsg, s.link, p.rx, p.link, e);
      assert s.q.log[..|s.q.log|] == s.q.log;
    }
  }

  /** From every state in which neither has finished, p's client can be given all that the client of s has supplied. */
  lemma AllCrosses(s: Side, p: Side) returns (s': Side, p': Side)
    requires Reached(s, p) && Working(s) && Working(p)
    ensures Leads(s, p, s', p') && Flatten(p'.rx.delivered) == Flatten(s.q.log)
  {
    var t, u, e := Rejoin(s, p);
    var t' := Flush(t, u, e);
    LeadsOn(s, p, t, u, t', u);
    s', p' := Drain(t', u, e);
    LeadsOn(s, p, t', u, s', p');
    NothingMissing(s', p', e);
  }

  // ----- the acks come back ----------------------------------------------------------

  /** p has a message to send, or a buffer to read one into. */
  predicate CanSpeak(p: Side) {
    !p.q.clientEof && (p.q.unsent != [] || p.q.hand.Some? || p.q.empty != [])
  }

  /** p reads from its client unless a message waits already. */
  lemma Speak(s: Side, p: Side) returns (p': Side)
    requires Reached(s, p) && CanSpeak(p)
    ensures Leads(s, p, s, p') && Reached(s, p') && p'.q.unsent != [] && !p'.q.clientEof
    ensures p'.rx == p.rx && p'.done == p.done
  {
    LeadsNowhere(s, p);
    p' := p;
    if p.q.unsent == [] {
      if p.q.hand.None? {
        ThenOther(s, p, s, p', TakeEmpty);
        p' := After(p', s, TakeEmpty).0;
      }
      ThenOther(s, p, s, p', ClientRead([0]));
      p' := After(p', s, ClientRead([0])).0;
    }
  }

  /** The last frame on the way is message n, with this ack. */
  predicate EndsWith(w: Wire, n: nat, acked: nat) {
    w.frames != [] && var f := w.frames[|w.frames| - 1]; f.Data? && f.num == n && f.acked == acked && f.body != []
  }

  /** All waiting messages are written, each with the ack of what has been accepted. */
  lemma {:induction false} FlushAcks(s: Side, p: Side, e: nat) returns (s': Side)
    requires Reached(s, p) && Open(s, e) && s.q.unsent != [] && !s.q.clientEof
    ensures Leads(s, p, s', p) && Reached(s', p) && Open(s', e) && SameStream(s, s') && s'.rx == s.rx
    ensures s.q.log != [] && EndsWith(WireAt(s'.link.out, e), |s.q.log| - 1, s.rx.inmsg)
    decreases |s.q.unsent|
  {
    LastUnsent(s, p);
    s' := WriteOne(s, p, e);
    if |s.q.unsent| > 1 {
      var t := s';
      s' := FlushAcks(t, p, e);
      LeadsOn(s, p, t, p, s', p);
    }
  }

  lemma LastUnsent(s: Side, p: Side)
    requires Reached(s, p) && s.q.unsent != [] && !s.q.clientEof
    ensures s.q.log != [] && p.rx.inmsg < |s.q.log|
    ensures |s.q.unsent| == 1 ==> s.q.unsent[0].num == |s.q.log| - 1 && s.q.unsent[0].body != []
  {
    ReachedHolds(s, p);
  }

  lemma {:induction false} LastFrame(frames: seq<Frame>, first: nat, log: seq<Bytes>, bound: nat)
    requires frames != [] && InOrder(frames, first, log, bound) && frames[|frames| - 1].Data?
    ensures first <= frames[|frames| - 1].num
  {
    if |frames| > 1 {
      LastFrame(frames[1..], if frames[0].Data? then first + 1 else first, log, bound);
    }
  }

  /** The frame that p reads next, when the last one is message n of a stream that has not ended. */
  lemma NextFrame(s: Side, p: Side, e: nat, n: nat, acked: nat)
    requires Reached(s, p) && Joined(s, p, e) && EndsWith(WireAt(s.link.out, e), n, acked) && !s.q.clientEof
    ensures var w := WireAt(s.link.out, e);
            var f := w.frames[0];
            f.Data? ==> 0 < |f.body| <= BUFSIZE && f.num <= p.rx.inmsg && (|w.frames| > 1 ==> f.num < n)
  {
    ReachedHolds(s, p);
    HeadFrame(p, s);
    var w := WireAt(s.link.out, e);
    assert WireOk(w, s.q, s.rx.inmsg, s.link, p.rx, p.link, e);
    if w.frames[0].Data? && |w.frames| > 1 {
      LastFrame(w.frames[1..], w.first + 1, s.q.log, s.rx.inmsg);
    }
  }

  /** Frames up to message n, which p has not accepted yet, are read; that one is accepted, and so is its ack. */
  lemma {:induction false} DrainAcks(s: Side, p: Side, e: nat, n: nat, acked: nat) returns (s': Side, p': Side)
    requires Reached(s, p) && Joined(s, p, e) && EndsWith(WireAt(s.link.out, e), n, acked)
    requires p.rx.inmsg <= n && !s.q.clientEof
    ensures Leads(s, p, s', p') && Reached(s', p') && p'.q.lastacked >= acked && SameQueue(p, p')
    decreases |WireAt(s.link.out, e).frames|
  {
    NextFrame(s, p, e, n, acked);
    var t, u := Accept(s, p, e);
    s', p' := t, u;
    if |WireAt(s.link.out, e).frames| > 1 {
      s', p' := DrainAcks(t, u, e, n, acked);
      LeadsOn(s, p, t, u, s', p');
    }
  }

  /**
   * No buffer is held for ever: from every state in which neither has finished and p can still send a message, all
   * that the client of s has supplied can be sent and acknowledged.
   */
  lemma AllIsFreed(s: Side, p: Side) returns (s': Side, p': Side)
    requires Reached(s, p) && Working(s) && Working(p) && CanSpeak(p) && !s.q.clientEof
    ensures Leads(s, p, s', p') && s'.q.log == s.q.log && s'.q.unsent == [] == s'.q.unacked
  {
    var p1 := Speak(s, p);
    var t, u, e := Rejoin(s, p1);
    LeadsOn(s, p, s, p1, t, u);
    var t1 := Flush(t, u, e);
    LeadsOn(s, p, t, u, t1, u);
    var t2, u2 := Drain(t1, u, e);
    LeadsOn(s, p, t1, u, t2, u2);
    s', p' := AcksReturn(s, p, t2, u2, e);
  }

  /** p has accepted everything, and sends what waits. */
  lemma AcksReturn(s: Side, p: Side, t: Side, u: Side, e: nat) returns (s': Side, p': Side)
    requires Leads(s, p, t, u) && Reached(t, u) && Open(t, e) && t.q.unsent == [] && u.rx.pending.None?
    requires u.rx.stopped || (Open(u, e) && WireAt(t.link.out, e).frames == [])
    requires u.q.unsent != [] && !u.q.clientEof && !t.q.clientEof
    ensures Leads(s, p, s', p') && s'.q.log == t.q.log && s'.q.unsent == [] == s'.q.unacked
  {
    NothingMissing(t, u, e);
    NotStopped(t, u);
    ReachedExchanged(t, u);
    LastUnsent(u, t);
    var u1 := FlushAcks(u, t, e);
    var u2, t2 := DrainAcks(u1, t, e, |u.q.log| - 1, u.rx.inmsg);
    LeadsOn(u, t, u1, t, u2, t2);
    LeadsExchanged(u, t, u2, t2);
    LeadsOn(s, p, t, u, t2, u2);
    ReachedHolds(u2, t2);
    s', p' := t2, u2;
  }

  lemma NotStopped(s: Side, p: Side)
    requires Reached(s, p) && !s.q.clientEof
    ensures !p.rx.stopped
  {
    ReachedHolds(s, p);
  }

  // ----- in runs ---------------------------------------------------------------------

  function Last(ws: seq<World>): World
    requires ws != []
  {
    ws[|ws| - 1]
  }

  lemma {:induction false} RunReached(ws: seq<World>, acts: seq<(bool, Step)>, i: nat)
    requires IsRun(ws, acts) && i < |ws|
    ensures Reached(ws[i].a, ws[i].b)
  {
    if i == 0 {
      LeadsNowhere(InitialSide(), InitialSide());
    } else {
      RunReached(ws, acts, i - 1);
      var w := ws[i - 1];
      assert Next(w, ws[i], acts[i - 1].0, acts[i - 1].1);
      if acts[i - 1].0 {
        Own(w.a, w.b, acts[i - 1].1);
      } else {
        Other(w.a, w.b, acts[i - 1].1);
      }
    }
  }

  /** A run that goes on with another one. */
  predicate GoesOn(ws: seq<World>, acts: seq<(bool, Step)>, ws': seq<World>, acts': seq<(bool, Step)>) {
    IsRun(ws', acts') && ws <= ws' && acts <= acts'
  }

  lemma {:induction false} Prolonged(ws: seq<World>, acts: seq<(bool, Step)>, more: seq<(bool, Step)>, w: World)
    returns (ws': seq<World>, acts': seq<(bool, Step)>)
    requires IsRun(ws, acts) && Runs(Last(ws).a, Last(ws).b, more, w.a, w.b)
    ensures GoesOn(ws, acts, ws', acts') && Last(ws') == w
    decreases |more|
  {
    ws', acts' := ws, acts;
    if more != [] {
      var (own, step) := more[0];
      var v := Last(ws);
      var v' := if own then World(After(v.a, v.b, step).0, After(v.a, v.b, step).1)
                else World(After(v.b, v.a, step).1, After(v.b, v.a, step).0);
      assert Next(v, v', own, step);
      ws', acts' := Prolonged(ws + [v'], acts + [more[0]], more[1..], w);
    }
  }

  /** The run goes on to the state that these steps lead to. */
  lemma RunLeads(ws: seq<World>, acts: seq<(bool, Step)>, w: World)
    returns (ws': seq<World>, acts': seq<(bool, Step)>)
    requires IsRun(ws, acts) && Leads(Last(ws).a, Last(ws).b, w.a, w.b)
    ensures GoesOn(ws, acts, ws', acts') && Last(ws') == w
  {
    var more :| Runs(Last(ws).a, Last(ws).b, more, w.a, w.b);
    ws', acts' := Prolonged(ws, acts, more, w);
  }

  function Ordered(first: bool, s: Side, p: Side): World {
    if first then World(s, p) else World(p, s)
  }

  lemma ReachedInRun(ws: seq<World>, acts: seq<(bool, Step)>, first: bool)
    requires IsRun(ws, acts)
    ensures Reached(Self(Last(ws), first), Peer(Last(ws), first))
  {
    RunReached(ws, acts, |ws| - 1);
    ReachedExchanged(Last(ws).a, Last(ws).b);
  }

  lemma LeadsInRun(ws: seq<World>, acts: seq<(bool, Step)>, first: bool, s': Side, p': Side)
    returns (ws': seq<World>, acts': seq<(bool, Step)>)
    requires IsRun(ws, acts) && Leads(Self(Last(ws), first), Peer(Last(ws), first), s', p')
    ensures GoesOn(ws, acts, ws', acts') && Last(ws') == Ordered(first, s', p')
  {
    LeadsExchanged(Self(Last(ws), first), Peer(Last(ws), first), s', p');
    ws', acts' := RunLeads(ws, acts, Ordered(first, s', p'));
  }

  /** What the client of this endpoint has supplied in these steps. */
  function Supplied(acts: seq<(bool, Step)>, first: bool): seq<Bytes> {
    if acts == [] then []
    else
      var (own, step) := acts[|acts| - 1];
      Supplied(acts[..|acts| - 1], first) + if own == first && step.ClientRead? then [step.data] else []
  }

  /** The log is what the client has supplied, in every state of every run. */
  lemma {:induction false} LogIsInput(ws: seq<World>, acts: seq<(bool, Step)>, i: nat, first: bool)
    requires IsRun(ws, acts) && i < |ws|
    ensures Self(ws[i], first).q.log == Supplied(acts[..i], first)
  {
    if i > 0 {
      LogIsInput(ws, acts, i - 1, first);
      assert acts[..i][..i - 1] == acts[..i - 1];
      var w, act := ws[i - 1], acts[i - 1];
      assert Next(w, ws[i], act.0, act.1);
      LogStep(Self(w, act.0), Peer(w, act.0), act.1);
    }
  }

  lemma LogStep(s: Side, p: Side, step: Step)
    requires Enabled(s, p, step) && Safe(s, p, step)
    ensures var (s', p') := After(s, p, step);
            p'.q.log == p.q.log && s'.q.log == s.q.log + if step.ClientRead? then [step.data] else []
  {
  }

  /**
   * Nothing is ever lost: every run in which neither endpoint has finished can go on so that the peer's client is
   * given all that this client has supplied.
   */
  lemma EverythingArrives(ws: seq<World>, acts: seq<(bool, Step)>, first: bool)
    returns (ws': seq<World>, acts': seq<(bool, Step)>)
    requires IsRun(ws, acts) && Working(Last(ws).a) && Working(Last(ws).b)
    ensures GoesOn(ws, acts, ws', acts')
    ensures Flatten(Peer(Last(ws'), first).rx.delivered) == Flatten(Self(Last(ws), first).q.log)
  {
    ReachedInRun(ws, acts, first);
    var s, p := AllCrosses(Self(Last(ws), first), Peer(Last(ws), first));
    ws', acts' := LeadsInRun(ws, acts, first, s, p);
  }

  /** Every such run in which the peer can still speak can go on so that no message of this client waits any more. */
  lemma BuffersComeBack(ws: seq<World>, acts: seq<(bool, Step)>, first: bool)
    returns (ws': seq<World>, acts': seq<(bool, Step)>)
    requires IsRun(ws, acts) && Working(Last(ws).a) && Working(Last(ws).b)
    requires CanSpeak(Peer(Last(ws), first)) && !Self(Last(ws), first).q.clientEof
    ensures GoesOn(ws, acts, ws', acts')
    ensures var q := Self(Last(ws'), first).q;
            q.log == Self(Last(ws), first).q.log && q.unsent == [] == q.unacked && q.lastacked == |q.log|
  {
    ReachedInRun(ws, acts, first);
    var s, p := AllIsFreed(Self(Last(ws), first), Peer(Last(ws), first));
    ws', acts' := LeadsInRun(ws, acts, first, s, p);
    ReachedInRun(ws', acts', first);
    ReachedHolds(Self(Last(ws'), first), Peer(Last(ws'), first));
  }

  // ----- runs in which no connection fails ----------------------------------------------

  /** No write fails, and no connection is cut or given up. */
  predicate Calm(step: Step) {
    match step
    case Write(ok) => ok
    case TimerWrite(ok, _) => ok
    case Hangup => false
    case Cut(_, _) => false
    case _ => true
  }

  function Bodies(frames: seq<Frame>): seq<Bytes> {
    if frames == [] then []
    else (if frames[0].Data? then [frames[0].body] else []) + Bodies(frames[1..])
  }

  /** A body accepted and not yet delivered, or the empty one that has ended the stream. */
  function Held(rx: Intake): seq<Bytes> {
    if rx.pending.Some? then [rx.pending.value] else if rx.stopped then [[]] else []
  }

  lemma {:induction false} BodiesAreLog(frames: seq<Frame>, first: nat, log: seq<Bytes>, bound: nat)
    requires InOrder(frames, first, log, bound) && first <= |log|
    ensures first <= End(frames, first) <= |log| && Bodies(frames) == log[first..End(frames, first)]
  {
    if frames != [] {
      BodiesAreLog(frames[1..], if frames[0].Data? then first + 1 else first, log, bound);
    }
  }

  /** The first connection stands, and p has read all that is not on it any more. */
  predicate Flows(s: Side, p: Side) {
    && s.link.conn == Some(0) && p.link.conn == Some(0) && !WireAt(s.link.out, 0).cut
    && WireAt(s.link.out, 0).first == p.rx.inmsg + if p.rx.stopped then 1 else 0
  }

  lemma FlowsOwn(s: Side, p: Side, step: Step)
    requires Half(s, p) && Half(p, s) && Flows(s, p) && Flows(p, s)
    requires Calm(step) && Enabled(s, p, step) && Safe(s, p, step)
    ensures var (s', p') := After(s, p, step); Flows(s', p') && Flows(p', s')
  {
    if step.Receive? {
      HeadFrame(s, p);
    }
  }

  lemma {:induction false} CalmRunFlows(ws: seq<World>, acts: seq<(bool, Step)>, i: nat)
    requires IsRun(ws, acts) && i < |ws| && forall k :: 0 <= k < |acts| ==> Calm(acts[k].1)
    ensures Flows(ws[i].a, ws[i].b) && Flows(ws[i].b, ws[i].a)
  {
    if i > 0 {
      CalmRunFlows(ws, acts, i - 1);
      RunKeeps(ws, acts, i - 1);
      var w := ws[i - 1];
      assert Next(w, ws[i], acts[i - 1].0, acts[i - 1].1);
      if acts[i - 1].0 {
        FlowsOwn(w.a, w.b, acts[i - 1].1);
      } else {
        FlowsOwn(w.b, w.a, acts[i - 1].1);
      }
    }
  }

  /**
   * While no connection fails, what has been delivered, what is held and what is still to be read on the connection
   * are together, in this order, all messages that have been written.
   */
  lemma NothingOnTheWayIsLost(ws: seq<World>, acts: seq<(bool, Step)>, i: nat, first: bool)
    requires IsRun(ws, acts) && i < |ws| && forall k :: 0 <= k < |acts| ==> Calm(acts[k].1)
    ensures var s, p := Self(ws[i], first), Peer(ws[i], first);
            && 0 <= Sent(s.q) <= |s.q.log|
            && p.rx.delivered + Held(p.rx) + Bodies(WireAt(s.link.out, 0).frames) == s.q.log[..Sent(s.q)]
  {
    RunKeeps(ws, acts, i);
    CalmRunFlows(ws, acts, i);
    AllAccounted(Self(ws[i], first), Peer(ws[i], first));
  }

  lemma AllAccounted(s: Side, p: Side)
    requires Half(s, p) && Flows(s, p)
    ensures 0 <= Sent(s.q) <= |s.q.log|
    ensures p.rx.delivered + Held(p.rx) + Bodies(WireAt(s.link.out, 0).frames) == s.q.log[..Sent(s.q)]
  {
    var w, log, n := WireAt(s.link.out, 0), s.q.log, p.rx.inmsg;
    assert WireOk(w, s.q, s.rx.inmsg, s.link, p.rx, p.link, 0);
    BodiesAreLog(w.frames, w.first, log, s.rx.inmsg);
    Pieces(log, n, w.first, Sent(s.q));
    if p.rx.stopped {
      assert p.rx.delivered == log[..n] && log[n] == [];
    } else {
      assert p.rx.delivered + Held(p.rx) == log[..n];
    }
  }

  lemma Pieces(log: seq<Bytes>, i: nat, j: nat, k: nat)
    requires i <= j <= k <= |log| && j <= i + 1
    ensures log[..k] == log[..i] + (if j > i then [log[i]] else []) + log[j..k]
  {
  }
}
