// The two endpoints of sys/src/cmd/aan.c as a state machine over unreliable connections.

/** State and steps of one endpoint talking to its peer. */
module AanModel {

  /** What read takes from a client at most. */
  const BUFSIZE := 8192

  /** Buffers in each endpoint's fixed pool. */
  const NBUF := 10

  type Bytes = seq<int>

  datatype Option<T> = None | Some(value: T)

  /** A buffer: its pool position, and the header and body last written to it. */
  datatype Buf = Buf(id: nat, num: nat, acked: nat, body: Bytes)

  /** A message on a connection. A timer message carries an ack and no number; an empty body ends the stream. */
  datatype Frame = Data(num: nat, acked: nat, body: Bytes) | Timer(acked: nat)

  /**
   * One direction of a connection: the frames not yet read. Once it is cut, nothing written arrives any more.
   * `first` is the number the first unread data frame has or would have; it is bookkeeping for the proof.
   */
  datatype Wire = Wire(frames: seq<Frame>, first: nat, cut: bool)

  /**
   * The sending half: the channels empty, unsent and unacked, the buffer fromclient holds, every body `log` taken
   * from the client so far, and whether the main loop has yet to write the buffer it put into unacked last.
   */
  datatype Queues = Queues(empty: seq<Buf>, hand: Option<Buf>, unsent: seq<Buf>, unacked: seq<Buf>, writing: bool,
                           lastacked: nat, log: seq<Bytes>, clientEof: bool)

  /** The receiving half: the next number, an accepted body not yet written to the client, and the bodies that were. */
  datatype Intake = Intake(inmsg: nat, pending: Option<Bytes>, delivered: seq<Bytes>, stopped: bool)

  /** The connection netfd stands for; connections below `joined` are used up; `out` has what was written on each. */
  datatype Link = Link(conn: Option<nat>, joined: nat, failed: bool, out: map<nat, Wire>)

  datatype Side = Side(q: Queues, rx: Intake, link: Link, done: bool)

  function WireAt(out: map<nat, Wire>, e: nat): Wire {
    if e in out then out[e] else Wire([], 0, false)
  }

  /** An endpoint at the start, on the first connection, with the pool of zeroed buffers all empty. */
  function InitialSide(): Side {
    Side(Queues(seq(NBUF, i requires i >= 0 => Buf(i, 0, 0, [])), None, [], [], false, 0, [], false),
         Intake(0, None, [], false), Link(Some(0), 1, false, map[]), false)
  }

  function FrameOf(b: Buf): Frame {
    Data(b.num, b.acked, b.body)
  }

  /** A step of one endpoint; the arguments are choices of the environment. */
  datatype Step =
    | TakeEmpty                               // fromclient receives a buffer
    | ClientRead(data: Bytes)                 // fromclient reads from the client and queues the buffer
    | Transmit                                // the main loop moves a buffer from unsent to unacked
    | Write(ok: bool)                         // the main loop writes the buffer it has moved
    | TimerWrite(ok: bool, giveUp: bool)      // the main loop writes a timer message, and may give the connection up
    | Receive                                 // fromnet reads a message
    | Deliver                                 // fromnet writes an accepted body to the client
    | Hangup                                  // fromnet sees the connection fail and closes it
    | Reconnect(e: nat, sent: nat)            // the main loop opens connection e and retransmits
    | Cut(e: nat, left: nat)                  // the network loses what is written on e beyond `left` frames

  // ----- fromclient --------------------------------------------------------

  /** fromclient receives a buffer. */
  function TakeBuffer(q: Queues): Queues
    requires q.empty != []
  {
    q.(empty := q.empty[1..], hand := Some(q.empty[0]))
  }

  /** fromclient numbers what it has read from its client and queues it. */
  function QueueRead(q: Queues, data: Bytes): Queues
    requires q.hand.Some?
  {
    var b := q.hand.value.(num := |q.log|, body := data);
    q.(hand := None, unsent := q.unsent + [b], log := q.log + [data], clientEof := |data| == 0)
  }

  // ----- the main loop -----------------------------------------------------

  /** The main loop moves a buffer to unacked; it will write it unless there is no connection. */
  function MoveToUnacked(q: Queues, connected: bool): Queues
    requires q.unsent != []
  {
    q.(unsent := q.unsent[1..], unacked := q.unacked + [q.unsent[0]], writing := connected)
  }

  /** The last buffer of unacked with its ack brought up to date, which then counts as written. */
  function Refreshed(q: Queues, inmsg: nat): Queues
    requires q.unacked != []
  {
    var n := |q.unacked| - 1;
    q.(unacked := q.unacked[n := q.unacked[n].(acked := inmsg)], writing := false)
  }

  /** The frame arrives unless the direction has been cut. */
  function Append(w: Wire, f: Frame): Wire {
    if w.cut then w else w.(frames := w.frames + [f])
  }

  /** writen: the frame goes out, or the write fails and so will every later one on this connection. */
  function SendFrame(l: Link, f: Frame, ok: bool): Link {
    if l.conn.None? then l.(failed := true)
    else
      var e := l.conn.value;
      if ok then l.(out := l.out[e := Append(WireAt(l.out, e), f)])
      else l.(out := l.out[e := WireAt(l.out, e).(cut := true)], failed := true)
  }

  /** The write of the buffer the main loop has put into unacked; it finishes after an empty body. */
  function WriteLast(s: Side, ok: bool): Side
    requires s.q.unacked != []
  {
    var q := Refreshed(s.q, s.rx.inmsg);
    var b := q.unacked[|q.unacked| - 1];
    s.(q := q, link := SendFrame(s.link, FrameOf(b), ok),
       done := s.done || (s.link.conn.Some? && ok && |b.body| == 0))
  }

  /** The main loop's timer message, after which it may decide that the connection is hung up. */
  function WriteTimer(s: Side, ok: bool, giveUp: bool): Side {
    var l := SendFrame(s.link, Timer(s.rx.inmsg), ok);
    s.(link := l.(failed := l.failed || giveUp))
  }

  function Frames(bs: seq<Buf>): seq<Frame> {
    if bs == [] then [] else Frames(bs[..|bs| - 1]) + [FrameOf(bs[|bs| - 1])]
  }

  /** synchronize on a fresh connection: the whole unacked queue again, of which the first `sent` frames get out. */
  function Synchronized(l: Link, q: Queues, e: nat, sent: nat): Link
    requires sent <= |q.unacked|
  {
    var cut := WireAt(l.out, e).cut;
    var frames := if cut then [] else Frames(q.unacked[..sent]);
    Link(Some(e), e + 1, false, l.out[e := Wire(frames, q.lastacked, cut || sent < |q.unacked|)])
  }

  // ----- fromnet -----------------------------------------------------------

  /** Acknowledged buffers go back to the pool, their number field wiped; the ack field keeps its old value. */
  function Freed(bs: seq<Buf>): seq<Buf> {
    if bs == [] then [] else [bs[0].(num := 0xFFFF_FFFF)] + Freed(bs[1..])
  }

  /** How many buffers an ack releases. */
  function Acks(q: Queues, acked: nat): nat {
    if acked > q.lastacked then acked - q.lastacked else 0
  }

  /** The ack loop runs to its end: it neither waits on an empty channel nor meets a number it does not expect. */
  predicate AckLoopSafe(q: Queues, acked: nat) {
    Acks(q, acked) <= |q.unacked| && forall i :: 0 <= i < Acks(q, acked) ==> q.unacked[i].num == q.lastacked + i
  }

  function Acknowledge(q: Queues, acked: nat): Queues
    requires AckLoopSafe(q, acked)
  {
    var n := Acks(q, acked);
    q.(empty := q.empty + Freed(q.unacked[..n]), unacked := q.unacked[n..], lastacked := q.lastacked + n)
  }

  /** fromnet only looks at the ack of the data frame it is waiting for. */
  predicate Expected(rx: Intake, f: Frame) {
    f.Data? && 0 < |f.body| <= BUFSIZE && f.num == rx.inmsg
  }

  /** fromnet's treatment of a frame. */
  function Taken(s: Side, f: Frame): Side
    requires Expected(s.rx, f) ==> AckLoopSafe(s.q, f.acked)
  {
    match f
    case Timer(_) => s
    case Data(num, acked, body) =>
      if |body| == 0 || |body| > BUFSIZE then s.(rx := s.rx.(stopped := true), done := true)
      else if num != s.rx.inmsg then s
      else s.(rx := s.rx.(inmsg := num + 1, pending := Some(body)), q := Acknowledge(s.q, acked))
  }

  /** Taking the first frame off a wire. */
  function Popped(w: Wire): Wire
    requires w.frames != []
  {
    w.(frames := w.frames[1..], first := if w.frames[0].Data? then w.first + 1 else w.first)
  }

  /** Nothing written on connection e from now on arrives. */
  function Severed(l: Link, e: nat): Link {
    l.(out := l.out[e := WireAt(l.out, e).(cut := true)])
  }

  function CutWire(w: Wire, left: nat): Wire
    requires left <= |w.frames|
  {
    Wire(w.frames[..left], w.first, true)
  }

  // ----- the steps ---------------------------------------------------------

  predicate Enabled(s: Side, p: Side, step: Step) {
    match step
    case TakeEmpty => s.q.hand.None? && !s.q.clientEof && s.q.empty != []
    case ClientRead(data) => s.q.hand.Some? && |data| <= BUFSIZE
    case Transmit => !s.q.writing && !s.link.failed && s.q.unsent != []
    case Write(_) => s.q.writing && s.q.unacked != []
    case TimerWrite(_, _) => !s.q.writing && !s.link.failed && s.link.conn.Some?
    case Receive =>
      s.link.conn.Some? && s.rx.pending.None? && !s.rx.stopped && WireAt(p.link.out, s.link.conn.value).frames != []
    case Deliver => s.rx.pending.Some?
    case Hangup => s.link.conn.Some?
    case Reconnect(e, sent) =>
      s.link.conn.None? && !s.q.writing && !s.done && e >= s.link.joined && sent <= |s.q.unacked|
    case Cut(e, left) => left <= |WireAt(s.link.out, e).frames|
  }

  /** fromnet neither blocks for ever in its ack loop nor stops with the message "fromnet; bug". */
  predicate Safe(s: Side, p: Side, step: Step) {
    step.Receive? && Enabled(s, p, step) ==>
      var f := WireAt(p.link.out, s.link.conn.value).frames[0];
      Expected(s.rx, f) ==> AckLoopSafe(s.q, f.acked)
  }

  /** The endpoint and its peer after a step; the peer changes only in what it can still say on a connection. */
  function After(s: Side, p: Side, step: Step): (Side, Side)
    requires Enabled(s, p, step) && Safe(s, p, step)
  {
    match step
    case TakeEmpty => (s.(q := TakeBuffer(s.q)), p)
    case ClientRead(data) => (s.(q := QueueRead(s.q, data)), p)
    case Transmit => (s.(q := MoveToUnacked(s.q, s.link.conn.Some?)), p)
    case Write(ok) => (WriteLast(s, ok), p)
    case TimerWrite(ok, giveUp) => (WriteTimer(s, ok, giveUp), p)
    case Receive =>
      var e := s.link.conn.value;
      var w := WireAt(p.link.out, e);
      (Taken(s, w.frames[0]), p.(link := p.link.(out := p.link.out[e := Popped(w)])))
    case Deliver => (s.(rx := s.rx.(delivered := s.rx.delivered + [s.rx.pending.value], pending := None)), p)
    case Hangup =>
      var e := s.link.conn.value;
      (s.(link := Severed(s.link, e).(conn := None)), p.(link := Severed(p.link, e)))
    case Reconnect(e, sent) => (s.(link := Synchronized(s.link, s.q, e, sent)), p)
    case Cut(e, left) => (s.(link := s.link.(out := s.link.out[e := CutWire(WireAt(s.link.out, e), left)])), p)
  }

  // ----- runs --------------------------------------------------------------

  /** Both endpoints. */
  datatype World = World(a: Side, b: Side)

  /** A step by the first or the second endpoint. */
  predicate Next(w: World, w': World, first: bool, step: Step) {
    if first then Enabled(w.a, w.b, step) && Safe(w.a, w.b, step) && (w'.a, w'.b) == After(w.a, w.b, step)
    else Enabled(w.b, w.a, step) && Safe(w.b, w.a, step) && (w'.b, w'.a) == After(w.b, w.a, step)
  }
}
