// The channel over connections that may break within a header.

/** The machine of AanModel with one step more: fromnet of sys/src/cmd/aan.c acts on part of a header. */
module AanTorn {
  import opened AanModel
  import opened AanSafety
  import opened AanWords
  import opened AanHeader

  /** Both endpoints, and which of them has stopped on a header that was not that of an empty message. */
  datatype TornWorld = TornWorld(w: World, misledA: bool, misledB: bool)

  /**
   * A step of AanModel, or fromnet reading the first k bytes of the header of f, after which nothing comes, into a
   * buffer that holds the header `stale`.
   */
  datatype TornStep =
    | Whole(first: bool, step: Step)
    | Tear(first: bool, f: Frame, stale: Header, k: nat)

  predicate IsEmptyMessage(f: Frame) {
    f.Data? && f.body == []
  }

  /**
   * All that arrived whole on the connection of s has been read, and f is what may have been on its way when the
   * connection broke: a timer message, or the message after those read.
   */
  predicate MayBreakOff(s: Side, p: Side, f: Frame) {
    && s.link.conn.Some? && s.rx.pending.None? && !s.rx.stopped
    && var w := WireAt(p.link.out, s.link.conn.value);
    && w.cut && w.frames == []
    && (f.Data? ==> f.num == w.first < |p.q.log| && f.body == p.q.log[f.num])
  }

  /** The endpoint after fromnet has stopped. */
  function Stopped(s: Side): Side {
    s.(rx := s.rx.(stopped := true), done := true)
  }

  /**
   * A header with only its first part new makes fromnet stop, or it changes nothing: fromnet skips it, or fails to
   * read a body, and then sees the connection fail.
   */
  predicate NextTorn(x: TornWorld, x': TornWorld, t: TornStep) {
    match t
    case Whole(first, step) => Next(x.w, x'.w, first, step) && x' == x.(w := x'.w)
    case Tear(first, f, stale, k) =>
      && Words(stale) && 0 < k < HDRSZ && MayBreakOff(Self(x.w, first), Peer(x.w, first), f)
      && x' == if StopsTorn(stale, f, k) then Halted(x, first, !IsEmptyMessage(f)) else x
  }

  function Halted(x: TornWorld, first: bool, misled: bool): TornWorld {
    if first then x.(w := x.w.(a := Stopped(x.w.a)), misledA := misled)
    else x.(w := x.w.(b := Stopped(x.w.b)), misledB := misled)
  }

  predicate IsTornRun(xs: seq<TornWorld>, ts: seq<TornStep>) {
    && |xs| == |ts| + 1
    && xs[0] == TornWorld(World(InitialSide(), InitialSide()), false, false)
    && forall i :: 0 <= i < |ts| ==> NextTorn(xs[i], xs[i + 1], ts[i])
  }

  // ----- the machine without the misled stops ------------------------------

  /** The endpoint as it would be had it not been misled. */
  function Awake(s: Side, misled: bool): Side {
    s.(rx := s.rx.(stopped := s.rx.stopped && !misled))
  }

  ghost predicate TornHalves(s: Side, misledS: bool, p: Side, misledP: bool) {
    && Half(Awake(s, misledS), Awake(p, misledP)) && Half(Awake(p, misledP), Awake(s, misledS))
    && (misledS ==> s.rx.stopped) && (misledP ==> p.rx.stopped)
  }

  ghost predicate TornInv(x: TornWorld) {
    TornHalves(x.w.a, x.misledA, x.w.b, x.misledB)
  }

  /** A step with misled endpoints is one of the endpoints that are not. */
  lemma AwakeStep(s: Side, misledS: bool, p: Side, misledP: bool, step: Step)
    requires Enabled(s, p, step) && Safe(s, p, step) && (misledS ==> s.rx.stopped) && (misledP ==> p.rx.stopped)
    ensures Enabled(Awake(s, misledS), Awake(p, misledP), step) && Safe(Awake(s, misledS), Awake(p, misledP), step)
    ensures var (s', p') := After(s, p, step);
            && (Awake(s', misledS), Awake(p', misledP)) == After(Awake(s, misledS), Awake(p, misledP), step)
            && (misledS ==> s'.rx.stopped) && (misledP ==> p'.rx.stopped)
  {
  }

  lemma WholeKeeps(s: Side, misledS: bool, p: Side, misledP: bool, step: Step)
    requires TornHalves(s, misledS, p, misledP) && Enabled(s, p, step) && Safe(s, p, step)
    ensures var (s', p') := After(s, p, step); TornHalves(s', misledS, p', misledP)
  {
    AwakeStep(s, misledS, p, misledP, step);
    StepKeeps(Awake(s, misledS), Awake(p, misledP), step);
  }

  /** A stop on the header of an empty message comes when everything else has been accepted. */
  lemma GenuineStop(s: Side, p: Side, f: Frame)
    requires Half(s, p) && Half(p, s) && MayBreakOff(s, p, f) && IsEmptyMessage(f)
    ensures Half(Stopped(s), p) && Half(p, Stopped(s))
  {
  }

  lemma TearKeeps(s: Side, misledS: bool, p: Side, misledP: bool, f: Frame)
    requires TornHalves(s, misledS, p, misledP) && MayBreakOff(s, p, f)
    ensures TornHalves(Stopped(s), !IsEmptyMessage(f), p, misledP)
  {
    if IsEmptyMessage(f) {
      GenuineStop(Awake(s, misledS), Awake(p, misledP), f);
    }
  }

  lemma StepKeepsTorn(x: TornWorld, x': TornWorld, t: TornStep)
    requires TornInv(x) && NextTorn(x, x', t)
    ensures TornInv(x')
  {
    match t
    case Whole(first, step) =>
      if first {
        WholeKeeps(x.w.a, x.misledA, x.w.b, x.misledB, step);
      } else {
        WholeKeeps(x.w.b, x.misledB, x.w.a, x.misledA, step);
      }
    case Tear(first, f, stale, k) =>
      if first {
        TearKeeps(x.w.a, x.misledA, x.w.b, x.misledB, f);
      } else {
        TearKeeps(x.w.b, x.misledB, x.w.a, x.misledA, f);
      }
  }

  lemma {:induction false} TornRunKeeps(xs: seq<TornWorld>, ts: seq<TornStep>, i: nat)
    requires IsTornRun(xs, ts) && i < |xs|
    ensures TornInv(xs[i])
  {
    if i == 0 {
      InitialHolds();
    } else {
      TornRunKeeps(xs, ts, i - 1);
      StepKeepsTorn(xs[i - 1], xs[i], ts[i - 1]);
    }
  }

  /** fromnet can do any step it is offered without a hitch. */
  lemma TornNeverStuck(xs: seq<TornWorld>, ts: seq<TornStep>, i: nat, first: bool, step: Step)
    requires IsTornRun(xs, ts) && i < |xs|
    ensures Safe(Self(xs[i].w, first), Peer(xs[i].w, first), step)
  {
    var x := xs[i];
    TornRunKeeps(xs, ts, i);
    ReceiveIsSafe(Awake(x.w.a, x.misledA), Awake(x.w.b, x.misledB));
    ReceiveIsSafe(Awake(x.w.b, x.misledB), Awake(x.w.a, x.misledA));
  }

  // ----- what is delivered -------------------------------------------------

  /**
   * In every state of every run in which connections may break within headers, what each client has been given is a
   * prefix of what the other supplied, and an endpoint that has stopped without being misled has passed on the whole
   * stream.
   */
  lemma TornDelivery(xs: seq<TornWorld>, ts: seq<TornStep>, i: nat)
    requires IsTornRun(xs, ts) && i < |xs|
    ensures var x := xs[i];
            && Faithful(x.w.a, Awake(x.w.b, x.misledB)) && Faithful(x.w.b, Awake(x.w.a, x.misledA))
  {
    var x := xs[i];
    TornRunKeeps(xs, ts, i);
    HalfIsFaithful(Awake(x.w.a, x.misledA), Awake(x.w.b, x.misledB));
    HalfIsFaithful(Awake(x.w.b, x.misledB), Awake(x.w.a, x.misledA));
  }

  function Misled(x: TornWorld, first: bool): bool {
    if first then x.misledA else x.misledB
  }

  /** An endpoint is misled exactly by a header for which StopsFalsely holds, torn off a message that is not empty. */
  lemma MisledExactly(xs: seq<TornWorld>, ts: seq<TornStep>, i: nat, first: bool)
    requires IsTornRun(xs, ts) && i < |ts| && !Misled(xs[i], first)
    ensures Misled(xs[i + 1], first) <==>
            && ts[i].Tear? && ts[i].first == first && !IsEmptyMessage(ts[i].f)
            && StopsFalsely(ts[i].stale, HeaderOf(ts[i].f), ts[i].k)
  {
    var x, t := xs[i], ts[i];
    assert NextTorn(x, xs[i + 1], t);
    if t.Tear? {
      TornRunKeeps(xs, ts, i);
      TornStops(t.stale, t.f, t.k);
    }
  }

  /** A run in which the other endpoint stops before the stream has begun: a timer message breaks off at once. */
  lemma StoppedAtOnce() returns (xs: seq<TornWorld>, ts: seq<TornStep>)
    ensures IsTornRun(xs, ts) && |ts| == 2 && xs[2].misledB && xs[2].w.b.rx.stopped && !xs[2].w.a.q.clientEof
  {
    var zeroed := Header(0, 0, 0);
    var w0 := World(InitialSide(), InitialSide());
    var w1 := World(WriteTimer(InitialSide(), false, false), InitialSide());
    var x0, x1 := TornWorld(w0, false, false), TornWorld(w1, false, false);
    FirstField(zeroed, HeaderOf(Timer(0)), 1);
    SecondField(zeroed, HeaderOf(Timer(0)), 1);
    ts := [Whole(true, TimerWrite(false, false)), Tear(false, Timer(0), zeroed, 1)];
    xs := [x0, x1, Halted(x1, false, true)];
    assert Next(w0, w1, true, TimerWrite(false, false));
    assert MayBreakOff(w1.b, w1.a, Timer(0));
  }
}
