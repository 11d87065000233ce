// fcp's copy of one file by several processes that share an offset.

/** copy1, worker and nextoff of sys/src/cmd/fcp.c, as a state machine over the system calls of the workers. */
module Fcp {

  type File = seq<int>

  datatype Option<T> = None | Some(value: T)

  /**
   * A worker: before its malloc; asking for a block; about to read into what is left of its block, or to write the n
   * bytes it read; gone at end of file; gone for lack of memory; gone with a message; gone on the note of the parent.
   */
  datatype Worker =
    | Starting
    | Asking
    | Reading(o: nat, len: nat)
    | Writing(o: nat, len: nat, n: nat)
    | AtEnd(o: nat)
    | NoMemory
    | Bad(o: nat, len: nat)
    | Noted(o: nat, len: nat)

  /** The offset shared by the workers, the destination, and how often each of its bytes was written. */
  datatype State = State(off: nat, ws: seq<Worker>, dst: seq<Option<int>>, times: seq<nat>)

  datatype Step =
    | Malloc(w: nat, ok: bool)
    | Next(w: nat)
    | Read(w: nat, n: int)
    | Write(w: nat, m: int)
    | Note(w: nat)

  /** The worker has exited. */
  predicate Gone(w: Worker) {
    w.AtEnd? || w.NoMemory? || w.Bad? || w.Noted?
  }

  /** Byte k belongs to the part of its block that the worker has still to copy. */
  predicate Owes(w: Worker, k: int) {
    match w
    case Reading(o, len) => o <= k < o + len
    case Writing(o, len, _) => o <= k < o + len
    case Bad(o, len) => o <= k < o + len
    case Noted(o, len) => o <= k < o + len
    case _ => false
  }

  predicate Init(f: File, s: State) {
    && s.off == 0 && s.ws != [] && (forall w :: 0 <= w < |s.ws| ==> s.ws[w].Starting?)
    && |s.dst| == |s.times| == |f| && (forall k :: 0 <= k < |f| ==> s.times[k] == 0)
  }

  /**
   * What each call may do. Reads and writes stop short as they like, but a read finds the end of file exactly where
   * the file ends; the parent sends its note once some worker has exited with a message.
   */
  predicate Enabled(f: File, s: State, e: Step) {
    && e.w < |s.ws|
    && var w := s.ws[e.w];
       match e
       case Malloc(_, _) => w.Starting?
       case Next(_) => w.Asking?
       case Read(_, n) =>
         w.Reading? && (n >= 0 ==> n <= w.len && (n == 0 <==> w.o >= |f|) && (n > 0 ==> w.o + n <= |f|))
       case Write(_, m) => w.Writing? && w.o + w.n <= |f| && m <= w.n
       case Note(_) => !Gone(w) && exists v :: 0 <= v < |s.ws| && s.ws[v].Bad?
  }

  /** The destination after n bytes of f have been written at o. */
  function Put(dst: seq<Option<int>>, f: File, o: nat, n: nat): (r: seq<Option<int>>)
    requires o + n <= |f| == |dst|
    ensures |r| == |dst|
    ensures forall k :: 0 <= k < |r| && !(o <= k < o + n) ==> r[k] == dst[k]
    ensures forall k :: o <= k < o + n ==> r[k] == Some(f[k])
  {
    if n == 0 then dst else Put(dst, f, o, n - 1)[o + n - 1 := Some(f[o + n - 1])]
  }

  function Count(times: seq<nat>, o: nat, n: nat): (r: seq<nat>)
    requires o + n <= |times|
    ensures |r| == |times|
    ensures forall k :: 0 <= k < |r| && !(o <= k < o + n) ==> r[k] == times[k]
    ensures forall k :: o <= k < o + n ==> r[k] == times[k] + 1
  {
    if n == 0 then times else Count(times, o, n - 1)[o + n - 1 := times[o + n - 1] + 1]
  }

  /** The bytes that a step writes. */
  function Wrote(e: Step): nat {
    if e.Write? && e.m > 0 then e.m else 0
  }

  /** The worker after a step of its own, with a block starting at off when it asks for one. */
  function Moved(w: Worker, e: Step, off: nat, buflen: nat): Worker {
    match (w, e)
    case (Starting, Malloc(_, ok)) => if ok then Asking else NoMemory
    case (Asking, Next(_)) => Reading(off, buflen)
    case (Reading(o, len), Read(_, n)) => if n < 0 then Bad(o, len) else if n == 0 then AtEnd(o) else Writing(o, len, n)
    case (Writing(o, len, n), Write(_, m)) =>
      if m != n then Bad(o + Wrote(e), if len < Wrote(e) then 0 else len - Wrote(e))
      else if n >= len then Asking
      else Reading(o + n, len - n)
    case (Reading(o, len), Note(_)) => Noted(o, len)
    case (Writing(o, len, _), Note(_)) => Noted(o, len)
    case (_, Note(_)) => Noted(0, 0)
    case _ => w
  }

  function After(f: File, buflen: nat, s: State, e: Step): State
    requires Enabled(f, s, e) && |s.dst| == |s.times| == |f|
  {
    var w := s.ws[e.w];
    var s' := s.(ws := s.ws[e.w := Moved(w, e, s.off, buflen)]);
    match e
    case Next(_) => s'.(off := s.off + buflen)
    case Write(_, _) => s'.(dst := Put(s.dst, f, w.o, Wrote(e)), times := Count(s.times, w.o, Wrote(e)))
    case _ => s'
  }

  // ----- what every step keeps -------------------------------------------------

  /** A worker's part lies in a block already given out, and what it has read lies in its part. */
  predicate InBounds(f: File, off: nat, w: Worker) {
    match w
    case Reading(o, len) => len > 0 && o + len <= off
    case Writing(o, len, n) => 0 < n <= len && o + len <= off && o + n <= |f|
    case AtEnd(o) => |f| <= o < off
    case Bad(o, len) => o + len <= off
    case Noted(o, len) => o + len <= off
    case _ => true
  }

  ghost predicate Owed(ws: seq<Worker>, k: int) {
    exists w :: 0 <= w < |ws| && Owes(ws[w], k)
  }

  /** No two workers have parts in common. */
  ghost predicate Apart(ws: seq<Worker>) {
    forall v, w, k :: 0 <= v < w < |ws| && Owes(ws[v], k) ==> !Owes(ws[w], k)
  }

  /** Byte k has been copied once if its block was given out and no worker has it still to copy; else not at all. */
  ghost predicate Accounted(f: File, s: State, k: nat)
    requires k < |f| == |s.dst| == |s.times|
  {
    if k < s.off && !Owed(s.ws, k) then s.times[k] == 1 && s.dst[k] == Some(f[k]) else s.times[k] == 0
  }

  /** No worker is told to stop unless another has failed. */
  ghost predicate NotedForCause(ws: seq<Worker>) {
    (exists w :: 0 <= w < |ws| && ws[w].Noted?) ==> exists w :: 0 <= w < |ws| && ws[w].Bad?
  }

  ghost predicate Inv(f: File, s: State) {
    && |s.dst| == |s.times| == |f| && Apart(s.ws) && NotedForCause(s.ws)
    && (forall w :: 0 <= w < |s.ws| ==> InBounds(f, s.off, s.ws[w]))
    && forall k :: 0 <= k < |f| ==> Accounted(f, s, k)
  }

  /** What a worker owes does not change, or shrinks by the bytes it wrote, or is a new block. */
  lemma MovedOwes(f: File, buflen: nat, s: State, e: Step, k: int)
    requires Inv(f, s) && Enabled(f, s, e)
    ensures var w := s.ws[e.w];
            Owes(Moved(w, e, s.off, buflen), k) <==>
            if e.Next? then s.off <= k < s.off + buflen
            else Owes(w, k) && !(e.Write? && w.o <= k < w.o + Wrote(e)) && !(e.Read? && e.n == 0)
  {
  }

  lemma MovedInBounds(f: File, buflen: nat, s: State, e: Step)
    requires Inv(f, s) && Enabled(f, s, e) && buflen > 0
    ensures InBounds(f, After(f, buflen, s, e).off, Moved(s.ws[e.w], e, s.off, buflen))
  {
    assert InBounds(f, s.off, s.ws[e.w]);
  }

  /** After a step, what is owed is what was, without the bytes written and with a block given out. */
  lemma StepOwes(f: File, buflen: nat, s: State, e: Step, k: int)
    requires Inv(f, s) && Enabled(f, s, e) && k < |f|
    ensures var w := s.ws[e.w];
            Owed(After(f, buflen, s, e).ws, k) <==>
            if e.Next? then Owed(s.ws, k) || s.off <= k < s.off + buflen
            else Owed(s.ws, k) && !(e.Write? && w.o <= k < w.o + Wrote(e))
  {
    var s' := After(f, buflen, s, e);
    MovedOwes(f, buflen, s, e, k);
    assert InBounds(f, s.off, s.ws[e.w]);
    assert Owes(s'.ws[e.w], k) ==> Owed(s'.ws, k);
    assert Owes(s.ws[e.w], k) ==> Owed(s.ws, k);
    if v :| 0 <= v < |s.ws| && Owes(s.ws[v], k) {
      assert v != e.w ==> Owes(s'.ws[v], k) && !Owes(s.ws[e.w], k);
    }
    if v :| 0 <= v < |s'.ws| && Owes(s'.ws[v], k) {
      assert v != e.w ==> Owes(s.ws[v], k) && !Owes(s.ws[e.w], k);
    }
  }

  lemma StepKeepsApart(f: File, buflen: nat, s: State, e: Step)
    requires Inv(f, s) && Enabled(f, s, e)
    ensures Apart(After(f, buflen, s, e).ws)
  {
    var s' := After(f, buflen, s, e);
    forall v, w, k | 0 <= v < w < |s'.ws| && Owes(s'.ws[v], k) ensures !Owes(s'.ws[w], k) {
      MovedOwes(f, buflen, s, e, k);
      assert InBounds(f, s.off, s.ws[v]) && InBounds(f, s.off, s.ws[w]);
    }
  }

  lemma StepKeepsAccounts(f: File, buflen: nat, s: State, e: Step, k: nat)
    requires Inv(f, s) && Enabled(f, s, e) && k < |f|
    ensures Accounted(f, After(f, buflen, s, e), k)
  {
    assert Accounted(f, s, k);
    StepOwes(f, buflen, s, e, k);
    var w := s.ws[e.w];
    assert InBounds(f, s.off, w);
    if e.Write? && w.o <= k < w.o + Wrote(e) {
      assert Owes(w, k);
    }
    if s.off <= k && Owed(s.ws, k) {
      var v :| 0 <= v < |s.ws| && Owes(s.ws[v], k);
      assert InBounds(f, s.off, s.ws[v]);
    }
  }

  /** Every step of every worker keeps the invariant. */
  lemma StepKeeps(f: File, buflen: nat, s: State, e: Step)
    requires Inv(f, s) && Enabled(f, s, e) && buflen > 0
    ensures Inv(f, After(f, buflen, s, e))
  {
    var s' := After(f, buflen, s, e);
    StepKeepsApart(f, buflen, s, e);
    MovedInBounds(f, buflen, s, e);
    forall w | 0 <= w < |s'.ws| ensures InBounds(f, s'.off, s'.ws[w]) {
      assert InBounds(f, s.off, s.ws[w]);
    }
    forall k | 0 <= k < |f| ensures Accounted(f, s', k) {
      StepKeepsAccounts(f, buflen, s, e, k);
    }
    if v :| 0 <= v < |s.ws| && s.ws[v].Bad? {
      assert s'.ws[v].Bad?;
    }
  }

  // ----- whole runs --------------------------------------------------------------

  predicate IsRun(f: File, buflen: nat, ss: seq<State>, acts: seq<Step>) {
    && |ss| == |acts| + 1 && Init(f, ss[0])
    && forall i :: 0 <= i < |acts| ==>
         |ss[i].dst| == |ss[i].times| == |f| && Enabled(f, ss[i], acts[i]) &&
         ss[i + 1] == After(f, buflen, ss[i], acts[i])
  }

  lemma {:induction false} RunKeeps(f: File, buflen: nat, ss: seq<State>, acts: seq<Step>, i: nat)
    requires IsRun(f, buflen, ss, acts) && buflen > 0 && i < |ss|
    ensures Inv(f, ss[i])
  {
    if i > 0 {
      RunKeeps(f, buflen, ss, acts, i - 1);
      StepKeeps(f, buflen, ss[i - 1], acts[i - 1]);
    }
  }

  /** copy1 returns success: every worker has exited, and none with a message. */
  predicate Succeeds(s: State) {
    forall w :: 0 <= w < |s.ws| ==> Gone(s.ws[w]) && !s.ws[w].Bad?
  }

  /** The destination is the source, every byte of which was written once. */
  predicate Copied(f: File, s: State)
    requires |s.dst| == |s.times| == |f|
  {
    forall k :: 0 <= k < |f| ==> s.dst[k] == Some(f[k]) && s.times[k] == 1
  }

  /** In no state of any run is a byte written twice, and what is written is the source's byte. */
  lemma NeverTwice(f: File, buflen: nat, ss: seq<State>, acts: seq<Step>, i: nat, k: nat)
    requires IsRun(f, buflen, ss, acts) && buflen > 0 && i < |ss| && k < |f|
    ensures |ss[i].dst| == |ss[i].times| == |f|
    ensures ss[i].times[k] == 0 || (ss[i].times[k] == 1 && ss[i].dst[k] == Some(f[k]))
  {
    RunKeeps(f, buflen, ss, acts, i);
    assert Accounted(f, ss[i], k);
  }

  /**
   * When copy1 returns success the file has been copied, unless no worker had memory for its buffer: a worker without
   * memory exits like one that is done, so then nothing has been copied.
   */
  lemma SuccessMeansCopied(f: File, buflen: nat, ss: seq<State>, acts: seq<Step>, i: nat)
    requires IsRun(f, buflen, ss, acts) && buflen > 0 && i < |ss| && Succeeds(ss[i])
    ensures |ss[i].dst| == |ss[i].times| == |f|
    ensures Copied(f, ss[i]) <==> f == [] || exists w :: 0 <= w < |ss[i].ws| && !ss[i].ws[w].NoMemory?
  {
    var s := ss[i];
    RunKeeps(f, buflen, ss, acts, i);
    if w :| 0 <= w < |s.ws| && !s.ws[w].NoMemory? {
      assert s.ws[w].AtEnd? && InBounds(f, s.off, s.ws[w]);
      forall k | 0 <= k < |f| ensures s.dst[k] == Some(f[k]) && s.times[k] == 1 {
        assert Accounted(f, s, k);
        NobodyOwes(s, k);
      }
    } else if f != [] {
      RunStarts(f, buflen, ss, acts, i);
      assert Accounted(f, s, 0);
    }
  }

  lemma NobodyOwes(s: State, k: int)
    requires Succeeds(s) && NotedForCause(s.ws)
    ensures !Owed(s.ws, k)
  {
    assert forall w :: 0 <= w < |s.ws| ==> !s.ws[w].Noted?;
  }

  /** A block is given out only to a worker that has memory. */
  lemma {:induction false} RunStarts(f: File, buflen: nat, ss: seq<State>, acts: seq<Step>, i: nat)
    requires IsRun(f, buflen, ss, acts) && i < |ss|
    requires forall w :: 0 <= w < |ss[i].ws| ==> ss[i].ws[w].NoMemory? || ss[i].ws[w].Starting?
    ensures ss[i].off == 0
  {
    if i > 0 {
      var s, e := ss[i - 1], acts[i - 1];
      assert Enabled(f, s, e) && ss[i] == After(f, buflen, s, e);
      forall w | 0 <= w < |s.ws| ensures s.ws[w].NoMemory? || s.ws[w].Starting? {
        assert w != e.w ==> ss[i].ws[w] == s.ws[w];
        assert ss[i].ws[e.w] == Moved(s.ws[e.w], e, s.off, buflen);
      }
      RunStarts(f, buflen, ss, acts, i - 1);
    }
  }

  // ----- the copy can come to its end ----------------------------------------------

  function Last(ss: seq<State>): State
    requires ss != []
  {
    ss[|ss| - 1]
  }

  predicate GoesOn(f: File, buflen: nat, ss: seq<State>, acts: seq<Step>, ss': seq<State>, acts': seq<Step>) {
    IsRun(f, buflen, ss', acts') && ss <= ss' && acts <= acts'
  }

  /** A run with one more step, of one worker. */
  lemma Go(f: File, buflen: nat, ss: seq<State>, acts: seq<Step>, e: Step) returns (ss': seq<State>, acts': seq<Step>)
    requires IsRun(f, buflen, ss, acts) && buflen > 0 && Enabled(f, Last(ss), e)
    ensures GoesOn(f, buflen, ss, acts, ss', acts')
    ensures |Last(ss).dst| == |Last(ss).times| == |f| && Last(ss') == After(f, buflen, Last(ss), e)
  {
    RunKeeps(f, buflen, ss, acts, |ss| - 1);
    ss', acts' := ss + [After(f, buflen, Last(ss), e)], acts + [e];
  }

  /** How much a worker has still to do before it asks for another block. */
  function Left(f: File, w: Worker): nat {
    match w
    case Starting => 3
    case Asking => 2
    case Reading(o, len) => if o >= |f| then 1 else 3 + 2 * len
    case Writing(_, len, _) => 2 + 2 * len
    case _ => 0
  }

  predicate Unfailed(w: Worker) {
    !w.Bad? && !w.Noted?
  }

  /** A step of a worker that does all it is asked to. */
  function GoodStep(f: File, s: State, w: nat): Step
    requires w < |s.ws|
  {
    match s.ws[w]
    case Starting => Malloc(w, true)
    case Asking => Next(w)
    case Reading(o, len) => Read(w, if o >= |f| then 0 else if o + len <= |f| then len else |f| - o)
    case Writing(_, _, n) => Write(w, n)
    case _ => Note(w)
  }

  lemma GoodStepIsEnabled(f: File, buflen: nat, s: State, w: nat)
    requires Inv(f, s) && buflen > 0 && w < |s.ws| && Unfailed(s.ws[w]) && !Gone(s.ws[w])
    ensures Enabled(f, s, GoodStep(f, s, w))
    ensures var s' := After(f, buflen, s, GoodStep(f, s, w));
            && Unfailed(s'.ws[w]) && (s'.ws[w].NoMemory? ==> s.ws[w].NoMemory?)
            && (Rest(f, s') < Rest(f, s) || (Rest(f, s') == Rest(f, s) && Left(f, s'.ws[w]) < Left(f, s.ws[w])))
  {
    assert InBounds(f, s.off, s.ws[w]);
  }

  /** What has not been given out yet. */
  function Rest(f: File, s: State): nat {
    if s.off < |f| then |f| - s.off else 0
  }

  /** A worker that has not failed can run to the end of the file. */
  lemma {:induction false} WorkerEnds(f: File, buflen: nat, ss: seq<State>, acts: seq<Step>, w: nat)
    returns (ss': seq<State>, acts': seq<Step>)
    requires IsRun(f, buflen, ss, acts) && buflen > 0 && w < |Last(ss).ws| && Unfailed(Last(ss).ws[w])
    ensures GoesOn(f, buflen, ss, acts, ss', acts')
    ensures |Last(ss').ws| == |Last(ss).ws| && Gone(Last(ss').ws[w]) && Unfailed(Last(ss').ws[w])
    ensures Last(ss').ws == Last(ss).ws[w := Last(ss').ws[w]]
    ensures Last(ss').ws[w].NoMemory? ==> Last(ss).ws[w].NoMemory?
    decreases Rest(f, Last(ss)), Left(f, Last(ss).ws[w])
  {
    ss', acts' := ss, acts;
    var s := Last(ss);
    if !Gone(s.ws[w]) {
      RunKeeps(f, buflen, ss, acts, |ss| - 1);
      GoodStepIsEnabled(f, buflen, s, w);
      var tt, bs := Go(f, buflen, ss, acts, GoodStep(f, s, w));
      ss', acts' := WorkerEnds(f, buflen, tt, bs, w);
    }
  }

  /** The workers from w on, those before having exited. */
  lemma {:induction false} WorkersEnd(f: File, buflen: nat, ss: seq<State>, acts: seq<Step>, w: nat)
    returns (ss': seq<State>, acts': seq<Step>)
    requires IsRun(f, buflen, ss, acts) && buflen > 0 && w <= |Last(ss).ws|
    requires forall v :: 0 <= v < |Last(ss).ws| ==> Unfailed(Last(ss).ws[v]) && (v < w ==> Gone(Last(ss).ws[v]))
    ensures GoesOn(f, buflen, ss, acts, ss', acts') && Succeeds(Last(ss')) && |Last(ss').ws| == |Last(ss).ws|
    ensures forall v :: 0 <= v < |Last(ss).ws| ==> (Last(ss').ws[v].NoMemory? ==> Last(ss).ws[v].NoMemory?)
    decreases |Last(ss).ws| - w
  {
    ss', acts' := ss, acts;
    if w < |Last(ss).ws| {
      var tt, bs := WorkerEnds(f, buflen, ss, acts, w);
      ss', acts' := WorkersEnd(f, buflen, tt, bs, w + 1);
    }
  }

  /**
   * Whatever has been read and written so far, a run in which no worker has failed can go on so that copy1 succeeds
   * with the file copied, as long as some worker has memory or has not asked for it yet.
   */
  lemma CopyCanSucceed(f: File, buflen: nat, ss: seq<State>, acts: seq<Step>)
    returns (ss': seq<State>, acts': seq<Step>)
    requires IsRun(f, buflen, ss, acts) && buflen > 0
    requires forall v :: 0 <= v < |Last(ss).ws| ==> Unfailed(Last(ss).ws[v])
    requires exists v :: 0 <= v < |Last(ss).ws| && !Last(ss).ws[v].NoMemory?
    ensures GoesOn(f, buflen, ss, acts, ss', acts') && Succeeds(Last(ss'))
    ensures |Last(ss').dst| == |Last(ss').times| == |f| && Copied(f, Last(ss'))
  {
    ss', acts' := WorkersEnd(f, buflen, ss, acts, 0);
    var v :| 0 <= v < |Last(ss).ws| && !Last(ss).ws[v].NoMemory?;
    assert !Last(ss').ws[v].NoMemory?;
    SuccessMeansCopied(f, buflen, ss', acts', |ss'| - 1);
  }
}
