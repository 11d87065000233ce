// col's ring of half-lines against a page of unbounded length.

/** incr, decr, store, fetch, emit and the final flush of sys/src/cmd/col.c; a line is a string as outc leaves it. */
module Col {

  const PL := 256

  datatype Option<T> = None | Some(value: T)

  /** A line of text printed at a half-line of the paper. */
  type Printed = (int, string)

  // ----- the unbounded page ------------------------------------------------------

  /** Motion to the next or the previous half-line, and what outc makes of the current one. */
  datatype Command = Incr | Decr | Edit(text: string)

  /** Every half-line stored so far, the current one, the furthest one, and the text of the current one. */
  datatype Page = Page(doc: map<int, string>, ll: int, llh: int, buf: string)

  function Stored(doc: map<int, string>, k: int): Option<string> {
    if k in doc then Some(doc[k]) else None
  }

  function Text(doc: map<int, string>, k: int): string {
    if k in doc then doc[k] else ""
  }

  function Max(a: int, b: int): int {
    if a > b then a else b
  }

  /** The half-lines that lie further back than this have been printed. */
  function Horizon(llh: int): int {
    Max(0, llh + 1 - PL)
  }

  function Do(p: Page, c: Command): Page {
    match c
    case Incr =>
      var doc := p.doc[p.ll := p.buf];
      Page(doc, p.ll + 1, Max(p.llh, p.ll + 1), Text(doc, p.ll + 1))
    case Decr =>
      if p.ll > Horizon(p.llh) then
        var doc := p.doc[p.ll := p.buf];
        Page(doc, p.ll - 1, p.llh, Text(doc, p.ll - 1))
      else p
    case Edit(text) => p.(buf := text)
  }

  function DoAll(cs: seq<Command>): Page {
    if cs == [] then Page(map[], 0, 0, "") else Do(DoAll(cs[..|cs| - 1]), cs[|cs| - 1])
  }

  /** The half-lines from i up to j that hold text, in order. */
  function Lines(doc: map<int, string>, i: int, j: int): seq<Printed>
    decreases j - i
  {
    if i >= j then []
    else Lines(doc, i, j - 1) + if Text(doc, j - 1) != "" then [(j - 1, doc[j - 1])] else []
  }

  lemma {:induction false} LinesConcat(doc: map<int, string>, i: int, j: int, k: int)
    requires i <= j <= k
    ensures Lines(doc, i, k) == Lines(doc, i, j) + Lines(doc, j, k)
    decreases k - j
  {
    if j < k {
      LinesConcat(doc, i, j, k - 1);
    }
  }

  lemma {:induction false} LinesElsewhere(doc: map<int, string>, doc': map<int, string>, i: int, j: int)
    requires forall k :: i <= k < j ==> Stored(doc, k) == Stored(doc', k)
    ensures Lines(doc, i, j) == Lines(doc', i, j)
    decreases j - i
  {
    if i < j {
      LinesElsewhere(doc, doc', i, j - 1);
      assert Stored(doc, j - 1) == Stored(doc', j - 1);
    }
  }

  /** The half-line to which the paper is moved at the end. */
  function LastLine(llh: int): int {
    (llh + 1) / 2 * 2
  }

  // ----- the ring --------------------------------------------------------------------

  /** The ring holds the half-lines mustwr - PL up to mustwr, and those before have been printed. */
  ghost predicate Holds(page: seq<Option<string>>, doc: map<int, string>, mustwr: int) {
    && |page| == PL
    && forall k :: mustwr - PL <= k < mustwr ==> page[k % PL] == Stored(doc, k)
  }

  predicate InOrder(p: Page, mustwr: int) {
    && 0 <= p.ll <= p.llh && mustwr == Max(PL, p.llh + 1) && mustwr - PL <= p.ll
    && (forall k :: 0 <= k < p.llh ==> k in p.doc) && (forall k :: k in p.doc ==> 0 <= k <= p.llh)
  }

  lemma StoreInRing(page: seq<Option<string>>, doc: map<int, string>, mustwr: int, k: int, s: string)
    requires Holds(page, doc, mustwr) && mustwr - PL <= k < mustwr && mustwr >= PL
    ensures Holds(page[k % PL := Some(s)], doc[k := s], mustwr)
  {
  }

  class Ring {
    const page: array<Option<string>>
    var ll: int
    var llh: int
    var mustwr: int
    var lbuff: string
    /** The half-line of the paper that the printer stands at, and what it has printed where. */
    var cline: int
    var out: seq<Printed>
    /** The same with unbounded memory. */
    ghost var whole: Page

    ghost predicate Valid()
      reads this, page
    {
      && page.Length == PL && Holds(page[..], whole.doc, mustwr) && InOrder(whole, mustwr)
      && whole.ll == ll && whole.llh == llh && whole.buf == lbuff
      && 0 <= cline <= mustwr - PL && out == Lines(whole.doc, 0, mustwr - PL)
    }

    constructor ()
      ensures Valid() && whole == DoAll([]) && fresh(page)
    {
      page := new Option<string>[PL](_ => None);
      ll, llh, mustwr := 0, 0, PL;
      lbuff, cline, out := "", 0, [];
      whole := DoAll([]);
    }

    /** emit, as far as it moves the paper: full lines, then a half-line where needed. */
    method Emit(s: string, lineno: int)
      requires cline <= lineno
      modifies this`cline, this`out
      ensures s == "" ==> cline == old(cline) && out == old(out)
      ensures s != "" ==> cline == lineno && out == old(out) + [(lineno, s)]
    {
      if s == "" {
        return;
      }
      while cline < lineno - 1
        invariant cline <= lineno && out == old(out)
      {
        cline := cline + 2;
      }
      if cline != lineno {
        cline := cline + 1;
      }
      out := out + [(cline, s)];
    }

    method Store(lno: int)
      requires page.Length == PL && lno >= 0
      modifies page
      ensures page[..] == old(page[..])[lno % PL := Some(lbuff)]
    {
      page[lno % PL] := Some(lbuff);
    }

    method Fetch(lno: int)
      requires page.Length == PL && lno >= 0
      modifies this`lbuff
      ensures lbuff == if page[lno % PL].Some? then page[lno % PL].value else ""
    {
      lbuff := if page[lno % PL].Some? then page[lno % PL].value else "";
    }

    method SetLine(text: string)
      requires Valid()
      modifies this`lbuff, this`whole
      ensures Valid() && whole == Do(old(whole), Edit(text))
    {
      lbuff := text;
      whole := Do(whole, Edit(text));
    }

    /** decr: back by a half-line, if that one is still in the ring. */
    method Decr()
      requires Valid()
      modifies this`ll, this`lbuff, this`whole, page
      ensures Valid() && whole == Do(old(whole), Command.Decr)
    {
      ghost var w := whole;
      if ll > mustwr - PL {
        StoreInRing(page[..], whole.doc, mustwr, ll, lbuff);
        StoreEarlier(whole, mustwr);
        Store(ll);
        ll := ll - 1;
        Fetch(ll);
        whole := Do(w, Command.Decr);
      }
    }

    /** The first part of incr, up to the test of mustwr. */
    method StoreAndStep()
      requires Valid()
      modifies this`ll, this`llh, this`whole, page
      ensures whole == Do(old(whole), Command.Incr) && ll == whole.ll && llh == whole.llh
      ensures page.Length == PL && Holds(page[..], whole.doc, mustwr)
      ensures InOrder(whole, if ll >= mustwr then mustwr + 1 else mustwr) && out == Lines(whole.doc, 0, mustwr - PL)
      ensures ll >= mustwr ==> ll !in whole.doc
    {
      StoreInRing(page[..], whole.doc, mustwr, ll, lbuff);
      StoreForward(whole, mustwr);
      Store(ll);
      ll := ll + 1;
      if ll > llh {
        llh := ll;
      }
      whole := Do(whole, Command.Incr);
    }

    /** incr: on by a half-line; when that one takes the place of an older one, the older one is printed. */
    method Incr()
      requires Valid()
      modifies this, page
      ensures Valid() && whole == Do(old(whole), Command.Incr)
    {
      StoreAndStep();
      SlotOfNext(page[..], whole, mustwr);
      var lno := ll % PL;
      if ll >= mustwr && page[lno].Some? {
        Recycle();
      }
      FetchNext();
    }

    /** The last step of incr and decr. */
    method FetchNext()
      requires page.Length == PL && Holds(page[..], whole.doc, mustwr) && InOrder(whole, mustwr) && ll == whole.ll
      requires whole.buf == Text(whole.doc, ll)
      modifies this`lbuff
      ensures lbuff == whole.buf
    {
      assert page[..][ll % PL] == Stored(whole.doc, ll);
      Fetch(ll);
    }

    /** The line in the slot that the current line needs is printed. */
    method Recycle()
      requires page.Length == PL && Holds(page[..], whole.doc, mustwr) && out == Lines(whole.doc, 0, mustwr - PL)
      requires ll == mustwr >= PL && 0 <= cline <= ll - PL && page[ll % PL].Some? && ll !in whole.doc
      modifies this`cline, this`out, this`mustwr, page
      ensures mustwr == old(mustwr) + 1 && 0 <= cline <= mustwr - PL
      ensures Holds(page[..], whole.doc, mustwr) && out == Lines(whole.doc, 0, mustwr - PL)
    {
      var lno := ll % PL;
      RingTurns(page[..], whole.doc, ll);
      LinesConcat(whole.doc, 0, ll - PL, ll - PL + 1);
      Emit(page[lno].value, ll - PL);
      mustwr := mustwr + 1;
      page[lno] := None;
    }

    /** The loop at end of file: what is still in the ring, in order. */
    method FlushRing()
      requires Valid()
      modifies this`cline, this`out
      ensures cline <= llh && out == Lines(whole.doc, 0, mustwr)
    {
      ghost var first := mustwr - PL;
      for i := 0 to PL
        invariant 0 <= cline <= first + i && cline <= llh && out == Lines(whole.doc, 0, first + i)
      {
        FlushSlot((mustwr + i) % PL, mustwr + i - PL);
      }
    }

    /** The end of main: the ring is flushed and the paper moved past it all. */
    method Flush()
      requires Valid()
      modifies this`cline, this`out
      ensures out == Lines(whole.doc, 0, llh + 1) + [(LastLine(llh), " ")]
    {
      FlushRing();
      Beyond(whole.doc, llh + 1, mustwr);
      LinesConcat(whole.doc, 0, llh + 1, mustwr);
      Emit(" ", LastLine(llh));
    }

    method FlushSlot(lno: int, k: int)
      requires page.Length == PL && Holds(page[..], whole.doc, mustwr) && mustwr - PL <= k < mustwr
      requires lno == k % PL && 0 <= k && 0 <= cline <= k && out == Lines(whole.doc, 0, k)
      modifies this`cline, this`out
      ensures 0 <= cline <= k && out == Lines(whole.doc, 0, k + 1)
      ensures cline == old(cline) || k in whole.doc
    {
      assert page[..][lno] == Stored(whole.doc, k);
      if page[lno].Some? {
        Emit(page[lno].value, k);
      }
    }
  }

  /** There is nothing beyond the furthest line. */
  lemma {:induction false} Beyond(doc: map<int, string>, i: int, j: int)
    requires forall k :: k in doc ==> k < i
    ensures Lines(doc, i, j) == []
    decreases j - i
  {
    if i < j {
      Beyond(doc, i, j - 1);
    }
  }

  /** When the current line has run past the ring, its slot holds the oldest line. */
  lemma SlotOfNext(page: seq<Option<string>>, p: Page, mustwr: int)
    requires mustwr >= PL && Holds(page, p.doc, mustwr) && InOrder(p, if p.ll >= mustwr then mustwr + 1 else mustwr)
    ensures p.ll >= mustwr ==> p.ll == mustwr && page[p.ll % PL].Some?
  {
    assert (mustwr - PL) % PL == mustwr % PL;
  }

  /** The slot of the oldest line is free for the next one. */
  lemma RingTurns(page: seq<Option<string>>, doc: map<int, string>, mustwr: int)
    requires Holds(page, doc, mustwr) && mustwr >= PL && mustwr !in doc
    ensures page[mustwr % PL] == Stored(doc, mustwr - PL)
    ensures Holds(page[mustwr % PL := None], doc, mustwr + 1)
  {
    assert (mustwr - PL) % PL == mustwr % PL;
  }

  /** Storing the current line before moving back. */
  lemma StoreEarlier(p: Page, mustwr: int)
    requires InOrder(p, mustwr)
    ensures Horizon(p.llh) == mustwr - PL
    ensures p.ll > mustwr - PL ==> InOrder(Do(p, Decr), mustwr)
    ensures p.ll > mustwr - PL ==> Lines(Do(p, Decr).doc, 0, mustwr - PL) == Lines(p.doc, 0, mustwr - PL)
  {
    if p.ll > mustwr - PL {
      LinesElsewhere(p.doc, Do(p, Decr).doc, 0, mustwr - PL);
    }
  }

  /** Storing the current line before moving on. */
  lemma StoreForward(p: Page, mustwr: int)
    requires InOrder(p, mustwr)
    ensures var q := Do(p, Incr);
            InOrder(q, if p.ll + 1 >= mustwr then mustwr + 1 else mustwr) &&
            Lines(q.doc, 0, mustwr - PL) == Lines(p.doc, 0, mustwr - PL) && (q.ll >= mustwr ==> q.ll !in q.doc)
  {
    LinesElsewhere(p.doc, Do(p, Incr).doc, 0, mustwr - PL);
  }

  // ----- the whole program -------------------------------------------------------------

  /**
   * The loop of main and the flush after it: with a ring of 256 half-lines, col prints what it would print from a page
   * of any length, each half-line that holds text once, in order, as it was last stored.
   */
  method Col(cs: seq<Command>) returns (out: seq<Printed>)
    ensures var p := DoAll(cs); out == Lines(p.doc, 0, p.llh + 1) + [(LastLine(p.llh), " ")]
  {
    var r := new Ring();
    for i := 0 to |cs|
      invariant r.Valid() && fresh(r) && fresh(r.page) && r.whole == DoAll(cs[..i])
    {
      assert cs[..i + 1][..i] == cs[..i];
      match cs[i]
      case Incr => r.Incr();
      case Decr => r.Decr();
      case Edit(text) => r.SetLine(text);
    }
    assert cs[..|cs|] == cs;
    r.Flush();
    out := r.out;
  }

  /** A line of the page that holds text, in its place. */
  predicate IsPrinted(doc: map<int, string>, i: int, j: int, x: Printed) {
    i <= x.0 < j && x.0 in doc && x.1 == doc[x.0] && x.1 != ""
  }

  predicate AllPrinted(doc: map<int, string>, i: int, j: int, t: seq<Printed>) {
    && (forall k :: 0 <= k < |t| ==> IsPrinted(doc, i, j, t[k]))
    && forall k, l :: 0 <= k < l < |t| ==> t[k].0 < t[l].0
  }

  /** What is printed stands in increasing order, no half-line twice. */
  lemma {:induction false} LinesIncrease(doc: map<int, string>, i: int, j: int)
    ensures AllPrinted(doc, i, j, Lines(doc, i, j))
    decreases j - i
  {
    if i < j {
      LinesIncrease(doc, i, j - 1);
      var s := Lines(doc, i, j - 1);
      assert forall k :: 0 <= k < |s| ==> IsPrinted(doc, i, j - 1, s[k]);
    }
  }

  /** No half-line with text is left out. */
  lemma {:induction false} LinesComplete(doc: map<int, string>, i: int, j: int, k: int)
    requires i <= k < j && Text(doc, k) != ""
    ensures (k, doc[k]) in Lines(doc, i, j)
    decreases j - i
  {
    var t := Lines(doc, i, j);
    if k < j - 1 {
      LinesComplete(doc, i, j - 1, k);
      var n :| 0 <= n < |Lines(doc, i, j - 1)| && Lines(doc, i, j - 1)[n] == (k, doc[k]);
      assert t[n] == (k, doc[k]);
    } else {
      assert t[|t| - 1] == (k, doc[k]);
    }
  }

  /** What would be printed if the current line were stored at the end: every half-line with its final text. */
  function FinalLines(p: Page): seq<Printed> {
    Lines(p.doc[p.ll := p.buf], 0, p.llh + 1)
  }

  lemma {:induction false} CurrentInRange(cs: seq<Command>)
    ensures var p := DoAll(cs); 0 <= p.ll <= p.llh
  {
    if cs != [] {
      CurrentInRange(cs[..|cs| - 1]);
    }
  }

  lemma {:induction false} SameText(doc: map<int, string>, doc': map<int, string>, i: int, j: int)
    requires forall k :: i <= k < j ==> Text(doc, k) == Text(doc', k)
    ensures Lines(doc, i, j) == Lines(doc', i, j)
    decreases j - i
  {
    if i < j {
      SameText(doc, doc', i, j - 1);
      assert Text(doc, j - 1) == Text(doc', j - 1);
    }
  }

  /** A half-line that holds text in one page and not the same in the other tells their lines apart. */
  lemma OtherText(doc: map<int, string>, doc': map<int, string>, i: int, j: int, k: int)
    requires i <= k < j && Text(doc, k) != "" && Text(doc, k) != Text(doc', k)
    ensures Lines(doc, i, j) != Lines(doc', i, j)
  {
    LinesComplete(doc, i, j, k);
    LinesIncrease(doc', i, j);
    var t := Lines(doc', i, j);
    assert forall n :: 0 <= n < |t| ==> IsPrinted(doc', i, j, t[n]);
  }

  // ----- what stands on the page ---------------------------------------------------

  /** Where the motions lead, and the furthest they have led: back no further than the ring reaches. */
  function Where(cs: seq<Command>): (int, int) {
    if cs == [] then (0, 0)
    else
      var (ll, llh) := Where(cs[..|cs| - 1]);
      match cs[|cs| - 1]
      case Incr => (ll + 1, if ll == llh then llh + 1 else llh)
      case Decr => if ll > 0 && ll > llh - (PL - 1) then (ll - 1, llh) else (ll, llh)
      case Edit(_) => (ll, llh)
  }

  /** What was last made of half-line k while the paper stood there. */
  function Typed(cs: seq<Command>, k: int): string {
    if cs == [] then ""
    else
      var before, c := cs[..|cs| - 1], cs[|cs| - 1];
      if c.Edit? && Where(before).0 == k then c.text else Typed(before, k)
  }

  /** The page holds, on every half-line, what was last made of it; on the current one that is in the buffer. */
  lemma {:induction false} PageIsTyped(cs: seq<Command>)
    ensures var p := DoAll(cs);
            && (p.ll, p.llh) == Where(cs) && p.buf == Typed(cs, p.ll)
            && forall k :: k != p.ll ==> Text(p.doc, k) == Typed(cs, k)
  {
    CurrentInRange(cs);
    if cs != [] {
      PageIsTyped(cs[..|cs| - 1]);
      CurrentInRange(cs[..|cs| - 1]);
    }
  }

  /**
   * A line is stored only when the paper moves off it: col prints every half-line with its final text if and only if
   * the current one holds, at the end, what was last stored of it.
   */
  lemma LastTextIsLost(cs: seq<Command>)
    ensures var p := DoAll(cs); Lines(p.doc, 0, p.llh + 1) == FinalLines(p) <==> p.buf == Text(p.doc, p.ll)
  {
    CurrentInRange(cs);
    LastText(DoAll(cs));
  }

  lemma LastText(p: Page)
    requires 0 <= p.ll <= p.llh
    ensures Lines(p.doc, 0, p.llh + 1) == FinalLines(p) <==> p.buf == Text(p.doc, p.ll)
  {
    var doc := p.doc[p.ll := p.buf];
    if p.buf == Text(p.doc, p.ll) {
      SameText(p.doc, doc, 0, p.llh + 1);
    } else if p.buf != "" {
      OtherText(doc, p.doc, 0, p.llh + 1, p.ll);
    } else {
      OtherText(p.doc, doc, 0, p.llh + 1, p.ll);
    }
  }

  /** A file without a newline comes out empty. */
  lemma LoneTextIsLost()
    ensures var p := DoAll([Edit("a")]);
            Lines(p.doc, 0, p.llh + 1) == [] && FinalLines(p) == [(0, "a")]
  {
    var cs := [Edit("a")];
    assert cs[..0] == [];
    var p := DoAll(cs);
    assert p == Page(map[], 0, 0, "a");
    assert Lines(p.doc, 0, 0) == [] && Lines(p.doc[0 := "a"], 0, 0) == [];
  }
}
