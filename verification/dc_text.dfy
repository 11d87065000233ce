// Decimal text in and out of dc: printing a number in base ten and reading it back.

/** readin, scale, dcprint, tenot and the command _ of sys/src/cmd/dc.c. */
module DcText {
  import opened DcNumber
  import opened DcBlock
  import opened DcArith
  import opened DcDivide
  import opened DcRoot
  import opened DcScaled
  import opened DcCommand

  // ----- the reader as an automaton ----------------------------------------

  /** readin between two characters: the digits so far as an integer, whether a point was seen, places after it. */
  datatype Reader = Reader(v: int, dp: bool, dpct: nat, skip: bool)

  const START := Reader(0, false, 0, false)

  /** The value of a digit character, or -1. */
  function DigitOf(c: char): int {
    if 'A' <= c <= 'F' then c as int - 'A' as int + 10
    else if '0' <= c <= '9' then c as int - '0' as int
    else -1
  }

  /** A character that ends the number. */
  predicate Stops(r: Reader, c: char) {
    !r.skip && c != '\\' && !(c == '.' && !r.dp) && DigitOf(c) < 0
  }

  function Step(r: Reader, c: char, base: int): Reader
    requires !Stops(r, c)
  {
    if r.skip then r.(skip := false)
    else if c == '\\' then r.(skip := true)
    else if c == '.' && !r.dp then r.(dp := true)
    else if r.dp && r.dpct >= 99 then r
    else Reader(r.v * base + DigitOf(c), r.dp, if r.dp then r.dpct + 1 else r.dpct, false)
  }

  datatype Scan = Reading(r: Reader) | Ended

  /** The reader after a whole text, or Ended if some character of it ends the number. */
  function Consume(text: string, base: int): Scan {
    if text == [] then Reading(START)
    else
      match Consume(text[..|text| - 1], base)
      case Ended => Ended
      case Reading(r) => if Stops(r, text[|text| - 1]) then Ended else Reading(Step(r, text[|text| - 1], base))
  }

  lemma ConsumeSnoc(text: string, c: char, base: int)
    ensures Consume(text + [c], base) ==
            match Consume(text, base)
            case Ended => Ended
            case Reading(r) => if Stops(r, c) then Ended else Reading(Step(r, c, base))
  {
    assert (text + [c])[..|text|] == text;
  }

  // ----- what digits are worth ----------------------------------------------------

  predicate AllDigits(text: string) {
    forall i :: 0 <= i < |text| ==> DigitOf(text[i]) >= 0
  }

  /** The value of digits by their places, the last of which is that of the units. */
  function PlaceValue(text: string, base: int): int {
    if text == [] then 0 else DigitOf(text[0]) * Power(base, |text| - 1) + PlaceValue(text[1..], base)
  }

  lemma {:induction false} PlaceValueSnoc(text: string, c: char, base: int)
    ensures PlaceValue(text + [c], base) == PlaceValue(text, base) * base + DigitOf(c)
    decreases |text|
  {
    if text == [] {
      assert PlaceValue([c], base) == DigitOf(c) * Power(base, 0) + PlaceValue([], base);
    } else {
      assert (text + [c])[1..] == text[1..] + [c];
      PlaceValueSnoc(text[1..], c, base);
      PlaceRises(DigitOf(text[0]), base, Power(base, |text| - 1), PlaceValue(text[1..], base));
    }
  }

  lemma PlaceRises(d: int, base: int, p: int, v: int)
    ensures d * (base * p) + v * base == (d * p + v) * base
  {
  }

  /** The sixteen digits in order. */
  lemma DigitsInOrder(d: nat)
    requires d < 16
    ensures DigitOf("0123456789ABCDEF"[d]) == d
  {
  }

  /** Digits are read as the value of their places, in any base. */
  lemma {:induction false} DigitsAreRead(text: string, base: int)
    requires AllDigits(text)
    ensures Consume(text, base) == Reading(Reader(PlaceValue(text, base), false, 0, false))
  {
    if text != [] {
      var n := |text| - 1;
      assert text == text[..n] + [text[n]];
      DigitsAreRead(text[..n], base);
      PlaceValueSnoc(text[..n], text[n], base);
    }
  }

  /** With a point among them they are the same number, and its places are counted up to 99. */
  lemma {:induction false} PlacesAreRead(a: string, b: string, base: int)
    requires AllDigits(a) && AllDigits(b) && |b| <= 99
    ensures Consume(a + ['.'] + b, base) == Reading(Reader(PlaceValue(a + b, base), true, |b|, false))
    decreases |b|
  {
    if b == [] {
      DigitsAreRead(a, base);
      ConsumeSnoc(a, '.', base);
      assert a + ['.'] + b == a + ['.'] && a + b == a;
    } else {
      var n := |b| - 1;
      assert a + ['.'] + b == (a + ['.'] + b[..n]) + [b[n]] && a + b == (a + b[..n]) + [b[n]];
      PlacesAreRead(a, b[..n], base);
      ConsumeSnoc(a + ['.'] + b[..n], b[n], base);
      PlaceValueSnoc(a + b[..n], b[n], base);
    }
  }

  // ----- scale -------------------------------------------------------------

  /** Power is dc's power of ten. */
  lemma {:induction false} PowerOfTen(n: nat)
    ensures Power(10, n) == Ten(n)
  {
    if n > 0 {
      PowerOfTen(n - 1);
    }
  }

  /** scale: turns an integer read with n digits after the point, in base inbas, into a decimal of n places. */
  method Scale(p: Blk, n: nat, inbas: Blk, tenptr: Blk, sqtemp: Blk, divxyz: Blk) returns (q: Blk)
    requires p != tenptr && p != divxyz && p != inbas && tenptr != sqtemp && tenptr != divxyz && sqtemp != divxyz
    requires inbas != tenptr && inbas != sqtemp && inbas != divxyz
    requires Normal(p.buf) && Normal(inbas.buf) && inbas.buf != [] && n <= 99
    requires tenptr.buf == [10] && sqtemp.buf == [2]
    modifies p`rd, inbas`rd, tenptr`rd, sqtemp`rd, divxyz
    ensures fresh(q) && Decimal(q.buf) && Places(q.buf) == n
    ensures Power(Val(inbas.buf), n) != 0
    ensures Mant(q.buf) == Quot(Val(p.buf) * Ten(n), Power(Val(inbas.buf), n))
  {
    var t := Add0(p, n, tenptr);
    var ex := new Blk(1);
    ex.PutC(n);
    assert Val(ex.buf) == n by { assert ex.buf[..0] == []; assert Pow(0) == 1; }
    var s := DcExp(inbas, ex, sqtemp, divxyz);
    ZeroIsEmpty(inbas.buf);
    PowerNonZero(Val(inbas.buf), n);
    var rem;
    q, rem := Div(t, s, divxyz);
    QuotUnique(Val(t.buf), Val(s.buf), Val(q.buf), Val(rem.buf));
    ghost var digits := q.buf;
    q.PutC(n);
    assert q.buf[..|q.buf| - 1] == digits;
  }

  lemma {:induction false} PowerNonZero(b: int, n: nat)
    requires b != 0
    ensures Power(b, n) != 0
  {
    if n > 0 {
      PowerNonZero(b, n - 1);
    }
  }

  // ----- readin ------------------------------------------------------------

  /** chptr := the digit c, and then p := chptr + p * inbas. */
  method AppendDigit(p: Blk, c: int, chptr: Blk, inbas: Blk) returns (p': Blk)
    requires p != chptr && p != inbas && chptr != inbas
    requires Normal(p.buf) && Normal(inbas.buf) && 0 <= c <= 15
    modifies p`rd, chptr, inbas`rd
    ensures fresh(p') && Normal(p'.buf) && Val(p'.buf) == Val(p.buf) * Val(inbas.buf) + c
  {
    chptr.Create();
    if c != 0 {
      chptr.PutC(c);
    }
    assert Val(chptr.buf) == c by { if c != 0 { assert chptr.buf[..0] == []; assert Pow(0) == 1; } }
    var q := Mult(p, inbas);
    p' := Add(chptr, q);
  }

  /** What readin returns for the state the reader stopped in. */
  predicate IsRead(s: seq<int>, r: Reader, base: int)
    requires base != 0
  {
    && Decimal(s)
    && (if r.dp then
          Places(s) == r.dpct && Power(base, r.dpct) != 0 && Mant(s) == Quot(r.v * Ten(r.dpct), Power(base, r.dpct))
        else Places(s) == 0 && Mant(s) == r.v)
  }

  /**
   * readin: reads a number from the characters at `start`, in base inbas. It stops at the first character that
   * cannot continue the number, which stays unread; when the input runs out first there is no result, as readc
   * then ends the program.
   */
  method ReadIn(text: string, start: nat, chptr: Blk, inbas: Blk, tenptr: Blk, sqtemp: Blk, divxyz: Blk)
    returns (p: Blk?, pos: nat)
    requires start <= |text|
    requires chptr != inbas && chptr != tenptr && chptr != sqtemp && chptr != divxyz
    requires inbas != tenptr && inbas != sqtemp && inbas != divxyz
    requires tenptr != sqtemp && tenptr != divxyz && sqtemp != divxyz
    requires Normal(inbas.buf) && inbas.buf != [] && tenptr.buf == [10] && sqtemp.buf == [2]
    modifies chptr, inbas`rd, tenptr`rd, sqtemp`rd, divxyz
    ensures Val(inbas.buf) != 0 && start <= pos <= |text|
    ensures Consume(text[start..pos], Val(inbas.buf)).Reading?
    ensures (p == null <==> pos == |text|) && (p != null ==> fresh(p))
    ensures p != null ==> Stops(Consume(text[start..pos], Val(inbas.buf)).r, text[pos])
    ensures p != null ==> IsRead(p.buf, Consume(text[start..pos], Val(inbas.buf)).r, Val(inbas.buf))
  {
    ghost var base := Val(inbas.buf);
    ZeroIsEmpty(inbas.buf);
    var q := new Blk(0);
    ghost var r := START;
    var dp, dpct, skip := false, 0, false;
    pos := start;
    while pos < |text|
      invariant fresh(q) && Normal(q.buf) && start <= pos <= |text|
      invariant Consume(text[start..pos], base) == Reading(r)
      invariant r == Reader(Val(q.buf), dp, dpct, skip) && dpct <= 99
      decreases |text| - pos
    {
      var c := text[pos];
      assert text[start..pos + 1] == text[start..pos] + [c];
      ConsumeSnoc(text[start..pos], c, base);
      var stop;
      stop, q, dp, dpct, skip := TakeChar(c, q, dp, dpct, skip, chptr, inbas);
      if stop {
        break;
      }
      r := Step(r, c, base);
      pos := pos + 1;
    }
    if pos == |text| {
      return null, pos;
    }
    p := FinishNumber(q, dp, dpct, inbas, tenptr, sqtemp, divxyz);
  }

  /** One character of the loop of readin: the state after it, unless it ends the number. */
  method TakeChar(c: char, q: Blk, dp: bool, dpct: nat, skip: bool, chptr: Blk, inbas: Blk)
    returns (stop: bool, q': Blk, dp': bool, dpct': nat, skip': bool)
    requires q != chptr && q != inbas && chptr != inbas && Normal(q.buf) && Normal(inbas.buf) && dpct <= 99
    requires Val(inbas.buf) != 0
    modifies q`rd, chptr, inbas`rd
    ensures Normal(q'.buf) && (q' == q || fresh(q')) && dpct' <= 99
    ensures stop == Stops(Reader(Val(q.buf), dp, dpct, skip), c)
    ensures stop ==> q' == q && dp' == dp && dpct' == dpct && skip' == skip
    ensures !stop ==>
              Step(Reader(Val(q.buf), dp, dpct, skip), c, Val(inbas.buf)) == Reader(Val(q'.buf), dp', dpct', skip')
  {
    stop, q', dp', dpct', skip' := false, q, dp, dpct, skip;
    if skip {
      skip' := false;
    } else if c == '.' && !dp {
      dp' := true;
    } else if c == '\\' {
      skip' := true;
    } else {
      var d := CharDigit(c);
      if d < 0 {
        stop := true;
        return;
      }
      if !(dp && dpct >= 99) {
        if dp {
          dpct' := dpct + 1;
        }
        q' := AppendDigit(q, d, chptr, inbas);
      }
    }
  }

  method CharDigit(c: char) returns (d: int)
    ensures d == DigitOf(c) && d <= 15
  {
    if 'A' <= c <= 'F' {
      d := c as int - 'A' as int + 10;
    } else if '0' <= c <= '9' {
      d := c as int - '0' as int;
    } else {
      d := -1;
    }
  }

  /** The end of readin: the scale is put on the digits read. */
  method FinishNumber(q: Blk, dp: bool, dpct: nat, inbas: Blk, tenptr: Blk, sqtemp: Blk, divxyz: Blk) returns (p: Blk)
    requires q != tenptr && q != divxyz && q != inbas && tenptr != sqtemp && tenptr != divxyz && sqtemp != divxyz
    requires inbas != tenptr && inbas != sqtemp && inbas != divxyz
    requires Normal(q.buf) && Normal(inbas.buf) && Val(inbas.buf) != 0 && dpct <= 99
    requires tenptr.buf == [10] && sqtemp.buf == [2]
    modifies q, inbas`rd, tenptr`rd, sqtemp`rd, divxyz
    ensures (p == q || fresh(p)) && IsRead(p.buf, Reader(Val(old(q.buf)), dp, dpct, false), Val(inbas.buf))
  {
    if !dp {
      ghost var digits := q.buf;
      q.PutC(0);
      assert q.buf[..|q.buf| - 1] == digits;
      return q;
    }
    p := Scale(q, dpct, inbas, tenptr, sqtemp, divxyz);
  }

  // ----- tenot -------------------------------------------------------------

  function DigitChar(d: int): (c: char)
    requires 0 <= d < 10
    ensures DigitOf(c) == d && c != '.' && c != '\\'
  {
    (d + '0' as int) as char
  }

  /** The output with the column count that decides where lines are folded; a sign is kept apart from what follows. */
  class Printer {
    var sign: string
    var text: string
    var count: int
    const ll: int

    constructor (ll: int)
      ensures sign == [] && count == ll && this.ll == ll && Shows(START)
    {
      sign, text, count := [], [], ll;
      this.ll := ll;
    }

    /** The state of a reader, in base ten, that has read everything printed so far after the sign. */
    ghost predicate Shows(r: Reader)
      reads this`text
    {
      Consume(text, 10) == Reading(r) && !r.skip
    }

    /** The sign, a counted character. */
    method OutSign()
      requires Shows(START)
      modifies this
      ensures sign == "-" && Shows(START)
    {
      sign := "-";
      count := count - 1;
      if count == 0 {
        Fold(START);
      }
    }

    /** A character without counting it. */
    method Put(c: char, ghost r: Reader)
      requires Shows(r) && !Stops(r, c) && c != '\\'
      modifies this`text
      ensures Shows(Step(r, c, 10))
    {
      ConsumeSnoc(text, c, 10);
      text := text + [c];
    }

    /** A backslash and a newline, which the reader skips. */
    method Fold(ghost r: Reader)
      requires Shows(r)
      modifies this`text, this`count
      ensures Shows(r)
    {
      ConsumeSnoc(text, '\\', 10);
      ConsumeSnoc(text + ['\\'], '\n', 10);
      text := text + ['\\'] + ['\n'];
      count := ll;
    }

    /** OUTC: a counted character. */
    method OutC(c: char, ghost r: Reader)
      requires Shows(r) && !Stops(r, c) && c != '\\'
      modifies this`text, this`count
      ensures Shows(Step(r, c, 10))
    {
      Put(c, r);
      count := count - 1;
      if count == 0 {
        Fold(Step(r, c, 10));
      }
    }

    /** TEST2: counts two characters just printed. */
    method CountTwo(ghost r: Reader)
      requires Shows(r)
      modifies this`text, this`count
      ensures Shows(r)
    {
      count := count - 2;
      if count <= 0 {
        Fold(r);
      }
    }

    /** The decimal digits of c, with a leading zero on request. */
    method PutPair(c: int, padded: bool, ghost r: Reader)
      requires Shows(r) && 0 <= c < 100 && (padded || (r.v == 0 && !r.dp)) && (r.dp ==> r.dpct <= 97)
      modifies this`text
      ensures Shows(Reader(r.v * 100 + c, r.dp, if r.dp then r.dpct + 2 else r.dpct, false))
    {
      if c >= 10 || padded {
        Put(DigitChar(c / 10), r);
        ghost var r1 := Step(r, DigitChar(c / 10), 10);
        Put(DigitChar(c % 10), r1);
        assert r1.v * 10 + c % 10 == r.v * 100 + c;
      } else {
        Put(DigitChar(c), r);
      }
    }
  }

  /** The reader once the digits of s from index i up have been printed. */
  function Shown(s: seq<int>, i: nat, dp: bool, dpct: nat): Reader
    requires i <= |s|
  {
    Reader(Val(s[i..]), dp, dpct, false)
  }

  lemma NextPair(s: seq<int>, i: nat)
    requires 0 < i <= |s|
    ensures Val(s[i - 1..]) == 100 * Val(s[i..]) + s[i - 1]
  {
    assert s[i - 1..] == [s[i - 1]] + s[i..];
    ConsVal(s[i - 1], s[i..]);
  }

  /** The integer part of tenot. */
  method IntegerPart(p: Blk, sc: nat, out: Printer)
    requires Digits(p.buf) && out.Shows(START)
    modifies p`rd, out`text, out`count
    ensures p.rd <= |p.buf| && out.Shows(Shown(p.buf, p.rd, false, 0))
    ensures p.rd == 0 || (p.rd - 1) * 2 < sc
    ensures p.rd == |p.buf| || sc <= p.rd * 2
  {
    p.FsFile();
    var f := false;
    assert p.buf[|p.buf|..] == [];
    while p.rd != 0 && (p.rd - 1) * 2 >= sc
      invariant p.rd <= |p.buf| && out.Shows(Shown(p.buf, p.rd, false, 0))
      invariant !f <==> p.rd == |p.buf|
      invariant p.rd == |p.buf| || sc <= p.rd * 2
      decreases p.rd
    {
      NextPair(p.buf, p.rd);
      ghost var r := Shown(p.buf, p.rd, false, 0);
      var c := p.BackC();
      out.PutPair(c, f, r);
      f := true;
      out.CountTwo(Shown(p.buf, p.rd, false, 0));
    }
  }

  /** A point inside the pair of digits under the cursor. */
  method PointInPair(p: Blk, out: Printer)
    requires Digits(p.buf) && 0 < p.rd <= |p.buf| && out.Shows(Shown(p.buf, p.rd, false, 0))
    modifies p`rd, out`text, out`count
    ensures p.rd == old(p.rd) - 1 && out.Shows(Shown(p.buf, p.rd, true, 1))
  {
    ghost var v := Val(p.buf[p.rd..]);
    NextPair(p.buf, p.rd);
    var c := p.BackC();
    PutAround(c / 10, c % 10, out, v);
  }

  /** Two digits with a point between them. */
  method PutAround(hi: int, lo: int, out: Printer, ghost v: int)
    requires 0 <= hi < 10 && 0 <= lo < 10 && out.Shows(Reader(v, false, 0, false))
    modifies out`text, out`count
    ensures out.Shows(Reader(100 * v + (10 * hi + lo), true, 1, false))
  {
    out.Put(DigitChar(hi), Reader(v, false, 0, false));
    out.Put('.', Reader(v * 10 + hi, false, 0, false));
    out.CountTwo(Reader(v * 10 + hi, true, 0, false));
    out.OutC(DigitChar(lo), Reader(v * 10 + hi, true, 0, false));
  }

  /** The point of tenot, between two digits or inside a pair. */
  method Point(p: Blk, sc: nat, out: Printer) returns (left: nat)
    requires Digits(p.buf) && p.rd <= |p.buf| && 0 < sc <= 99 && out.Shows(Shown(p.buf, p.rd, false, 0))
    requires p.rd == 0 || (p.rd - 1) * 2 < sc
    requires p.rd == |p.buf| || sc <= p.rd * 2
    modifies p`rd, out`text, out`count
    ensures p.rd <= |p.buf| && p.rd * 2 <= left <= sc && out.Shows(Shown(p.buf, p.rd, true, sc - left))
    ensures left == p.rd * 2 || p.rd == |p.buf|
  {
    left := sc;
    if p.rd * 2 > sc {
      PointInPair(p, out);
      left := left - 1;
    } else {
      out.OutC('.', Shown(p.buf, p.rd, false, 0));
    }
  }

  /** The zeros between the point and the first digit. */
  method LeadingZeros(p: Blk, left: nat, out: Printer, ghost sc: nat) returns (n: nat)
    requires Digits(p.buf) && p.rd <= |p.buf| && p.rd * 2 <= left <= sc <= 99
    requires out.Shows(Shown(p.buf, p.rd, true, sc - left))
    requires left == p.rd * 2 || p.rd == |p.buf|
    modifies out`text, out`count
    ensures n == p.rd * 2 && out.Shows(Shown(p.buf, p.rd, true, sc - n))
  {
    n := left;
    while n > p.rd * 2
      invariant p.rd * 2 <= n <= sc && (n == p.rd * 2 || p.rd == |p.buf|)
      invariant out.Shows(Shown(p.buf, p.rd, true, sc - n))
    {
      assert p.buf[p.rd..] == [];
      out.OutC('0', Shown(p.buf, p.rd, true, sc - n));
      n := n - 1;
    }
  }

  /** The zeros between the point and the first digit, and the digits after the point. */
  method FractionPart(p: Blk, left: nat, out: Printer, ghost sc: nat)
    requires Digits(p.buf) && p.rd <= |p.buf| && p.rd * 2 <= left <= sc <= 99
    requires out.Shows(Shown(p.buf, p.rd, true, sc - left))
    requires left == p.rd * 2 || p.rd == |p.buf|
    modifies p`rd, out`text, out`count
    ensures p.rd == 0 && out.Shows(Shown(p.buf, 0, true, sc))
  {
    var n := LeadingZeros(p, left, out, sc);
    while n > 1
      invariant p.rd <= |p.buf| && n == p.rd * 2 && n <= sc
      invariant out.Shows(Shown(p.buf, p.rd, true, sc - n))
      decreases n
    {
      NextPair(p.buf, p.rd);
      ghost var r := Shown(p.buf, p.rd, true, sc - n);
      var c := p.BackC();
      out.PutPair(c, true, r);
      n := n - 2;
      out.CountTwo(Shown(p.buf, p.rd, true, sc - n));
    }
    // an odd place left over is never reached: the point was put inside a pair when sc is odd
  }

  /** What a number of this magnitude and scale looks like to a reader. */
  function Seen(v: int, sc: nat): Reader {
    Reader(v, sc > 0, sc, false)
  }

  /** A line that a reader takes in as that number. */
  predicate IsLineOf(line: string, v: int, sc: nat) {
    && line != [] && line[|line| - 1] == '\n'
    && Consume(line[..|line| - 1], 10) == Reading(Seen(v, sc))
  }

  /** tenot: the text of a nonnegative number with sc decimal places, which a reader takes in as that number. */
  method TenOut(p: Blk, sc: nat, out: Printer)
    requires Digits(p.buf) && sc <= 99 && out.Shows(START)
    modifies p`rd, out`text, out`count
    ensures IsLineOf(out.text, Val(p.buf), sc)
  {
    TenPlaces(p, sc, out);
    assert (out.text + ['\n'])[..|out.text|] == out.text;
    out.text := out.text + ['\n'];
  }

  /** The digits of tenot, with a point when there are places. */
  method TenPlaces(p: Blk, sc: nat, out: Printer)
    requires Digits(p.buf) && sc <= 99 && out.Shows(START)
    modifies p`rd, out`text, out`count
    ensures out.Shows(Seen(Val(p.buf), sc))
  {
    IntegerPart(p, sc, out);
    if sc > 0 {
      var left := Point(p, sc, out);
      FractionPart(p, left, out, sc);
    }
    assert p.buf[0..] == p.buf;
  }

  // ----- dcprint ------------------------------------------------------------

  /** What dcprint writes of a number: every zero is a plain one, and a negative number has a sign in front. */
  predicate IsPrinted(text: string, v: int, sc: nat) {
    if v == 0 then text == "0\n"
    else if v > 0 then IsLineOf(text, v, sc)
    else text != [] && text[0] == '-' && IsLineOf(text[1..], -v, sc)
  }

  /** dcprint in base ten, on a number; no digit and no scale of one is above 99, which is the mark of a string. */
  method DcPrint(hptr: Blk, ll: int) returns (text: string)
    requires Decimal(hptr.buf)
    modifies hptr`rd
    ensures IsPrinted(text, Mant(hptr.buf), Places(hptr.buf))
  {
    ZeroIsEmpty(hptr.buf[..|hptr.buf| - 1]);
    hptr.FsFile();
    var sc := hptr.BackC();
    if hptr.AtBeg() {
      return "0\n";
    }
    var p := new Blk.Copy(hptr, |hptr.buf|);
    var top := p.UnputC();
    text := PrintMantissa(p, sc, ll);
  }

  /** dcprint past its test for zero. */
  method PrintMantissa(p: Blk, sc: nat, ll: int) returns (text: string)
    requires Normal(p.buf) && Val(p.buf) != 0 && sc <= 99
    modifies p
    ensures IsPrinted(text, Val(old(p.buf)), sc)
  {
    SignOfNumber(p.buf);
    p.FsFile();
    var c := p.BackC();
    var out := new Printer(ll);
    if c < 0 {
      ChSign(p);
      SignOfNumber(p.buf);
      out.OutSign();
    }
    TenOut(p, sc, out);
    text := out.sign + out.text;
    assert out.sign == [] ==> text == out.text;
    assert out.sign == "-" ==> text[1..] == out.text;
  }

  // ----- the round trip ----------------------------------------------------

  /** The blocks that readin works with, in input base ten. */
  ghost predicate ReadsDecimals(chptr: Blk, inbas: Blk, tenptr: Blk, sqtemp: Blk, divxyz: Blk)
    reads inbas, tenptr, sqtemp
  {
    && chptr != inbas && chptr != tenptr && chptr != sqtemp && chptr != divxyz
    && inbas != tenptr && inbas != sqtemp && inbas != divxyz
    && tenptr != sqtemp && tenptr != divxyz && sqtemp != divxyz
    && inbas.buf == [10] && tenptr.buf == [10] && sqtemp.buf == [2]
  }

  /** Reading from the start of a line stops at its end, whatever follows the line. */
  lemma StopsAtEnd(line: string, rest: string, pos: nat, v: int, sc: nat)
    requires IsLineOf(line, v, sc) && line <= rest && pos <= |rest|
    requires Consume(rest[..pos], 10).Reading?
    requires pos < |rest| ==> Stops(Consume(rest[..pos], 10).r, rest[pos])
    ensures pos < |rest| && Consume(rest[..pos], 10).r == Seen(v, sc)
  {
    var n := |line| - 1;
    assert rest[..n] == line[..n];
    StopsOnce(rest, n, pos, 10);
  }

  /** What readin makes of the characters it has read in base ten. */
  lemma DigitsAreNumber(s: seq<int>, r: Reader)
    requires IsRead(s, r, 10)
    ensures Mant(s) == r.v && Places(s) == if r.dp then r.dpct else 0
  {
    PowerOfTen(r.dpct);
    QuotCancel(r.v, 1, Ten(r.dpct));
    QuotByOne(r.v);
  }

  /** Printing and reading gives a number back: a zero must have no places, and no sign must stand in front. */
  predicate ComesBack(v: int, sc: nat) {
    v > 0 || (v == 0 && sc == 0)
  }

  /** What readin finds in a text that dcprint has written: of a negative number, nothing before the sign. */
  lemma WhatIsFound(text: string, whole: string, pos: nat, v: int, sc: nat)
    requires IsPrinted(text, v, sc) && text <= whole && pos <= |whole|
    requires Consume(whole[..pos], 10).Reading?
    requires pos < |whole| ==> Stops(Consume(whole[..pos], 10).r, whole[pos])
    ensures pos < |whole| && Consume(whole[..pos], 10).r == if v > 0 then Seen(v, sc) else START
  {
    if v > 0 {
      StopsAtEnd(text, whole, pos, v, sc);
    } else if v == 0 {
      ZeroLine();
      StopsAtEnd(text, whole, pos, 0, 0);
    } else {
      assert whole[..0] == [];
      StopsOnce(whole, 0, pos, 10);
    }
  }

  lemma ZeroLine()
    ensures IsLineOf("0\n", 0, 0)
  {
    ConsumeSnoc([], '0', 10);
    assert "0\n"[..1] == [] + ['0'];
  }

  /** A number is printed and read again: it comes back with its value and its places exactly when ComesBack. */
  method RoundTrip(hptr: Blk, ll: int, more: string, chptr: Blk, inbas: Blk, tenptr: Blk, sqtemp: Blk, divxyz: Blk)
    returns (r: Blk)
    requires Decimal(hptr.buf) && ReadsDecimals(chptr, inbas, tenptr, sqtemp, divxyz)
    modifies hptr`rd, chptr, inbas`rd, tenptr`rd, sqtemp`rd, divxyz
    ensures Decimal(r.buf)
    ensures (Mant(r.buf) == Mant(old(hptr.buf)) && Places(r.buf) == Places(old(hptr.buf)))
            <==> ComesBack(Mant(old(hptr.buf)), Places(old(hptr.buf)))
  {
    ghost var v, sc := Mant(hptr.buf), Places(hptr.buf);
    var text := DcPrint(hptr, ll);
    assert Val(inbas.buf) == 10 by { assert inbas.buf[..0] == []; assert Pow(0) == 1; }
    var p, pos := ReadIn(text + more, 0, chptr, inbas, tenptr, sqtemp, divxyz);
    assert (text + more)[0..pos] == (text + more)[..pos];
    WhatIsFound(text, text + more, pos, v, sc);
    DigitsAreNumber(p.buf, if v > 0 then Seen(v, sc) else START);
    r := p;
  }

  /** The number read, with its sign turned. */
  predicate TurnedNumber(s: seq<int>, r: Reader) {
    Decimal(s) && Mant(s) == -r.v && Places(s) == if r.dp then r.dpct else 0
  }

  /** The command _ on what stands at `start`: a number is read and its sign is turned. */
  method Underscore(text: string, start: nat, chptr: Blk, inbas: Blk, tenptr: Blk, sqtemp: Blk, divxyz: Blk)
    returns (p: Blk?, pos: nat)
    requires start <= |text| && ReadsDecimals(chptr, inbas, tenptr, sqtemp, divxyz)
    modifies chptr, inbas`rd, tenptr`rd, sqtemp`rd, divxyz
    ensures start <= pos <= |text| && Consume(text[start..pos], 10).Reading? && (p == null <==> pos == |text|)
    ensures p != null ==> Stops(Consume(text[start..pos], 10).r, text[pos])
    ensures p != null ==> TurnedNumber(p.buf, Consume(text[start..pos], 10).r)
  {
    assert Val(inbas.buf) == 10 by { assert inbas.buf[..0] == []; assert Pow(0) == 1; }
    p, pos := ReadIn(text, start, chptr, inbas, tenptr, sqtemp, divxyz);
    if p == null {
      return;
    }
    DigitsAreNumber(p.buf, Consume(text[start..pos], 10).r);
    Negate(p);
  }

  /** A printed negative number comes back through the command _ on what follows its sign. */
  method NegativeRoundTrip(hptr: Blk, ll: int, more: string,
                           chptr: Blk, inbas: Blk, tenptr: Blk, sqtemp: Blk, divxyz: Blk) returns (r: Blk)
    requires Decimal(hptr.buf) && Mant(hptr.buf) < 0 && ReadsDecimals(chptr, inbas, tenptr, sqtemp, divxyz)
    modifies hptr`rd, chptr, inbas`rd, tenptr`rd, sqtemp`rd, divxyz
    ensures Decimal(r.buf) && Mant(r.buf) == Mant(old(hptr.buf)) && Places(r.buf) == Places(old(hptr.buf))
  {
    ghost var v, sc := Mant(hptr.buf), Places(hptr.buf);
    var text := DcPrint(hptr, ll);
    var p, pos := Underscore(text + more, 1, chptr, inbas, tenptr, sqtemp, divxyz);
    ghost var rest := (text + more)[1..];
    assert (text + more)[1..pos] == rest[..pos - 1] && text[1..] <= rest;
    StopsAtEnd(text[1..], rest, pos - 1, -v, sc);
    r := p;
  }

  /** A zero with two places is a number, is printed like any zero, and does not come back. */
  lemma ZeroLosesPlaces(text: string)
    requires IsPrinted(text, Mant([2]), Places([2]))
    ensures Decimal([2]) && Mant([2]) == 0 && Places([2]) == 2 && text == "0\n" && !ComesBack(Mant([2]), Places([2]))
  {
    assert [2][..0] == [];
  }

  /** Reading stops at the first stopping character and nowhere else. */
  lemma StopsOnce(text: string, n: nat, pos: nat, base: int)
    requires n < |text| && pos <= |text|
    requires Consume(text[..n], base).Reading? && Stops(Consume(text[..n], base).r, text[n])
    requires Consume(text[..pos], base).Reading?
    requires pos < |text| ==> Stops(Consume(text[..pos], base).r, text[pos])
    ensures pos == n
  {
    if pos > n {
      EndedStays(text, n, pos, base);
    } else if pos < n {
      EndedStays(text, pos, n, base);
    }
  }

  lemma {:induction false} EndedStays(text: string, n: nat, m: nat, base: int)
    requires n < m <= |text|
    requires Consume(text[..n], base).Reading? && Stops(Consume(text[..n], base).r, text[n])
    ensures Consume(text[..m], base).Ended?
  {
    assert text[..m] == text[..m - 1] + [text[m - 1]];
    ConsumeSnoc(text[..m - 1], text[m - 1], base);
    if m > n + 1 {
      EndedStays(text, n, m - 1, base);
    }
  }
}
