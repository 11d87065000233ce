// dc's digit-level arithmetic: chsign, add, mult and add0, proved exact on hundred's-complement numbers.

/** Negation, addition, multiplication and decimal shifting of blocks. */
module DcArith {
  import opened DcNumber
  import opened DcBlock

  // ----- chsign ------------------------------------------------------------

  /** The first i digits of s have been replaced in b by the digits of their negation, with a borrow of `carry`. */
  predicate Complemented(s: seq<int>, b: seq<int>, i: nat, carry: int) {
    && i <= |s| == |b|
    && (forall j :: i <= j < |s| ==> b[j] == s[j])
    && Digits(b[..i])
    && (carry == 0 || carry == 1)
    && Val(b[..i]) - (if carry == 0 then 0 else Pow(i)) == -Val(s[..i])
  }

  lemma ComplementStep(s: seq<int>, b: seq<int>, i: nat, carry: int, ct: int, carry': int)
    requires Complemented(s, b, i, carry) && i < |s|
    requires 0 <= ct < 100 && (carry' == 0 || carry' == 1)
    requires 100 - s[i] - carry == ct + 100 * (1 - carry')
    ensures Complemented(s, b[i := ct], i + 1, carry')
  {
    var b' := b[i := ct];
    assert b'[..i] == b[..i];
    assert b'[..i + 1] == b[..i] + [ct] && s[..i + 1] == s[..i] + [s[i]];
    ValSnoc(b[..i], ct);
    ValSnoc(s[..i], s[i]);
    DistributeThree(ct, s[i], carry, 100 * carry', Pow(i));
  }

  /** Ending a complement: [.., 99, -1] is shortened to [.., -1]. */
  lemma DropNine(s: seq<int>)
    requires |s| >= 2 && s[|s| - 1] == -1 && s[|s| - 2] == 99
    ensures Val(s[..|s| - 2] + [-1]) == Val(s)
  {
    var n := |s| - 2;
    ValSnoc(s[..n], -1);
    assert s[..n + 1][..n] == s[..n];
    assert s[..n + 1][n] == 99;
    assert Pow(n + 1) == 100 * Pow(n);
  }

  /** The complement of a positive normal number has at most one 99 below its mark. */
  lemma OneNine(s: seq<int>, t: seq<int>)
    requires Compact(s) && |t| == |s| && Digits(t) && Val(t) - Pow(|s|) == -Val(s)
    ensures |t| >= 2 && t[|t| - 1] == 99 ==> t[|t| - 2] != 99
  {
    ValBound(t);
    SignOfNumber(s);
    if |t| >= 2 {
      TopDigitBound(s);
      assert Pow(|t| - 1) == 100 * Pow(|t| - 2);
      if t[|t| - 1] == 99 && t[|t| - 2] == 99 {
        TopTwoNines(t);
      }
    }
  }

  /** The complement of a negative normal number has at most one superfluous zero. */
  lemma OneZero(s: seq<int>, t: seq<int>)
    requires Compact(s) && s != [] && |t| == |s| && Digits(t) && Val(t) == -Val(s)
    ensures |t| >= 2 && t[|t| - 1] == 0 ==> t[|t| - 2] != 0
    ensures |t| == 1 ==> t[0] != 0
  {
    ValBound(t);
    SignOfNumber(s);
    if !Negative(s) {
      TopDigitBound(s);
    }
    if |t| == 1 {
      assert t[..0] == [];
    } else if t[|t| - 1] == 0 && t[|t| - 2] == 0 {
      TopTwoZeros(t);
    }
  }

  lemma TopTwoNines(t: seq<int>)
    requires Digits(t) && |t| >= 2 && t[|t| - 1] == 99 && t[|t| - 2] == 99
    ensures Pow(|t|) - Val(t) <= Pow(|t| - 2)
  {
    var n := |t| - 2;
    ValBound(t[..n]);
    assert t[..n + 1][..n] == t[..n] && t[..n + 1][n] == 99;
    assert Pow(n + 1) == 100 * Pow(n);
  }

  lemma TopTwoZeros(t: seq<int>)
    requires Digits(t) && |t| >= 2 && t[|t| - 1] == 0 && t[|t| - 2] == 0
    ensures Val(t) < Pow(|t| - 2)
  {
    var n := |t| - 2;
    ValBound(t[..n]);
    assert t[..n + 1][..n] == t[..n] && t[..n + 1][n] == 0;
  }

  /** A normal complement of length above two is at most minus the weight below its mark's neighbour. */
  lemma ComplementBound(s: seq<int>)
    requires Normal(s) && Negative(s) && |s| >= 2
    ensures -Val(s) >= Pow(|s| - 2)
  {
    var n := |s| - 2;
    ValBound(s[..n]);
    assert s[..n + 1][..n] == s[..n] && s[..n + 1][n] == s[n];
    assert Pow(n + 1) == 100 * Pow(n);
    if s[n] <= 98 {
      MulMonotone(s[n], 98, Pow(n));
    } else {
      assert n == 0;
    }
  }

  lemma NormalIsCompact(s: seq<int>)
    requires Normal(s)
    ensures Compact(s)
  {
    if Negative(s) && |s| >= 2 {
      ComplementBound(s);
    }
  }

  /** The digit loop of chsign: p becomes the digits of its negation modulo 100^|p|, `carry` the borrow left over. */
  method ComplementDigits(p: Blk) returns (carry: int)
    requires Signed(p.buf)
    modifies p
    ensures Complemented(old(p.buf), p.buf, |p.buf|, carry)
  {
    ghost var s := p.buf;
    carry := 0;
    p.Rewind();
    while !p.AtEnd()
      invariant Complemented(s, p.buf, p.rd, carry)
      decreases |p.buf| - p.rd
    {
      ghost var carry0 := carry;
      var ct := 100 - p.LookC() - carry;
      carry := 1;
      if ct >= 100 {
        ct := ct - 100;
        carry := 0;
      }
      ComplementStep(s, p.buf, p.rd, carry0, ct, carry);
      p.AlterC(ct);
    }
  }

  /** What chsign leaves of the complemented digits: the mark is added, then one superfluous digit is dropped. */
  function Shortened(t: seq<int>, carry: int): seq<int> {
    if carry != 0 then
      if t != [] && t[|t| - 1] == 99 then t[..|t| - 1] + [-1] else t + [-1]
    else if t != [] && t[|t| - 1] == 0 then t[..|t| - 1] else t
  }

  lemma ShortenedNegates(s: seq<int>, t: seq<int>, carry: int)
    requires Complemented(s, t, |t|, carry)
    ensures Number(Shortened(t, carry)) && Val(Shortened(t, carry)) == -Val(s)
  {
    assert t[..|t|] == t && s[..|s|] == s;
    if carry != 0 {
      ValSnoc(t, -1);
      if t != [] && t[|t| - 1] == 99 {
        DropNine(t + [-1]);
        assert (t + [-1])[..|t| - 1] == t[..|t| - 1];
      }
    } else if t != [] && t[|t| - 1] == 0 {
      assert Val(t) == Val(t[..|t| - 1]);
    }
  }

  lemma ShortenedIsNormal(s: seq<int>, t: seq<int>, carry: int)
    requires Complemented(s, t, |t|, carry) && Compact(s)
    ensures Shortest(Shortened(t, carry))
  {
    assert t[..|t|] == t && s[..|s|] == s;
    if carry != 0 {
      OneNine(s, t);
      NotNinetyNine(t);
    } else if s != [] {
      OneZero(s, t);
    }
  }

  lemma NotNinetyNine(t: seq<int>)
    requires Digits(t) && (|t| >= 2 && t[|t| - 1] == 99 ==> t[|t| - 2] != 99)
    ensures Shortened(t, 1) != [99, -1]
  {
    var r := Shortened(t, 1);
    if |r| == 2 {
      assert r[0] == t[0];
    }
  }

  /** Negates a number in place. */
  method ChSign(p: Blk)
    requires Signed(p.buf)
    modifies p
    ensures Number(p.buf) && Val(p.buf) == -Val(old(p.buf))
    ensures Normal(old(p.buf)) || Compact(old(p.buf)) ==> Shortest(p.buf)
  {
    ghost var s := p.buf;
    var carry := ComplementDigits(p);
    ghost var t := p.buf;
    ShortenedNegates(s, t, carry);
    if Normal(s) {
      NormalIsCompact(s);
    }
    if Compact(s) {
      ShortenedIsNormal(s, t, carry);
    }
    if carry != 0 {
      p.PutC(-1);
      p.FsFile();
      p.StepBack();
      var ct := p.BackC();
      if ct == 99 {
        p.Truncate();
        p.PutC(-1);
      }
    } else {
      p.FsFile();
      var ct := p.BackC();
      if ct == 0 {
        p.Truncate();
      }
    }
    assert p.buf == Shortened(t, carry);
  }

  // ----- add ---------------------------------------------------------------

  function Digit(s: seq<int>, i: nat): int {
    if i < |s| then s[i] else 0
  }

  /** The value of the first i digits, reading zeros past the end. */
  function ValUpTo(s: seq<int>, i: nat): int {
    if i <= |s| then Val(s[..i]) else Val(s)
  }

  lemma ValUpToStep(s: seq<int>, i: nat)
    ensures ValUpTo(s, i + 1) == ValUpTo(s, i) + Digit(s, i) * Pow(i)
  {
    if i < |s| {
      assert s[..i + 1] == s[..i] + [s[i]];
      ValSnoc(s[..i], s[i]);
    } else if i == |s| {
      assert s[..i] == s;
    }
  }

  /** p holds the first i digits of x + y, with `carry` to go into digit i. */
  predicate Summed(x: seq<int>, y: seq<int>, p: seq<int>, i: nat, carry: int) {
    && |p| == i && Digits(p) && -1 <= carry <= 1
    && Val(p) + carry * Pow(i) == ValUpTo(x, i) + ValUpTo(y, i)
  }

  lemma SumStep(x: seq<int>, y: seq<int>, p: seq<int>, i: nat, carry: int, n: int, carry': int)
    requires Summed(x, y, p, i, carry) && -1 <= carry' <= 1 && 0 <= n < 100
    requires Digit(x, i) + Digit(y, i) + carry == n + 100 * carry'
    ensures Summed(x, y, p + [n], i + 1, carry')
  {
    ValUpToStep(x, i);
    ValUpToStep(y, i);
    ValSnoc(p, n);
    DistributeThree(Digit(x, i), Digit(y, i), carry, n + 100 * carry', Pow(i));
    Regroup(n, carry', Pow(i));
  }

  lemma Regroup(n: int, carry: int, p: int)
    ensures (n + 100 * carry) * p == n * p + carry * (100 * p)
  {
  }

  /** The next digit of an operand, zero once it is used up. */
  method NextDigit(a: Blk) returns (n: int)
    requires a.rd <= |a.buf|
    modifies a`rd
    ensures n == Digit(a.buf, old(a.rd))
    ensures a.rd == if old(a.rd) < |a.buf| then old(a.rd) + 1 else |a.buf|
  {
    n := 0;
    if !a.AtEnd() {
      n := a.GetC();
    }
  }

  /** A digit sum in -3..199 as a digit and the carry into the next one. */
  method Carry(sum: int) returns (n: int, carry: int)
    requires -100 <= sum < 200
    ensures sum == n + 100 * carry && 0 <= n < 100 && -1 <= carry <= 1
  {
    if sum >= 100 {
      return sum - 100, 1;
    } else if sum < 0 {
      return sum + 100, -1;
    } else {
      return sum, 0;
    }
  }

  /** The digit loop of add. */
  method AddDigits(a1: Blk, a2: Blk) returns (p: Blk, carry: int)
    requires a1 != a2 && Signed(a1.buf) && Signed(a2.buf)
    modifies a1`rd, a2`rd
    ensures fresh(p)
    ensures |p.buf| == if |a1.buf| > |a2.buf| then |a1.buf| else |a2.buf|
    ensures Summed(a1.buf, a2.buf, p.buf, |p.buf|, carry)
  {
    var size := if |a1.buf| > |a2.buf| then |a1.buf| else |a2.buf|;
    p := new Blk(size);
    a1.Rewind();
    a2.Rewind();
    carry := 0;
    for i := 0 to size
      invariant a1.rd == if i <= |a1.buf| then i else |a1.buf|
      invariant a2.rd == if i <= |a2.buf| then i else |a2.buf|
      invariant Summed(a1.buf, a2.buf, p.buf, i, carry)
    {
      var n1 := NextDigit(a1);
      var n2 := NextDigit(a2);
      var n, carry' := Carry(n1 + n2 + carry);
      SumStep(a1.buf, a2.buf, p.buf, i, carry, n, carry');
      carry := carry';
      p.PutC(n);
    }
  }

  /** Drops the zeros, and then the 99s below a complement mark, that add leaves on top. */
  method Normalise(p: Blk)
    requires Number(p.buf) && p.buf != [-1]
    modifies p
    ensures Normal(p.buf) && Val(p.buf) == Val(old(p.buf))
  {
    StripZeros(p);
    p.FsFile();
    if !p.AtBeg() {
      var c := p.BackC();
      if c == -1 {
        StripNines(p);
      }
    }
  }

  /** The loop of add that goes back over the 99s below a complement mark; the digit it stops at stays. */
  method SkipNines(p: Blk)
    requires Number(p.buf) && |p.buf| >= 2 && p.buf[|p.buf| - 1] == -1 && p.rd == |p.buf| - 1
    modifies p`rd
    ensures p.rd + 1 < |p.buf| && Val(p.buf[..p.rd + 1] + [-1]) == Val(p.buf) && (p.buf[p.rd] != 99 || p.rd == 0)
  {
    ghost var s := p.buf;
    assert s[..p.rd] + [-1] == s;
    var c := 99;
    while c == 99
      invariant p.rd <= |s| - 1
      invariant c == 99 ==> Val(s[..p.rd] + [-1]) == Val(s)
      invariant c == 99 && p.rd < |s| - 1 ==> s[p.rd] == 99
      invariant c != 99 ==> Val(s[..p.rd + 1] + [-1]) == Val(s) && p.rd + 1 < |s|
      invariant c != 99 ==> s[p.rd] != 99 || p.rd == 0
      decreases p.rd, c == 99
    {
      ghost var r := p.rd;
      c := p.BackC();
      if r == 0 {
        assert s[..1] + [-1] == [s[0]] + [-1];
      }
      if r > 0 && c == 99 {
        NineBelow(s, r);
      }
    }
  }

  /** What add does to [.., 99, 99, -1]. */
  method StripNines(p: Blk)
    requires Number(p.buf) && |p.buf| >= 2 && p.buf[|p.buf| - 1] == -1 && p.rd == |p.buf| - 1
    modifies p
    ensures Normal(p.buf) && Val(p.buf) == Val(old(p.buf))
  {
    ghost var s := p.buf;
    SkipNines(p);
    p.SkipC();
    p.AlterC(-1);
    p.Truncate();
    assert p.buf == s[..p.rd - 1] + [-1];
  }

  lemma NineBelow(s: seq<int>, r: nat)
    requires 0 < r <= |s| && s[r - 1] == 99
    ensures Val(s[..r - 1] + [-1]) == Val(s[..r] + [-1])
  {
    var t := s[..r] + [-1];
    DropNine(t);
    assert t[..|t| - 2] == s[..r - 1];
  }

  /** Removes zeros from the top. */
  method StripZeros(p: Blk)
    requires Number(p.buf)
    modifies p
    ensures p.buf <= old(p.buf) && Val(p.buf) == Val(old(p.buf))
    ensures p.buf != [] ==> p.buf[|p.buf| - 1] != 0
    ensures p.buf == [] ==> forall i :: 0 <= i < |old(p.buf)| ==> old(p.buf)[i] == 0
  {
    ghost var s := p.buf;
    p.FsFile();
    assert s[..|s|] == s;
    while !p.AtBeg()
      invariant p.rd <= |s| && p.buf == s[..p.rd]
      invariant Val(p.buf) == Val(s)
      invariant forall i :: p.rd <= i < |s| ==> s[i] == 0
      decreases p.rd
    {
      var c := p.BackC();
      if c != 0 {
        break;
      }
      p.Truncate();
    }
  }

  /** The sum of two numbers, in normal form. */
  method Add(a1: Blk, a2: Blk) returns (p: Blk)
    requires a1 != a2 && Signed(a1.buf) && Signed(a2.buf)
    modifies a1`rd, a2`rd
    ensures fresh(p) && Normal(p.buf) && Val(p.buf) == Val(a1.buf) + Val(a2.buf)
  {
    var carry;
    p, carry := AddDigits(a1, a2);
    assert a1.buf[..|a1.buf|] == a1.buf && a2.buf[..|a2.buf|] == a2.buf;
    if carry != 0 {
      ValSnoc(p.buf, carry);
      p.PutC(carry);
    }
    Normalise(p);
  }

  // ----- mult --------------------------------------------------------------

  function Abs(n: int): nat {
    if n < 0 then -n else n
  }

  /** The magnitude of an operand: the block itself, or a complemented copy of a negative one. */
  method Magnitude(p: Blk) returns (m: Blk, negative: bool)
    requires Number(p.buf)
    modifies p`rd
    ensures if negative then fresh(m) else m == p
    ensures Digits(m.buf) && Val(m.buf) == Abs(Val(p.buf)) && negative == (Val(p.buf) < 0)
    ensures Normal(p.buf) || Compact(p.buf) ==> Normal(m.buf)
  {
    SignOfNumber(p.buf);
    p.FsFile();
    m, negative := p, false;
    if !p.AtBeg() {
      var c := p.BackC();
      if c < 0 {
        m := new Blk.Copy(p, |p.buf|);
        ChSign(m);
        negative := true;
        SignOfNumber(m.buf);
      }
    }
  }

  /** b is b0 with c * x[..i] * 100^offset added in, up to a `carry` still to go into digit offset + i. */
  predicate Accumulated(b0: seq<int>, b: seq<int>, x: seq<int>, c: int, offset: nat, i: nat, carry: int) {
    && offset <= |b0| && i <= |x|
    && |b| == (if |b0| > offset + i then |b0| else offset + i)
    && Digits(b) && 0 <= carry < 100
    && (forall j :: offset + i <= j < |b0| ==> b[j] == b0[j])
    && ValUpTo(b, offset + i) + carry * Pow(offset + i) == ValUpTo(b0, offset + i) + c * Val(x[..i]) * Pow(offset)
  }

  lemma AccumulateStep(b0: seq<int>, b: seq<int>, x: seq<int>, c: int, offset: nat, i: nat, carry: int,
                       b': seq<int>, carry': int)
    requires Accumulated(b0, b, x, c, offset, i, carry) && i < |x| && 0 <= carry' < 100
    requires |b'| == (if |b| > offset + i then |b| else offset + i + 1)
    requires forall j :: 0 <= j < |b'| && j != offset + i ==> b'[j] == b[j]
    requires 0 <= b'[offset + i] < 100
    requires b'[offset + i] + 100 * carry' == x[i] * c + carry + Digit(b0, offset + i)
    ensures Accumulated(b0, b', x, c, offset, i + 1, carry')
  {
    var k := offset + i;
    var n := b'[k];
    assert ValUpTo(b', k) == ValUpTo(b, k) by { assert b'[..k] == b[..k]; }
    ValUpToStep(b', k);
    ValUpToStep(b0, k);
    assert x[..i + 1] == x[..i] + [x[i]];
    ValSnoc(x[..i], x[i]);
    PowAdd(offset, i);
    AccumulateArithmetic(n, carry', x[i], c, carry, Digit(b0, k), Pow(k), Pow(offset), Pow(i), Val(x[..i]));
  }

  lemma AccumulateArithmetic(n: int, carry': int, d: int, c: int, carry: int, e: int, p: int, po: int, pi: int, v: int)
    requires n + 100 * carry' == d * c + carry + e && p == po * pi
    ensures n * p + carry' * (100 * p) == carry * p + e * p + (c * (v + d * pi) * po - c * v * po)
  {
    assert c * (v + d * pi) * po == c * v * po + (d * c) * p by {
      assert c * (v + d * pi) == c * v + (d * c) * pi;
      assert (c * v + (d * c) * pi) * po == c * v * po + (d * c) * pi * po;
    }
    DistributeThree(d * c, carry, e, n + 100 * carry', p);
    Regroup(n, carry', p);
  }

  /** A round of the inner loop of mult. */
  method AddDigit(mr: Blk, mp: Blk, cq: int, offset: nat, carry: int, ghost b0: seq<int>) returns (carry': int)
    requires mr != mp && Digits(mp.buf) && 0 <= cq < 100 && mp.rd < |mp.buf| && mr.rd == offset + mp.rd
    requires Accumulated(b0, mr.buf, mp.buf, cq, offset, mp.rd, carry)
    modifies mr, mp`rd
    ensures mp.rd == old(mp.rd) + 1 && mr.rd == offset + mp.rd
    ensures Accumulated(b0, mr.buf, mp.buf, cq, offset, mp.rd, carry')
  {
    ghost var i, b := mp.rd, mr.buf;
    var cp := mp.GetC();
    var mcr := if mr.AtEnd() then 0 else mr.LookC();
    DigitProduct(cp, cq, carry, mcr);
    var mt := cp * cq + carry + mcr;
    carry' := mt / 100;
    mr.AlterC(mt % 100);
    AccumulateStep(b0, b, mp.buf, cq, offset, i, carry, mr.buf, carry');
  }

  /** One pass of mult: adds cq * mp * 100^offset into mr. */
  method AddMultiple(mr: Blk, mp: Blk, cq: int, offset: nat)
    requires mr != mp && Digits(mr.buf) && Digits(mp.buf) && 0 <= cq < 100 && mp.buf != []
    requires offset <= |mr.buf| <= offset + |mp.buf|
    modifies mr, mp`rd
    ensures Digits(mr.buf) && Val(mr.buf) == Val(old(mr.buf)) + cq * Val(mp.buf) * Pow(offset)
    ensures |mr.buf| == offset + |mp.buf| || (|mr.buf| == offset + |mp.buf| + 1 && mr.buf[|mr.buf| - 1] != 0)
  {
    ghost var b0 := mr.buf;
    mp.Rewind();
    mr.rd := offset;
    var carry := 0;
    while !mp.AtEnd()
      invariant mp.rd <= |mp.buf| && mr.rd == offset + mp.rd
      invariant Accumulated(b0, mr.buf, mp.buf, cq, offset, mp.rd, carry)
      decreases |mp.buf| - mp.rd
    {
      carry := AddDigit(mr, mp, cq, offset, carry, b0);
    }
    assert mp.buf[..|mp.buf|] == mp.buf && mr.buf[..|mr.buf|] == mr.buf && b0[..|b0|] == b0;
    if carry != 0 {
      var mcr := if mr.AtEnd() then 0 else mr.LookC();
      ValSnoc(mr.buf, carry);
      mr.AlterC(mcr + carry);
    }
  }

  lemma DigitProduct(cp: int, cq: int, carry: int, mcr: int)
    requires 0 <= cp < 100 && 0 <= cq < 100 && 0 <= carry < 100 && 0 <= mcr < 100
    ensures 0 <= cp * cq + carry + mcr < 10000
  {
    MulMonotone(cp, 99, cq);
    MulMonotone(0, cp, cq);
  }

  /** A product of normal magnitudes of the shorter possible length keeps a nonzero top digit. */
  lemma ProductTop(x: seq<int>, y: seq<int>, z: seq<int>)
    requires Normal(x) && Normal(y) && Digits(x) && Digits(y) && Digits(z) && x != [] && y != []
    requires Val(z) == Val(x) * Val(y) && |z| == |x| + |y| - 1
    ensures z[|z| - 1] != 0
  {
    TopDigitBound(x);
    TopDigitBound(y);
    TopDigitBound(z);
    PowAdd(|x| - 1, |y| - 1);
    MulBoth(Pow(|x| - 1), Val(x), Pow(|y| - 1), Val(y));
  }

  lemma MulBoth(a: int, b: int, c: int, d: int)
    requires 0 <= a <= b && 0 <= c <= d
    ensures a * c <= b * d
  {
    MulMonotone(a, b, c);
    MulMonotone(c, d, b);
  }

  /** The digit passes of mult, one for each digit of mq. */
  method Product(mp: Blk, mq: Blk) returns (mr: Blk)
    requires mp != mq && Digits(mp.buf) && Digits(mq.buf)
    modifies mp`rd, mq`rd
    ensures fresh(mr) && Digits(mr.buf) && Val(mr.buf) == Val(mp.buf) * Val(mq.buf)
    ensures Normal(mp.buf) && Normal(mq.buf) ==> Normal(mr.buf)
  {
    mr := new Blk(|mp.buf| + |mq.buf|);
    mr.Zero();
    var offset := 0;
    mq.Rewind();
    while !mq.AtEnd()
      invariant mq.rd == offset <= |mq.buf|
      invariant Digits(mr.buf) && Val(mr.buf) == Val(mp.buf) * Val(mq.buf[..offset])
      invariant if mp.buf == [] || offset == 0 then mr.buf == [] else
                  |mr.buf| == offset + |mp.buf| - 1 || (|mr.buf| == offset + |mp.buf| && mr.buf[|mr.buf| - 1] != 0)
      decreases |mq.buf| - mq.rd
    {
      var cq := mq.GetC();
      assert mq.buf[..offset + 1] == mq.buf[..offset] + [cq];
      ValSnoc(mq.buf[..offset], cq);
      ExtendProduct(Val(mp.buf), Val(mq.buf[..offset]), cq, Pow(offset));
      if |mp.buf| != 0 {  // a pass over no digits does nothing
        AddMultiple(mr, mp, cq, offset);
      }
      offset := offset + 1;
    }
    assert mq.buf[..|mq.buf|] == mq.buf;
    if Normal(mp.buf) && Normal(mq.buf) && mp.buf != [] && mq.buf != [] && |mr.buf| == |mp.buf| + |mq.buf| - 1 {
      ProductTop(mp.buf, mq.buf, mr.buf);
    }
  }

  lemma ExtendProduct(x: int, y: int, c: int, p: int)
    ensures x * (y + c * p) == x * y + c * x * p
    ensures x == 0 ==> c * x * p == 0
  {
    assert x * (c * p) == c * x * p;
  }

  /** The product of two numbers. */
  method Mult(p: Blk, q: Blk) returns (mr: Blk)
    requires p != q && Number(p.buf) && Number(q.buf)
    modifies p`rd, q`rd
    ensures fresh(mr) && Number(mr.buf) && Val(mr.buf) == Val(p.buf) * Val(q.buf)
    ensures Normal(p.buf) && (Normal(q.buf) || Compact(q.buf)) ==> Shortest(mr.buf)
  {
    var mp, pneg := Magnitude(p);
    var mq, qneg := Magnitude(q);
    mr := Product(mp, mq);
    SignRule(Val(p.buf), Val(q.buf));
    if pneg != qneg {
      ChSign(mr);
    }
  }

  lemma SignRule(x: int, y: int)
    ensures x * y == if (x < 0) == (y < 0) then Abs(x) * Abs(y) else -(Abs(x) * Abs(y))
  {
  }

  // ----- add0 --------------------------------------------------------------

  /** 10 to the power n. */
  function Ten(n: nat): (t: int)
    ensures t >= 1
  {
    if n == 0 then 1 else 10 * Ten(n - 1)
  }

  lemma {:induction false} TenAdd(a: nat, b: nat)
    ensures Ten(a + b) == Ten(a) * Ten(b)
  {
    if a > 0 {
      TenAdd(a - 1, b);
      assert Ten(a + b) == 10 * (Ten(a - 1) * Ten(b)) == (10 * Ten(a - 1)) * Ten(b);
    }
  }

  lemma {:induction false} TenIsPow(n: nat)
    ensures Ten(2 * n) == Pow(n)
  {
    if n > 0 {
      TenIsPow(n - 1);
    }
  }

  function Zeros(n: nat): (z: seq<int>)
    ensures |z| == n && forall i :: 0 <= i < n ==> z[i] == 0
  {
    if n == 0 then [] else Zeros(n - 1) + [0]
  }

  /** The copying part of add0: n zero digits below the digits of p. */
  method ShiftPairs(p: Blk, n: nat) returns (q: Blk)
    requires Number(p.buf)
    modifies p`rd
    ensures fresh(q) && q.buf == Zeros(n) + p.buf
  {
    q := new Blk(|p.buf| + n);
    while |q.buf| < n
      invariant |q.buf| <= n && q.buf == Zeros(|q.buf|)
    {
      q.PutC(0);
    }
    ghost var zeros := q.buf;
    p.Rewind();
    while !p.AtEnd()
      invariant p.rd <= |p.buf| && q.buf == zeros + p.buf[..p.rd]
      decreases |p.buf| - p.rd
    {
      var d := p.GetC();
      assert p.buf[..p.rd] == p.buf[..p.rd - 1] + [d];
      q.PutC(d);
    }
    assert p.buf[..|p.buf|] == p.buf;
  }

  /** The value of p shifted up by ct decimal digits. */
  method Add0(p: Blk, ct: nat, tenptr: Blk) returns (q: Blk)
    requires Number(p.buf) && tenptr.buf == [10] && p != tenptr
    modifies p`rd, tenptr`rd
    ensures fresh(q) && Number(q.buf) && Val(q.buf) == Val(p.buf) * Ten(ct)
    ensures Normal(p.buf) && Val(p.buf) > 0 ==> Normal(q.buf)
    ensures Normal(p.buf) && Val(p.buf) != 0 ==> Compact(q.buf)
  {
    q := ShiftPairs(p, ct / 2);
    Shifted(ct / 2, p.buf);
    if Normal(p.buf) && Val(p.buf) != 0 {
      ShiftedCompact(Zeros(ct / 2), p.buf);
    }
    if ct % 2 == 1 {
      ShiftOdd(Val(p.buf), ct);
      assert Val(tenptr.buf) == 10 by { assert tenptr.buf[..0] == []; }
      q := Mult(tenptr, q);
      if Normal(q.buf) {
        NormalIsCompact(q.buf);
      }
    }
  }

  lemma ShiftedCompact(zeros: seq<int>, s: seq<int>)
    requires Normal(s) && s != [] && forall i :: 0 <= i < |zeros| ==> zeros[i] == 0
    ensures Compact(zeros + s)
  {
    NormalIsCompact(s);
    ShiftedValue(zeros, s);
    var n := |zeros|;
    if Negative(s) && |s| >= 2 {
      PowAdd(n, |s| - 2);
      MulMonotone(Pow(|s| - 2), -Val(s), Pow(n));
      assert (-Val(s)) * Pow(n) == -(Val(s) * Pow(n));
    } else if Negative(s) && n > 0 {
      assert s == [-1] && s[..0] == [];
      PowMonotone(n - 1, n);
    }
  }

  lemma Shifted(n: nat, s: seq<int>)
    requires Number(s)
    ensures Number(Zeros(n) + s) && Val(Zeros(n) + s) == Val(s) * Ten(2 * n)
    ensures Normal(s) && Val(s) > 0 ==> Normal(Zeros(n) + s)
  {
    ShiftedForm(Zeros(n), s);
    ShiftedValue(Zeros(n), s);
    TenIsPow(n);
  }

  lemma ShiftedForm(zeros: seq<int>, s: seq<int>)
    requires Number(s) && forall i :: 0 <= i < |zeros| ==> zeros[i] == 0
    ensures Number(zeros + s) && (Normal(s) && Val(s) > 0 ==> Normal(zeros + s))
  {
    SignOfNumber(s);
  }

  lemma ShiftedValue(zeros: seq<int>, s: seq<int>)
    requires forall i :: 0 <= i < |zeros| ==> zeros[i] == 0
    ensures Val(zeros + s) == Val(s) * Pow(|zeros|)
  {
    ValZeros(zeros);
    ValConcat(zeros, s);
  }

  lemma ShiftOdd(v: int, ct: nat)
    requires ct % 2 == 1
    ensures 10 * (v * Ten(2 * (ct / 2))) == v * Ten(ct)
  {
    assert ct == 2 * (ct / 2) + 1;
    assert v * (10 * Ten(2 * (ct / 2))) == 10 * (v * Ten(2 * (ct / 2)));
  }
}
