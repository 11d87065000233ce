// Square roots and powers in dc, built on its division and multiplication.

/** dcsqrt and dcexp of sys/src/cmd/dc.c. */
module DcRoot {
  import opened DcNumber
  import opened DcBlock
  import opened DcArith
  import opened DcDivide
  import DcTrial

  // ----- dcsqrt ------------------------------------------------------------

  /** r is the integer square root of p. */
  predicate IsFloorRoot(p: int, r: int) {
    r >= 0 && r * r <= p < (r + 1) * (r + 1)
  }

  /** Subtracting successive odd numbers: the least c with c * c above the leading digits. */
  method RootOfTop(top: int) returns (c: int)
    requires 0 <= top < 10000
    ensures 1 <= c <= 100 && top < c * c
  {
    var rest, nn := top, 1;
    ghost var m := 0;
    rest := rest - nn;
    while rest >= 0
      invariant nn == 2 * m + 1 && m >= 0
      invariant rest == top - (m + 1) * (m + 1)
      invariant m <= 99
    {
      nn := nn + 2;
      m := m + 1;
      rest := rest - nn;
    }
    c := (nn + 1) / 2;
  }

  /** The first approximation has half the digits of p and lies strictly above the root. */
  method Seed(p: Blk) returns (r: Blk)
    requires Digits(p.buf) && p.buf != []
    modifies p`rd
    ensures fresh(r) && Normal(r.buf) && Val(r.buf) > 0
    ensures Val(r.buf) * Val(r.buf) > Val(p.buf)
  {
    ghost var s := p.buf;
    var n := |p.buf|;
    p.FsFile();
    var c := p.BackC();
    assert DcTrial.Lead(s, 1) == c by { assert DcTrial.Lead(s, 0) == 0; }
    if n % 2 == 0 {
      var next := BackOrZero(p);
      c := c * 100 + next;
    }
    ghost var top := c;
    n := (n + 1) / 2;
    LeadingHalf(s, top, n);
    c := RootOfTop(c);
    r := LeadingDigit(c, n);
    SquareAbove(Val(s), top, c, Pow(n - 1), Val(r.buf));
  }

  /** c followed by n - 1 zero digits. */
  method LeadingDigit(c: int, n: nat) returns (r: Blk)
    requires n > 0 && 1 <= c <= 100
    ensures fresh(r) && Normal(r.buf) && Val(r.buf) == c * Pow(n - 1) > 0
  {
    r := new Blk(n);
    r.Zero();
    r.SeekC(n);
    ghost var zeros := r.buf[..n - 1];
    r.FsFile();
    r.StepBack();
    if c >= 100 {
      r.AlterC(c - 100);
      r.PutC(1);
      assert r.buf == zeros + [c - 100] + [1];
    } else {
      r.AlterC(c);
      assert r.buf == zeros + [c];
    }
    SeedValue(zeros, c, r.buf);
    MulMonotone(1, c, Pow(n - 1));
  }

  lemma SeedValue(zeros: seq<int>, c: int, s: seq<int>)
    requires forall i :: 0 <= i < |zeros| ==> zeros[i] == 0
    requires 1 <= c <= 100 && s == if c >= 100 then zeros + [c - 100] + [1] else zeros + [c]
    ensures Val(s) == c * Pow(|zeros|)
  {
    ValZeros(zeros);
    if c >= 100 {
      SeedOfHundred(zeros);
    } else {
      ValSnoc(zeros, c);
    }
  }

  lemma SeedOfHundred(zeros: seq<int>)
    requires Val(zeros) == 0
    ensures Val(zeros + [0] + [1]) == 100 * Pow(|zeros|)
  {
    ValSnoc(zeros, 0);
    ValSnoc(zeros + [0], 1);
  }

  /** One or two leading digits, and the weight of what lies below them. */
  lemma LeadingHalf(s: seq<int>, top: int, n: nat)
    requires Digits(s) && s != [] && n == (|s| + 1) / 2
    requires top == DcTrial.Lead(s, if |s| % 2 == 0 then 2 else 1)
    ensures 0 <= top < 10000 && Val(s) < (top + 1) * (Pow(n - 1) * Pow(n - 1))
  {
    assert DcTrial.Lead(s, 1) == s[|s| - 1] by { assert DcTrial.Lead(s, 0) == 0; }
    var j := if |s| % 2 == 0 then 2 else 1;
    assert |s| == j + ((n - 1) + (n - 1));
    PowAdd(n - 1, n - 1);
    PowAdd(j, (n - 1) + (n - 1));
    DcTrial.LeadApproximates(s, j);
    Below(Pow(j), Val(s), top, Pow(n - 1) * Pow(n - 1));
  }

  lemma Below(p: int, v: int, l: int, q: int)
    requires p > 0 && p * v < l * (p * q) + p * q
    ensures v < (l + 1) * q
  {
    assert l * (p * q) + p * q == p * ((l + 1) * q);
    if v >= (l + 1) * q {
      MulMonotone((l + 1) * q, v, p);
    }
  }

  lemma SquareAbove(p: int, top: int, c: int, w: int, r: int)
    requires w > 0 && p < (top + 1) * (w * w) && top < c * c && r == c * w
    ensures r * r > p
  {
    MulMonotone(top + 1, c * c, w * w);
    assert r * r == (c * c) * (w * w);
  }

  /** One Newton step from above the root: it either stays above the root and descends, or the root is found. */
  lemma NewtonStep(p: int, r: int, t: int)
    requires p > 0 && r > 0 && p < (r + 1) * (r + 1)
    requires t == (p / r + r) / 2
    ensures t >= r ==> IsFloorRoot(p, r)
    ensures t < r ==> 0 < t && p < (t + 1) * (t + 1)
  {
    var q := p / r;
    assert p == q * r + p % r;
    if t >= r {
      assert q >= r;
      MulMonotone(r, q, r);
    } else {
      assert p < (q + 1) * r by { assert (q + 1) * r == q * r + r; }
      MeansInequality(q + 1, r, t + 1);
    }
  }

  lemma SquareNonNegative(x: int)
    ensures x * x >= 0
  {
    if x < 0 {
      MulMonotone(0, -x, -x);
      assert (-x) * (-x) == x * x;
    } else {
      MulMonotone(0, x, x);
    }
  }

  lemma FourProducts(a: int, r: int)
    ensures 4 * (a * r) <= (a + r) * (a + r)
  {
    SquareNonNegative(a - r);
    assert (a - r) * (a - r) == (a + r) * (a + r) - 4 * (a * r);
  }

  /** A number at least half the sum of two others squares to at least their product. */
  lemma MeansInequality(a: int, r: int, b: int)
    requires a >= 0 && r >= 0 && 2 * b >= a + r
    ensures a * r <= b * b
  {
    FourProducts(a, r);
    MulBoth(a + r, 2 * b, a + r, 2 * b);
    Doubled(b);
  }

  lemma Doubled(b: int)
    ensures (2 * b) * (2 * b) == 4 * (b * b)
  {
  }

  /** The sign of q - r, computed as dc does. */
  method Descends(q: Blk, r: Blk) returns (yes: bool)
    requires q != r && Number(q.buf) && Number(r.buf)
    modifies q`rd
    ensures yes == (Val(q.buf) < Val(r.buf))
  {
    var s := new Blk.Copy(r, |r.buf|);
    ChSign(s);
    var t := Add(s, q);
    SignOfNumber(t.buf);
    t.FsFile();
    var nn := BackOrZero(t);
    yes := nn < 0;
  }

  /** (p / r + r) / 2 */
  method Average(p: Blk, r: Blk, sqtemp: Blk, divxyz: Blk) returns (t: Blk)
    requires p != r && sqtemp != divxyz && divxyz != p && divxyz != r && sqtemp != p && sqtemp != r
    requires Digits(p.buf) && Normal(r.buf) && Val(p.buf) > 0 && Val(r.buf) > 0 && sqtemp.buf == [2]
    modifies r`rd, sqtemp`rd, divxyz
    ensures fresh(t) && Normal(t.buf)
    ensures Val(t.buf) == (Val(p.buf) / Val(r.buf) + Val(r.buf)) / 2
  {
    var q, rem := Div(p, r, divxyz);
    NonNegativeDivision(Val(p.buf), Val(r.buf), Val(q.buf), Val(rem.buf));
    var s := Add(q, r);
    ghost var sum := Val(s.buf);
    assert Val(sqtemp.buf) == 2 by { assert sqtemp.buf[..0] == []; assert Pow(0) == 1; }
    var rem2;
    t, rem2 := Div(s, sqtemp, divxyz);
    NonNegativeDivision(sum, 2, Val(t.buf), Val(rem2.buf));
    assert Val(t.buf) == sum / 2;
  }

  lemma NonNegativeDivision(a: int, b: int, q: int, r: int)
    requires a >= 0 && b > 0 && IsDivision(a, b, q, r)
    ensures q >= 0 && 0 <= r < b && q == a / b
  {
    if q < 0 {
      MulMonotone(q, -1, b);
    }
    DivisionUnique(a, b, q, r, a / b, a % b);
  }

  /** dcsqrt: the integer square root of a positive number, by Newton's iteration from above. */
  method DcSqrt(p: Blk, sqtemp: Blk, divxyz: Blk) returns (r: Blk)
    requires p != sqtemp && p != divxyz && sqtemp != divxyz
    requires Number(p.buf) && Val(p.buf) > 0 && sqtemp.buf == [2]
    modifies p`rd, sqtemp`rd, divxyz
    ensures fresh(r) && Normal(r.buf) && IsFloorRoot(Val(p.buf), Val(r.buf))
  {
    SignOfNumber(p.buf);
    r := Seed(p);
    ghost var v := Val(p.buf);
    var found := false;
    while !found
      invariant fresh(r) && r != p && r != sqtemp && r != divxyz
      invariant Normal(r.buf) && Val(r.buf) > 0 && v < (Val(r.buf) + 1) * (Val(r.buf) + 1)
      invariant found ==> IsFloorRoot(v, Val(r.buf))
      decreases if found then 0 else Val(r.buf)
    {
      var q := Average(p, r, sqtemp, divxyz);
      NewtonStep(v, Val(r.buf), Val(q.buf));
      var smaller := Descends(q, r);
      if smaller {
        r := q;
      } else {
        found := true;
      }
    }
  }

  // ----- dcexp -------------------------------------------------------------

  function Power(b: int, e: nat): int {
    if e == 0 then 1 else b * Power(b, e - 1)
  }

  lemma {:induction false} PowerAdd(b: int, m: nat, n: nat)
    ensures Power(b, m + n) == Power(b, m) * Power(b, n)
  {
    if m > 0 {
      PowerAdd(b, m - 1, n);
      assert Power(b, m + n) == b * (Power(b, m - 1) * Power(b, n)) == (b * Power(b, m - 1)) * Power(b, n);
    }
  }

  lemma {:induction false} PowerOfSquare(b: int, n: nat)
    ensures Power(b * b, n) == Power(b, n) * Power(b, n)
  {
    if n > 0 {
      PowerOfSquare(b, n - 1);
      var q := Power(b, n - 1);
      assert (b * b) * (q * q) == (b * q) * (b * q);
    }
  }

  /** One round of repeated squaring leaves r * p^e as it was. */
  lemma SquaringStep(r: int, p: int, e: nat, h: nat)
    requires h == e / 2
    ensures e % 2 == 1 ==> (p * r) * Power(p * p, h) == r * Power(p, e)
    ensures e % 2 == 0 ==> r * Power(p * p, h) == r * Power(p, e)
  {
    SquareOdd(r, p, h);
    SquareEven(p, h);
    Halves(e, h);
  }

  lemma Halves(e: nat, h: nat)
    requires h == e / 2
    ensures e == if e % 2 == 1 then h + h + 1 else h + h
  {
  }

  lemma SquareEven(p: int, h: nat)
    ensures Power(p * p, h) == Power(p, h + h)
  {
    PowerAdd(p, h, h);
    PowerOfSquare(p, h);
  }

  lemma SquareOdd(r: int, p: int, h: nat)
    ensures (p * r) * Power(p * p, h) == r * Power(p, h + h + 1)
  {
    SquareEven(p, h);
    Reorder(p, r, Power(p, h + h));
  }

  lemma Reorder(p: int, r: int, h: int)
    ensures (p * r) * h == r * (p * h)
  {
  }

  /** One round of dcexp: the exponent is halved, p squared, and r multiplied by p when a bit drops out. */
  method PowerRound(r: Blk, p: Blk, e: Blk, sqtemp: Blk, divxyz: Blk) returns (r': Blk, p': Blk, e': Blk)
    requires r != p && r != e && p != e && e != sqtemp && divxyz !in {r, p, e, sqtemp}
    requires Number(r.buf) && Number(p.buf) && Digits(e.buf) && e.buf != [] && Val(e.buf) >= 0 && sqtemp.buf == [2]
    modifies r`rd, p`rd, sqtemp`rd, divxyz
    ensures (r' == r || fresh(r')) && fresh(p') && fresh(e') && r' != p' && r' != e' && p' != e'
    ensures Number(r'.buf) && Number(p'.buf) && Digits(e'.buf) && Val(e'.buf) == Val(e.buf) / 2
    ensures |e'.buf| == 0 <==> Val(e'.buf) == 0
    ensures Shortest(r.buf) && Normal(p.buf) ==> Shortest(r'.buf) && Normal(p'.buf)
    ensures Val(r'.buf) * Power(Val(p'.buf), Val(e'.buf)) == Val(r.buf) * Power(Val(p.buf), Val(e.buf))
  {
    SquaringStep(Val(r.buf), Val(p.buf), Val(e.buf), Val(e.buf) / 2);
    var odd;
    e', odd := Halve(e, sqtemp, divxyz);
    r' := r;
    if odd {
      r' := Mult(p, r);
    }
    var t := new Blk.Copy(p, |p.buf|);
    p' := Mult(p, t);
  }

  /** The number one. */
  method One() returns (r: Blk)
    ensures fresh(r) && Shortest(r.buf) && Val(r.buf) == 1
  {
    r := new Blk(1);
    r.PutC(1);
    assert r.buf == [1] && r.buf[..0] == [] && Pow(0) == 1;
  }

  /** The loop of dcexp: base to the power of a nonnegative exponent. */
  method PowerLoop(base: Blk, ex: Blk, sqtemp: Blk, divxyz: Blk) returns (r: Blk)
    requires sqtemp != divxyz && base != divxyz && ex != divxyz
    requires Number(base.buf) && Digits(ex.buf) && sqtemp.buf == [2]
    requires Val(ex.buf) >= 0
    modifies sqtemp`rd, divxyz
    ensures fresh(r) && Number(r.buf) && Val(r.buf) == Power(Val(base.buf), Val(ex.buf))
    ensures Normal(base.buf) ==> Shortest(r.buf)
  {
    r := One();
    var p := new Blk.Copy(base, |base.buf|);
    var e := new Blk.Copy(ex, |ex.buf|);
    ghost var goal := Power(Val(base.buf), Val(ex.buf));
    while |e.buf| != 0
      invariant fresh(r) && fresh(p) && fresh(e) && r != p && r != e && p != e
      invariant Number(r.buf) && Number(p.buf) && Digits(e.buf) && Val(e.buf) >= 0
      invariant Normal(base.buf) ==> Shortest(r.buf) && Normal(p.buf)
      invariant Val(r.buf) * Power(Val(p.buf), Val(e.buf)) == goal
      decreases Val(e.buf), |e.buf|
    {
      r, p, e := PowerRound(r, p, e, sqtemp, divxyz);
    }
  }

  /** e / 2, and whether e was odd. */
  method Halve(e: Blk, sqtemp: Blk, divxyz: Blk) returns (h: Blk, odd: bool)
    requires e != sqtemp && e != divxyz && sqtemp != divxyz
    requires Digits(e.buf) && e.buf != [] && Val(e.buf) >= 0 && sqtemp.buf == [2]
    modifies sqtemp`rd, divxyz
    ensures fresh(h) && Digits(h.buf) && Val(h.buf) == Val(e.buf) / 2 && (|h.buf| == 0 <==> Val(h.buf) == 0)
    ensures odd == (Val(e.buf) % 2 == 1)
  {
    assert Val(sqtemp.buf) == 2 by { assert sqtemp.buf[..0] == []; assert Pow(0) == 1; }
    var rem;
    h, rem := Div(e, sqtemp, divxyz);
    NonNegativeDivision(Val(e.buf), 2, Val(h.buf), Val(rem.buf));
    ZeroIsEmpty(rem.buf);
    ZeroIsEmpty(h.buf);
    SignOfNumber(h.buf);
    odd := |rem.buf| != 0;
  }

  /**
   * dcexp. A negative exponent gives zero, except that a base spelled as the single digit 1 or -1 is its own
   * result (whatever the parity of the exponent).
   */
  method DcExp(base: Blk, ex: Blk, sqtemp: Blk, divxyz: Blk) returns (r: Blk)
    requires sqtemp != divxyz && base != divxyz && ex != divxyz
    requires Number(base.buf) && Number(ex.buf) && sqtemp.buf == [2]
    modifies base`rd, sqtemp`rd, divxyz
    ensures fresh(r) && Number(r.buf)
    ensures Val(ex.buf) >= 0 ==> Val(r.buf) == Power(Val(base.buf), Val(ex.buf))
    ensures Val(ex.buf) < 0 ==> Val(r.buf) == if |base.buf| == 1 && base.buf[0] <= 1 then base.buf[0] else 0
    ensures Val(ex.buf) >= 0 && Normal(base.buf) ==> Shortest(r.buf)
  {
    var e := new Blk.Copy(ex, |ex.buf|);
    var temp := MakePositive(e);
    ValBound(e.buf);
    r := PowerLoop(base, e, sqtemp, divxyz);
    if temp {
      PowerOfZero(Val(e.buf));
      NegativeExponent(base, r);
    }
  }

  /** The tail of dcexp for a negative exponent. */
  method NegativeExponent(base: Blk, r: Blk)
    requires base != r && Number(base.buf) && Number(r.buf) && (base.buf == [] ==> Val(r.buf) == 0)
    modifies base`rd, r
    ensures Number(r.buf) && Val(r.buf) == if |base.buf| == 1 && base.buf[0] <= 1 then base.buf[0] else 0
  {
    if |base.buf| == 0 {
      return;
    }
    r.Create();
    if |base.buf| == 1 {
      base.Rewind();
      var c := base.GetC();
      if c <= 1 {
        r.PutC(c);
        assert Val(r.buf) == c by { assert r.buf[..0] == []; assert Pow(0) == 1; }
      }
    }
  }

  lemma PowerOfZero(e: nat)
    requires e > 0
    ensures Power(0, e) == 0
  {
  }
}
