// dc's power of two decimals: its scale, the places it drops, and what becomes of large and negative exponents.

/** The command ^ of sys/src/cmd/dc.c. */
module DcPower {
  import opened DcNumber
  import opened DcBlock
  import opened DcArith
  import opened DcDivide
  import opened DcRoot
  import opened DcScaled
  import opened DcCommand

  /** Exponents that ^ takes: without decimal places, and of four digits of base 100 at most. */
  predicate TakesExponent(ex: seq<int>)
    requires Decimal(ex)
  {
    Places(ex) == 0 && Abs(Mant(ex)) < Pow(4)
  }

  /** The exponent without its sign; ok is false where ^ prints a message and gives up. */
  method TakeExponent(ex: Blk) returns (ok: bool, neg: bool)
    requires Decimal(ex.buf)
    modifies ex
    ensures ok <==> TakesExponent(old(ex.buf))
    ensures ok ==> Normal(ex.buf) && Digits(ex.buf) && Val(ex.buf) == Abs(Mant(old(ex.buf)))
    ensures ok ==> (neg <==> Mant(old(ex.buf)) < 0)
  {
    neg := false;
    var sk := ex.UnputC();
    if sk != 0 {
      return false, neg;
    }
    SignOfNumber(ex.buf);
    if !ex.AtBeg() {
      var c := ex.BackC();
      if c < 0 {
        neg := true;
        ChSign(ex);
        SignOfNumber(ex.buf);
      }
    }
    LengthOfMagnitude(ex.buf, 5);
    ok := |ex.buf| < 5;
  }

  /** The scale of a power as the code takes it, from the low two digits of the exponent. */
  function CodeScale(e: nat, savk: nat): nat {
    e % 10000 * savk
  }

  /** The low two digits of the exponent times the scale of the base. */
  method PowerScale(ex: Blk, savk: nat) returns (d: nat)
    requires Digits(ex.buf) && savk <= 99
    modifies ex`rd
    ensures Val(ex.buf) >= 0 && d == CodeScale(Val(ex.buf), savk)
  {
    ValBound(ex.buf);
    LowDigits(ex.buf);
    ex.Rewind();
    var c := ex.GetC();
    if c == -1 {
      c := 0;
    } else if !ex.AtEnd() {
      var c1 := ex.GetC();
      c := c1 * 100 + c;
    }
    d := c * savk;
  }

  lemma LowDigits(s: seq<int>)
    requires Digits(s)
    ensures Val(s) % 10000 == (if |s| > 0 then s[0] else 0) + if |s| > 1 then 100 * s[1] else 0
  {
    if |s| > 1 {
      assert s == [s[0]] + ([s[1]] + s[2..]);
      ConsVal(s[0], [s[1]] + s[2..]);
      ConsVal(s[1], s[2..]);
      DivisionIs(Val(s), 10000, Val(s[2..]), s[0] + 100 * s[1]);
    } else if |s| == 1 {
      assert s == [s[0]] + [];
      ConsVal(s[0], []);
    }
  }

  /** The places of a power. */
  function PowerPlaces(d: nat, savk: nat, k: int): nat {
    var n := Max(k, savk);
    if n < d then n else d
  }

  /** The mantissa that the code makes of the power with exponent e of a decimal of savk places. */
  function PowerMant(m: int, savk: nat, e: nat, k: int): int {
    var d := CodeScale(e, savk);
    Trimmed(Power(m, e), d - PowerPlaces(d, savk, k))
  }

  predicate IsPower(s: seq<int>, m: int, savk: nat, e: nat, k: int) {
    IsDecimal(s, PowerMant(m, savk, e, k), PowerPlaces(CodeScale(e, savk), savk, k))
  }

  /** The end of ^: places beyond the larger of k and the scale of the base are dropped. */
  method ScalePower(p: Blk, d: nat, savk: nat, k: int, tenptr: Blk, divxyz: Blk) returns (r: Blk)
    requires p != tenptr && p != divxyz && tenptr != divxyz && Shortest(p.buf) && tenptr.buf == [10]
    requires savk <= 99 && ScaleRegister(k)
    modifies p, tenptr`rd, divxyz
    ensures r == p || fresh(r)
    ensures IsDecimal(r.buf, Trimmed(Val(old(p.buf)), d - PowerPlaces(d, savk, k)), PowerPlaces(d, savk, k))
  {
    var n := Max(k, savk);
    if n < d {
      r := Trim(p, d - n, tenptr, divxyz);
      PutScale(r, n);
    } else {
      QuotByOne(Val(p.buf));
      r := p;
      PutScale(r, d);
    }
  }

  /** ^ for an exponent that has no sign. */
  method Raise(base: Blk, ex: Blk, k: int, tenptr: Blk, sqtemp: Blk, divxyz: Blk) returns (r: Blk)
    requires base != ex && base != divxyz && ex != divxyz && tenptr != divxyz && sqtemp != divxyz
    requires base != sqtemp && base != tenptr && ex != sqtemp && ex != tenptr && tenptr != sqtemp
    requires Decimal(base.buf) && Normal(ex.buf) && Digits(ex.buf) && tenptr.buf == [10] && sqtemp.buf == [2]
    requires ScaleRegister(k)
    modifies base, ex`rd, tenptr`rd, sqtemp`rd, divxyz
    ensures fresh(r) && Val(ex.buf) >= 0
    ensures IsPower(r.buf, Mant(old(base.buf)), Places(old(base.buf)), Val(ex.buf), k)
  {
    ValBound(ex.buf);
    var savk := base.UnputC();
    var p := DcExp(base, ex, sqtemp, divxyz);
    var d := PowerScale(ex, savk);
    r := ScalePower(p, d, savk, k, tenptr, divxyz);
  }

  /** A negative exponent: the division of one by the power, where null stands for the message about zero. */
  method Reciprocal(p: Blk, k: int, tenptr: Blk, divxyz: Blk) returns (r: Blk?)
    requires p != tenptr && p != divxyz && tenptr != divxyz && Decimal(p.buf) && tenptr.buf == [10] && ScaleRegister(k)
    modifies p, tenptr`rd, divxyz
    ensures r == null <==> Mant(old(p.buf)) == 0
    ensures r != null ==>
              var n, d := Ten(k + 1 + Places(old(p.buf))), Mant(old(p.buf)) * 10;
              Stacked(r.buf, Quot(n, d), k) && (Decimal(r.buf) <==> k >= 0)
  {
    var q := new Blk(2);
    q.PutC(1);
    assert q.buf == [1] && Val([1]) == 1 by { assert [1][..0] == [] && Pow(0) == 1; }
    PutScale(q, 0);
    assert Ten(0) == 1 && Ten(1) == 10;
    r := Slash(q, p, k, tenptr, divxyz);
  }

  /**
   * The ^ command at scale register k. Null stands for the messages about an exponent that is not taken, and about a
   * division by zero. For a negative exponent the result is one divided by the power.
   */
  method Caret(ex: Blk, base: Blk, k: int, tenptr: Blk, sqtemp: Blk, divxyz: Blk) returns (r: Blk?)
    requires base != ex && base != divxyz && ex != divxyz && tenptr != divxyz && sqtemp != divxyz
    requires base != sqtemp && base != tenptr && ex != sqtemp && ex != tenptr && tenptr != sqtemp
    requires Decimal(base.buf) && Decimal(ex.buf) && tenptr.buf == [10] && sqtemp.buf == [2] && ScaleRegister(k)
    modifies ex, base, tenptr`rd, sqtemp`rd, divxyz
    ensures var m, sk, e := Mant(old(base.buf)), Places(old(base.buf)), Mant(old(ex.buf));
            && (r == null <==> !TakesExponent(old(ex.buf)) || (e < 0 && PowerMant(m, sk, -e, k) == 0))
            && (r != null && e >= 0 ==> IsPower(r.buf, m, sk, e, k))
            && (r != null && e < 0 ==>
                  var pl := PowerPlaces(CodeScale(-e, sk), sk, k);
                  && Stacked(r.buf, Quot(Ten(k + 1 + pl), PowerMant(m, sk, -e, k) * 10), k)
                  && (Decimal(r.buf) <==> k >= 0))
  {
    var ok, neg := TakeExponent(ex);
    if !ok {
      return null;
    }
    var p := Raise(base, ex, k, tenptr, sqtemp, divxyz);
    if !neg {
      return p;
    }
    r := Reciprocal(p, k, tenptr, divxyz);
  }

  // ----- when a power is right ------------------------------------------------

  /** The power of the decimals, truncated to the places that it has or to the larger of k and the base's. */
  predicate IsTruePower(s: seq<int>, m: int, savk: nat, e: nat, k: int) {
    var full, most := e * savk, Max(k, savk);
    var pl := if full < most then full else most;
    IsDecimal(s, Quot(Power(m, e), Ten(full - pl)), pl)
  }

  /**
   * When ^ yields that: no places of a complement are dropped that round it down, and either the scale is right, or so
   * many places are dropped that nothing is left.
   */
  predicate PowerFits(m: int, savk: nat, e: nat, k: int) {
    var d, n := CodeScale(e, savk), Max(k, savk);
    && !RoundsDown(Power(m, e), d - PowerPlaces(d, savk, k))
    && (e < 10000 || savk == 0 || (d >= n && Abs(Power(m, e)) < Ten(d - n)))
  }

  /** The result of ^ for an exponent without a sign is the power truncated if and only if PowerFits. */
  lemma PowerIsRight(s: seq<int>, m: int, savk: nat, e: nat, k: int)
    requires IsPower(s, m, savk, e, k) && savk <= 99 && ScaleRegister(k)
    ensures IsTruePower(s, m, savk, e, k) <==> PowerFits(m, savk, e, k)
  {
    var d, n := CodeScale(e, savk), Max(k, savk);
    ScaleTooSmall(e, savk);
    if e >= 10000 && savk > 0 && d >= n {
      DroppedMore(Power(m, e), d - n, e * savk - d);
      assert d - n + (e * savk - d) == e * savk - n;
    }
  }

  /** The scale is that of the power for exponents of four digits, and too small by 10000 at least for others. */
  lemma ScaleTooSmall(e: nat, savk: nat)
    ensures if e < 10000 || savk == 0 then CodeScale(e, savk) == e * savk else CodeScale(e, savk) + 10000 <= e * savk
  {
    if e >= 10000 && savk > 0 {
      var q := e / 10000;
      assert e == 10000 * q + e % 10000;
      assert e * savk == 10000 * q * savk + e % 10000 * savk;
      MulMonotone(1, q, savk);
      assert 10000 * q * savk == 10000 * (q * savk) && q * savk == savk * q;
    }
  }

  /** Dropping g places more makes no difference if and only if nothing was left before. */
  lemma DroppedMore(v: int, n: nat, g: nat)
    requires g > 0
    ensures Trimmed(v, n) == Quot(v, Ten(n + g)) <==> !RoundsDown(v, n) && Abs(v) < Ten(n)
  {
    var q := Quot(v, Ten(n));
    TenAdd(n, g);
    QuotQuot(v, Ten(n), Ten(g));
    QuotIsDivision(v, Ten(n));
    QuotIsDivision(q, Ten(g));
    AtLeastTen(g);
    if Abs(v) < Ten(n) {
      SmallQuotient(v, Ten(n));
      SmallQuotient(0, Ten(g));
    } else {
      QuotNonZero(v, Ten(n));
      QuotShrinks(q, Ten(g));
    }
  }

  lemma {:induction false} AtLeastTen(g: nat)
    requires g > 0
    ensures Ten(g) >= 10
  {
    if g > 1 {
      AtLeastTen(g - 1);
    }
  }

  lemma QuotNonZero(v: int, t: int)
    requires t > 0 && Abs(v) >= t
    ensures Quot(v, t) != 0 && (v < 0 ==> Quot(v, t) < 0)
  {
    var q, r := Abs(v) / t, Abs(v) % t;
    assert Abs(v) == t * q + r;
    if q <= 0 {
      MulMonotone(q, 0, t);
    }
  }

  lemma QuotShrinks(q: int, t: int)
    requires t >= 2 && q != 0
    ensures Abs(Quot(q, t)) < Abs(q) && (q < 0 ==> Quot(q, t) <= 0)
  {
    var x := Abs(q) / t;
    Shrinks(Abs(q), t);
    assert Quot(q, t) == if q < 0 then -x else x;
  }

  lemma Shrinks(x: nat, t: int)
    requires t >= 2 && x > 0
    ensures 0 <= x / t < x
  {
    var a, r := x / t, x % t;
    assert x == t * a + r;
    if a > 0 {
      MulMonotone(2, t, a);
    }
  }

  /** The scale is lost when the exponent is a multiple of 10000: .5 10000 ^ leaves the integer 5 to the power 10000. */
  lemma LongPowerLosesScale(s: seq<int>, m: int, savk: nat, e: nat, k: int)
    requires savk > 0 && e > 0 && e % 10000 == 0 && savk <= 99 && ScaleRegister(k) && IsPower(s, m, savk, e, k)
    ensures Mant(s) == Power(m, e) && Places(s) == 0 && !IsTruePower(s, m, savk, e, k)
  {
    PowerIsRight(s, m, savk, e, k);
    QuotByOne(Power(m, e));
  }
}
