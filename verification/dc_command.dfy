// The arithmetic commands of dc on decimals: a normal mantissa followed by a byte holding its decimal places.

/** eqk, subt, dscale and the commands + - * / % v of sys/src/cmd/dc.c. */
module DcCommand {
  import opened DcNumber
  import opened DcBlock
  import opened DcArith
  import opened DcDivide
  import opened DcRoot
  import opened DcScaled

  /** A number on dc's stack: digits with the number of decimal places in a last byte. */
  predicate Decimal(s: seq<int>) {
    |s| >= 1 && Normal(s[..|s| - 1]) && 0 <= s[|s| - 1] <= 99
  }

  /** The number without its decimal point. */
  function Mant(s: seq<int>): int
    requires Decimal(s)
  {
    Val(s[..|s| - 1])
  }

  function Places(s: seq<int>): nat
    requires Decimal(s)
  {
    s[|s| - 1]
  }

  /** What the commands leave on the stack: a mantissa in normal form and a scale byte, which may be no scale. */
  predicate Stacked(s: seq<int>, v: int, sk: int) {
    s != [] && Normal(s[..|s| - 1]) && Val(s[..|s| - 1]) == v && s[|s| - 1] == sk
  }

  /** The scale register: k takes any single digit, and the mark of a complement too. */
  predicate ScaleRegister(k: int) {
    -1 <= k <= 99
  }

  function Max(a: int, b: nat): nat {
    if a < b then b else a
  }

  /** An int stored in a signed char. */
  function ToChar(c: nat): int
    requires c < 256
  {
    if c < 128 then c else c - 256
  }

  /** The working blocks a command may use: its own operands and dc's constants. */
  predicate Distinct(p: Blk, q: Blk, tenptr: Blk, divxyz: Blk) {
    && p != q && p != tenptr && p != divxyz && q != tenptr && q != divxyz && tenptr != divxyz
  }

  /** eqk: brings two operands to the larger of their scales. */
  method EqK(p: Blk, q: Blk, tenptr: Blk, divxyz: Blk) returns (arg1: Blk, arg2: Blk, savk: nat)
    requires Distinct(p, q, tenptr, divxyz) && Decimal(p.buf) && Decimal(q.buf) && tenptr.buf == [10]
    modifies p, q, tenptr`rd
    ensures arg1 != arg2 && (arg1 == p || fresh(arg1)) && (arg2 == q || fresh(arg2))
    ensures savk == Max(Places(old(p.buf)), Places(old(q.buf))) && Number(arg1.buf) && Number(arg2.buf)
    ensures Val(arg1.buf) == Mant(old(p.buf)) * Ten(savk - Places(old(p.buf)))
    ensures Val(arg2.buf) == Mant(old(q.buf)) * Ten(savk - Places(old(q.buf)))
  {
    var skp := p.UnputC();
    var skq := q.UnputC();
    arg1, arg2 := p, q;
    savk := skp;
    if skp < skq {
      savk := skq;
      arg1 := Add0(p, skq - skp, tenptr);
    } else if skq < skp {
      arg2 := Add0(q, skp - skq, tenptr);
    }
  }

  /** The + command. */
  method Plus(p: Blk, q: Blk, tenptr: Blk, divxyz: Blk) returns (r: Blk)
    requires Distinct(p, q, tenptr, divxyz) && Decimal(p.buf) && Decimal(q.buf) && tenptr.buf == [10]
    modifies p, q, tenptr`rd
    ensures fresh(r) && Decimal(r.buf) && Places(r.buf) == Max(Places(old(p.buf)), Places(old(q.buf)))
    ensures Mant(r.buf) == Mant(old(p.buf)) * Ten(Places(r.buf) - Places(old(p.buf)))
                           + Mant(old(q.buf)) * Ten(Places(r.buf) - Places(old(q.buf)))
  {
    var arg1, arg2, savk := EqK(p, q, tenptr, divxyz);
    r := Add(arg1, arg2);
    ghost var sum := r.buf;
    r.PutC(savk);
    assert r.buf[..|r.buf| - 1] == sum;
  }

  /** The - command: p, on top of the stack, is taken from q. */
  method Minus(p: Blk, q: Blk, tenptr: Blk, divxyz: Blk) returns (r: Blk)
    requires Distinct(p, q, tenptr, divxyz) && Decimal(p.buf) && Decimal(q.buf) && tenptr.buf == [10]
    modifies p, q, tenptr`rd
    ensures fresh(r) && Decimal(r.buf) && Places(r.buf) == Max(Places(old(p.buf)), Places(old(q.buf)))
    ensures Mant(r.buf) == Mant(old(q.buf)) * Ten(Places(r.buf) - Places(old(q.buf)))
                           - Mant(old(p.buf)) * Ten(Places(r.buf) - Places(old(p.buf)))
  {
    ghost var m, sk := Mant(p.buf), Places(p.buf);
    Negate(p);
    r := Plus(p, q, tenptr, divxyz);
    NegativeTerm(m, Ten(Places(r.buf) - sk));
  }

  /** The part of subt before the addition. */
  method Negate(p: Blk)
    requires Decimal(p.buf)
    modifies p
    ensures Decimal(p.buf) && Places(p.buf) == Places(old(p.buf)) && Mant(p.buf) == -Mant(old(p.buf))
  {
    var savk := p.UnputC();
    ChSign(p);
    PutScale(p, savk);
  }

  lemma NegativeTerm(m: int, t: int)
    ensures (-m) * t == -(m * t)
  {
  }

  /** A product after n places of it are dropped: truncated, or one lower. */
  function Trimmed(v: int, n: nat): int {
    Quot(v, Ten(n)) - if RoundsDown(v, n) then 1 else 0
  }

  /** removc on a product. */
  method Trim(p: Blk, n: nat, tenptr: Blk, divxyz: Blk) returns (q: Blk)
    requires p != tenptr && p != divxyz && tenptr != divxyz && Shortest(p.buf) && tenptr.buf == [10]
    modifies p`rd, tenptr`rd, divxyz
    ensures fresh(q) && Normal(q.buf) && Val(q.buf) == Trimmed(Val(p.buf), n)
  {
    DropsByValue(p.buf, n);
    q := RemovC(p, n, tenptr, divxyz);
  }

  /** The end of a command: the scale goes behind the digits. */
  method PutScale(r: Blk, sk: int)
    requires Normal(r.buf) && ScaleRegister(sk)
    modifies r
    ensures Stacked(r.buf, Val(old(r.buf)), sk)
  {
    ghost var digits := r.buf;
    r.PutC(sk);
    assert r.buf[..|r.buf| - 1] == digits;
  }

  /** The part of the * command after mult: places beyond the larger of k and both scales are dropped. */
  method ScaleProduct(r: Blk, sk1: nat, sk2: nat, k: int, tenptr: Blk, divxyz: Blk) returns (q: Blk)
    requires r != tenptr && r != divxyz && tenptr != divxyz && Shortest(r.buf) && tenptr.buf == [10]
    requires sk1 <= 99 && sk2 <= 99 && ScaleRegister(k)
    modifies r, tenptr`rd, divxyz
    ensures (q == r || fresh(q)) && Decimal(q.buf)
    ensures var full, most := sk1 + sk2, Max(k, Max(sk1, sk2));
            && Places(q.buf) == (if full < most then full else most)
            && Mant(q.buf) == Trimmed(Val(old(r.buf)), full - Places(q.buf))
  {
    ghost var product := r.buf;
    var savk := sk1 + sk2;
    r.PutC(ToChar(savk));
    if savk > k && savk > sk1 && savk > sk2 {
      var top := r.UnputC();
      assert r.buf == product;
      var sk := Max(k, Max(sk1, sk2));
      q := Trim(r, savk - sk, tenptr, divxyz);
      PutScale(q, sk);
    } else {
      assert r.buf[..|r.buf| - 1] == product;
      QuotByOne(Val(product));
      q := r;
    }
  }

  /** The * command at scale register k. */
  method Times(p: Blk, q: Blk, k: int, tenptr: Blk, divxyz: Blk) returns (r: Blk)
    requires Distinct(p, q, tenptr, divxyz) && Decimal(p.buf) && Decimal(q.buf) && tenptr.buf == [10]
    requires ScaleRegister(k)
    modifies p, q, tenptr`rd, divxyz
    ensures fresh(r) && Decimal(r.buf)
    ensures var full := Places(old(p.buf)) + Places(old(q.buf));
            var most := Max(k, Max(Places(old(p.buf)), Places(old(q.buf))));
            && Places(r.buf) == (if full < most then full else most)
            && Mant(r.buf) == Trimmed(Mant(old(p.buf)) * Mant(old(q.buf)), full - Places(r.buf))
  {
    var sk1 := p.UnputC();
    var sk2 := q.UnputC();
    r := Mult(p, q);
    r := ScaleProduct(r, sk1, sk2, k, tenptr, divxyz);
  }

  lemma QuotByOne(v: int)
    ensures Ten(0) == 1 && Quot(v, 1) == v && Trimmed(v, 0) == v
  {
  }

  /** Why the product must not be negative: .05 times -.05 keeps two places as -.01 where truncation gives zero. */
  lemma NegativeProductRoundsDown()
    ensures DropsWrongly([75, -1], 2)
    ensures Val([75, -1]) == -25 && Kept([75, -1], 2) == -1 && Quot(-25, Ten(2)) == 0
  {
    var s := [75, -1];
    assert s[..1] == [75] && [75][..0] == [] && s[1..] == [-1] && [-1][..0] == [];
    assert Pow(0) == 1 && Pow(1) == 100;
    assert Val([75]) == 75 && Val([-1]) == -1;
    assert Ten(0) == 1 && Ten(1) == 10 && Ten(2) == 100;
    DivisionIs(25, 100, 0, 25);
  }

  // ----- / and % -----------------------------------------------------------

  /** How far dscale shifts the dividend: k + skr - skd places, negative for a shift down. */
  function Shift(dd: seq<int>, dr: seq<int>, k: int): int
    requires Decimal(dd) && Decimal(dr)
  {
    k - Places(dd) + Places(dr)
  }

  /** The dividend as shifted by dscale. */
  function ShiftedMant(v: int, c: int): int {
    if c >= 0 then v * Ten(c) else Quot(v, Ten(-c))
  }

  /** dscale, past its tests for zero operands. */
  method DScale(dd: Blk, dr: Blk, k: int, tenptr: Blk, divxyz: Blk) returns (arg1: Blk, irem: Blk?)
    requires Distinct(dd, dr, tenptr, divxyz) && Decimal(dd.buf) && Decimal(dr.buf) && tenptr.buf == [10]
    modifies dd, dr, tenptr`rd, divxyz
    ensures fresh(arg1) && (irem != null ==> fresh(irem) && irem != arg1)
    ensures dr.buf == old(dr.buf)[..|old(dr.buf)| - 1]
    ensures var v, c := Mant(old(dd.buf)), Shift(old(dd.buf), old(dr.buf), k);
            && Number(arg1.buf) && Val(arg1.buf) == ShiftedMant(v, c)
            && (irem == null <==> c >= 0) && (c >= 0 && v != 0 ==> Compact(arg1.buf))
            && (c < 0 ==> Signed(irem.buf) &&
                          (Val(irem.buf) == v - Val(arg1.buf) * Ten(-c) <==> Reaches(v, -c / 2)))
  {
    var skd := dd.UnputC();
    var skr := dr.UnputC();
    var c := k - skd + skr;
    if c < 0 {
      arg1, irem := RemovR(dd, -c, tenptr, divxyz);
    } else {
      arg1 := Add0(dd, c, tenptr);
      irem := null;
    }
  }

  /** The quotient dc's scaled division yields is the quotient of the decimals, truncated to k places. */
  lemma ScaledQuotient(a: int, b: int, c: int, k: nat, skd: nat, skr: nat)
    requires b != 0 && c == k - skd + skr
    ensures b * Ten(skd) != 0 && Quot(ShiftedMant(a, c), b) == Quot(a * Ten(k + skr), b * Ten(skd))
  {
    if c >= 0 {
      TenAdd(c, skd);
      QuotCancel(a * Ten(c), b, Ten(skd));
      Associate(a, Ten(c), Ten(skd));
      assert c + skd == k + skr;
    } else {
      TenAdd(-c, k + skr);
      assert -c + (k + skr) == skd;
      QuotQuot(a, Ten(-c), b);
      QuotCancel(a, Ten(-c) * b, Ten(k + skr));
      Associate(b, Ten(-c), Ten(k + skr));
    }
  }

  lemma Associate(a: int, x: int, y: int)
    ensures (a * x) * y == a * (x * y) && (x * a) * y == a * (x * y)
  {
  }

  /**
   * The quotient of two decimals, given by their mantissas and scales, rounded towards zero to k places. Both
   * mantissas are taken with one place more, for the sake of a k of -1.
   */
  function SlashMant(a: int, skd: nat, b: int, skr: nat, k: int): int
    requires b != 0 && -1 <= k
  {
    NotZero(b, Ten(1 + skd));
    Quot(a * Ten(k + 1 + skr), b * Ten(1 + skd))
  }

  lemma NotZero(b: int, t: int)
    requires b != 0 && t > 0
    ensures b * t != 0
  {
  }

  /**
   * The / command. Null stands for the message about division by zero; a zero dividend is its own result.
   * Otherwise the result is the quotient of the two decimals, rounded towards zero to k places. It is a number if and
   * only if k is not negative.
   */
  method Slash(dd: Blk, dr: Blk, k: int, tenptr: Blk, divxyz: Blk) returns (q: Blk?)
    requires Distinct(dd, dr, tenptr, divxyz) && Decimal(dd.buf) && Decimal(dr.buf) && tenptr.buf == [10]
    requires ScaleRegister(k)
    modifies dd, dr, tenptr`rd, divxyz
    ensures q == null <==> Mant(old(dr.buf)) == 0
    ensures q != null && Mant(old(dd.buf)) == 0 ==> q == dd && q.buf == old(dd.buf)
    ensures q != null && Mant(old(dd.buf)) != 0 ==>
              && (Decimal(q.buf) <==> k >= 0)
              && Stacked(q.buf, SlashMant(Mant(old(dd.buf)), Places(old(dd.buf)),
                                          Mant(old(dr.buf)), Places(old(dr.buf)), k), k)
  {
    ZeroIsEmpty(dd.buf[..|dd.buf| - 1]);
    ZeroIsEmpty(dr.buf[..|dr.buf| - 1]);
    if |dr.buf| == 1 {
      return null;
    }
    if |dd.buf| == 1 {
      return dd;
    }
    ghost var a, b, skd, skr := Mant(dd.buf), Mant(dr.buf), Places(dd.buf), Places(dr.buf);
    ScaledQuotient(a, b, k - skd + skr, k + 1, 1 + skd, skr);
    var arg1, irem := DScale(dd, dr, k, tenptr, divxyz);
    var r, rem := Div(arg1, dr, divxyz);
    QuotUnique(Val(arg1.buf), b, Val(r.buf), Val(rem.buf));
    PutScale(r, k);
    q := r;
  }

  /** The mantissa of a - q * b, at the larger of the scales of a and of q * b. */
  function RemainderMant(a: int, b: int, c: int, q: int): int {
    if c >= 0 then a * Ten(c) - q * b else a - q * b * Ten(-c)
  }

  /** Adding the places dscale removed back to the remainder of the shifted division. */
  lemma RestoredRemainder(a: int, b: int, c: int, q: int, rem: int, irem: int)
    requires c < 0 && ShiftedMant(a, c) == q * b + rem
    ensures rem * Ten(-c) + irem == RemainderMant(a, b, c, q) <==> irem == a - ShiftedMant(a, c) * Ten(-c)
  {
    assert (q * b + rem) * Ten(-c) == q * b * Ten(-c) + rem * Ten(-c);
  }

  /** A number of this mantissa and scale. */
  predicate IsDecimal(s: seq<int>, m: int, scale: nat) {
    Decimal(s) && Places(s) == scale && Mant(s) == m
  }

  /** The mantissa of the dividend minus the quotient that / yields times the divisor, for mantissas a and b. */
  function TrueRemainder(a: int, b: int, c: int): int
    requires b != 0
  {
    RemainderMant(a, b, c, Quot(ShiftedMant(a, c), b))
  }

  /** When % is right: its scale must be one, and the places removed by dscale must be digits of the dividend. */
  predicate RemainderFits(a: int, c: int, scale: nat) {
    if c >= 0 then scale <= 99 else Reaches(a, -c / 2)
  }

  /** A mantissa in normal form and a scale as a char, which are the number wanted exactly when it fits. */
  predicate Leaves(s: seq<int>, m: int, scale: nat, fits: bool)
    requires scale < 256
  {
    && s != [] && Normal(s[..|s| - 1]) && s[|s| - 1] == ToChar(scale)
    && (IsDecimal(s, m, scale) <==> fits)
  }

  /** The scale of what % leaves. */
  function RemainderScale(skd: nat, skr: nat, k: int): (scale: nat)
    requires skd <= 99 && skr <= 99 && ScaleRegister(k)
    ensures scale < 256
  {
    if k - skd + skr >= 0 then skr + k else skd
  }

  /** The % command, past the tests for zero operands. */
  method Remainder(dd: Blk, dr: Blk, k: int, tenptr: Blk, divxyz: Blk) returns (r: Blk)
    requires Distinct(dd, dr, tenptr, divxyz) && Decimal(dd.buf) && Decimal(dr.buf) && tenptr.buf == [10]
    requires ScaleRegister(k) && Mant(dd.buf) != 0 && Mant(dr.buf) != 0
    modifies dd, dr, tenptr`rd, divxyz
    ensures var a, b, c := Mant(old(dd.buf)), Mant(old(dr.buf)), Shift(old(dd.buf), old(dr.buf), k);
            var scale := RemainderScale(Places(old(dd.buf)), Places(old(dr.buf)), k);
            Leaves(r.buf, TrueRemainder(a, b, c), scale, RemainderFits(a, c, scale))
  {
    ghost var a, b := Mant(dd.buf), Mant(dr.buf);
    var skd, skr := dd.buf[|dd.buf| - 1], dr.buf[|dr.buf| - 1];
    ghost var c := k - skd + skr;
    var arg1, irem := DScale(dd, dr, k, tenptr, divxyz);
    var q, rem := Div(arg1, dr, divxyz);
    QuotUnique(Val(arg1.buf), b, Val(q.buf), Val(rem.buf));
    if irem == null {
      r := PlainScale(rem, skr + k, a, b, c);
    } else {
      r := MixedScale(rem, irem, skd - (skr + k), skd, tenptr, a, b, c);
    }
  }

  /** The end of % when dscale has removed no places. */
  method PlainScale(rem: Blk, scale: nat, ghost a: int, ghost b: int, ghost c: int) returns (r: Blk)
    requires b != 0 && scale < 256 && c >= 0 && Normal(rem.buf)
    requires ShiftedMant(a, c) == Quot(ShiftedMant(a, c), b) * b + Val(rem.buf)
    modifies rem
    ensures r == rem && Leaves(r.buf, TrueRemainder(a, b, c), scale, scale <= 99)
  {
    ScaleBehind(rem.buf, TrueRemainder(a, b, c), scale, true);
    r := rem;
    r.PutC(ToChar(scale));
  }

  /** The end of % when n places are put back. */
  method MixedScale(rem: Blk, irem: Blk, n: nat, scale: nat, tenptr: Blk, ghost a: int, ghost b: int, ghost c: int)
    returns (r: Blk)
    requires rem != irem && rem != tenptr && irem != tenptr && Number(rem.buf) && Signed(irem.buf) && tenptr.buf == [10]
    requires b != 0 && scale <= 99 && c < 0 && n == -c
    requires ShiftedMant(a, c) == Quot(ShiftedMant(a, c), b) * b + Val(rem.buf)
    requires Val(irem.buf) == a - ShiftedMant(a, c) * Ten(-c) <==> Reaches(a, -c / 2)
    modifies rem`rd, irem`rd, tenptr`rd
    ensures fresh(r) && Leaves(r.buf, TrueRemainder(a, b, c), scale, Reaches(a, -c / 2))
  {
    ghost var v, w := Val(rem.buf), Val(irem.buf);
    r := RestorePlaces(rem, irem, n, tenptr);
    RestoredRemainder(a, b, c, Quot(ShiftedMant(a, c), b), v, w);
    ScaleBehind(r.buf, TrueRemainder(a, b, c), scale, Reaches(a, -c / 2));
    r.PutC(ToChar(scale));
  }

  lemma ScaleBehind(s: seq<int>, m: int, scale: nat, right: bool)
    requires Normal(s) && scale < 256 && (Val(s) == m <==> right)
    ensures Leaves(s + [ToChar(scale)], m, scale, scale <= 99 && right)
  {
    assert (s + [ToChar(scale)])[..|s|] == s;
  }

  /**
   * s is a number and, with the numbers written with P decimal places each, what is left of the dividend when q times
   * the divisor is taken from it, q having k places.
   */
  predicate IsLeftOver(s: seq<int>, a: int, skd: nat, b: int, skr: nat, k: int, q: int, P: nat) {
    && Decimal(s) && Places(s) <= P && skd <= P && k + skr <= P
    && Mant(s) * Ten(P - Places(s)) == a * Ten(P - skd) - q * b * Ten(P - k - skr)
  }

  /**
   * The law of division between % and /: a result of % that is a number is the dividend minus the quotient times the
   * divisor, whatever its own scale is, unless dscale has removed more places than the dividend has digits for.
   */
  lemma PercentIsLeftOver(s: seq<int>, a: int, skd: nat, b: int, skr: nat, k: int, P: nat)
    requires b != 0 && skd <= 99 && skr <= 99 && ScaleRegister(k)
    requires var c, scale := k - skd + skr, RemainderScale(skd, skr, k);
             Leaves(s, TrueRemainder(a, b, c), scale, RemainderFits(a, c, scale))
    requires Decimal(s) && (k - skd + skr >= 0 || Reaches(a, (skd - skr - k) / 2))
    requires Places(s) <= P && skd <= P && k + skr <= P
    ensures IsLeftOver(s, a, skd, b, skr, k, SlashMant(a, skd, b, skr, k), P)
  {
    var c, scale := k - skd + skr, RemainderScale(skd, skr, k);
    var q := Quot(ShiftedMant(a, c), b);
    ScaledQuotient(a, b, c, k + 1, 1 + skd, skr);
    if c >= 0 {
      TenAdd(c, P - scale);
      LeftOver(a, Ten(c), q * b, 1, Ten(P - scale));
    } else {
      TenAdd(-c, P - skd);
      LeftOver(a, 1, q * b, Ten(-c), Ten(P - skd));
    }
  }

  lemma LeftOver(a: int, x: int, qb: int, y: int, t: int)
    ensures (a * x - qb * y) * t == a * (x * t) - qb * (y * t)
  {
    assert a * x * t == a * (x * t) && qb * y * t == qb * (y * t);
  }

  /** In decimals: the dividend minus the quotient that / leaves times the divisor, unless dscale removes too much. */
  ghost predicate IsRemainder(s: seq<int>, a: int, skd: nat, b: int, skr: nat, k: int)
    requires b != 0 && Decimal(s) && ScaleRegister(k)
  {
    k - skd + skr >= 0 || Reaches(a, (skd - skr - k) / 2) ==>
      forall P: nat :: Places(s) <= P && skd <= P && k + skr <= P ==>
                         IsLeftOver(s, a, skd, b, skr, k, SlashMant(a, skd, b, skr, k), P)
  }

  lemma PercentIsRemainder(s: seq<int>, a: int, skd: nat, b: int, skr: nat, k: int)
    requires b != 0 && skd <= 99 && skr <= 99 && ScaleRegister(k) && Decimal(s)
    requires var c, scale := k - skd + skr, RemainderScale(skd, skr, k);
             Leaves(s, TrueRemainder(a, b, c), scale, RemainderFits(a, c, scale))
    ensures IsRemainder(s, a, skd, b, skr, k)
  {
    if k - skd + skr >= 0 || Reaches(a, (skd - skr - k) / 2) {
      forall P: nat | Places(s) <= P && skd <= P && k + skr <= P
        ensures IsLeftOver(s, a, skd, b, skr, k, SlashMant(a, skd, b, skr, k), P)
      {
        PercentIsLeftOver(s, a, skd, b, skr, k, P);
      }
    }
  }

  /**
   * The % command. The result is a number, namely the dividend minus the quotient that / yields times the divisor, if
   * and only if that number has at most 99 places and dscale has not removed more places than the dividend has digits
   * for.
   */
  method Percent(dd: Blk, dr: Blk, k: int, tenptr: Blk, divxyz: Blk) returns (r: Blk?)
    requires Distinct(dd, dr, tenptr, divxyz) && Decimal(dd.buf) && Decimal(dr.buf) && tenptr.buf == [10]
    requires ScaleRegister(k)
    modifies dd, dr, tenptr`rd, divxyz
    ensures r == null <==> Mant(old(dr.buf)) == 0
    ensures r != null && Mant(old(dd.buf)) == 0 ==> r == dd && r.buf == old(dd.buf)
    ensures r != null && Mant(old(dd.buf)) != 0 ==>
              var a, b, c := Mant(old(dd.buf)), Mant(old(dr.buf)), Shift(old(dd.buf), old(dr.buf), k);
              var scale := RemainderScale(Places(old(dd.buf)), Places(old(dr.buf)), k);
              Leaves(r.buf, TrueRemainder(a, b, c), scale, RemainderFits(a, c, scale))
    ensures r != null && Mant(old(dd.buf)) != 0 && Decimal(r.buf) ==>
              IsRemainder(r.buf, Mant(old(dd.buf)), Places(old(dd.buf)), Mant(old(dr.buf)), Places(old(dr.buf)), k)
  {
    ghost var a, b, skd, skr := Mant(dd.buf), Mant(dr.buf), Places(dd.buf), Places(dr.buf);
    ZeroIsEmpty(dd.buf[..|dd.buf| - 1]);
    ZeroIsEmpty(dr.buf[..|dr.buf| - 1]);
    if |dr.buf| == 1 {
      r := null;
    } else if |dd.buf| == 1 {
      r := dd;
    } else {
      r := Remainder(dd, dr, k, tenptr, divxyz);
      if Decimal(r.buf) {
        PercentIsRemainder(r.buf, a, skd, b, skr, k);
      }
    }
  }

  /** 5 % 1 at scale 99, the divisor having 40 places: the scale 139 is stored as -117, and the result is no number. */
  lemma ScaleOverflows(s: seq<int>)
    requires Leaves(s, TrueRemainder(5, 1, 139), 139, RemainderFits(5, 139, 139))
    ensures Decimal([5, 0]) && Mant([5, 0]) == 5 && Decimal([1, 40]) && Mant([1, 40]) == 1
    ensures Shift([5, 0], [1, 40], 99) == 139 == RemainderScale(0, 40, 99)
    ensures s[|s| - 1] == -117 && !Decimal(s)
  {
    assert [5, 0][..1] == [5] && [1, 40][..1] == [1];
    assert [5][..0] == [] && [1][..0] == [] && Pow(0) == 1;
  }

  /** The remainder shifted back up, with the removed places added. */
  method RestorePlaces(rem: Blk, irem: Blk, n: nat, tenptr: Blk) returns (s: Blk)
    requires rem != irem && rem != tenptr && irem != tenptr && Number(rem.buf) && Signed(irem.buf) && tenptr.buf == [10]
    modifies rem`rd, irem`rd, tenptr`rd
    ensures fresh(s) && Normal(s.buf) && Val(s.buf) == Val(rem.buf) * Ten(n) + Val(irem.buf)
  {
    var p := Add0(rem, n, tenptr);
    s := Add(p, irem);
  }

  /** .0001 % 1 at scale 0: removr collects the digits 1 and -1, which read as -99. */
  lemma SmallDividendLosesRemainder()
    ensures !Reaches(1, 2) && Val(Taken([1], 2)) == -99
  {
    assert Pow(0) == 1 && Pow(1) == 100;
    assert Marks(0) == [] && Marks(1) == [-1];
    assert Taken([1], 2) == [1, -1];
    assert [1, -1][..1] == [1] && [1][..0] == [];
    assert Val([1]) == 1;
  }

  // ----- v -----------------------------------------------------------------

  /**
   * The v command. Null stands for the message about a negative operand, and zero is its own result. With s decimal
   * places in the result, s the larger of k and the operand's own, the mantissa of the result is the integer root of
   * the operand shifted to 2 * s places.
   */
  method SquareRoot(p: Blk, k: int, tenptr: Blk, sqtemp: Blk, divxyz: Blk) returns (r: Blk?)
    requires p != tenptr && p != sqtemp && p != divxyz && tenptr != sqtemp && tenptr != divxyz && sqtemp != divxyz
    requires Decimal(p.buf) && tenptr.buf == [10] && sqtemp.buf == [2] && ScaleRegister(k)
    modifies p, tenptr`rd, sqtemp`rd, divxyz
    ensures r == null <==> Mant(old(p.buf)) < 0
    ensures Mant(old(p.buf)) == 0 ==> r == p && r.buf == old(p.buf)
    ensures Mant(old(p.buf)) > 0 ==>
              && Decimal(r.buf) && Places(r.buf) == Max(k, Places(old(p.buf)))
              && IsFloorRoot(Mant(old(p.buf)) * Ten(2 * Places(r.buf) - Places(old(p.buf))), Mant(r.buf))
  {
    ZeroIsEmpty(p.buf[..|p.buf| - 1]);
    var savk := p.UnputC();
    if |p.buf| == 0 {
      p.PutC(savk);
      return p;
    }
    SignOfNumber(p.buf);
    var top := p.BackC();
    if top < 0 {
      return null;
    }
    var n := savk;
    if k >= savk {
      n := k * 2 - savk;
      savk := k;
    }
    MulLess(0, Val(p.buf), Ten(n));
    var arg1 := Add0(p, n, tenptr);
    var root := DcSqrt(arg1, sqtemp, divxyz);
    PutScale(root, savk);
    r := root;
  }
}
